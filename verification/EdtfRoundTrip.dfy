/**
  The parser and the printer of dates undo each other, but for a minus sign before a year of zeros,
  which the parser drops.
 */
module EdtfRoundTrip {
  import opened Bytes
  import opened Text
  import opened Edtf

  // ---------------------------------------------------------------------------
  // Printing what was parsed
  // ---------------------------------------------------------------------------

  predicate ZeroOrMask(c: Byte) {
    c == ZERO || c == MASK
  }

  /** A year of zeros and masks after a minus sign. */
  predicate MinusZero(txt: seq<Byte>) {
    |txt| >= 5 && txt[0] == DASH && ZeroOrMask(txt[1]) && ZeroOrMask(txt[2]) && ZeroOrMask(txt[3]) && ZeroOrMask(txt[4])
  }

  /** Without such a sign. */
  function FoldedDate(txt: seq<Byte>): seq<Byte> {
    if MinusZero(txt) then txt[1..] else txt
  }

  function FoldedParts(parts: seq<seq<Byte>>): (r: seq<seq<Byte>>)
    ensures |r| == |parts|
  {
    seq(|parts|, i requires 0 <= i < |parts| => FoldedDate(parts[i]))
  }

  /** Without such signs, at either end of an interval. */
  function Folded(s: seq<Byte>): seq<Byte> {
    Joined(FoldedParts(Split(s, SLASH)), SLASH)
  }

  predicate HasMinusZero(s: seq<Byte>) {
    exists p | p in Split(s, SLASH) :: MinusZero(p)
  }

  lemma {:induction false} MasksAtEnd(digits: seq<Byte>, keep: nat)
    requires keep <= |digits| && AllAre(digits[keep..], MASK)
    ensures digits[keep..] == Masks(|digits| - keep)
  {
    forall i | 0 <= i < |digits| - keep
      ensures digits[keep..][i] == MASK
    {
      assert digits[keep..][i] in digits[keep..];
    }
  }

  lemma Pow10Values()
    ensures Pow10(0) == 1 && Pow10(1) == 10 && Pow10(2) == 100 && Pow10(3) == 1000 && Pow10(4) == 10000
  {
    assert Pow10(3) == 10 * Pow10(2);
    assert Pow10(4) == 10 * Pow10(3);
  }

  lemma Shifted(n: nat, w: nat, m: nat)
    requires w + m == 4 && n < Pow10(w)
    ensures n * Pow10(m) < Pow10(4) == 10000 && n * Pow10(m) % Pow10(m) == 0
  {
    Pow10Values();
    hide Pow10;
    if m == 0 {
    } else if m == 1 {
    } else if m == 2 {
    } else if m == 3 {
    } else {
    }
  }

  /** The kept digits and the masks of a year: the number they make prints as they do. */
  lemma KeptDigits(known: seq<Byte>, masked: nat)
    requires AllDigits(known) && |known| + masked == 4
    ensures var size := Number(known) * Pow10(masked);
            && size < 10000 && size % Pow10(masked) == 0 && (size == 0 <==> Number(known) == 0)
            && |Padded(size, 4)| == 4 && Padded(size, 4)[..|known|] == known
  {
    hide Number, Pow10, Fixed, Size;
    var n := Number(known);
    FixedOfNumber(known);
    Shifted(n, |known|, masked);
    FixedMultiple(n, masked, |known|);
    SizeAtMost(n * Pow10(masked), 4);
    ProductIsZero(n, Pow10(masked));
  }

  lemma ProductIsZero(n: nat, p: nat)
    requires p >= 1
    ensures n * p == 0 <==> n == 0
  {
  }

  lemma {:induction false} ZerosOnly(t: seq<Byte>)
    requires AllDigits(t)
    ensures Number(t) == 0 <==> AllAre(t, ZERO)
  {
    if t != [] {
      var rest, last := t[..|t| - 1], t[|t| - 1];
      assert t == rest + [last];
      assert IsDigit(last);
      ZerosOnly(rest);
      assert Number(t) == 10 * Number(rest) + (last - ZERO);
      assert forall c :: c in t <==> c in rest || c == last;
    }
  }

  predicate ZeroYear(digits: seq<Byte>) {
    |digits| == 4 && ZeroOrMask(digits[0]) && ZeroOrMask(digits[1]) && ZeroOrMask(digits[2]) && ZeroOrMask(digits[3])
  }

  /** Digits and then masks are a year of zeros when the digits are. */
  lemma ZeroYearIs(known: seq<Byte>, masked: nat)
    requires AllDigits(known) && |known| + masked == 4
    ensures ZeroYear(known + Masks(masked)) <==> AllAre(known, ZERO)
  {
    var digits := known + Masks(masked);
    forall i | 0 <= i < 4
      ensures ZeroOrMask(digits[i]) <==> i >= |known| || known[i] == ZERO
    {
      if i < |known| {
        assert known[i] in known;
        assert IsDigit(known[i]);
      } else {
        assert digits[i] == Masks(masked)[i - |known|];
      }
    }
    if forall i | 0 <= i < |known| :: known[i] == ZERO {
      assert AllAre(known, ZERO);
    }
    assert forall i | 0 <= i < |known| :: known[i] in known;
  }

  lemma PlainYearPrints(neg: bool, digits: seq<Byte>)
    requires PlainYear(neg, digits).Ok?
    ensures var y := PlainYear(neg, digits).value;
            && ValidYear(y) && !y.long && y.unspecified <= 4
            && PrintYear(y) == (if neg && !ZeroYear(digits) then [DASH] else []) + digits
  {
    var masked := CountOf(digits, MASK);
    var known := digits[..4 - masked];
    assert PlainYear(neg, digits) == YearOf(neg, known, masked) by {
      hide YearOf, CountOf;
    }
    assert digits == known + Masks(masked) by {
      hide YearOf, CountOf;
      MasksAtEnd(digits, 4 - masked);
    }
    hide *;
    YearPrints(neg, known, masked);
  }

  lemma YearPrints(neg: bool, known: seq<Byte>, masked: nat)
    requires AllDigits(known) && |known| + masked == 4 && YearOf(neg, known, masked).Ok?
    ensures var y, digits := YearOf(neg, known, masked).value, known + Masks(masked);
            && ValidYear(y) && !y.long && y.unspecified == masked
            && PrintYear(y) == (if neg && !ZeroYear(digits) then [DASH] else []) + digits
  {
    var size := YearIs(neg, known, masked);
    hide *;
    SizedYearPrints(neg, known, masked, size);
  }

  lemma SizedYearPrints(neg: bool, known: seq<Byte>, masked: nat, size: nat)
    requires AllDigits(known) && |known| + masked == 4 && size < 10000 && size % Pow10(masked) == 0
    requires (size == 0 <==> Number(known) == 0) && |Padded(size, 4)| == 4 && Padded(size, 4)[..|known|] == known
    ensures var y, digits := Year(Signed(neg, size), masked, false), known + Masks(masked);
            ValidYear(y) && PrintYear(y) == (if neg && !ZeroYear(digits) then [DASH] else []) + digits
  {
    assert Sign(Signed(neg, size)) == if neg && size != 0 then [DASH] else [] by {
      hide Padded, Number, Pow10, AllDigits;
    }
    hide *;
    ZerosOnly(known);
    ZeroYearIs(known, masked);
    SignedYear(neg, size, masked);
  }

  lemma YearIs(neg: bool, known: seq<Byte>, masked: nat) returns (size: nat)
    requires AllDigits(known) && |known| + masked == 4 && YearOf(neg, known, masked).Ok?
    ensures YearOf(neg, known, masked).value == Year(Signed(neg, size), masked, false)
    ensures size < 10000 && size % Pow10(masked) == 0 && (size == 0 <==> Number(known) == 0)
    ensures |Padded(size, 4)| == 4 && Padded(size, 4)[..|known|] == known
  {
    size := Number(known) * Pow10(masked);
    assert YearOf(neg, known, masked).value == Year(Signed(neg, size), masked, false) by {
      hide Number, Pow10;
    }
    hide *;
    KeptDigits(known, masked);
  }

  lemma SignedYear(neg: bool, size: nat, masked: nat)
    requires size < 10000 && masked <= 4 && size % Pow10(masked) == 0 && |Padded(size, 4)| == 4
    ensures ValidYear(Year(Signed(neg, size), masked, false))
    ensures PrintYear(Year(Signed(neg, size), masked, false))
         == Sign(Signed(neg, size)) + Padded(size, 4)[..4 - masked] + Masks(masked)
  {
    Pow10Values();
    hide Padded, Pow10;
  }

  lemma TwoPrints(txt: seq<Byte>, which: Component)
    requires ParseTwo(txt, which).Ok?
    ensures PrintPart(ParseTwo(txt, which).value) == txt
  {
    if txt != [MASK, MASK] {
      PaddedOfNumber(txt);
    }
  }

  lemma LongPrints(rest: seq<Byte>)
    requires ParseLong(rest).Ok?
    ensures var y := ParseLong(rest).value;
            y.long && ValidYear(y) && y.unspecified == 0 && PrintYear(y) == [LONG] + rest
  {
    var neg := rest != [] && rest[0] == DASH;
    var digits := if neg then rest[1..] else rest;
    NoLeadingZero(digits);
    hide Padded, Number;
  }

  lemma QualifierPrints(txt: seq<Byte>)
    ensures var (body, q) := Qualified(txt); txt == body + PrintQualifier(q)
  {
  }

  lemma FieldPrints(fields: seq<seq<Byte>>, i: nat, which: Component)
    requires ParseField(fields, i, which).Ok?
    ensures PrintField(ParseField(fields, i, which).value) == if i < |fields| then [DASH] + fields[i] else []
  {
    if i < |fields| {
      TwoPrints(fields[i], which);
    }
  }

  lemma FieldValid(fields: seq<seq<Byte>>, i: nat, which: Component)
    requires ParseField(fields, i, which).Ok?
    ensures var p := ParseField(fields, i, which).value;
            p.Some? && p.value.Num? ==> if which.Month? then IsMonth(p.value.n) else IsDay(p.value.n)
  {
  }

  lemma FieldsValid(neg: bool, fields: seq<seq<Byte>>, q: Option<Qualifier>)
    requires fields != [] && ParseFields(neg, fields, q).Ok?
    ensures ValidDate(ParseFields(neg, fields, q).value)
  {
    FieldThere(fields, 1, Month);
    FieldThere(fields, 2, Day);
    hide PlainYear, ParseField, ValidYear, DaysInMonth;
    var d := ParseFields(neg, fields, q).value;
    assert d.year == PlainYear(neg, fields[0]).value && d.month == ParseField(fields, 1, Month).value;
    assert d.day == ParseField(fields, 2, Day).value;
    assert d.day.Some? && d.month.value.Num? ==> d.month.value.n < 21;
    assert d.day.Some? && d.month.value.Num? && d.day.value.Num? && d.year.unspecified == 0 ==>
        d.day.value.n <= DaysInMonth(d.year.value, d.month.value.n);
    hide ParseFields, PrintYear, ZeroYear, IsDay;
    PlainYearPrints(neg, fields[0]);
    FieldValid(fields, 1, Month);
    FieldValid(fields, 2, Day);
  }

  lemma FieldThere(fields: seq<seq<Byte>>, i: nat, which: Component)
    requires ParseField(fields, i, which).Ok?
    ensures ParseField(fields, i, which).value.Some? <==> i < |fields|
  {
    hide ParseTwo;
  }

  lemma FieldsPrint(neg: bool, fields: seq<seq<Byte>>, q: Option<Qualifier>)
    requires fields != [] && ParseFields(neg, fields, q).Ok?
    ensures var d := ParseFields(neg, fields, q).value;
            && d.year.unspecified <= 4 && |fields[0]| == 4
            && PrintDate(d) == (if neg && !ZeroYear(fields[0]) then [DASH] else []) + Joined(fields, DASH) + PrintQualifier(q)
  {
    var d := ParseFields(neg, fields, q).value;
    assert |fields[0]| == 4 && |fields| <= 3 && d.qualifier == q && d.year == PlainYear(neg, fields[0]).value;
    assert d.month == ParseField(fields, 1, Month).value && d.day == ParseField(fields, 2, Day).value;
    hide *;
    PlainYearPrints(neg, fields[0]);
    FieldPrints(fields, 1, Month);
    FieldPrints(fields, 2, Day);
    JoinedThree(fields);
    PiecesPrint(d, if neg && !ZeroYear(fields[0]) then [DASH] else [], fields);
  }

  lemma PiecesPrint(d: Date, sign: seq<Byte>, fields: seq<seq<Byte>>)
    requires 1 <= |fields| <= 3 && d.year.unspecified <= 4 && PrintYear(d.year) == sign + fields[0]
    requires PrintField(d.month) == if 1 < |fields| then [DASH] + fields[1] else []
    requires PrintField(d.day) == if 2 < |fields| then [DASH] + fields[2] else []
    ensures PrintDate(d) == sign + Joined(fields, DASH) + PrintQualifier(d.qualifier)
  {
    JoinedThree(fields);
    hide PrintYear, PrintField, PrintQualifier, Joined;
    var q := PrintQualifier(d.qualifier);
    if |fields| == 1 {
      assert PrintDate(d) == sign + fields[0] + q;
    } else if |fields| == 2 {
      assert PrintDate(d) == sign + (fields[0] + [DASH] + fields[1]) + q;
    } else {
      assert PrintDate(d) == sign + (fields[0] + [DASH] + fields[1] + [DASH] + fields[2]) + q;
    }
  }

  lemma JoinedThree(fields: seq<seq<Byte>>)
    ensures |fields| == 1 ==> Joined(fields, DASH) == fields[0]
    ensures |fields| == 2 ==> Joined(fields, DASH) == fields[0] + [DASH] + fields[1]
    ensures |fields| == 3 ==> Joined(fields, DASH) == fields[0] + [DASH] + fields[1] + [DASH] + fields[2]
  {
    if |fields| == 3 {
      assert Joined(fields[1..], DASH) == fields[1] + [DASH] + fields[2];
    }
  }

  /** What an accepted date prints as: its text, without the minus sign before a year of zeros. */
  lemma DatePrints(txt: seq<Byte>)
    requires ParseDate(txt).Ok?
    ensures var d := ParseDate(txt).value;
            ValidDate(d) && d.year.unspecified <= 4 && PrintDate(d) == FoldedDate(txt)
  {
    var (body, q) := Qualified(txt);
    QualifierPrints(txt);
    if body != [] && body[0] == LONG {
      LongPrints(body[1..]);
    } else {
      var neg, fields := body != [] && body[0] == DASH, Split(Unsigned(body), DASH);
      SplitJoins(Unsigned(body), DASH);
      FieldsPrint(neg, fields, q);
      FieldsValid(neg, fields, q);
      hide ParseFields, ParseLong, PrintDate, Split, Joined, Qualified, Unsigned, FoldedDate, ValidDate, PrintQualifier, ZeroYear;
      FoldedIs(txt, body, q, fields);
    }
  }

  lemma FoldedIs(txt: seq<Byte>, body: seq<Byte>, q: Option<Qualifier>, fields: seq<seq<Byte>>)
    requires txt == body + PrintQualifier(q) && fields != [] && Joined(fields, DASH) == Unsigned(body)
    requires |fields[0]| == 4
    ensures var neg := body != [] && body[0] == DASH;
            FoldedDate(txt) == (if neg && !ZeroYear(fields[0]) then [DASH] else []) + Joined(fields, DASH) + PrintQualifier(q)
  {
    var rest := Unsigned(body);
    assert |rest| >= 4 && rest[..4] == fields[0];
    if body[0] == DASH {
      assert body == [DASH] + rest;
      assert forall i | 0 <= i < 4 :: txt[i + 1] == rest[i] == fields[0][i];
    }
  }

  lemma OffsetText(east: bool, h: nat, m: nat)
    requires h <= 23 && m <= 59 && (h * 60 + m == 0 ==> east)
    ensures var z := Offset(Signed(!east, h * 60 + m));
            ValidZone(z) && PrintZone(z) == [if east then PLUS else DASH] + Padded(h, 2) + [COLON] + Padded(m, 2)
  {
    hide Padded;
    assert (h * 60 + m) / 60 == h && (h * 60 + m) % 60 == m;
  }

  lemma OffsetPrints(east: bool, hhmm: seq<Byte>)
    requires ParseOffset(east, hhmm).Ok?
    ensures var z := ParseOffset(east, hhmm).value;
            ValidZone(z) && PrintZone(z) == [if east then PLUS else DASH] + hhmm
  {
    hide *;
    var h, m := OffsetParts(east, hhmm);
    PaddedOfNumber(h);
    PaddedOfNumber(m);
    OffsetText(east, Number(h), Number(m));
    Regrouped([if east then PLUS else DASH], h, [COLON], m);
  }

  lemma Regrouped(a: seq<Byte>, b: seq<Byte>, c: seq<Byte>, d: seq<Byte>)
    ensures a + b + c + d == a + (b + c + d)
  {
  }

  lemma OffsetParts(east: bool, hhmm: seq<Byte>) returns (h: seq<Byte>, m: seq<Byte>)
    requires ParseOffset(east, hhmm).Ok?
    ensures hhmm == h + [COLON] + m && |h| == 2 && |m| == 2 && AllDigits(h) && AllDigits(m)
    ensures Number(h) <= 23 && Number(m) <= 59 && (Number(h) * 60 + Number(m) == 0 ==> east)
    ensures ParseOffset(east, hhmm).value == Offset(Signed(!east, Number(h) * 60 + Number(m)))
  {
    hide FirstIndex, Number, AllDigits, Signed;
    var i := FirstIndex(hhmm, COLON);
    CutAtFirst(hhmm, COLON);
    h, m := hhmm[..i], hhmm[i + 1..];
  }

  lemma ZonePrints(t: seq<Byte>)
    requires SplitZone(t).Ok?
    ensures var (clock, zone) := SplitZone(t).value;
            && (zone.Some? ==> ValidZone(zone.value))
            && t == clock + if zone.Some? then PrintZone(zone.value) else []
  {
    assert ValidZone(Utc);
    hide ParseOffset, ValidZone, LastIndex;
    if t != [] && t[|t| - 1] == ZULU {
      assert t == t[..|t| - 1] + [ZULU];
    } else {
      hide PrintZone;
      var p := LastIndex(t, PLUS, DASH);
      if p.Some? {
        assert t == t[..p.value] + ([t[p.value]] + t[p.value + 1..]);
        OffsetPrints(t[p.value] == PLUS, t[p.value + 1..]);
      }
    }
  }

  lemma ClockPrints(clock: seq<Byte>)
    requires ParseClock(clock).Ok?
    ensures var (hour, minute, second) := ParseClock(clock).value;
            hour <= 23 && minute <= 59 && second <= 59 && PrintClock(hour, minute, second) == clock
  {
    var f := Split(clock, COLON);
    SplitJoins(clock, COLON);
    PaddedOfNumber(f[0]);
    PaddedOfNumber(f[1]);
    PaddedOfNumber(f[2]);
    assert Joined(f[1..], COLON) == f[1] + [COLON] + f[2];
    hide Padded, Number, AllDigits, Split;
  }

  /** The parts that an accepted date and time is read from. */
  lemma TimeParts(txt: seq<Byte>) returns (half: seq<Byte>, rest: seq<Byte>, d: Date)
    requires ParseTime(txt).Ok?
    ensures txt == half + [TIME] + rest && TIME !in half
    ensures ParseDate(half) == Ok(d) && SplitZone(rest).Ok? && ParseClock(SplitZone(rest).value.0).Ok?
    ensures var t := ParseTime(txt).value;
            && d == Date(Year(t.year, 0, false), Some(Num(t.month)), Some(Num(t.day)), None)
            && ParseClock(SplitZone(rest).value.0).value == (t.hour, t.minute, t.second)
            && SplitZone(rest).value.1 == t.zone
  {
    hide FirstIndex, ParseDate, SplitZone, ParseClock;
    var i := FirstIndex(txt, TIME);
    CutAtFirst(txt, TIME);
    half, rest := txt[..i], txt[i + 1..];
    d := ParseDate(half).value;
    assert IsFullDate(d) && ParseTime(txt) == TimeOn(d, rest);
    hide ParseTime;
  }

  /** An accepted date and time: its text again, but for the minus sign of a zero year. */
  lemma TimePrints(txt: seq<Byte>)
    requires ParseTime(txt).Ok?
    ensures var t := ParseTime(txt).value;
            ValidTime(t) && PrintTime(t) == FoldedDate(txt)
  {
    hide *;
    var half, rest, d := TimeParts(txt);
    DatePrints(half);
    ZonePrints(rest);
    ClockPrints(SplitZone(rest).value.0);
    FoldedHalf(half, rest);
    TimeText(ParseTime(txt).value, d);
    TimeOfDate(ParseTime(txt).value, d);
  }

  lemma TimeOfDate(t: DateTime, d: Date)
    requires ValidDate(d) && d == Date(Year(t.year, 0, false), Some(Num(t.month)), Some(Num(t.day)), None)
    requires t.hour <= 23 && t.minute <= 59 && t.second <= 59 && (t.zone.Some? ==> ValidZone(t.zone.value))
    ensures ValidTime(t)
  {
    hide DaysInMonth, ValidZone;
  }

  /** A date and time print as the date, the clock and the zone. */
  lemma TimeText(t: DateTime, d: Date)
    requires d == Date(Year(t.year, 0, false), Some(Num(t.month)), Some(Num(t.day)), None)
    ensures PrintTime(t)
         == PrintDate(d) + [TIME]
            + (PrintClock(t.hour, t.minute, t.second) + if t.zone.Some? then PrintZone(t.zone.value) else [])
  {
    hide Padded, Sign, Magnitude, PrintClock, PrintZone;
    var year, month, day := Sign(t.year) + Padded(Magnitude(t.year), 4), Padded(t.month, 2), Padded(t.day, 2);
    assert PrintYear(d.year) == year by {
      assert Masks(0) == [];
    }
    hide PrintYear;
    assert PrintDate(d) == year + ([DASH] + month) + ([DASH] + day) + [];
    hide PrintDate;
    ghost var zone := if t.zone.Some? then PrintZone(t.zone.value) else [];
    assert PrintTime(t) == year + [DASH] + month + [DASH] + day + [TIME] + PrintClock(t.hour, t.minute, t.second) + zone;
    hide *;
    Glued(year, month, day, PrintClock(t.hour, t.minute, t.second), zone);
  }

  lemma Glued(y: seq<Byte>, m: seq<Byte>, d: seq<Byte>, c: seq<Byte>, z: seq<Byte>)
    ensures y + [DASH] + m + [DASH] + d + [TIME] + c + z == y + ([DASH] + m) + ([DASH] + d) + [] + [TIME] + (c + z)
  {
    var a := y + [DASH] + m;
    assert y + ([DASH] + m) == a;
    var b := a + [DASH] + d;
    assert a + ([DASH] + d) + [] == b;
    assert b + [TIME] + c + z == b + [TIME] + (c + z);
  }

  lemma FoldedHalf(half: seq<Byte>, rest: seq<Byte>)
    ensures TIME !in half ==> FoldedDate(half + [TIME] + rest) == FoldedDate(half) + [TIME] + rest
  {
    var txt := half + [TIME] + rest;
    if |half| < 5 && |txt| >= 5 {
      assert txt[|half|] == TIME;
    }
  }

  lemma EndPrints(txt: seq<Byte>)
    requires ParseEnd(txt).Ok?
    ensures ValidEnd(ParseEnd(txt).value) && PrintEnd(ParseEnd(txt).value) == FoldedDate(txt)
  {
    if txt != [] && txt != [DOT, DOT] {
      DatePrints(txt);
    }
  }

  /**
    Whatever is accepted is a well made value, and prints as its own text without the minus sign of
    a year of zeros.
   */
  lemma ParsePrints(s: seq<Byte>)
    requires Parse(s).Ok?
    ensures Valid(Parse(s).value) && Print(Parse(s).value) == Folded(s)
  {
    var halves := Split(s, SLASH);
    SplitJoins(s, SLASH);
    if |halves| == 1 {
      OnePart(halves);
      hide Split, ParseDate, ParseTime, FoldedDate, PrintDate, PrintTime, ValidDate, ValidTime;
      if TIME in s {
        TimePrints(s);
      } else {
        DatePrints(s);
      }
    } else {
      hide Split, ParseEnd, FoldedDate, PrintEnd, ValidEnd;
      EndPrints(halves[0]);
      EndPrints(halves[1]);
      TwoParts(halves);
    }
  }

  lemma OnePart(parts: seq<seq<Byte>>)
    requires |parts| == 1
    ensures Joined(parts, SLASH) == parts[0] && Joined(FoldedParts(parts), SLASH) == FoldedDate(parts[0])
  {
  }

  lemma TwoParts(parts: seq<seq<Byte>>)
    requires |parts| == 2
    ensures Joined(FoldedParts(parts), SLASH) == FoldedDate(parts[0]) + [SLASH] + FoldedDate(parts[1])
  {
    hide FoldedDate;
    assert FoldedParts(parts)[1..] == [FoldedDate(parts[1])];
  }

  lemma {:induction false} FoldingShortens(parts: seq<seq<Byte>>)
    ensures |Joined(FoldedParts(parts), SLASH)| <= |Joined(parts, SLASH)|
    ensures Joined(FoldedParts(parts), SLASH) == Joined(parts, SLASH) <==> !exists p | p in parts :: MinusZero(p)
  {
    if parts != [] {
      var first, rest := parts[0], parts[1..];
      assert FoldedParts(parts)[1..] == FoldedParts(rest);
      FoldingShortens(rest);
      assert parts == [first] + rest;
      assert FoldedDate(first) == first <==> !MinusZero(first);
      hide MinusZero;
      if rest != [] {
        SameParts(FoldedDate(first), Joined(FoldedParts(rest), SLASH), first, Joined(rest, SLASH));
      }
    }
  }

  lemma SameParts(a: seq<Byte>, b: seq<Byte>, x: seq<Byte>, y: seq<Byte>)
    requires |a| <= |x| && |b| <= |y|
    ensures a + [SLASH] + b == x + [SLASH] + y <==> a == x && b == y
  {
    var s, t := a + [SLASH] + b, x + [SLASH] + y;
    if s == t {
      assert |s| == |t| && |a| == |x|;
      assert a == s[..|a|] && x == t[..|a|] && b == s[|a| + 1..] && y == t[|a| + 1..];
    }
  }

  /** An accepted text is printed back exactly when no year of zeros in it has a minus sign. */
  lemma PrintsBack(s: seq<Byte>)
    requires Parse(s).Ok?
    ensures Valid(Parse(s).value)
    ensures Print(Parse(s).value) == s <==> !HasMinusZero(s)
  {
    ParsePrints(s);
    FoldingShortens(Split(s, SLASH));
    SplitJoins(s, SLASH);
    hide Parse, Print, Split, Joined, MinusZero, FoldedParts, Valid;
  }

  /** So no two such texts are read as one value. */
  lemma OneSpelling(s: seq<Byte>, t: seq<Byte>)
    requires Parse(s).Ok? && Parse(t) == Parse(s) && !HasMinusZero(s) && !HasMinusZero(t)
    ensures s == t
  {
    PrintsBack(s);
    PrintsBack(t);
  }
}
