/** Every well made date is read back from what it prints as. */
module EdtfReading {
  import opened Bytes
  import opened Text
  import opened Edtf
  import EdtfRoundTrip

  // ---------------------------------------------------------------------------
  // Years and fields
  // ---------------------------------------------------------------------------

  lemma {:induction false} CountOfMore(a: seq<Byte>, b: seq<Byte>, c: Byte)
    ensures CountOf(a + b, c) == CountOf(a, c) + CountOf(b, c)
  {
    if a == [] {
      assert a + b == b;
    } else {
      assert (a + b)[1..] == a[1..] + b;
      CountOfMore(a[1..], b, c);
    }
  }

  lemma {:induction false} CountOfNone(t: seq<Byte>, c: Byte)
    requires c !in t
    ensures CountOf(t, c) == 0
  {
    if t != [] {
      CountOfNone(t[1..], c);
    }
  }

  lemma {:induction false} CountOfMasks(n: nat)
    ensures CountOf(Masks(n), MASK) == n
  {
    if n > 0 {
      assert Masks(n)[1..] == Masks(n - 1);
      CountOfMasks(n - 1);
    }
  }

  /** What a year of four characters prints as, after its sign. */
  function YearDigits(y: Year): (t: seq<Byte>)
    requires y.unspecified <= 4
  {
    var digits := Padded(Magnitude(y.value), 4);
    digits[..|digits| - y.unspecified] + Masks(y.unspecified)
  }

  lemma Quotient(v: nat, m: nat) returns (k: nat)
    requires v < 10000 && m <= 4 && v % Pow10(m) == 0
    ensures v == k * Pow10(m) && k < Pow10(4 - m)
  {
    EdtfRoundTrip.Pow10Values();
    hide Pow10;
    k := v / Pow10(m);
    if m == 0 {
    } else if m == 1 {
    } else if m == 2 {
    } else if m == 3 {
    } else {
    }
  }

  lemma DigitsRead(v: nat, m: nat)
    requires v < 10000 && m <= 4 && v % Pow10(m) == 0
    ensures |Padded(v, 4)| == 4 && Number(Padded(v, 4)[..4 - m]) * Pow10(m) == v
  {
    hide Number, Pow10, Fixed, Size;
    var k := Quotient(v, m);
    EdtfRoundTrip.Pow10Values();
    SizeAtMost(v, 4);
    FixedMultiple(k, m, 4 - m);
    NumberOfFixed(k, 4 - m);
  }

  /** Digits and then masks are read as the year they make. */
  lemma MaskedReads(neg: bool, known: seq<Byte>, m: nat)
    requires AllDigits(known) && |known| + m == 4
    ensures PlainYear(neg, known + Masks(m)) == YearOf(neg, known, m)
  {
    var digits := known + Masks(m);
    assert MASK !in known;
    CountOfMore(known, Masks(m), MASK);
    CountOfNone(known, MASK);
    CountOfMasks(m);
    hide YearOf, CountOf;
    assert digits[..4 - m] == known && digits[4 - m..] == Masks(m);
    assert 0 < m < 4 ==> digits[4 - m] == Masks(m)[0] == MASK;
  }

  lemma YearOfSize(y: Year, known: seq<Byte>)
    requires ValidYear(y) && !y.long && AllDigits(known) && Number(known) * Pow10(y.unspecified) == Magnitude(y.value)
    ensures YearOf(y.value < 0, known, y.unspecified) == Ok(y)
  {
    hide Number, Pow10;
  }

  lemma PlainYearReads(y: Year)
    requires ValidYear(y) && !y.long
    ensures y.unspecified <= 4 && |YearDigits(y)| == 4 && PlainYear(y.value < 0, YearDigits(y)) == Ok(y)
    ensures PrintYear(y) == Sign(y.value) + YearDigits(y)
  {
    var v, m := Magnitude(y.value), y.unspecified;
    MagnitudeFits(y);
    DigitsRead(v, m);
    hide Padded, Pow10, Number, ValidYear, PlainYear, YearOf;
    var known := Padded(v, 4)[..4 - m];
    assert YearDigits(y) == known + Masks(m);
    assert PrintYear(y) == Sign(y.value) + (known + Masks(m));
    hide *;
    MaskedReads(y.value < 0, known, m);
    YearOfSize(y, known);
  }

  lemma MagnitudeFits(y: Year)
    requires ValidYear(y) && !y.long
    ensures Magnitude(y.value) < 10000 && y.unspecified <= 4 && Magnitude(y.value) % Pow10(y.unspecified) == 0
  {
    EdtfRoundTrip.Pow10Values();
    hide Pow10;
  }

  lemma LongReads(y: Year)
    requires ValidYear(y) && y.long
    ensures y.unspecified == 0 && PrintYear(y) == [LONG] + (Sign(y.value) + Padded(Magnitude(y.value), 1))
    ensures ParseLong(Sign(y.value) + Padded(Magnitude(y.value), 1)) == Ok(y)
  {
    var v := Magnitude(y.value);
    assert v > 9999 && I32_MIN <= y.value <= I32_MAX && y == Year(y.value, 0, true) by {
      hide Pow10;
    }
    var digits := Padded(v, 1);
    var rest := Sign(y.value) + digits;
    LongDigits(v);
    assert Signed(y.value < 0, v) == y.value;
    hide Number, Padded, ValidYear;
    assert rest[0] == DASH <==> y.value < 0 by {
      assert digits[0] in digits;
    }
    assert (if y.value < 0 then rest[1..] else rest) == digits;
  }

  lemma LongDigits(v: nat)
    requires v > 9999
    ensures var t := Padded(v, 1); |t| >= 5 && t[0] != ZERO && Number(t) == v
  {
    NumberOfPadded(v, 1);
    FitsItsSize(v);
    SizeOfLong(v);
    hide Number, Pow10, Size, Fixed;
  }

  lemma SizeOfLong(v: nat)
    requires v > 9999
    ensures Size(v) >= 5
  {
    assert Size(v) == Size(v / 10) + 1;
    assert Size(v / 10) == Size(v / 10 / 10) + 1;
    assert Size(v / 10 / 10) == Size(v / 10 / 10 / 10) + 1;
  }

  lemma TwoReads(n: nat)
    requires n < 100
    ensures |Padded(n, 2)| == 2 && Number(Padded(n, 2)) == n
  {
    EdtfRoundTrip.Pow10Values();
    SizeAtMost(n, 2);
    NumberOfPadded(n, 2);
  }

  predicate ValidPart(p: Part, which: Component) {
    p.Num? ==> if which.Month? then IsMonth(p.n) else IsDay(p.n)
  }

  lemma PartReads(p: Part, which: Component)
    requires ValidPart(p, which)
    ensures |PrintPart(p)| == 2 && ParseTwo(PrintPart(p), which) == Ok(p)
    ensures DASH !in PrintPart(p)
  {
    if p.Num? {
      TwoReads(p.n);
      hide Padded, Number;
      var t := Padded(p.n, 2);
      assert t[0] in t && IsDigit(t[0]);
      assert forall c | c in t :: IsDigit(c);
    }
  }

  // ---------------------------------------------------------------------------
  // Dates
  // ---------------------------------------------------------------------------

  /** The characters of a date, but for its qualifier. */
  predicate DateChar(c: Byte) {
    IsDigit(c) || c == MASK || c == LONG || c == DASH
  }

  predicate DateChars(t: seq<Byte>) {
    forall c | c in t :: DateChar(c)
  }

  lemma YearChars(y: Year)
    requires ValidYear(y)
    ensures y.unspecified <= 4 && PrintYear(y) != [] && DateChars(PrintYear(y))
    ensures !y.long ==> |YearDigits(y)| == 4 && DASH !in YearDigits(y) && YearDigits(y)[0] != LONG
  {
    if !y.long {
      PlainYearReads(y);
    }
    hide Padded, ValidYear, PlainYear;
    var digits := Padded(Magnitude(y.value), 4);
    assert forall c | c in digits[..|digits| - y.unspecified] :: c in digits;
    if !y.long {
      assert YearDigits(y)[0] in YearDigits(y);
    }
  }

  /** What stands between the sign and the qualifier of a date that is not a long year. */
  function FieldTexts(d: Date): (fields: seq<seq<Byte>>)
    requires d.year.unspecified <= 4
  {
    [YearDigits(d.year)]
    + (if d.month.Some? then [PrintPart(d.month.value)] else [])
    + (if d.day.Some? then [PrintPart(d.day.value)] else [])
  }

  lemma FieldsRead(d: Date)
    requires ValidDate(d) && !d.year.long
    ensures ParseFields(d.year.value < 0, FieldTexts(d), d.qualifier) == Ok(d)
  {
    PlainYearReads(d.year);
    if d.month.Some? {
      PartReads(d.month.value, Month);
    }
    if d.day.Some? {
      PartReads(d.day.value, Day);
    }
    var fields := FieldTexts(d);
    hide PlainYear, ParseTwo, PrintPart, ValidYear, YearDigits, DaysInMonth;
    assert fields[0] == YearDigits(d.year);
    assert ParseField(fields, 1, Month) == Ok(d.month);
    assert ParseField(fields, 2, Day) == Ok(d.day);
  }

  /** A date but for its sign and its qualifier. */
  function PlainText(d: Date): seq<Byte>
    requires d.year.unspecified <= 4
  {
    YearDigits(d.year) + PrintField(d.month) + PrintField(d.day)
  }

  lemma FieldsSplit(d: Date)
    requires ValidDate(d) && !d.year.long
    ensures d.year.unspecified <= 4
    ensures Split(PlainText(d), DASH) == FieldTexts(d)
  {
    YearChars(d.year);
    if d.month.Some? {
      PartReads(d.month.value, Month);
    }
    if d.day.Some? {
      PartReads(d.day.value, Day);
    }
    hide YearDigits, PrintPart, Split, ValidYear, IsMonth, IsDay, DaysInMonth, Padded, ParseTwo, DateChars;
    if d.month.None? {
      SplitOne(YearDigits(d.year));
    } else if d.day.None? {
      SplitTwo(YearDigits(d.year), PrintPart(d.month.value));
    } else {
      SplitThree(YearDigits(d.year), PrintPart(d.month.value), PrintPart(d.day.value));
    }
  }

  lemma SplitOne(y: seq<Byte>)
    requires DASH !in y
    ensures Split(y + [] + [], DASH) == [y] + [] + []
  {
    assert y + [] + [] == y;
  }

  lemma SplitTwo(y: seq<Byte>, m: seq<Byte>)
    requires DASH !in y && DASH !in m
    ensures Split(y + ([DASH] + m) + [], DASH) == [y] + [m] + []
  {
    assert y + ([DASH] + m) + [] == y + [DASH] + m;
    SplitAt(y, DASH, m);
    SplitWhole(m, DASH);
    hide Split;
  }

  lemma SplitThree(y: seq<Byte>, m: seq<Byte>, n: seq<Byte>)
    requires DASH !in y && DASH !in m && DASH !in n
    ensures Split(y + ([DASH] + m) + ([DASH] + n), DASH) == [y] + [m] + [n]
  {
    hide Split;
    var rest := m + [DASH] + n;
    assert y + ([DASH] + m) + ([DASH] + n) == y + [DASH] + rest;
    SplitAt(y, DASH, rest);
    SplitAt(m, DASH, n);
    SplitWhole(n, DASH);
  }

  /** A date but for its qualifier. */
  function DateBody(d: Date): seq<Byte>
    requires d.year.unspecified <= 4
  {
    PrintYear(d.year) + PrintField(d.month) + PrintField(d.day)
  }

  lemma BodyChars(d: Date)
    requires ValidDate(d)
    ensures d.year.unspecified <= 4 && DateBody(d) != [] && DateChars(DateBody(d))
  {
    YearChars(d.year);
    if d.month.Some? {
      PartChars(d.month.value);
    }
    if d.day.Some? {
      PartChars(d.day.value);
    }
    assert DateChar(DASH);
    hide PrintYear, PrintPart, ValidYear, DateChar;
  }

  lemma PartChars(p: Part)
    ensures DateChars(PrintPart(p))
  {
    hide Padded;
  }

  lemma QualifiedReads(body: seq<Byte>, q: Option<Qualifier>)
    requires body != [] && DateChars(body)
    ensures Qualified(body + PrintQualifier(q)) == (body, q)
  {
    var txt := body + PrintQualifier(q);
    assert body[|body| - 1] in body;
    if q.Some? {
      assert txt[..|txt| - 1] == body;
    } else {
      assert txt == body;
    }
  }

  /** What a date prints as is read back. */
  lemma DateReads(d: Date)
    requires ValidDate(d)
    ensures d.year.unspecified <= 4 && ParseDate(PrintDate(d)) == Ok(d)
  {
    BodyChars(d);
    var body := DateBody(d);
    assert PrintDate(d) == body + PrintQualifier(d.qualifier);
    QualifiedReads(body, d.qualifier);
    if d.year.long {
      LongReads(d.year);
      var rest := Sign(d.year.value) + Padded(Magnitude(d.year.value), 1);
      assert body == [LONG] + rest && body[1..] == rest;
      hide Qualified, ParseLong, PrintYear, PrintField, DateBody, ValidYear, Padded, Sign, Magnitude, PrintDate, ParseFields,
           Split, DateChars, PrintQualifier;
    } else {
      PlainBodyReads(d);
    }
  }

  lemma PlainBodyReads(d: Date)
    requires ValidDate(d) && !d.year.long && d.year.unspecified <= 4
    requires Qualified(PrintDate(d)) == (DateBody(d), d.qualifier)
    ensures ParseDate(PrintDate(d)) == Ok(d)
  {
    hide *;
    var plain := PlainText(d);
    BodyIs(d);
    FieldsSplit(d);
    FieldsRead(d);
    BodySign(d.year.value, plain, DateBody(d));
    ParsesAs(PrintDate(d), DateBody(d), d.qualifier);
  }

  lemma ParsesAs(txt: seq<Byte>, body: seq<Byte>, q: Option<Qualifier>)
    requires Qualified(txt) == (body, q) && body != [] && body[0] != LONG
    ensures ParseDate(txt) == ParseFields(body[0] == DASH, Split(Unsigned(body), DASH), q)
  {
    hide Qualified, Split, ParseFields, Unsigned;
  }

  lemma BodyIs(d: Date)
    requires ValidDate(d) && !d.year.long
    ensures d.year.unspecified <= 4 && DateBody(d) == Sign(d.year.value) + PlainText(d)
    ensures PlainText(d) != [] && PlainText(d)[0] != DASH && PlainText(d)[0] != LONG
  {
    PlainYearReads(d.year);
    YearChars(d.year);
    hide PlainYear, YearDigits, PrintYear, PrintField, ValidYear, ValidDate, Sign, DateChars;
    Prepended(Sign(d.year.value), YearDigits(d.year), PrintField(d.month), PrintField(d.day));
  }

  lemma Prepended(sign: seq<Byte>, y: seq<Byte>, m: seq<Byte>, n: seq<Byte>)
    requires y != []
    ensures sign + y + m + n == sign + (y + m + n) && (y + m + n)[0] == y[0] && y[0] in y
  {
  }

  lemma BodySign(value: int, plain: seq<Byte>, body: seq<Byte>)
    requires body == Sign(value) + plain && plain != [] && plain[0] != DASH && plain[0] != LONG
    ensures body != [] && body[0] != LONG && (body[0] == DASH <==> value < 0) && Unsigned(body) == plain
  {
  }

  // ---------------------------------------------------------------------------
  // Dates and times
  // ---------------------------------------------------------------------------

  /** The characters of a clock. */
  predicate ClockChars(t: seq<Byte>) {
    forall c | c in t :: IsDigit(c) || c == COLON
  }

  lemma ClockReads(hour: nat, minute: nat, second: nat)
    requires hour <= 23 && minute <= 59 && second <= 59
    ensures ParseClock(PrintClock(hour, minute, second)) == Ok((hour, minute, second))
    ensures ClockChars(PrintClock(hour, minute, second)) && PrintClock(hour, minute, second) != []
  {
    TwoReads(hour);
    TwoReads(minute);
    TwoReads(second);
    ClockSplits(Padded(hour, 2), Padded(minute, 2), Padded(second, 2));
    hide Padded, Number, Split;
  }

  lemma ClockSplits(h: seq<Byte>, m: seq<Byte>, s: seq<Byte>)
    requires AllDigits(h) && AllDigits(m) && AllDigits(s)
    ensures Split(h + [COLON] + m + [COLON] + s, COLON) == [h, m, s]
  {
    hide Split;
    assert h + [COLON] + m + [COLON] + s == h + [COLON] + (m + [COLON] + s);
    SplitAt(h, COLON, m + [COLON] + s);
    SplitAt(m, COLON, s);
    SplitWhole(s, COLON);
  }

  lemma OffsetTextReads(east: bool, h: nat, n: nat)
    requires h <= 23 && n <= 59 && (h * 60 + n == 0 ==> east)
    ensures var text := Padded(h, 2) + [COLON] + Padded(n, 2);
            ParseOffset(east, text) == Ok(Offset(Signed(!east, h * 60 + n))) && ClockChars(text)
  {
    TwoReads(h);
    TwoReads(n);
    var a, b := Padded(h, 2), Padded(n, 2);
    hide Padded, Number, Signed;
    FirstIndexFound(a, COLON, b);
    hide FirstIndex;
    var text := a + [COLON] + b;
    assert text[..2] == a && text[3..] == b;
  }

  lemma HoursAndMinutes(size: nat)
    requires size <= 1439
    ensures size / 60 <= 23 && size % 60 <= 59 && size / 60 * 60 + size % 60 == size
  {
  }

  lemma OffsetReads(m: int)
    requires -1439 <= m <= 1439
    ensures var text := Padded(Magnitude(m) / 60, 2) + [COLON] + Padded(Magnitude(m) % 60, 2);
            && PrintZone(Offset(m)) == [if m < 0 then DASH else PLUS] + text
            && ParseOffset(m >= 0, text) == Ok(Offset(m)) && ClockChars(text)
  {
    var size := Magnitude(m);
    HoursAndMinutes(size);
    assert Signed(m < 0, size) == m && (size == 0 ==> m >= 0);
    var h, n := size / 60, size % 60;
    assert PrintZone(Offset(m)) == [if m < 0 then DASH else PLUS] + Padded(h, 2) + [COLON] + Padded(n, 2) by {
      hide Padded;
    }
    hide *;
    OffsetTextReads(m >= 0, h, n);
    EdtfRoundTrip.Regrouped([if m < 0 then DASH else PLUS], Padded(h, 2), [COLON], Padded(n, 2));
  }

  lemma ZoneReads(clock: seq<Byte>, zone: Option<Zone>)
    requires ClockChars(clock) && clock != [] && (zone.Some? ==> ValidZone(zone.value))
    ensures SplitZone(clock + if zone.Some? then PrintZone(zone.value) else []) == Ok((clock, zone))
  {
    match zone
    case None =>
      assert clock + [] == clock;
      assert clock[|clock| - 1] in clock;
      hide LastIndex, ParseOffset;
      assert forall i | 0 <= i < |clock| :: clock[i] in clock;
    case Some(Utc) =>
      var t := clock + [ZULU];
      assert t[..|t| - 1] == clock;
      hide LastIndex, ParseOffset;
    case Some(Offset(m)) =>
      OffsetReads(m);
      OffsetZoneReads(clock, m, Padded(Magnitude(m) / 60, 2) + [COLON] + Padded(Magnitude(m) % 60, 2));
  }

  lemma OffsetZoneReads(clock: seq<Byte>, m: int, text: seq<Byte>)
    requires ClockChars(text) && text != [] && ParseOffset(m >= 0, text) == Ok(Offset(m))
    requires PrintZone(Offset(m)) == [if m < 0 then DASH else PLUS] + text
    ensures SplitZone(clock + PrintZone(Offset(m))) == Ok((clock, Some(Offset(m))))
  {
    hide PrintZone, ParseOffset;
    var sign := if m < 0 then DASH else PLUS;
    var t := clock + [sign] + text;
    assert clock + PrintZone(Offset(m)) == t;
    LastIndexFound(clock, sign, text, PLUS, DASH);
    hide LastIndex;
    assert t[|t| - 1] == text[|text| - 1] && text[|text| - 1] in text;
    assert t[..|clock|] == clock && t[|clock| + 1..] == text && t[|clock|] == sign;
  }

  /** The date of a date and time. */
  function DateOf(t: DateTime): Date {
    Date(Year(t.year, 0, false), Some(Num(t.month)), Some(Num(t.day)), None)
  }

  /** The clock and the zone. */
  function ClockOf(t: DateTime): seq<Byte> {
    PrintClock(t.hour, t.minute, t.second) + if t.zone.Some? then PrintZone(t.zone.value) else []
  }

  lemma DateOfValid(t: DateTime)
    requires ValidTime(t)
    ensures ValidDate(DateOf(t)) && IsFullDate(DateOf(t))
  {
    EdtfRoundTrip.Pow10Values();
  }

  lemma DateCharsAre(d: Date)
    requires ValidDate(d)
    ensures d.year.unspecified <= 4 && PrintDate(d) != []
    ensures TIME !in PrintDate(d) && SLASH !in PrintDate(d) && DOT !in PrintDate(d)
  {
    BodyChars(d);
    assert PrintDate(d) == DateBody(d) + PrintQualifier(d.qualifier);
    hide DateBody, PrintDate, ValidDate;
  }

  /** What a date and time prints as is read back. */
  lemma TimeReads(t: DateTime)
    requires ValidTime(t)
    ensures ParseTime(PrintTime(t)) == Ok(t)
    ensures TIME in PrintTime(t) && SLASH !in PrintTime(t)
  {
    var d := DateOf(t);
    DateOfValid(t);
    DateCharsAre(d);
    DateReads(d);
    ClockOfReads(t);
    EdtfRoundTrip.TimeText(t, d);
    var half, rest := PrintDate(d), ClockOf(t);
    assert PrintTime(t) == half + [TIME] + rest;
    assert TimeOn(d, rest) == Ok(t) by {
      hide SplitZone, ParseClock, PrintClock, ClockOf, PrintDate, PrintTime, ParseDate, ValidDate, ValidTime;
    }
    hide *;
    FirstIndexFound(half, TIME, rest);
    TimeJoins(half, rest, PrintTime(t));
    TimeOf(PrintTime(t), half, rest, d);
  }

  lemma TimeJoins(half: seq<Byte>, rest: seq<Byte>, txt: seq<Byte>)
    requires txt == half + [TIME] + rest && SLASH !in half && SLASH !in rest
    ensures |half| < |txt| && txt[..|half|] == half && txt[|half| + 1..] == rest && TIME in txt && SLASH !in txt
  {
    assert txt[|half|] == TIME;
  }

  lemma TimeOf(txt: seq<Byte>, half: seq<Byte>, rest: seq<Byte>, d: Date)
    requires FirstIndex(txt, TIME) == |half| < |txt| && txt[..|half|] == half && txt[|half| + 1..] == rest
    requires ParseDate(half) == Ok(d) && IsFullDate(d)
    ensures ParseTime(txt) == TimeOn(d, rest)
  {
    hide FirstIndex, ParseDate, TimeOn, IsFullDate;
  }

  lemma ClockOfReads(t: DateTime)
    requires ValidTime(t)
    ensures SplitZone(ClockOf(t)) == Ok((PrintClock(t.hour, t.minute, t.second), t.zone))
    ensures ParseClock(PrintClock(t.hour, t.minute, t.second)) == Ok((t.hour, t.minute, t.second))
    ensures SLASH !in ClockOf(t)
  {
    ClockReads(t.hour, t.minute, t.second);
    ZoneReads(PrintClock(t.hour, t.minute, t.second), t.zone);
    if t.zone.Some? && t.zone.value.Offset? {
      OffsetReads(t.zone.value.minutes);
    }
    hide PrintClock, SplitZone, ParseClock, ParseOffset, Padded, ValidZone;
  }

  // ---------------------------------------------------------------------------
  // Everything
  // ---------------------------------------------------------------------------

  lemma EndReads(e: End)
    requires ValidEnd(e)
    ensures (e.Dated? ==> e.date.year.unspecified <= 4)
    ensures ParseEnd(PrintEnd(e)) == Ok(e) && SLASH !in PrintEnd(e)
  {
    match e
    case Dated(d) =>
      DateReads(d);
      DateCharsAre(d);
      hide PrintDate, ParseDate, ValidDate;
      assert PrintDate(d) != [DOT, DOT] by {
        assert DOT in [DOT, DOT];
      }
    case _ =>
  }

  /** Every well made value is read back from what it prints as. */
  lemma ReadsBack(v: Edtf)
    requires Valid(v)
    ensures Parse(Print(v)) == Ok(v)
  {
    match v
    case OnDate(d) =>
      DateReads(d);
      DateCharsAre(d);
      SplitWhole(PrintDate(d), SLASH);
      hide PrintDate, ParseDate, ValidDate, Split;
    case AtTime(t) =>
      TimeReads(t);
      SplitWhole(PrintTime(t), SLASH);
      hide PrintTime, ParseTime, ValidTime, Split;
    case Interval(lo, hi) =>
      EndReads(lo);
      EndReads(hi);
      SplitAt(PrintEnd(lo), SLASH, PrintEnd(hi));
      SplitWhole(PrintEnd(hi), SLASH);
      hide PrintEnd, ParseEnd, ValidEnd, Split;
  }

  /** So two values never print alike. */
  lemma PrintInjective(v: Edtf, w: Edtf)
    requires Valid(v) && Valid(w) && Print(v) == Print(w)
    ensures v == w
  {
    ReadsBack(v);
    ReadsBack(w);
  }

  /** The texts that are printed: those accepted without a minus sign before a year of zeros. */
  lemma PrintedTexts(s: seq<Byte>)
    ensures (exists v :: Valid(v) && Print(v) == s) <==> Parse(s).Ok? && !EdtfRoundTrip.HasMinusZero(s)
  {
    if v :| Valid(v) && Print(v) == s {
      ReadsBack(v);
      EdtfRoundTrip.PrintsBack(s);
    }
    if Parse(s).Ok? && !EdtfRoundTrip.HasMinusZero(s) {
      EdtfRoundTrip.PrintsBack(s);
    }
  }

  // ---------------------------------------------------------------------------
  // Two spellings, and no answer
  // ---------------------------------------------------------------------------

  /** A year of zeros reads the same with a sign and without. */
  lemma ZeroYearUnsigned(y: seq<Byte>)
    requires EdtfRoundTrip.ZeroYear(y)
    ensures PlainYear(true, y) == PlainYear(false, y)
  {
    var m := CountOf(y, MASK);
    var known := y[..4 - m];
    if AllDigits(known) {
      assert forall i | 0 <= i < |known| :: known[i] in known && IsDigit(known[i]);
      assert AllAre(known, ZERO);
      EdtfRoundTrip.ZerosOnly(known);
      assert Number(known) * Pow10(m) == 0;
    }
    hide Number, Pow10, CountOf;
  }

  /** So does a date that begins with one. */
  lemma DateUnsigned(t: seq<Byte>)
    requires EdtfRoundTrip.MinusZero(t)
    ensures ParseDate(t) == ParseDate(t[1..])
  {
    assert |t| > 1;
    hide *;
    var body, q := SignedBody(t);
    ParsesAs(t, [DASH] + body, q);
    ParsesAs(t[1..], body, q);
    var fields := Split(body, DASH);
    if |fields[0]| == 4 {
      FirstField(body);
      ZeroYearUnsigned(fields[0]);
    }
    SameYearSameDate(fields, q);
  }

  /** The date with its sign and without: one body, one qualifier. */
  lemma SignedBody(t: seq<Byte>) returns (body: seq<Byte>, q: Option<Qualifier>)
    requires EdtfRoundTrip.MinusZero(t)
    ensures Qualified(t) == ([DASH] + body, q) && Qualified(t[1..]) == (body, q)
    ensures body != [] && body[0] != DASH && body[0] != LONG && Unsigned(body) == body == Unsigned([DASH] + body)
    ensures ([DASH] + body)[0] == DASH != LONG && |[DASH] + body| > 0
    ensures |body| >= 4 ==> EdtfRoundTrip.ZeroYear(body[..4])
  {
    var r := t[1..];
    body, q := Qualified(r).0, Qualified(r).1;
    assert t == [DASH] + r && r[|r| - 1] == t[|t| - 1];
    assert t[..|t| - 1] == [DASH] + r[..|r| - 1];
    assert body != [] && body[0] == r[0] == t[1];
    assert |body| >= 4 ==> forall i | 0 <= i < 4 :: body[i] == r[i] == t[i + 1];
  }

  lemma SameYearSameDate(fields: seq<seq<Byte>>, q: Option<Qualifier>)
    requires fields != [] && (|fields[0]| == 4 ==> PlainYear(true, fields[0]) == PlainYear(false, fields[0]))
    ensures ParseFields(true, fields, q) == ParseFields(false, fields, q)
  {
    assert |fields[0]| != 4 ==> PlainYear(true, fields[0]).Refused? && PlainYear(false, fields[0]).Refused?;
    hide PlainYear, ParseField, DaysInMonth;
  }

  lemma FirstField(body: seq<Byte>)
    ensures var f := Split(body, DASH)[0]; |f| <= |body| && f == body[..|f|]
  {
  }

  lemma TimeUnsigned(t: seq<Byte>)
    requires EdtfRoundTrip.MinusZero(t) && TIME in t
    ensures TIME in t[1..] && ParseTime(t) == ParseTime(t[1..])
  {
    var r := t[1..];
    assert t == [DASH] + r;
    var i := FirstIndex(r, TIME);
    assert FirstIndex(t, TIME) == i + 1;
    assert forall k | 0 <= k < 4 :: r[k] == t[k + 1] && r[k] != TIME;
    assert i >= 4;
    assert t[..i + 1][1..] == r[..i];
    DateUnsigned(t[..i + 1]);
    hide ParseDate, TimeOn, FirstIndex, IsFullDate;
    assert i < |r| ==> t[i + 2..] == r[i + 1..];
  }

  lemma EndUnsigned(t: seq<Byte>)
    ensures ParseEnd(t) == ParseEnd(EdtfRoundTrip.FoldedDate(t))
  {
    if EdtfRoundTrip.MinusZero(t) {
      DateUnsigned(t);
      assert t == [DASH] + t[1..];
      hide ParseDate;
    }
  }

  lemma WholeUnsigned(s: seq<Byte>)
    requires EdtfRoundTrip.MinusZero(s) && SLASH !in s
    ensures SLASH !in s[1..] && Parse(s) == Parse(s[1..])
  {
    SplitWhole(s, SLASH);
    SplitWhole(s[1..], SLASH);
    DateUnsigned(s);
    assert s == [DASH] + s[1..];
    if TIME in s {
      TimeUnsigned(s);
    }
    hide Split, ParseDate, ParseTime;
  }

  /**
    The minus sign of a year of zeros changes nothing at all: with it and without, a text is accepted
    as the same value, refused, or not answered.
   */
  lemma FoldedReadsSame(s: seq<Byte>)
    ensures Parse(EdtfRoundTrip.Folded(s)) == Parse(s)
    ensures EdtfRoundTrip.Folded(s) == s <==> !EdtfRoundTrip.HasMinusZero(s)
  {
    var parts := Split(s, SLASH);
    SplitJoins(s, SLASH);
    EdtfRoundTrip.FoldingShortens(parts);
    if |parts| == 1 {
      EdtfRoundTrip.OnePart(parts);
      if EdtfRoundTrip.MinusZero(s) {
        WholeUnsigned(s);
      }
    } else {
      FoldedSplit(s);
      EndUnsigned(parts[0]);
      EndUnsigned(parts[1]);
      hide Split, ParseEnd, EdtfRoundTrip.FoldedDate, EdtfRoundTrip.Folded;
    }
  }

  /** Folding goes part by part. */
  lemma FoldedSplit(s: seq<Byte>)
    ensures Split(EdtfRoundTrip.Folded(s), SLASH) == EdtfRoundTrip.FoldedParts(Split(s, SLASH))
  {
    SplitJoins(s, SLASH);
    var parts := Split(s, SLASH);
    var folded := EdtfRoundTrip.FoldedParts(parts);
    hide Split, EdtfRoundTrip.MinusZero;
    forall i | 0 <= i < |folded|
      ensures SLASH !in folded[i]
    {
      assert parts[i] in parts;
    }
    SplitOfJoined(folded);
  }

  lemma {:induction false} SplitOfJoined(parts: seq<seq<Byte>>)
    requires parts != [] && forall i | 0 <= i < |parts| :: SLASH !in parts[i]
    ensures Split(Joined(parts, SLASH), SLASH) == parts
  {
    hide Split;
    if |parts| == 1 {
      SplitWhole(parts[0], SLASH);
    } else {
      SplitOfJoined(parts[1..]);
      SplitAt(parts[0], SLASH, Joined(parts[1..], SLASH));
    }
  }

  /** Exactly which texts are accepted: those that print a valid value, but for such signs. */
  lemma Accepted(s: seq<Byte>)
    ensures Parse(s).Ok? <==> exists v :: Valid(v) && Print(v) == EdtfRoundTrip.Folded(s)
  {
    FoldedReadsSame(s);
    if Parse(s).Ok? {
      EdtfRoundTrip.ParsePrints(s);
    }
    hide Parse, Valid, Print, EdtfRoundTrip.Folded;
    if v :| Valid(v) && Print(v) == EdtfRoundTrip.Folded(s) {
      ReadsBack(v);
    }
  }

  /** A valid end of an interval prints as `t`. */
  ghost predicate IsEndText(t: seq<Byte>) {
    exists e :: ValidEnd(e) && PrintEnd(e) == t
  }

  lemma EndAccepted(t: seq<Byte>)
    ensures ParseEnd(t).Ok? <==> IsEndText(EdtfRoundTrip.FoldedDate(t))
  {
    EndUnsigned(t);
    if ParseEnd(t).Ok? {
      EdtfRoundTrip.EndPrints(t);
    }
    hide ParseEnd, ValidEnd, PrintEnd, EdtfRoundTrip.FoldedDate;
    if e :| ValidEnd(e) && PrintEnd(e) == EdtfRoundTrip.FoldedDate(t) {
      EndReads(e);
    }
  }

  /** There is such a text: `-0000` and `0000` are both accepted, as one value. */
  lemma TwoSpellingsOfZero()
    ensures Parse([DASH, ZERO, ZERO, ZERO, ZERO]) == Ok(OnDate(Date(Year(0, 0, false), None, None, None)))
    ensures Parse([ZERO, ZERO, ZERO, ZERO]) == Parse([DASH, ZERO, ZERO, ZERO, ZERO])
  {
    var v := OnDate(Date(Year(0, 0, false), None, None, None));
    var t := [DASH, ZERO, ZERO, ZERO, ZERO];
    var y := [ZERO, ZERO, ZERO, ZERO];
    EdtfRoundTrip.Pow10Values();
    assert AllDigits(y);
    EdtfRoundTrip.ZerosOnly(y);
    SplitWhole(t, SLASH);
    SplitWhole(y, SLASH);
    SplitWhole(y, DASH);
    CountOfNone(y, MASK);
    assert t[1..] == y && y[..4] == y && y[4..] == [];
    hide Split, Number, CountOf, Pow10;
    assert PlainYear(true, y) == PlainYear(false, y) == Ok(Year(0, 0, false));
    hide PlainYear;
    assert Qualified(t) == (t, None) && Qualified(y) == (y, None);
    assert ParseDate(t) == ParseDate(y) == Ok(v.date);
  }

  /** What stands where a date has its year, when that is not a long one. */
  function YearText(t: seq<Byte>): seq<Byte> {
    Split(Unsigned(Qualified(t).0), DASH)[0]
  }

  /** Four bytes for a year with as many masks as there are bytes from inside some character on. */
  predicate CutsCharacter(t: seq<Byte>) {
    && (Qualified(t).0 != [] ==> Qualified(t).0[0] != LONG)
    && var y := YearText(t);
       |y| == 4 && 0 < CountOf(y, MASK) < 4 && Continues(y[4 - CountOf(y, MASK)])
  }

  lemma DatePanics(t: seq<Byte>)
    ensures ParseDate(t).Panicked? <==> CutsCharacter(t)
  {
    var body := Qualified(t).0;
    if body != [] && body[0] == LONG {
      hide Split, CountOf;
    } else {
      var fields, neg := Split(Unsigned(body), DASH), body != [] && body[0] == DASH;
      hide Split, CountOf, YearOf, Continues, Unsigned, Qualified, ParseLong;
      FieldsPanic(neg, fields, Qualified(t).1);
      hide ParseFields;
      assert ParseDate(t) == ParseFields(neg, fields, Qualified(t).1);
    }
  }

  lemma FieldsPanic(neg: bool, fields: seq<seq<Byte>>, q: Option<Qualifier>)
    requires fields != []
    ensures ParseFields(neg, fields, q).Panicked? <==> PlainYear(neg, fields[0]).Panicked?
  {
    hide PlainYear, Number, DaysInMonth;
  }

  lemma TimePanics(s: seq<Byte>)
    requires TIME in s
    ensures ParseTime(s).Panicked? <==> CutsCharacter(s[..FirstIndex(s, TIME)])
  {
    var i := FirstIndex(s, TIME);
    DatePanics(s[..i]);
    hide FirstIndex, ParseDate, TimeOn, IsFullDate, CutsCharacter;
    if ParseDate(s[..i]).Ok? && IsFullDate(ParseDate(s[..i]).value) {
      TimeOnAnswers(ParseDate(s[..i]).value, s[i + 1..]);
    }
  }

  lemma TimeOnAnswers(d: Date, t: seq<Byte>)
    requires IsFullDate(d)
    ensures !TimeOn(d, t).Panicked?
  {
    assert forall c :: !ParseClock(c).Panicked?;
    hide ParseClock, LastIndex, Number;
  }

  predicate EndCuts(t: seq<Byte>) {
    TIME !in t && CutsCharacter(t)
  }

  lemma EndPanics(t: seq<Byte>)
    ensures ParseEnd(t).Panicked? <==> EndCuts(t)
  {
    DatePanics(t);
    if t == [DOT, DOT] {
      SplitWhole(t, DASH);
    }
    hide ParseDate;
  }

  /**
    The parser gives no answer, accepted or refused, exactly when it comes to a year whose masks,
    counted from the end, begin inside a character.
   */
  lemma PanicsExactly(s: seq<Byte>)
    ensures var parts := Split(s, SLASH);
            Parse(s).Panicked? <==>
              || (|parts| == 1 && CutsCharacter(s[..FirstIndex(s, TIME)]))
              || (|parts| == 2 && (EndCuts(parts[0]) || (IsEndText(EdtfRoundTrip.FoldedDate(parts[0])) && EndCuts(parts[1]))))
  {
    var parts := Split(s, SLASH);
    if |parts| == 1 {
      WholePanics(s);
    } else {
      EndPanics(parts[0]);
      EndPanics(parts[1]);
      EndAccepted(parts[0]);
      hide Split, ParseEnd, CutsCharacter, EndCuts, IsEndText, EdtfRoundTrip.FoldedDate;
      assert s == [] ==> parts == [s] by {
        SplitWhole([], SLASH);
      }
    }
  }

  lemma WholePanics(s: seq<Byte>)
    requires |Split(s, SLASH)| == 1
    ensures Parse(s).Panicked? <==> CutsCharacter(s[..FirstIndex(s, TIME)])
  {
    if s == [] {
      SplitWhole(s, DASH);
    } else if TIME in s {
      TimePanics(s);
      hide Split, ParseTime, FirstIndex, CutsCharacter;
    } else {
      assert s[..FirstIndex(s, TIME)] == s;
      DatePanics(s);
      hide Split, ParseDate, FirstIndex, CutsCharacter;
    }
  }

  /** Text all of whose characters are single bytes is never sliced inside one. */
  lemma AsciiNeverPanics(s: seq<Byte>)
    requires forall c | c in s :: c < 0x80
    ensures !Parse(s).Panicked?
  {
    PanicsExactly(s);
    SplitInherits(s, SLASH);
    var parts := Split(s, SLASH);
    hide Split, CutsCharacter;
    assert forall i | 0 <= i < |parts| :: parts[i] in parts;
    forall t | forall c | c in t :: c < 0x80
      ensures !CutsCharacter(t)
    {
      AsciiNotCut(t);
    }
    assert forall c | c in s[..FirstIndex(s, TIME)] :: c in s;
  }

  lemma AsciiNotCut(t: seq<Byte>)
    requires forall c | c in t :: c < 0x80
    ensures !CutsCharacter(t)
  {
    var rest := Unsigned(Qualified(t).0);
    assert forall c | c in rest :: c in t;
    SplitInherits(rest, DASH);
    var y := YearText(t);
    hide CountOf;
    assert y == Split(rest, DASH)[0] && y in Split(rest, DASH);
    hide Split;
    assert forall i | 0 <= i < |y| :: y[i] in y;
  }

  lemma {:induction false} SplitInherits(t: seq<Byte>, c: Byte)
    ensures forall p, x | p in Split(t, c) && x in p :: x in t
    decreases |t|
  {
    var i := FirstIndex(t, c);
    if i < |t| {
      SplitInherits(t[i + 1..], c);
      assert forall x | x in t[..i] || x in t[i + 1..] :: x in t;
    }
  }

  /** Otherwise it may be: two masks around a letter of two bytes end the program. */
  lemma PanicsInsideLetter()
    ensures Parse([MASK, 0xc3, 0xa9, MASK]).Panicked?
  {
    var t := [MASK, 0xc3, 0xa9, MASK];
    SplitWhole(t, SLASH);
    SplitWhole(t, DASH);
    hide Split;
    assert CountOf(t, MASK) == 2 by {
      assert t[1..] == [0xc3, 0xa9, MASK] && t[1..][1..] == [0xa9, MASK] && t[1..][1..][1..] == [MASK];
      assert CountOf([MASK], MASK) == 1;
      assert CountOf([0xa9, MASK], MASK) == 1;
      assert CountOf([0xc3, 0xa9, MASK], MASK) == 1;
    }
    hide CountOf;
    assert PlainYear(false, t).Panicked?;
    hide PlainYear;
    assert Qualified(t) == (t, None);
    assert ParseDate(t).Panicked?;
  }
}
