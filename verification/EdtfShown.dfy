/**
  What each shape of text is read as, character by character: dates by their day numbers, masks,
  seasons, qualifiers, long years, times with their zones, and intervals.
 */
module EdtfShown {
  import opened Bytes
  import opened Text
  import opened Edtf
  import EdtfReading
  import EdtfRoundTrip
  import Calendar

  // ---------------------------------------------------------------------------
  // Digits
  // ---------------------------------------------------------------------------

  ghost predicate Digits(t: seq<Byte>) {
    forall i :: 0 <= i < |t| ==> 48 <= t[i] <= 57
  }

  /** A run of digits as a number. */
  function Decimal(t: seq<Byte>): int {
    if |t| == 0 then 0 else 10 * Decimal(t[..|t| - 1]) + (t[|t| - 1] as int - 48)
  }

  lemma {:induction false} DecimalIs(t: seq<Byte>)
    requires Digits(t)
    ensures AllDigits(t) && Number(t) == Decimal(t) >= 0
  {
    assert forall c | c in t :: IsDigit(c);
    if |t| > 0 {
      DecimalIs(t[..|t| - 1]);
    }
  }

  /** Two digits, or two masks. */
  ghost predicate TwoPlaces(t: seq<Byte>) {
    |t| == 2 && (t == [88, 88] || Digits(t))
  }

  ghost function PartOf(t: seq<Byte>): Part
    requires TwoPlaces(t)
  {
    DecimalIfDigits(t);
    if t == [88, 88] then Unspecified else Num(Decimal(t))
  }

  lemma DecimalIfDigits(t: seq<Byte>)
    requires TwoPlaces(t)
    ensures t != [88, 88] ==> Digits(t) && Decimal(t) >= 0
  {
    if t != [88, 88] {
      DecimalIs(t);
    }
  }

  /** One, ten, a hundred, a thousand, ten thousand. */
  function Tens(m: nat): nat
    requires m <= 4
  {
    if m == 0 then 1 else if m == 1 then 10 else if m == 2 then 100 else if m == 3 then 1000 else 10000
  }

  /** `m` masks. */
  function Xs(m: nat): (t: seq<Byte>)
    ensures |t| == m
  {
    seq(m, _ => 88)
  }

  function Minus(neg: bool, n: int): int {
    if neg then -n else n
  }

  lemma {:induction false} DecimalBelow(t: seq<Byte>)
    requires Digits(t) && |t| <= 4
    ensures 0 <= Decimal(t) < Tens(|t|)
  {
    if |t| > 0 {
      DecimalBelow(t[..|t| - 1]);
    }
  }

  lemma WholeTens(v: nat, m: nat)
    requires m <= 4 && v < Tens(4 - m)
    ensures v * Tens(m) <= 9999 && v * Tens(m) % Tens(m) == 0 && Pow10(m) == Tens(m)
  {
    EdtfRoundTrip.Pow10Values();
    hide Pow10;
    if m == 0 {
    } else if m == 1 {
    } else if m == 2 {
    } else if m == 3 {
    } else {
    }
  }

  lemma SizeIsYear(neg: bool, size: nat, m: nat)
    requires m <= 4 && size <= 9999 && size % Tens(m) == 0 && Pow10(m) == Tens(m)
    ensures Built(if m == 0 then NewYear(Signed(neg, size)) else MaskedYear(Signed(neg, size), m))
         == Ok(Year(Minus(neg, size), m, false))
  {
    hide Pow10, Tens;
  }

  /** Known digits and then masks: the number with zeros for the masks. */
  lemma YearShown(neg: bool, known: seq<Byte>, m: nat)
    requires Digits(known) && |known| + m == 4
    ensures PlainYear(neg, known + Xs(m)) == Ok(Year(Minus(neg, Decimal(known) * Tens(m)), m, false))
  {
    DecimalIs(known);
    DecimalBelow(known);
    assert Xs(m) == Masks(m);
    EdtfReading.MaskedReads(neg, known, m);
    WholeTens(Decimal(known), m);
    SizeIsYear(neg, Decimal(known) * Tens(m), m);
    hide PlainYear, Number, Decimal, Pow10, Xs, Tens, Built, NewYear, MaskedYear, Signed, Minus;
  }

  lemma MonthShown(t: seq<Byte>)
    requires TwoPlaces(t)
    ensures ParseTwo(t, Month)
         == if t == [88, 88] || 1 <= Decimal(t) <= 12 || 21 <= Decimal(t) <= 24 then Ok(PartOf(t)) else Refused
  {
    if t != [88, 88] {
      DecimalIs(t);
    }
    hide Number, Decimal;
  }

  lemma DayShown(t: seq<Byte>)
    requires TwoPlaces(t)
    ensures ParseTwo(t, Day) == if t == [88, 88] || 1 <= Decimal(t) <= 31 then Ok(PartOf(t)) else Refused
  {
    if t != [88, 88] {
      DecimalIs(t);
    }
    hide Number, Decimal;
  }

  // ---------------------------------------------------------------------------
  // Dates
  // ---------------------------------------------------------------------------

  /** The parts of a date text: sign, known digits of the year, month, day, qualifier. */
  datatype Spelling = Spelling(neg: bool, known: seq<Byte>, month: Option<seq<Byte>>, day: Option<seq<Byte>>,
                               mark: Option<Byte>)

  ghost predicate IsSpelling(w: Spelling) {
    && |w.known| <= 4 && Digits(w.known)
    && (w.month.Some? ==> TwoPlaces(w.month.value)) && (w.day.Some? ==> TwoPlaces(w.day.value) && w.month.Some?)
    && (w.mark.Some? ==> w.mark.value in {63, 126, 37})
  }

  function Field(t: Option<seq<Byte>>): seq<Byte> {
    match t
    case None => []
    case Some(t) => [45] + t
  }

  function Spelled(w: Spelling): seq<Byte>
    requires |w.known| <= 4
  {
    (if w.neg then [45] else []) + w.known + Xs(4 - |w.known|) + Field(w.month) + Field(w.day)
    + match w.mark case None => [] case Some(c) => [c]
  }

  function YearValue(w: Spelling): int
    requires |w.known| <= 4
  {
    Minus(w.neg, Decimal(w.known) * Tens(4 - |w.known|))
  }

  ghost predicate IsNumber(t: Option<seq<Byte>>) {
    t.Some? && t.value != [88, 88]
  }

  /**
    A month, or a season and then no day; a day up to 31, and in a month of a known year one that the
    calendar has.
   */
  ghost predicate Exists(w: Spelling)
    requires IsSpelling(w)
  {
    && (IsNumber(w.month) ==> 1 <= Decimal(w.month.value) <= 12 || (21 <= Decimal(w.month.value) <= 24 && w.day.None?))
    && (IsNumber(w.day) ==> 1 <= Decimal(w.day.value) <= 31)
    && (IsNumber(w.month) && IsNumber(w.day) && |w.known| == 4 ==>
          Calendar.IsDate(YearValue(w), Decimal(w.month.value), Decimal(w.day.value)))
  }

  ghost function OptionalPart(t: Option<seq<Byte>>): Option<Part>
    requires t.Some? ==> TwoPlaces(t.value)
  {
    match t
    case None => None
    case Some(t) => Some(PartOf(t))
  }

  function MarkOf(c: Option<Byte>): Option<Qualifier>
    requires c.Some? ==> c.value in {63, 126, 37}
  {
    match c
    case None => None
    case Some(c) => Some(if c == 63 then Uncertain else if c == 126 then Approximate else Both)
  }

  ghost function Meant(w: Spelling): Date
    requires IsSpelling(w)
  {
    Date(Year(YearValue(w), 4 - |w.known|, false), OptionalPart(w.month), OptionalPart(w.day), MarkOf(w.mark))
  }

  function FieldsOf(w: Spelling): (fields: seq<seq<Byte>>)
    requires |w.known| <= 4
    ensures fields != []
  {
    [w.known + Xs(4 - |w.known|)] + (if w.month.Some? then [w.month.value] else [])
    + (if w.day.Some? then [w.day.value] else [])
  }

  lemma MonthField(w: Spelling)
    requires IsSpelling(w)
    ensures ParseField(FieldsOf(w), 1, Month)
         == if IsNumber(w.month) && !(1 <= Decimal(w.month.value) <= 12 || 21 <= Decimal(w.month.value) <= 24) then Refused
            else Ok(OptionalPart(w.month))
  {
    if w.month.Some? {
      MonthShown(w.month.value);
      assert FieldsOf(w)[1] == w.month.value;
    }
    hide ParseTwo, Decimal, PartOf, TwoPlaces;
  }

  lemma DayField(w: Spelling)
    requires IsSpelling(w)
    ensures ParseField(FieldsOf(w), 2, Day)
         == if IsNumber(w.day) && !(1 <= Decimal(w.day.value) <= 31) then Refused else Ok(OptionalPart(w.day))
  {
    if w.day.Some? {
      DayShown(w.day.value);
      assert FieldsOf(w)[2] == w.day.value;
    }
    hide ParseTwo, Decimal, PartOf, TwoPlaces;
  }

  lemma CalendarField(w: Spelling)
    requires IsSpelling(w) && IsNumber(w.month) && IsNumber(w.day)
    ensures Decimal(w.month.value) >= 0 && Decimal(w.day.value) >= 0
    ensures 1 <= Decimal(w.month.value) <= 12 && 1 <= Decimal(w.day.value) ==>
              (Calendar.IsDate(YearValue(w), Decimal(w.month.value), Decimal(w.day.value))
               <==> Decimal(w.day.value) <= DaysInMonth(YearValue(w), Decimal(w.month.value)))
  {
    DecimalIfDigits(w.month.value);
    DecimalIfDigits(w.day.value);
    Calendar.IsDateExactly(YearValue(w), Decimal(w.month.value), Decimal(w.day.value));
    hide Decimal, DaysInMonth, Calendar.IsDate;
  }

  /** The year is known in full, and month and day are numbers. */
  ghost predicate IsFull(w: Spelling) {
    IsNumber(w.month) && IsNumber(w.day) && |w.known| == 4
  }

  /** Whether there is such a date, by the days of its month. */
  lemma ExistsIs(w: Spelling)
    requires IsSpelling(w)
    ensures Exists(w) <==>
            && (IsNumber(w.month) ==> 1 <= Decimal(w.month.value) <= 12 || 21 <= Decimal(w.month.value) <= 24)
            && (IsNumber(w.month) && w.day.Some? ==> Decimal(w.month.value) < 21)
            && (IsNumber(w.day) ==> 1 <= Decimal(w.day.value) <= 31)
            && (IsFull(w) ==>
                  && Decimal(w.month.value) >= 0 && Decimal(w.day.value) >= 0
                  && Decimal(w.day.value) <= DaysInMonth(YearValue(w), Decimal(w.month.value)))
  {
    if IsNumber(w.month) && IsNumber(w.day) {
      CalendarField(w);
    }
    hide Decimal, DaysInMonth, TwoPlaces, Digits, Tens, Calendar.IsDate, YearValue;
  }

  lemma PartsMeant(w: Spelling)
    requires IsSpelling(w)
    ensures IsNumber(w.month) ==> Decimal(w.month.value) >= 0
    ensures IsNumber(w.day) ==> Decimal(w.day.value) >= 0
    ensures w.month.Some? ==> PartOf(w.month.value) == if IsNumber(w.month) then Num(Decimal(w.month.value)) else Unspecified
    ensures w.day.Some? ==> PartOf(w.day.value) == if IsNumber(w.day) then Num(Decimal(w.day.value)) else Unspecified
  {
    if w.month.Some? {
      DecimalIfDigits(w.month.value);
    }
    if w.day.Some? {
      DecimalIfDigits(w.day.value);
    }
    hide Decimal;
  }

  /** No season with a day, and no day past the end of its month. */
  ghost predicate Fitting(year: Year, month: Option<Part>, day: Option<Part>) {
    && (month.Some? && month.value.Num? && day.Some? ==> month.value.n < 21)
    && (month.Some? && month.value.Num? && day.Some? && day.value.Num? && year.unspecified == 0 ==>
          day.value.n <= DaysInMonth(year.value, month.value.n))
  }

  lemma FieldsRead(neg: bool, fields: seq<seq<Byte>>, q: Option<Qualifier>, year: Year)
    requires 1 <= |fields| <= 3 && PlainYear(neg, fields[0]) == Ok(year)
    requires !ParseField(fields, 1, Month).Panicked? && !ParseField(fields, 2, Day).Panicked?
    ensures var m, d := ParseField(fields, 1, Month), ParseField(fields, 2, Day);
            ParseFields(neg, fields, q) == if m.Ok? && d.Ok? && Fitting(year, m.value, d.value)
                                           then Ok(Date(year, m.value, d.value, q)) else Refused
  {
    hide PlainYear, ParseField, DaysInMonth;
  }

  lemma FittingIs(w: Spelling)
    requires IsSpelling(w)
    requires IsNumber(w.month) ==> 1 <= Decimal(w.month.value) <= 12 || 21 <= Decimal(w.month.value) <= 24
    requires IsNumber(w.day) ==> 1 <= Decimal(w.day.value) <= 31
    ensures Fitting(Meant(w).year, Meant(w).month, Meant(w).day) <==> Exists(w)
  {
    PartsMeant(w);
    ExistsIs(w);
    hide Decimal, DaysInMonth, TwoPlaces, Digits, Tens, PartOf, Exists, YearValue, Minus;
  }

  lemma FieldsShown(w: Spelling)
    requires IsSpelling(w)
    ensures ParseFields(w.neg, FieldsOf(w), MarkOf(w.mark)) == if Exists(w) then Ok(Meant(w)) else Refused
  {
    YearShown(w.neg, w.known, 4 - |w.known|);
    MonthField(w);
    DayField(w);
    FieldsRead(w.neg, FieldsOf(w), MarkOf(w.mark), Meant(w).year);
    if ParseField(FieldsOf(w), 1, Month).Ok? && ParseField(FieldsOf(w), 2, Day).Ok? {
      FittingIs(w);
    }
    hide PlainYear, ParseField, ParseFields, Decimal, TwoPlaces, Digits, Tens, Calendar.IsDate, PartOf, Minus, Xs, Fitting;
  }

  // ---------------------------------------------------------------------------
  // From the text to its fields
  // ---------------------------------------------------------------------------

  /** A date text but for its sign and its qualifier. */
  function Middle(w: Spelling): seq<Byte>
    requires |w.known| <= 4
  {
    w.known + Xs(4 - |w.known|) + Field(w.month) + Field(w.day)
  }

  ghost predicate Plain(t: seq<Byte>) {
    forall c | c in t :: 48 <= c <= 57 || c == 88
  }

  lemma TwoPlacesPlain(t: seq<Byte>)
    requires TwoPlaces(t)
    ensures Plain(t)
  {
  }

  lemma YearPlain(w: Spelling)
    requires IsSpelling(w)
    ensures Plain(w.known + Xs(4 - |w.known|)) && |w.known + Xs(4 - |w.known|)| == 4
  {
    var t := w.known + Xs(4 - |w.known|);
    forall c | c in t
      ensures 48 <= c <= 57 || c == 88
    {
      var i :| 0 <= i < |t| && t[i] == c;
      if i < |w.known| {
        assert t[i] == w.known[i];
      }
    }
  }

  lemma MiddleSplits(w: Spelling)
    requires IsSpelling(w)
    ensures Split(Middle(w), 45) == FieldsOf(w)
  {
    YearPlain(w);
    var y := w.known + Xs(4 - |w.known|);
    if w.month.Some? {
      TwoPlacesPlain(w.month.value);
    }
    if w.day.Some? {
      TwoPlacesPlain(w.day.value);
    }
    hide Split, Xs, TwoPlaces, Digits;
    if w.month.None? {
      EdtfReading.SplitOne(y);
    } else if w.day.None? {
      EdtfReading.SplitTwo(y, w.month.value);
    } else {
      EdtfReading.SplitThree(y, w.month.value, w.day.value);
    }
  }

  lemma MiddleChars(w: Spelling)
    requires IsSpelling(w)
    ensures |Middle(w)| >= 4 && Middle(w)[0] != 45 && Middle(w)[0] != 89
    ensures forall c | c in Middle(w) :: 48 <= c <= 57 || c == 88 || c == 45
  {
    YearPlain(w);
    var y := w.known + Xs(4 - |w.known|);
    assert Middle(w)[0] == y[0] && y[0] in y;
    if w.month.Some? {
      TwoPlacesPlain(w.month.value);
    }
    if w.day.Some? {
      TwoPlacesPlain(w.day.value);
    }
    hide Xs, TwoPlaces, Digits;
  }

  function Signing(w: Spelling): seq<Byte>
    requires |w.known| <= 4
  {
    (if w.neg then [45] else []) + Middle(w)
  }

  function Marking(mark: Option<Byte>): seq<Byte> {
    match mark
    case None => []
    case Some(c) => [c]
  }

  lemma SpelledIs(w: Spelling)
    requires |w.known| <= 4
    ensures Spelled(w) == Signing(w) + Marking(w.mark)
  {
    var s, y, m, d := (if w.neg then [45] else []), w.known + Xs(4 - |w.known|), Field(w.month), Field(w.day);
    assert s + w.known + Xs(4 - |w.known|) == s + y;
    assert s + y + m + d == s + (y + m + d);
    hide Xs, Field;
  }

  lemma SigningChars(w: Spelling)
    requires IsSpelling(w)
    ensures var t := Signing(w);
            && |t| >= 4 && t[0] != 89 && (t[0] == 45 <==> w.neg) && Unsigned(t) == Middle(w)
            && t[|t| - 1] !in {63, 126, 37}
            && forall c | c in t :: 48 <= c <= 57 || c == 88 || c == 45
  {
    MiddleChars(w);
    SignBefore(w.neg, Middle(w));
    hide Middle, IsSpelling;
  }

  lemma SignBefore(neg: bool, mid: seq<Byte>)
    requires |mid| >= 4 && mid[0] != 45 && mid[0] != 89
    requires forall c | c in mid :: 48 <= c <= 57 || c == 88 || c == 45
    ensures var t := (if neg then [45] else []) + mid;
            && |t| >= 4 && t[0] != 89 && (t[0] == 45 <==> neg) && Unsigned(t) == mid
            && t[|t| - 1] !in {63, 126, 37}
            && forall c | c in t :: 48 <= c <= 57 || c == 88 || c == 45
  {
    var t := (if neg then [45] else []) + mid;
    assert t[|t| - 1] == mid[|mid| - 1] && mid[|mid| - 1] in mid;
    if neg {
      assert t[1..] == mid;
    } else {
      assert t == mid;
    }
  }

  lemma MarkRead(t: seq<Byte>, mark: Option<Byte>)
    requires t != [] && t[|t| - 1] !in {63, 126, 37} && (mark.Some? ==> mark.value in {63, 126, 37})
    ensures Qualified(t + Marking(mark)) == (t, MarkOf(mark))
  {
    var txt := t + Marking(mark);
    if mark.Some? {
      assert txt[..|txt| - 1] == t && txt[|txt| - 1] == mark.value;
    } else {
      assert txt == t;
    }
  }

  lemma MarkKnown(w: Spelling)
    requires IsSpelling(w)
    ensures |w.known| <= 4 && (w.mark.Some? ==> w.mark.value in {63, 126, 37})
  {
  }

  /** From its sign, its fields and its qualifier to a whole date. */
  lemma BodyRead(txt: seq<Byte>, body: seq<Byte>, neg: bool, q: Option<Qualifier>, fields: seq<seq<Byte>>)
    requires Qualified(txt) == (body, q) && body != [] && body[0] != 89 && (body[0] == 45 <==> neg)
    requires fields != [] && Split(Unsigned(body), 45) == fields
    ensures ParseDate(txt) == ParseFields(neg, fields, q)
  {
    EdtfReading.ParsesAs(txt, body, q);
    hide ParseDate, ParseFields, Split, Unsigned, Qualified;
  }

  lemma DateChars(t: seq<Byte>, mark: Option<Byte>)
    requires |t| >= 4 && forall c | c in t :: 48 <= c <= 57 || c == 88 || c == 45
    requires mark.Some? ==> mark.value in {63, 126, 37}
    ensures var txt := t + Marking(mark); |txt| >= 4 && 47 !in txt && 84 !in txt && 46 !in txt
  {
  }

  /** What a date is read as, from its text: a value that is meant, or a refusal when there is no such date. */
  lemma DateTextShown(w: Spelling)
    requires IsSpelling(w)
    ensures ParseDate(Spelled(w)) == if Exists(w) then Ok(Meant(w)) else Refused
    ensures |Spelled(w)| >= 4 && 47 !in Spelled(w) && 84 !in Spelled(w) && 46 !in Spelled(w)
  {
    hide *;
    MarkKnown(w);
    SpelledIs(w);
    SigningChars(w);
    MarkRead(Signing(w), w.mark);
    DateChars(Signing(w), w.mark);
    MiddleSplits(w);
    FieldsShown(w);
    BodyRead(Spelled(w), Signing(w), w.neg, MarkOf(w.mark), FieldsOf(w));
  }

  lemma DateShown(w: Spelling)
    requires IsSpelling(w)
    ensures Parse(Spelled(w)) == if Exists(w) then Ok(OnDate(Meant(w))) else Refused
  {
    DateTextShown(w);
    SplitWhole(Spelled(w), 47);
    hide ParseDate, Split, Spelled, Exists, Meant;
  }

  // ---------------------------------------------------------------------------
  // Days
  // ---------------------------------------------------------------------------

  /** Sign, four digits, two digits and two digits, with nothing after them. */
  ghost predicate IsFullText(w: Spelling) {
    IsSpelling(w) && IsFull(w) && w.mark.None?
  }

  /** The number of the day that year, month and day would have. */
  ghost function DayNumber(w: Spelling): int
    requires IsFullText(w)
  {
    Calendar.Day(YearValue(w), Decimal(w.month.value), Decimal(w.day.value))
  }

  /**
    A full date is accepted if its month has that day: from its first day on, and before the first of
    the month after.
   */
  lemma FullDateShown(w: Spelling)
    requires IsFullText(w)
    ensures YearValue(w) == Minus(w.neg, Decimal(w.known))
    ensures Decimal(w.month.value) >= 0 && Decimal(w.day.value) >= 0
    ensures Parse(Spelled(w)).Ok? <==> Calendar.IsDate(YearValue(w), Decimal(w.month.value), Decimal(w.day.value))
    ensures Parse(Spelled(w)).Ok? ==>
              Parse(Spelled(w)).value == OnDate(Date(Year(YearValue(w), 0, false), Some(Num(Decimal(w.month.value))),
                                                     Some(Num(Decimal(w.day.value))), None))
  {
    DateShown(w);
    PartsMeant(w);
    if Calendar.IsDate(YearValue(w), Decimal(w.month.value), Decimal(w.day.value)) {
      Calendar.AtMost31(YearValue(w), Decimal(w.month.value), Decimal(w.day.value));
    }
    hide Parse, Spelled, Calendar.IsDate, Decimal, PartOf, Digits;
  }

  /** Accepted full dates number their days in the order of year, month and day: no two share a number. */
  lemma DaysApart(w: Spelling, w': Spelling)
    requires IsFullText(w) && IsFullText(w') && Parse(Spelled(w)).Ok? && Parse(Spelled(w')).Ok?
    ensures DayNumber(w) < DayNumber(w') <==>
              || YearValue(w) < YearValue(w')
              || (YearValue(w) == YearValue(w') && Decimal(w.month.value) < Decimal(w'.month.value))
              || (YearValue(w) == YearValue(w') && Decimal(w.month.value) == Decimal(w'.month.value) &&
                    Decimal(w.day.value) < Decimal(w'.day.value))
    ensures !w.neg && !w'.neg && DayNumber(w) == DayNumber(w') ==> w == w'
  {
    FullDateShown(w);
    FullDateShown(w');
    DecimalApart(w.known, w'.known);
    DecimalApart(w.month.value, w'.month.value);
    DecimalApart(w.day.value, w'.day.value);
    hide Decimal, Spelled, Parse, Calendar.IsDate, Calendar.Day, Digits, TwoPlaces;
    Calendar.DaysInOrder(YearValue(w), Decimal(w.month.value), Decimal(w.day.value),
                         YearValue(w'), Decimal(w'.month.value), Decimal(w'.day.value));
    Calendar.DaysInOrder(YearValue(w'), Decimal(w'.month.value), Decimal(w'.day.value),
                         YearValue(w), Decimal(w.month.value), Decimal(w.day.value));
  }

  lemma {:induction false} DecimalApart(t: seq<Byte>, u: seq<Byte>)
    requires |t| == |u|
    ensures Digits(t) && Digits(u) && Decimal(t) == Decimal(u) ==> t == u
  {
    if |t| > 0 {
      DecimalApart(t[..|t| - 1], u[..|t| - 1]);
      assert t == t[..|t| - 1] + [t[|t| - 1]] && u == u[..|t| - 1] + [u[|t| - 1]];
    }
  }

  /** And no number is left out, from the first day of the year 0 to the last of 9999. */
  lemma EveryDayAccepted(n: int) returns (w: Spelling)
    requires Calendar.Day(0, 1, 1) <= n <= Calendar.Day(9999, 12, 31)
    ensures IsFullText(w) && !w.neg && Parse(Spelled(w)).Ok? && DayNumber(w) == n
  {
    hide *;
    var y, m, d := Calendar.EveryDay(n);
    WithinYears(y, m, d, n);
    w := Written(y, m, d);
    FullDateShown(w);
  }

  lemma WithinYears(y: int, m: nat, d: nat, n: int)
    requires Calendar.IsDate(y, m, d) && Calendar.Day(y, m, d) == n
    requires Calendar.Day(0, 1, 1) <= n <= Calendar.Day(9999, 12, 31)
    ensures 0 <= y <= 9999 && m <= 12 && d <= 31
  {
    Calendar.AtMost31(y, m, d);
    assert Calendar.IsDate(0, 1, 1) && Calendar.IsDate(9999, 12, 31) && m <= 12;
    hide *;
    Calendar.DaysInOrder(y, m, d, 0, 1, 1);
    Calendar.DaysInOrder(9999, 12, 31, y, m, d);
  }

  ghost function Written(y: nat, m: nat, d: nat): (w: Spelling)
    requires y <= 9999 && m <= 12 && d <= 31
    ensures IsFullText(w) && !w.neg && YearValue(w) == y && Decimal(w.month.value) == m && Decimal(w.day.value) == d
    ensures Calendar.IsDate(YearValue(w), Decimal(w.month.value), Decimal(w.day.value)) == Calendar.IsDate(y, m, d)
    ensures DayNumber(w) == Calendar.Day(y, m, d)
  {
    var t, u := Places(m, 2), Places(d, 2);
    assert t[0] != 88 && u[0] != 88;
    Spelling(false, Places(y, 4), Some(t), Some(u), None)
  }

  /** A number in `k` digits. */
  ghost function Places(n: nat, k: nat): (t: seq<Byte>)
    requires k <= 4 && n < Tens(k)
    ensures |t| == k && Digits(t) && Decimal(t) == n
  {
    if k == 0 then []
    else
      var t := Places(n / 10, k - 1);
      assert (t + [48 + n % 10])[..k - 1] == t;
      t + [48 + n % 10]
  }

  // ---------------------------------------------------------------------------
  // Long years
  // ---------------------------------------------------------------------------

  function LongText(neg: bool, digits: seq<Byte>, mark: Option<Byte>): seq<Byte> {
    [89] + ((if neg then [45] else []) + digits) + Marking(mark)
  }

  /** Five digits at least, none of them a zero in front, and within 32 bits. */
  ghost predicate LongExists(neg: bool, digits: seq<Byte>)
    requires Digits(digits)
  {
    |digits| >= 5 && digits[0] != 48 && Decimal(digits) <= if neg then 0x8000_0000 else 0x7fff_ffff
  }

  lemma LongIsLong(digits: seq<Byte>)
    requires Digits(digits) && |digits| >= 5 && digits[0] != 48
    ensures Decimal(digits) >= 10000
  {
    DecimalIs(digits);
    NoLeadingZero(digits);
    EdtfRoundTrip.Pow10Values();
    Pow10Grows(4, |digits| - 1);
  }

  lemma LongRestShown(neg: bool, digits: seq<Byte>)
    requires Digits(digits)
    ensures ParseLong((if neg then [45] else []) + digits)
         == if LongExists(neg, digits) then Ok(Year(Minus(neg, Decimal(digits)), 0, true)) else Refused
  {
    var rest := (if neg then [45] else []) + digits;
    assert if neg then rest[1..] == digits else rest == digits;
    assert rest != [] && rest[0] == 45 <==> neg;
    DecimalIs(digits);
    if |digits| >= 5 && digits[0] != 48 {
      LongIsLong(digits);
    }
    hide Number, Decimal;
  }

  lemma LongBody(rest: seq<Byte>, mark: Option<Byte>)
    requires (forall c | c in rest :: c == 45 || 48 <= c <= 57) && (mark.Some? ==> mark.value in {63, 126, 37})
    ensures var txt := [89] + rest + Marking(mark);
            && Qualified(txt) == ([89] + rest, MarkOf(mark)) && ([89] + rest)[1..] == rest
            && txt != [] && txt[0] == 89 && 47 !in txt && 84 !in txt
  {
    var body := [89] + rest;
    assert body[|body| - 1] == 89 || body[|body| - 1] in rest;
    MarkRead(body, mark);
  }

  lemma LongOnly(txt: seq<Byte>, rest: seq<Byte>, q: Option<Qualifier>)
    requires Qualified(txt) == ([89] + rest, q) && ([89] + rest)[1..] == rest
    ensures ParseDate(txt)
         == match ParseLong(rest)
            case Ok(y) => Ok(Date(y, None, None, q))
            case Refused => Refused
            case Panicked => Panicked
  {
    hide ParseLong, Qualified;
  }

  /** What a long year is read as. */
  lemma LongTextShown(neg: bool, digits: seq<Byte>, mark: Option<Byte>)
    requires Digits(digits) && (mark.Some? ==> mark.value in {63, 126, 37})
    ensures ParseDate(LongText(neg, digits, mark))
         == if LongExists(neg, digits) then Ok(Date(Year(Minus(neg, Decimal(digits)), 0, true), None, None, MarkOf(mark)))
            else Refused
    ensures var txt := LongText(neg, digits, mark); txt != [] && txt[0] == 89 && 47 !in txt && 84 !in txt
  {
    var rest := (if neg then [45] else []) + digits;
    LongRestShown(neg, digits);
    LongBody(rest, mark);
    LongOnly(LongText(neg, digits, mark), rest, MarkOf(mark));
    hide Decimal, ParseLong, Qualified, LongExists, Split, ParseDate, Minus;
  }

  lemma LongShown(neg: bool, digits: seq<Byte>, mark: Option<Byte>)
    requires Digits(digits) && (mark.Some? ==> mark.value in {63, 126, 37})
    ensures Parse(LongText(neg, digits, mark))
         == if LongExists(neg, digits)
            then Ok(OnDate(Date(Year(Minus(neg, Decimal(digits)), 0, true), None, None, MarkOf(mark))))
            else Refused
  {
    LongTextShown(neg, digits, mark);
    SplitWhole(LongText(neg, digits, mark), 47);
    hide Decimal, ParseDate, LongExists, Split, Minus, LongText;
  }

  // ---------------------------------------------------------------------------
  // Times
  // ---------------------------------------------------------------------------

  datatype ZoneText = NoZone | Zed | Away(east: bool, hours: seq<Byte>, minutes: seq<Byte>)

  ghost predicate TwoDigitsText(t: seq<Byte>) {
    |t| == 2 && Digits(t)
  }

  ghost predicate IsZone(z: ZoneText) {
    z.Away? ==> TwoDigitsText(z.hours) && TwoDigitsText(z.minutes)
  }

  function ZoneSpelled(z: ZoneText): seq<Byte> {
    match z
    case NoZone => []
    case Zed => [90]
    case Away(east, h, m) => [if east then 43 else 45] + (h + [58] + m)
  }

  /** Below a day, and not nothing to the west. */
  ghost predicate ZoneExists(z: ZoneText) {
    z.Away? ==> Decimal(z.hours) < 24 && Decimal(z.minutes) < 60 && (z.east || Decimal(z.hours) + Decimal(z.minutes) > 0)
  }

  ghost function ZoneMeant(z: ZoneText): Option<Zone> {
    match z
    case NoZone => None
    case Zed => Some(Utc)
    case Away(east, h, m) => Some(Offset(Minus(!east, 60 * Decimal(h) + Decimal(m))))
  }

  lemma OffsetShown(east: bool, h: seq<Byte>, m: seq<Byte>)
    requires TwoDigitsText(h) && TwoDigitsText(m)
    ensures ParseOffset(east, h + [58] + m)
         == if ZoneExists(Away(east, h, m)) then Ok(Offset(Minus(!east, 60 * Decimal(h) + Decimal(m)))) else Refused
  {
    DecimalIs(h);
    DecimalIs(m);
    FirstIndexFound(h, 58, m);
    var t := h + [58] + m;
    assert t[..2] == h && t[3..] == m;
    hide FirstIndex, Number, Decimal;
  }

  lemma ZoneShown(clock: seq<Byte>, z: ZoneText)
    requires clock != [] && (forall c | c in clock :: 48 <= c <= 58) && IsZone(z)
    ensures SplitZone(clock + ZoneSpelled(z)) == if ZoneExists(z) then Ok((clock, ZoneMeant(z))) else Refused
  {
    var t := clock + ZoneSpelled(z);
    assert clock[|clock| - 1] in clock;
    match z
    case NoZone =>
      assert t == clock;
      hide LastIndex, ParseOffset;
      assert forall i | 0 <= i < |clock| :: clock[i] in clock;
    case Zed =>
      assert t[..|t| - 1] == clock;
      hide LastIndex, ParseOffset;
    case Away(east, h, m) =>
      AwayShown(clock, east, h, m);
  }

  /** The zone begins at the last sign. */
  lemma SignSplits(clock: seq<Byte>, east: bool, text: seq<Byte>)
    requires text != [] && forall c | c in text :: 48 <= c <= 58
    ensures SplitZone(clock + ([if east then 43 else 45] + text))
         == match ParseOffset(east, text)
            case Ok(zone) => Ok((clock, Some(zone)))
            case Refused => Refused
            case Panicked => Panicked
  {
    var sign: Byte := if east then 43 else 45;
    SignAt(clock, sign, text);
    LastIndexFound(clock, sign, text, 43, 45);
    hide ParseOffset, LastIndex;
  }

  lemma SignAt(clock: seq<Byte>, sign: Byte, text: seq<Byte>)
    requires text != [] && forall c | c in text :: 48 <= c <= 58
    ensures var t := clock + ([sign] + text);
            && t == clock + [sign] + text && |t| > |clock| && t[|t| - 1] != 90
            && t[..|clock|] == clock && t[|clock| + 1..] == text && t[|clock|] == sign
  {
    var t := clock + ([sign] + text);
    assert t[|t| - 1] == text[|text| - 1] && text[|text| - 1] in text;
  }

  lemma OffsetChars(east: bool, h: seq<Byte>, m: seq<Byte>)
    requires TwoDigitsText(h) && TwoDigitsText(m)
    ensures var text := h + [58] + m; text != [] && forall c | c in text :: 48 <= c <= 58
    ensures ZoneSpelled(Away(east, h, m)) == [if east then 43 else 45] + (h + [58] + m)
  {
  }

  lemma AwayMeant(east: bool, h: seq<Byte>, m: seq<Byte>)
    ensures ZoneMeant(Away(east, h, m)) == Some(Offset(Minus(!east, 60 * Decimal(h) + Decimal(m))))
  {
    hide Decimal, Minus;
  }

  lemma AwayShown(clock: seq<Byte>, east: bool, h: seq<Byte>, m: seq<Byte>)
    requires TwoDigitsText(h) && TwoDigitsText(m)
    ensures var z := Away(east, h, m);
            SplitZone(clock + ZoneSpelled(z)) == if ZoneExists(z) then Ok((clock, ZoneMeant(z))) else Refused
  {
    hide *;
    OffsetShown(east, h, m);
    OffsetChars(east, h, m);
    SignSplits(clock, east, h + [58] + m);
    AwayMeant(east, h, m);
  }

  lemma ClockShown(h: seq<Byte>, m: seq<Byte>, s: seq<Byte>)
    requires TwoDigitsText(h) && TwoDigitsText(m) && TwoDigitsText(s)
    ensures Decimal(h) >= 0 && Decimal(m) >= 0 && Decimal(s) >= 0
    ensures ParseClock(h + [58] + m + [58] + s)
         == if Decimal(h) < 24 && Decimal(m) < 60 && Decimal(s) < 60 then Ok((Decimal(h), Decimal(m), Decimal(s))) else Refused
  {
    DecimalIs(h);
    DecimalIs(m);
    DecimalIs(s);
    EdtfReading.ClockSplits(h, m, s);
    hide Number, Decimal, Split;
  }

  function ClockText(h: seq<Byte>, m: seq<Byte>, s: seq<Byte>): seq<Byte> {
    h + [58] + m + [58] + s
  }

  /** A full date that there is, a time of day and a zone that there is. */
  ghost predicate TimeExists(w: Spelling, h: seq<Byte>, m: seq<Byte>, s: seq<Byte>, z: ZoneText)
    requires IsSpelling(w)
  {
    Exists(w) && IsFull(w) && w.mark.None? && Decimal(h) < 24 && Decimal(m) < 60 && Decimal(s) < 60 && ZoneExists(z)
  }

  ghost function TimeMeant(w: Spelling, h: seq<Byte>, m: seq<Byte>, s: seq<Byte>, z: ZoneText): DateTime
    requires IsSpelling(w) && IsFull(w) && TwoDigitsText(h) && TwoDigitsText(m) && TwoDigitsText(s)
  {
    PartsMeant(w);
    DecimalIs(h);
    DecimalIs(m);
    DecimalIs(s);
    DateTime(YearValue(w), Decimal(w.month.value), Decimal(w.day.value), Decimal(h), Decimal(m), Decimal(s), ZoneMeant(z))
  }

  lemma ClockChars(h: seq<Byte>, m: seq<Byte>, s: seq<Byte>, z: ZoneText)
    requires TwoDigitsText(h) && TwoDigitsText(m) && TwoDigitsText(s) && IsZone(z)
    ensures var t := ClockText(h, m, s); t != [] && forall c | c in t :: 48 <= c <= 58
    ensures 47 !in ClockText(h, m, s) + ZoneSpelled(z)
  {
  }

  lemma OnDateShown(d: Date, h: seq<Byte>, m: seq<Byte>, s: seq<Byte>, z: ZoneText)
    requires IsFullDate(d) && TwoDigitsText(h) && TwoDigitsText(m) && TwoDigitsText(s) && IsZone(z)
    ensures Decimal(h) >= 0 && Decimal(m) >= 0 && Decimal(s) >= 0
    ensures TimeOn(d, ClockText(h, m, s) + ZoneSpelled(z))
         == if Decimal(h) < 24 && Decimal(m) < 60 && Decimal(s) < 60 && ZoneExists(z)
            then Ok(DateTime(d.year.value, d.month.value.n, d.day.value.n, Decimal(h), Decimal(m), Decimal(s), ZoneMeant(z)))
            else Refused
  {
    ClockChars(h, m, s, z);
    ClockShown(h, m, s);
    ZoneShown(ClockText(h, m, s), z);
    hide SplitZone, ParseClock, Decimal, ZoneExists, ZoneMeant, ZoneSpelled, Digits;
  }

  lemma HalvesRead(txt: seq<Byte>, half: seq<Byte>, rest: seq<Byte>)
    requires txt == half + [84] + rest && 47 !in half && 47 !in rest && 84 !in half
    ensures Parse(txt)
         == match ParseDate(half)
            case Refused => Refused
            case Panicked => Panicked
            case Ok(d) =>
              if !IsFullDate(d) then Refused
              else
                match TimeOn(d, rest)
                case Ok(t) => Ok(AtTime(t))
                case Refused => Refused
                case Panicked => Panicked
  {
    FirstIndexFound(half, 84, rest);
    EdtfReading.TimeJoins(half, rest, txt);
    SplitWhole(txt, 47);
    hide Split, ParseDate, TimeOn, IsFullDate, FirstIndex;
  }

  /** What a date and time is read as. */
  lemma TimeShown(w: Spelling, h: seq<Byte>, m: seq<Byte>, s: seq<Byte>, z: ZoneText)
    requires IsSpelling(w) && TwoDigitsText(h) && TwoDigitsText(m) && TwoDigitsText(s) && IsZone(z)
    ensures Parse(Spelled(w) + [84] + (ClockText(h, m, s) + ZoneSpelled(z)))
         == if TimeExists(w, h, m, s, z) then Ok(AtTime(TimeMeant(w, h, m, s, z))) else Refused
  {
    var half, rest := Spelled(w), ClockText(h, m, s) + ZoneSpelled(z);
    var full := IsFull(w) && w.mark.None?;
    FullMeant(w);
    TimeExistsIs(w, h, m, s, z);
    if IsFull(w) {
      TimeMeantIs(w, h, m, s, z);
    }
    hide *;
    DateTextShown(w);
    ClockChars(h, m, s, z);
    HalvesRead(half + [84] + rest, half, rest);
    if full {
      OnDateShown(Meant(w), h, m, s, z);
    }
  }

  lemma TimeExistsIs(w: Spelling, h: seq<Byte>, m: seq<Byte>, s: seq<Byte>, z: ZoneText)
    requires IsSpelling(w)
    ensures TimeExists(w, h, m, s, z)
       <==> Exists(w) && IsFull(w) && w.mark.None? && Decimal(h) < 24 && Decimal(m) < 60 && Decimal(s) < 60 && ZoneExists(z)
  {
    hide Exists, Decimal, IsFull, ZoneExists;
  }

  lemma TimeMeantIs(w: Spelling, h: seq<Byte>, m: seq<Byte>, s: seq<Byte>, z: ZoneText)
    requires IsSpelling(w) && IsFull(w) && TwoDigitsText(h) && TwoDigitsText(m) && TwoDigitsText(s)
    ensures Decimal(w.month.value) >= 0 && Decimal(w.day.value) >= 0 && Decimal(h) >= 0 && Decimal(m) >= 0 && Decimal(s) >= 0
    ensures TimeMeant(w, h, m, s, z) ==
            DateTime(YearValue(w), Decimal(w.month.value), Decimal(w.day.value), Decimal(h), Decimal(m), Decimal(s), ZoneMeant(z))
  {
    PartsMeant(w);
    DecimalIs(h);
    DecimalIs(m);
    DecimalIs(s);
    hide Decimal, YearValue, ZoneMeant, PartOf;
  }

  lemma FullMeant(w: Spelling)
    requires IsSpelling(w)
    ensures IsFullDate(Meant(w)) <==> IsFull(w) && w.mark.None?
    ensures IsFull(w) ==>
              && Decimal(w.month.value) >= 0 && Decimal(w.day.value) >= 0 && Meant(w).year.value == YearValue(w)
              && Meant(w).month == Some(Num(Decimal(w.month.value))) && Meant(w).day == Some(Num(Decimal(w.day.value)))
  {
    PartsMeant(w);
    hide PartOf, Decimal, Digits, TwoPlaces, YearValue;
  }

  // ---------------------------------------------------------------------------
  // Intervals
  // ---------------------------------------------------------------------------

  /** An end: nothing, two dots, or what is by itself a date. */
  function EndMeant(t: seq<Byte>): Outcome<End> {
    if t == [] then Ok(Unknown)
    else if t == [46, 46] then Ok(Open)
    else
      match Parse(t)
      case Ok(OnDate(d)) => Ok(Dated(d))
      case Panicked => if 84 in t then Refused else Panicked
      case _ => Refused
  }

  lemma EndShown(t: seq<Byte>)
    requires 47 !in t
    ensures ParseEnd(t) == EndMeant(t)
  {
    SplitWhole(t, 47);
    hide Split, ParseDate, ParseTime;
  }

  /** Two ends with a date at one of them; anything else with a slash in it is refused. */
  lemma IntervalShown(lo: seq<Byte>, hi: seq<Byte>)
    requires 47 !in lo && 47 !in hi
    ensures Parse(lo + [47] + hi)
         == match EndMeant(lo)
            case Refused => Refused
            case Panicked => Panicked
            case Ok(a) =>
              match EndMeant(hi)
              case Refused => Refused
              case Panicked => Panicked
              case Ok(b) => if a.Dated? || b.Dated? then Ok(Interval(a, b)) else Refused
  {
    SplitAt(lo, 47, hi);
    SplitWhole(hi, 47);
    EndShown(lo);
    EndShown(hi);
    hide Split, ParseEnd, EndMeant;
  }

  lemma TwoSlashesShown(a: seq<Byte>, b: seq<Byte>, c: seq<Byte>)
    requires 47 !in a && 47 !in b
    ensures Parse(a + [47] + (b + [47] + c)) == Refused
  {
    SplitAt(a, 47, b + [47] + c);
    SplitAt(b, 47, c);
    hide Split, ParseEnd;
  }

  // ---------------------------------------------------------------------------
  // All that is accepted
  // ---------------------------------------------------------------------------

  ghost predicate IsDateText(t: seq<Byte>) {
    exists w :: IsSpelling(w) && Exists(w) && Spelled(w) == t
  }

  ghost predicate IsLongText(t: seq<Byte>) {
    exists neg, digits, mark: Option<Byte> ::
      && Digits(digits) && (mark.Some? ==> mark.value in {63, 126, 37}) && LongExists(neg, digits)
      && LongText(neg, digits, mark) == t
  }

  ghost predicate IsTimeText(t: seq<Byte>) {
    exists w, h, m, s, z ::
      && IsSpelling(w) && TwoDigitsText(h) && TwoDigitsText(m) && TwoDigitsText(s) && IsZone(z)
      && TimeExists(w, h, m, s, z) && Spelled(w) + [84] + (ClockText(h, m, s) + ZoneSpelled(z)) == t
  }

  ghost predicate IsDated(t: seq<Byte>) {
    IsDateText(t) || IsLongText(t)
  }

  ghost predicate IsIntervalText(t: seq<Byte>) {
    exists lo, hi ::
      && (IsDated(lo) || IsDated(hi)) && (lo in [[], [46, 46]] || IsDated(lo)) && (hi in [[], [46, 46]] || IsDated(hi))
      && lo + [47] + hi == t
  }

  lemma DigitsAre(t: seq<Byte>)
    requires AllDigits(t)
    ensures Digits(t)
  {
    assert forall i | 0 <= i < |t| :: t[i] in t && IsDigit(t[i]);
  }

  lemma TwoPlacesRead(t: seq<Byte>, which: Component)
    requires ParseTwo(t, which).Ok?
    ensures TwoPlaces(t)
  {
    if t != [88, 88] {
      DigitsAre(t);
    }
    hide Number;
  }

  /** How many digits of a year are known. */
  lemma YearRead(neg: bool, t: seq<Byte>) returns (known: seq<Byte>)
    requires PlainYear(neg, t).Ok?
    ensures |known| <= 4 && Digits(known) && t == known + Xs(4 - |known|)
  {
    var keep := 4 - CountOf(t, MASK);
    hide CountOf, YearOf;
    known := t[..keep];
    DigitsAre(known);
    var rest := t[keep..];
    assert forall i | 0 <= i < |rest| :: rest[i] in rest;
    assert rest == Xs(4 - keep);
    assert t == known + rest;
  }

  lemma MarkSplit(t: seq<Byte>) returns (mark: Option<Byte>)
    ensures mark.Some? ==> mark.value in {63, 126, 37}
    ensures t == Qualified(t).0 + Marking(mark)
  {
    mark := if Qualified(t).1.Some? then Some(t[|t| - 1]) else None;
    var body := Qualified(t).0;
    if mark.Some? {
      assert t == body + [t[|t| - 1]];
    } else {
      assert body + [] == t;
    }
  }

  lemma JoinedOne(y: seq<Byte>)
    ensures Joined([y], 45) == y
  {
  }

  lemma JoinedTwo(y: seq<Byte>, m: seq<Byte>)
    ensures Joined([y, m], 45) == y + ([45] + m)
  {
    assert [y, m][1..] == [m];
  }

  lemma JoinedThree(y: seq<Byte>, m: seq<Byte>, d: seq<Byte>)
    ensures Joined([y, m, d], 45) == y + ([45] + m) + ([45] + d)
  {
    assert [y, m, d][1..] == [m, d];
    JoinedTwo(m, d);
    hide Joined;
    assert y + [45] + (m + ([45] + d)) == y + ([45] + m) + ([45] + d);
  }

  lemma FieldsSpell(neg: bool, fields: seq<seq<Byte>>, q: Option<Qualifier>, mark: Option<Byte>) returns (w: Spelling)
    requires fields != [] && ParseFields(neg, fields, q).Ok? && (mark.Some? ==> mark.value in {63, 126, 37})
    ensures IsSpelling(w) && w.neg == neg && w.mark == mark && Middle(w) == Joined(fields, 45)
  {
    assert |fields| <= 3 && PlainYear(neg, fields[0]).Ok?
        && (|fields| > 1 ==> ParseTwo(fields[1], Month).Ok?) && (|fields| > 2 ==> ParseTwo(fields[2], Day).Ok?) by {
      hide PlainYear, ParseTwo, DaysInMonth;
    }
    hide *;
    var known := YearRead(neg, fields[0]);
    if |fields| > 1 {
      TwoPlacesRead(fields[1], Month);
    }
    if |fields| > 2 {
      TwoPlacesRead(fields[2], Day);
    }
    w := Spelling(neg, known, if |fields| > 1 then Some(fields[1]) else None, if |fields| > 2 then Some(fields[2]) else None,
                  mark);
    SpellingMade(w);
    MiddleMade(w, fields);
  }

  lemma SpellingMade(w: Spelling)
    requires |w.known| <= 4 && Digits(w.known)
    requires (w.month.Some? ==> TwoPlaces(w.month.value)) && (w.day.Some? ==> TwoPlaces(w.day.value) && w.month.Some?)
    requires w.mark.Some? ==> w.mark.value in {63, 126, 37}
    ensures IsSpelling(w)
  {
    hide Digits, TwoPlaces;
  }

  lemma MiddleMade(w: Spelling, fields: seq<seq<Byte>>)
    requires |w.known| <= 4 && 1 <= |fields| <= 3 && fields[0] == w.known + Xs(4 - |w.known|)
    requires w.month == if |fields| > 1 then Some(fields[1]) else None
    requires w.day == if |fields| > 2 then Some(fields[2]) else None
    ensures Middle(w) == Joined(fields, 45)
  {
    hide Joined, Xs;
    var y := fields[0];
    if |fields| == 1 {
      assert fields == [y] && y + [] + [] == y;
      JoinedOne(y);
    } else if |fields| == 2 {
      assert fields == [y, fields[1]] && y + ([45] + fields[1]) + [] == y + ([45] + fields[1]);
      JoinedTwo(y, fields[1]);
    } else {
      assert fields == [y, fields[1], fields[2]];
      JoinedThree(y, fields[1], fields[2]);
    }
  }

  lemma UnsignedSplit(body: seq<Byte>)
    ensures body == (if body != [] && body[0] == 45 then [45] else []) + Unsigned(body)
  {
  }

  /** Whatever is read as a date, not a long year, is spelled as above. */
  lemma DateSpells(t: seq<Byte>) returns (w: Spelling)
    requires ParseDate(t).Ok? && (Qualified(t).0 != [] ==> Qualified(t).0[0] != 89)
    ensures IsSpelling(w) && Spelled(w) == t
  {
    var body, q := Qualified(t).0, Qualified(t).1;
    var neg := body != [] && body[0] == 45;
    assert ParseFields(neg, Split(Unsigned(body), 45), q).Ok? by {
      hide Qualified, Split, ParseFields, Unsigned;
    }
    hide Qualified, Split, ParseFields, Unsigned, ParseDate, Spelled, Marking, Middle, IsSpelling, Digits;
    var mark := MarkSplit(t);
    w := FieldsSpell(neg, Split(Unsigned(body), 45), q, mark);
    SplitJoins(Unsigned(body), 45);
    UnsignedSplit(body);
    assert |w.known| <= 4 by {
      MarkKnown(w);
    }
    SpelledIs(w);
  }

  lemma LongSpells(t: seq<Byte>) returns (neg: bool, digits: seq<Byte>, mark: Option<Byte>)
    requires ParseDate(t).Ok? && Qualified(t).0 != [] && Qualified(t).0[0] == 89
    ensures Digits(digits) && (mark.Some? ==> mark.value in {63, 126, 37}) && LongText(neg, digits, mark) == t
  {
    var body := Qualified(t).0;
    var rest := body[1..];
    assert ParseLong(rest).Ok? by {
      hide Qualified, ParseLong;
    }
    hide Qualified;
    neg := rest != [] && rest[0] == 45;
    digits := if neg then rest[1..] else rest;
    DigitsAre(digits);
    mark := MarkSplit(t);
    assert body == [89] + rest && rest == (if neg then [45] else []) + digits;
    hide Marking, ParseDate, Digits, Number;
  }

  lemma LongAccepted(t: seq<Byte>)
    requires ParseDate(t).Ok? && Qualified(t).0 != [] && Qualified(t).0[0] == 89
    ensures IsLongText(t)
  {
    var neg, digits, mark := LongSpells(t);
    LongTextShown(neg, digits, mark);
    hide Qualified, ParseDate, LongText, LongExists, Digits, Decimal, Minus;
  }

  lemma DateAccepted(t: seq<Byte>)
    requires ParseDate(t).Ok? && (Qualified(t).0 != [] ==> Qualified(t).0[0] != 89)
    ensures IsDateText(t)
  {
    var w := DateSpells(t);
    hide *;
    DateTextShown(w);
    SpelledIsText(w);
  }

  lemma SpelledIsText(w: Spelling)
    requires IsSpelling(w) && Exists(w)
    ensures |w.known| <= 4 && IsDateText(Spelled(w))
  {
    hide Spelled, Exists;
  }

  /** The texts read as a date, by itself or at the end of an interval: of the two kinds. */
  lemma DatedExactly(t: seq<Byte>)
    ensures ParseDate(t).Ok? <==> IsDated(t)
    ensures IsDated(t) ==> 47 !in t && 84 !in t && t !in [[], [46, 46]]
  {
    if ParseDate(t).Ok? {
      hide ParseDate, Qualified, IsDateText, IsLongText;
      if Qualified(t).0 != [] && Qualified(t).0[0] == 89 {
        LongAccepted(t);
      } else {
        DateAccepted(t);
      }
    }
    if IsDated(t) {
      DatedRead(t);
    }
    hide ParseDate, IsDateText, IsLongText;
  }

  lemma DatedRead(t: seq<Byte>)
    requires IsDated(t)
    ensures ParseDate(t).Ok? && 47 !in t && 84 !in t && t !in [[], [46, 46]]
  {
    hide Exists, Spelled, LongExists, LongText, Decimal, Digits, TwoPlaces, Minus, Meant, ParseDate, MarkOf;
    if IsDateText(t) {
      var w :| IsSpelling(w) && Exists(w) && Spelled(w) == t;
      DateTextShown(w);
      DotsAre();
    } else {
      var neg, digits, mark: Option<Byte> :|
        && Digits(digits) && (mark.Some? ==> mark.value in {63, 126, 37}) && LongExists(neg, digits)
        && LongText(neg, digits, mark) == t;
      LongTextShown(neg, digits, mark);
    }
  }

  lemma DotsAre()
    ensures var dots: seq<Byte> := [46, 46]; 46 in dots
  {
  }

  lemma OffsetSpells(east: bool, t: seq<Byte>) returns (h: seq<Byte>, m: seq<Byte>)
    requires ParseOffset(east, t).Ok?
    ensures TwoDigitsText(h) && TwoDigitsText(m) && t == h + [58] + m
  {
    var i := FirstIndex(t, 58);
    h, m := t[..i], t[i + 1..];
    hide FirstIndex, Number;
    DigitsAre(h);
    DigitsAre(m);
  }

  lemma AwaySpells(t: seq<Byte>, p: nat) returns (z: ZoneText)
    requires p < |t| && t[p] in {43, 45} && ParseOffset(t[p] == 43, t[p + 1..]).Ok?
    ensures IsZone(z) && t == t[..p] + ZoneSpelled(z)
  {
    var sign, rest := t[p], t[p + 1..];
    assert t == t[..p] + ([sign] + rest);
    var h, m := OffsetSpells(sign == 43, rest);
    z := Away(sign == 43, h, m);
    hide TwoDigitsText, ParseOffset;
  }

  /** What is read as a clock and a zone is spelled as above. */
  lemma ZoneSpells(t: seq<Byte>) returns (z: ZoneText)
    requires SplitZone(t).Ok?
    ensures IsZone(z) && t == SplitZone(t).value.0 + ZoneSpelled(z)
  {
    hide ParseOffset, LastIndex;
    if t != [] && t[|t| - 1] == 90 {
      z := Zed;
      assert t == SplitZone(t).value.0 + [90];
    } else if LastIndex(t, 43, 45).Some? {
      z := AwaySpells(t, LastIndex(t, 43, 45).value);
      hide ZoneSpelled;
    } else {
      z := NoZone;
      assert t == t + [];
    }
  }

  lemma ClockSpells(t: seq<Byte>) returns (h: seq<Byte>, m: seq<Byte>, s: seq<Byte>)
    requires ParseClock(t).Ok?
    ensures TwoDigitsText(h) && TwoDigitsText(m) && TwoDigitsText(s) && t == ClockText(h, m, s)
  {
    var f := Split(t, 58);
    SplitJoins(t, 58);
    hide Split, Number;
    h, m, s := f[0], f[1], f[2];
    DigitsAre(h);
    DigitsAre(m);
    DigitsAre(s);
    JoinedClock(h, m, s);
    assert f == [h, m, s];
    hide Joined, Digits;
  }

  lemma JoinedClock(h: seq<Byte>, m: seq<Byte>, s: seq<Byte>)
    ensures Joined([h, m, s], 58) == h + [58] + m + [58] + s
  {
    assert [h, m, s][1..] == [m, s] && [m, s][1..] == [s];
    assert Joined([m, s], 58) == m + [58] + s;
    assert Joined([h, m, s], 58) == h + [58] + Joined([m, s], 58);
    hide Joined;
    assert h + [58] + (m + [58] + s) == h + [58] + m + [58] + s;
  }

  lemma TimeParts(d: Date, rest: seq<Byte>)
    requires IsFullDate(d) && TimeOn(d, rest).Ok?
    ensures SplitZone(rest).Ok? && ParseClock(SplitZone(rest).value.0).Ok?
  {
    hide SplitZone, ParseClock;
  }

  lemma NotLong(t: seq<Byte>)
    requires ParseDate(t).Ok? && IsFullDate(ParseDate(t).value)
    ensures Qualified(t).0 != [] ==> Qualified(t).0[0] != 89
  {
    hide Qualified, ParseLong, ParseFields, Split;
  }

  /** Whatever is read as a date and a time is spelled as above. */
  lemma TimeSpells(t: seq<Byte>)
    returns (w: Spelling, h: seq<Byte>, m: seq<Byte>, s: seq<Byte>, z: ZoneText)
    requires ParseTime(t).Ok? && 47 !in t
    ensures IsSpelling(w) && TwoDigitsText(h) && TwoDigitsText(m) && TwoDigitsText(s) && IsZone(z)
    ensures |w.known| <= 4 && Spelled(w) + [84] + (ClockText(h, m, s) + ZoneSpelled(z)) == t
  {
    var i := FirstIndex(t, 84);
    assert i < |t|;
    var half, rest := t[..i], t[i + 1..];
    TimeHalves(t);
    hide *;
    NotLong(half);
    w := DateSpells(half);
    MarkKnown(w);
    TimeParts(ParseDate(half).value, rest);
    z := ZoneSpells(rest);
    h, m, s := ClockSpells(SplitZone(rest).value.0);
    CutAtFirst(t, 84);
  }

  lemma TimeHalves(t: seq<Byte>)
    requires ParseTime(t).Ok?
    ensures var i := FirstIndex(t, 84);
            && i < |t| && ParseDate(t[..i]).Ok? && IsFullDate(ParseDate(t[..i]).value)
            && TimeOn(ParseDate(t[..i]).value, t[i + 1..]).Ok?
  {
    hide FirstIndex, ParseDate, IsFullDate, TimeOn;
  }

  lemma TimeTextIs(w: Spelling, h: seq<Byte>, m: seq<Byte>, s: seq<Byte>, z: ZoneText)
    requires IsSpelling(w) && TwoDigitsText(h) && TwoDigitsText(m) && TwoDigitsText(s) && IsZone(z)
    requires TimeExists(w, h, m, s, z)
    ensures |w.known| <= 4 && IsTimeText(Spelled(w) + [84] + (ClockText(h, m, s) + ZoneSpelled(z)))
  {
    hide Spelled, TimeExists, ClockText, ZoneSpelled, TwoDigitsText, IsZone;
  }

  lemma TimeRead(t: seq<Byte>)
    requires IsTimeText(t)
    ensures Parse(t).Ok? && 47 !in t && 84 in t
  {
    var w, h, m, s, z :|
      && IsSpelling(w) && TwoDigitsText(h) && TwoDigitsText(m) && TwoDigitsText(s) && IsZone(z)
      && TimeExists(w, h, m, s, z) && Spelled(w) + [84] + (ClockText(h, m, s) + ZoneSpelled(z)) == t;
    assert IsFull(w);
    MarkKnown(w);
    hide *;
    TimeShown(w, h, m, s, z);
    DateTextShown(w);
    ClockChars(h, m, s, z);
    EdtfReading.TimeJoins(Spelled(w), ClockText(h, m, s) + ZoneSpelled(z), t);
  }

  lemma WholeExactly(t: seq<Byte>)
    requires 47 !in t
    ensures Parse(t).Ok? <==> IsDateText(t) || IsLongText(t) || IsTimeText(t)
  {
    DatedExactly(t);
    SplitWhole(t, 47);
    hide ParseDate, ParseTime, Split, IsDateText, IsLongText, IsTimeText;
    if IsTimeText(t) {
      TimeRead(t);
    }
    if ParseTime(t).Ok? && 84 in t && t != [] {
      assert Parse(t).Ok?;
      hide *;
      var w, h, m, s, z := TimeSpells(t);
      TimeShown(w, h, m, s, z);
      TimeTextIs(w, h, m, s, z);
    }
  }

  lemma EndExactly(t: seq<Byte>)
    requires 47 !in t
    ensures EndMeant(t).Ok? <==> t in [[], [46, 46]] || IsDated(t)
    ensures EndMeant(t).Ok? ==> (EndMeant(t).value.Dated? <==> IsDated(t))
  {
    EndShown(t);
    DatedExactly(t);
    hide EndMeant, ParseDate, IsDated;
  }

  lemma IntervalTextIs(lo: seq<Byte>, hi: seq<Byte>)
    requires (IsDated(lo) || IsDated(hi)) && (lo in [[], [46, 46]] || IsDated(lo)) && (hi in [[], [46, 46]] || IsDated(hi))
    ensures IsIntervalText(lo + [47] + hi)
  {
    hide IsDated;
  }

  lemma IntervalRead(t: seq<Byte>)
    requires IsIntervalText(t)
    ensures Parse(t).Ok? && 47 in t
  {
    hide IsDated;
    var lo, hi :|
      && (IsDated(lo) || IsDated(hi)) && (lo in [[], [46, 46]] || IsDated(lo)) && (hi in [[], [46, 46]] || IsDated(hi))
      && lo + [47] + hi == t;
    DatedExactly(lo);
    DatedExactly(hi);
    EndExactly(lo);
    EndExactly(hi);
    IntervalShown(lo, hi);
    assert t[|lo|] == 47;
    hide Parse, EndMeant, ParseDate;
  }

  lemma SlashExactly(t: seq<Byte>)
    requires 47 in t
    ensures Parse(t).Ok? <==> IsIntervalText(t)
  {
    var i := FirstIndex(t, 47);
    var lo, hi := t[..i], t[i + 1..];
    CutAtFirst(t, 47);
    hide Parse, IsIntervalText, FirstIndex;
    if IsIntervalText(t) {
      IntervalRead(t);
    }
    if 47 in hi {
      var j := FirstIndex(hi, 47);
      CutAtFirst(hi, 47);
      TwoSlashesShown(lo, hi[..j], hi[j + 1..]);
      assert t == lo + [47] + (hi[..j] + [47] + hi[j + 1..]);
    } else {
      IntervalShown(lo, hi);
      EndExactly(lo);
      EndExactly(hi);
      hide EndMeant, IsDated;
      if Parse(t).Ok? {
        IntervalTextIs(lo, hi);
      }
    }
  }

  /**
    All texts accepted, by their characters: dates and long years, dates with times, intervals. A date
    stands in the calendar, a time in the day, and an interval has a date at one end.
   */
  lemma TextsExactly(t: seq<Byte>)
    ensures Parse(t).Ok? <==> IsDateText(t) || IsLongText(t) || IsTimeText(t) || IsIntervalText(t)
  {
    hide Parse, IsDateText, IsLongText, IsTimeText, IsIntervalText;
    if 47 in t {
      SlashExactly(t);
      DatedExactly(t);
      assert IsDateText(t) || IsLongText(t) <==> IsDated(t);
      if IsTimeText(t) {
        TimeRead(t);
      }
    } else {
      WholeExactly(t);
      if IsIntervalText(t) {
        IntervalRead(t);
      }
    }
  }
}