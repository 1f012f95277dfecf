/**
  Dates of ISO 8601-2, levels 0 and 1: the parser, the printer, and which values are well made.
  Text is its UTF-8 bytes.
 */
module Edtf {
  import opened Bytes
  import opened Text

  const DASH: Byte := 0x2d
  const PLUS: Byte := 0x2b
  const SLASH: Byte := 0x2f
  const DOT: Byte := 0x2e
  const COLON: Byte := 0x3a
  const ZERO: Byte := 0x30
  const MASK: Byte := 0x58
  const LONG: Byte := 0x59
  const TIME: Byte := 0x54
  const ZULU: Byte := 0x5a

  const I32_MIN: int := -0x8000_0000
  const I32_MAX: int := 0x7fff_ffff
  const I64_MAX: int := 0x7fff_ffff_ffff_ffff

  /** A value, a refusal, or a program stopped by slicing text inside a character. */
  datatype Outcome<+T> = Ok(value: T) | Refused | Panicked {
    predicate IsFailure() {
      !Ok?
    }

    function PropagateFailure<U>(): Outcome<U>
      requires IsFailure()
    {
      if Refused? then Outcome.Refused else Outcome.Panicked
    }

    function Extract(): T
      requires !IsFailure()
    {
      value
    }
  }

  // ---------------------------------------------------------------------------
  // Values
  // ---------------------------------------------------------------------------

  /** A year; masked digits count as zeros. */
  datatype Year = Year(value: int, unspecified: nat, long: bool)

  datatype Part = Num(n: nat) | Unspecified

  datatype Qualifier = Uncertain | Approximate | Both

  datatype Date = Date(year: Year, month: Option<Part>, day: Option<Part>, qualifier: Option<Qualifier>)

  datatype Zone = Utc | Offset(minutes: int)

  datatype DateTime = DateTime(year: int, month: nat, day: nat, hour: nat, minute: nat, second: nat, zone: Option<Zone>)

  datatype End = Dated(date: Date) | Open | Unknown

  datatype Edtf = OnDate(date: Date) | AtTime(time: DateTime) | Interval(lo: End, hi: End)

  function NewYear(value: int): Option<Year> {
    if value < -9999 || value > 9999 then None else Some(Year(value, 0, false))
  }

  function Magnitude(value: int): nat {
    if value < 0 then -value else value
  }

  /** The remainder of a negative value is minus that of its magnitude, as truncating division has it. */
  function MaskedYear(value: int, unspecified: nat): Option<Year> {
    if !(1 <= unspecified <= 4) || !(-9999 <= value <= 9999) then None
    else if Magnitude(value) % Pow10(unspecified) != 0 then None
    else Some(Year(value, unspecified, false))
  }

  function LongYear(value: int): Option<Year> {
    if -9999 <= value <= 9999 then None else Some(Year(value, 0, true))
  }

  /** A year that one of the constructors makes. */
  predicate ValidYear(y: Year) {
    || Some(y) == NewYear(y.value)
    || Some(y) == MaskedYear(y.value, y.unspecified)
    || (Some(y) == LongYear(y.value) && I32_MIN <= y.value <= I32_MAX)
  }

  predicate IsLeap(y: int) {
    (y % 4 == 0 && y % 100 != 0) || y % 400 == 0
  }

  function DaysInMonth(year: int, month: nat): nat {
    if month in {1, 3, 5, 7, 8, 10, 12} then 31
    else if month in {4, 6, 9, 11} then 30
    else if month == 2 then (if IsLeap(year) then 29 else 28)
    else 0
  }

  predicate IsMonth(n: nat) {
    1 <= n <= 12 || 21 <= n <= 24
  }

  predicate IsDay(n: nat) {
    1 <= n <= 31
  }

  /** A long year stands alone, a season has no days, and a day exists in its month. */
  predicate ValidDate(d: Date) {
    && ValidYear(d.year)
    && (d.month.Some? && d.month.value.Num? ==> IsMonth(d.month.value.n))
    && (d.day.Some? && d.day.value.Num? ==> IsDay(d.day.value.n))
    && (d.day.Some? ==> d.month.Some?)
    && (d.day.Some? && d.month.value.Num? ==> d.month.value.n <= 12)
    && (d.day.Some? && d.month.value.Num? && d.day.value.Num? && d.year.unspecified == 0 ==>
          d.day.value.n <= DaysInMonth(d.year.value, d.month.value.n))
    && (d.year.long ==> d.month.None? && d.day.None?)
  }

  predicate ValidZone(z: Zone) {
    z.Offset? ==> -1439 <= z.minutes <= 1439
  }

  predicate ValidTime(t: DateTime) {
    && -9999 <= t.year <= 9999 && 1 <= t.month <= 12 && 1 <= t.day <= DaysInMonth(t.year, t.month)
    && t.hour <= 23 && t.minute <= 59 && t.second <= 59
    && (t.zone.Some? ==> ValidZone(t.zone.value))
  }

  predicate ValidEnd(e: End) {
    e.Dated? ==> ValidDate(e.date)
  }

  predicate Valid(v: Edtf) {
    match v
    case OnDate(d) => ValidDate(d)
    case AtTime(t) => ValidTime(t)
    case Interval(lo, hi) => ValidEnd(lo) && ValidEnd(hi) && (lo.Dated? || hi.Dated?)
  }

  // ---------------------------------------------------------------------------
  // Parsing
  // ---------------------------------------------------------------------------

  function Built<T>(r: Option<T>): Outcome<T> {
    match r
    case Some(v) => Ok(v)
    case None => Refused
  }

  function CountOf(t: seq<Byte>, c: Byte): (n: nat)
    ensures n <= |t|
  {
    if t == [] then 0 else (if t[0] == c then 1 else 0) + CountOf(t[1..], c)
  }

  predicate AllAre(t: seq<Byte>, c: Byte) {
    forall x | x in t :: x == c
  }

  /** A byte of UTF-8 at which no character starts. */
  predicate Continues(c: Byte) {
    0x80 <= c < 0xc0
  }

  function Signed(neg: bool, size: int): int {
    if neg then -size else size
  }

  function PlainYear(neg: bool, digits: seq<Byte>): Outcome<Year> {
    if |digits| != 4 then Refused
    else
      var masked := CountOf(digits, MASK);
      var keep := 4 - masked;
      if 0 < keep < 4 && Continues(digits[keep]) then Panicked
      else if !AllAre(digits[keep..], MASK) then Refused
      else if !AllDigits(digits[..keep]) then Refused
      else YearOf(neg, digits[..keep], masked)
  }

  function YearOf(neg: bool, known: seq<Byte>, masked: nat): Outcome<Year>
    requires AllDigits(known)
  {
    var size := Number(known) * Pow10(masked);
    var value := Signed(neg, size);
    Built(if masked == 0 then NewYear(value) else MaskedYear(value, masked))
  }

  /** What follows the `Y`. */
  function ParseLong(rest: seq<Byte>): Outcome<Year> {
    var neg := rest != [] && rest[0] == DASH;
    var digits := if neg then rest[1..] else rest;
    if |digits| < 5 || !AllDigits(digits) then Refused
    else if digits[0] == ZERO then Refused
    else
      var size := Number(digits);
      var value := Signed(neg, size);
      if size > I64_MAX || !(I32_MIN <= value <= I32_MAX) then Refused
      else Built(LongYear(value))
  }

  datatype Component = Month | Day

  function ParseTwo(txt: seq<Byte>, which: Component): Outcome<Part> {
    if txt == [MASK, MASK] then Ok(Unspecified)
    else if |txt| != 2 || !AllDigits(txt) then Refused
    else
      var n := Number(txt);
      match which
      case Month => if IsMonth(n) then Ok(Num(n)) else Refused
      case Day => if IsDay(n) then Ok(Num(n)) else Refused
  }

  function ParseField(fields: seq<seq<Byte>>, i: nat, which: Component): Outcome<Option<Part>> {
    if |fields| <= i then Ok(None)
    else
      var p :- ParseTwo(fields[i], which);
      Ok(Some(p))
  }

  function QualifierOf(c: Byte): Option<Qualifier> {
    if c == 0x3f then Some(Uncertain)
    else if c == 0x7e then Some(Approximate)
    else if c == 0x25 then Some(Both)
    else None
  }

  /** The qualifier that a date ends with, and what stands before it. */
  function Qualified(txt: seq<Byte>): (r: (seq<Byte>, Option<Qualifier>)) {
    if txt == [] then ([], None)
    else
      match QualifierOf(txt[|txt| - 1])
      case Some(q) => (txt[..|txt| - 1], Some(q))
      case None => (txt, None)
  }

  /** Without the sign. */
  function Unsigned(body: seq<Byte>): seq<Byte> {
    if body != [] && body[0] == DASH then body[1..] else body
  }

  function ParseDate(txt: seq<Byte>): Outcome<Date> {
    var (body, qualifier) := Qualified(txt);
    if body != [] && body[0] == LONG then
      var year :- ParseLong(body[1..]);
      Ok(Date(year, None, None, qualifier))
    else
      ParseFields(body != [] && body[0] == DASH, Split(Unsigned(body), DASH), qualifier)
  }

  function ParseFields(neg: bool, fields: seq<seq<Byte>>, qualifier: Option<Qualifier>): Outcome<Date>
    requires fields != []
  {
    var year :- PlainYear(neg, fields[0]);
    var month :- ParseField(fields, 1, Month);
    var day :- ParseField(fields, 2, Day);
    if |fields| > 3 then Refused
    else if month.Some? && month.value.Num? && day.Some? && month.value.n >= 21 then Refused
    else if && month.Some? && month.value.Num? && day.Some? && day.value.Num?
            && year.unspecified == 0 && day.value.n > DaysInMonth(year.value, month.value.n) then Refused
    else Ok(Date(year, month, day, qualifier))
  }

  function ParseOffset(east: bool, hhmm: seq<Byte>): Outcome<Zone> {
    var i := FirstIndex(hhmm, COLON);
    if i == |hhmm| then Refused
    else
      var h, m := hhmm[..i], hhmm[i + 1..];
      if |h| != 2 || |m| != 2 || !AllDigits(h) || !AllDigits(m) then Refused
      else if Number(h) > 23 || Number(m) > 59 then Refused
      else
        var minutes := Number(h) * 60 + Number(m);
        if minutes == 0 && !east then Refused
        else Ok(Offset(Signed(!east, minutes)))
  }

  /** The clock, and the zone after it. */
  function SplitZone(t: seq<Byte>): Outcome<(seq<Byte>, Option<Zone>)> {
    if t != [] && t[|t| - 1] == ZULU then Ok((t[..|t| - 1], Some(Utc)))
    else
      match LastIndex(t, PLUS, DASH)
      case Some(p) =>
        var zone :- ParseOffset(t[p] == PLUS, t[p + 1..]);
        Ok((t[..p], Some(zone)))
      case None => Ok((t, None))
  }

  predicate TwoDigits(t: seq<Byte>) {
    |t| == 2 && AllDigits(t)
  }

  /** Hour, minute and second. */
  function ParseClock(clock: seq<Byte>): Outcome<(nat, nat, nat)> {
    var f := Split(clock, COLON);
    if |f| != 3 || !TwoDigits(f[0]) || !TwoDigits(f[1]) || !TwoDigits(f[2]) then Refused
    else
      var hour, minute, second := Number(f[0]), Number(f[1]), Number(f[2]);
      if hour > 23 || minute > 59 || second > 59 then Refused
      else Ok((hour, minute, second))
  }

  /** A full date, with nothing masked and no qualifier. */
  predicate IsFullDate(d: Date) {
    && d.qualifier.None?
    && d.month.Some? && d.month.value.Num? && d.day.Some? && d.day.value.Num?
    && d.year.unspecified == 0 && !d.year.long
  }

  function ParseTime(txt: seq<Byte>): Outcome<DateTime> {
    var i := FirstIndex(txt, TIME);
    if i == |txt| then Refused
    else
      var d :- ParseDate(txt[..i]);
      if IsFullDate(d) then TimeOn(d, txt[i + 1..]) else Refused
  }

  function TimeOn(d: Date, t: seq<Byte>): Outcome<DateTime>
    requires IsFullDate(d)
  {
    var (clock, zone) :- SplitZone(t);
    var (hour, minute, second) :- ParseClock(clock);
    Ok(DateTime(d.year.value, d.month.value.n, d.day.value.n, hour, minute, second, zone))
  }

  function ParseEnd(txt: seq<Byte>): Outcome<End> {
    if txt == [] then Ok(Unknown)
    else if txt == [DOT, DOT] then Ok(Open)
    else if TIME in txt then Refused
    else
      var d :- ParseDate(txt);
      Ok(Dated(d))
  }

  function Parse(s: seq<Byte>): Outcome<Edtf> {
    if s == [] then Refused
    else
      var halves := Split(s, SLASH);
      if |halves| > 1 then
        if |halves| > 2 then Refused
        else
          var lo :- ParseEnd(halves[0]);
          var hi :- ParseEnd(halves[1]);
          if lo.Dated? || hi.Dated? then Ok(Interval(lo, hi)) else Refused
      else if TIME in s then
        var t :- ParseTime(s);
        Ok(AtTime(t))
      else
        var d :- ParseDate(s);
        Ok(OnDate(d))
  }

  // ---------------------------------------------------------------------------
  // Printing
  // ---------------------------------------------------------------------------

  function Sign(value: int): seq<Byte> {
    if value < 0 then [DASH] else []
  }

  function Masks(n: nat): (t: seq<Byte>)
    ensures |t| == n && forall i :: 0 <= i < n ==> t[i] == MASK
  {
    seq(n, _ => MASK)
  }

  function PrintYear(y: Year): seq<Byte>
    requires y.unspecified <= 4
  {
    if y.long then [LONG] + Sign(y.value) + Padded(Magnitude(y.value), 1)
    else
      var digits := Padded(Magnitude(y.value), 4);
      Sign(y.value) + digits[..|digits| - y.unspecified] + Masks(y.unspecified)
  }

  function PrintPart(p: Part): seq<Byte> {
    match p
    case Num(n) => Padded(n, 2)
    case Unspecified => [MASK, MASK]
  }

  function QualifierChar(q: Qualifier): Byte {
    match q
    case Uncertain => 0x3f
    case Approximate => 0x7e
    case Both => 0x25
  }

  function PrintQualifier(q: Option<Qualifier>): seq<Byte> {
    match q
    case Some(q) => [QualifierChar(q)]
    case None => []
  }

  function PrintField(p: Option<Part>): seq<Byte> {
    match p
    case Some(p) => [DASH] + PrintPart(p)
    case None => []
  }

  function PrintDate(d: Date): seq<Byte>
    requires d.year.unspecified <= 4
  {
    PrintYear(d.year) + PrintField(d.month) + PrintField(d.day) + PrintQualifier(d.qualifier)
  }

  function PrintZone(z: Zone): seq<Byte> {
    match z
    case Utc => [ZULU]
    case Offset(m) =>
      var size := Magnitude(m);
      [if m < 0 then DASH else PLUS] + Padded(size / 60, 2) + [COLON] + Padded(size % 60, 2)
  }

  function PrintClock(hour: nat, minute: nat, second: nat): seq<Byte> {
    Padded(hour, 2) + [COLON] + Padded(minute, 2) + [COLON] + Padded(second, 2)
  }

  function PrintTime(t: DateTime): seq<Byte> {
    Sign(t.year) + Padded(Magnitude(t.year), 4) + [DASH] + Padded(t.month, 2) + [DASH] + Padded(t.day, 2)
    + [TIME] + PrintClock(t.hour, t.minute, t.second)
    + match t.zone
      case Some(z) => PrintZone(z)
      case None => []
  }

  function PrintEnd(e: End): seq<Byte>
    requires e.Dated? ==> e.date.year.unspecified <= 4
  {
    match e
    case Dated(d) => PrintDate(d)
    case Open => [DOT, DOT]
    case Unknown => []
  }

  function Print(v: Edtf): seq<Byte>
    requires Valid(v)
  {
    match v
    case OnDate(d) => PrintDate(d)
    case AtTime(t) => PrintTime(t)
    case Interval(lo, hi) => PrintEnd(lo) + [SLASH] + PrintEnd(hi)
  }
}
