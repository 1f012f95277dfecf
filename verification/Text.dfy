/** Text as its bytes: cutting it at a character, and decimal numbers in it. */
module Text {
  import opened Bytes

  // ---------------------------------------------------------------------------
  // Cutting
  // ---------------------------------------------------------------------------

  /** Where `c` first stands in `t`, or the length of `t`. */
  function FirstIndex(t: seq<Byte>, c: Byte): (i: nat)
    ensures i <= |t| && c !in t[..i] && (i < |t| ==> t[i] == c)
  {
    if t == [] || t[0] == c then 0 else FirstIndex(t[1..], c) + 1
  }

  lemma {:induction false} FirstIndexFound(a: seq<Byte>, c: Byte, b: seq<Byte>)
    requires c !in a
    ensures FirstIndex(a + [c] + b, c) == |a|
  {
    if a != [] {
      assert (a + [c] + b)[1..] == a[1..] + [c] + b;
      FirstIndexFound(a[1..], c, b);
    }
  }

  lemma CutAtFirst(t: seq<Byte>, c: Byte)
    requires FirstIndex(t, c) < |t|
    ensures var i := FirstIndex(t, c); t == t[..i] + [c] + t[i + 1..] && c !in t[..i]
  {
    hide FirstIndex;
  }

  /** The parts of `t` between the characters `c`: always one more than there are of those. */
  function Split(t: seq<Byte>, c: Byte): (parts: seq<seq<Byte>>)
    ensures parts != []
    decreases |t|
  {
    var i := FirstIndex(t, c);
    if i == |t| then [t] else [t[..i]] + Split(t[i + 1..], c)
  }

  function Joined(parts: seq<seq<Byte>>, c: Byte): seq<Byte> {
    if parts == [] then []
    else if |parts| == 1 then parts[0]
    else parts[0] + [c] + Joined(parts[1..], c)
  }

  lemma {:induction false} SplitJoins(t: seq<Byte>, c: Byte)
    ensures Joined(Split(t, c), c) == t
    ensures forall p | p in Split(t, c) :: c !in p
    decreases |t|
  {
    var i := FirstIndex(t, c);
    if i == |t| {
      assert t[..i] == t;
    } else {
      SplitJoins(t[i + 1..], c);
      assert t == t[..i] + [c] + t[i + 1..];
    }
  }

  lemma SplitWhole(t: seq<Byte>, c: Byte)
    requires c !in t
    ensures Split(t, c) == [t]
  {
  }

  lemma SplitAt(a: seq<Byte>, c: Byte, b: seq<Byte>)
    requires c !in a
    ensures Split(a + [c] + b, c) == [a] + Split(b, c)
  {
    var t := a + [c] + b;
    FirstIndexFound(a, c, b);
    assert t[..|a|] == a && t[|a| + 1..] == b;
  }

  /** Where the last `a` or `b` stands in `t`. */
  function LastIndex(t: seq<Byte>, a: Byte, b: Byte): (r: Option<nat>)
    ensures r.Some? ==> r.value < |t| && t[r.value] in [a, b] && a !in t[r.value + 1..] && b !in t[r.value + 1..]
    ensures r.None? ==> a !in t && b !in t
  {
    if t == [] then None
    else if t[|t| - 1] == a || t[|t| - 1] == b then Some(|t| - 1)
    else
      assert t == t[..|t| - 1] + [t[|t| - 1]];
      LastIndex(t[..|t| - 1], a, b)
  }

  lemma {:induction false} LastIndexFound(p: seq<Byte>, c: Byte, q: seq<Byte>, a: Byte, b: Byte)
    requires a !in q && b !in q && c in [a, b]
    ensures LastIndex(p + [c] + q, a, b) == Some(|p|)
    decreases |q|
  {
    var t := p + [c] + q;
    if q != [] {
      var rest := q[..|q| - 1];
      assert t[|t| - 1] == q[|q| - 1];
      assert t[..|t| - 1] == p + [c] + rest;
      LastIndexFound(p, c, rest, a, b);
    }
  }

  // ---------------------------------------------------------------------------
  // Decimal numbers
  // ---------------------------------------------------------------------------

  predicate IsDigit(c: Byte) {
    0x30 <= c <= 0x39
  }

  predicate AllDigits(t: seq<Byte>) {
    forall c | c in t :: IsDigit(c)
  }

  /** The number that a run of digits is. */
  function Number(t: seq<Byte>): (n: nat)
    requires AllDigits(t)
  {
    if t == [] then 0
    else
      assert t == t[..|t| - 1] + [t[|t| - 1]];
      assert IsDigit(t[|t| - 1]);
      10 * Number(t[..|t| - 1]) + (t[|t| - 1] - 0x30)
  }

  function Digit(d: nat): (c: Byte)
    requires d < 10
    ensures IsDigit(c)
  {
    0x30 + d
  }

  /** The last `w` digits of `n`. */
  function Fixed(n: nat, w: nat): (t: seq<Byte>)
    ensures |t| == w && AllDigits(t)
    decreases w
  {
    if w == 0 then [] else Fixed(n / 10, w - 1) + [Digit(n % 10)]
  }

  /** How many digits `n` has. */
  function Size(n: nat): (w: nat)
    ensures w >= 1
  {
    if n < 10 then 1 else Size(n / 10) + 1
  }

  /** `n` in digits, with zeros before it up to `w` characters. */
  function Padded(n: nat, w: nat): (t: seq<Byte>)
    ensures AllDigits(t) && |t| >= w
  {
    Fixed(n, if Size(n) < w then w else Size(n))
  }

  function Pow10(w: nat): (p: nat)
    ensures p >= 1
  {
    if w == 0 then 1 else 10 * Pow10(w - 1)
  }

  lemma {:induction false} NumberOfFixed(n: nat, w: nat)
    requires n < Pow10(w)
    ensures Number(Fixed(n, w)) == n
    decreases w
  {
    if w > 0 {
      NumberOfFixed(n / 10, w - 1);
      assert Fixed(n, w)[..w - 1] == Fixed(n / 10, w - 1);
    }
  }

  lemma {:induction false} FixedOfNumber(t: seq<Byte>)
    requires AllDigits(t)
    ensures Fixed(Number(t), |t|) == t && Number(t) < Pow10(|t|)
  {
    if t != [] {
      assert t == t[..|t| - 1] + [t[|t| - 1]];
      assert IsDigit(t[|t| - 1]);
      FixedOfNumber(t[..|t| - 1]);
    }
  }

  lemma {:induction false} SizeIs(n: nat, w: nat)
    requires w >= 1 && n < Pow10(w) && (w > 1 ==> n >= Pow10(w - 1))
    ensures Size(n) == w
    decreases w
  {
    if w > 1 {
      SizeIs(n / 10, w - 1);
    }
  }

  lemma {:induction false} SizeAtMost(n: nat, w: nat)
    requires w >= 1 && n < Pow10(w)
    ensures Size(n) <= w
    decreases w
  {
    if w > 1 {
      SizeAtMost(n / 10, w - 1);
    }
  }

  lemma {:induction false} FitsItsSize(n: nat)
    ensures n < Pow10(Size(n))
    ensures n > 0 ==> Fixed(n, Size(n))[0] != 0x30
  {
    if n >= 10 {
      FitsItsSize(n / 10);
    }
  }

  /** Reading a padded number gives it back. */
  lemma NumberOfPadded(n: nat, w: nat)
    ensures Number(Padded(n, w)) == n
  {
    FitsItsSize(n);
    hide Number, Fixed, Size, Pow10;
    if Size(n) < w {
      Pow10Grows(Size(n), w);
      NumberOfFixed(n, w);
    } else {
      NumberOfFixed(n, Size(n));
    }
  }

  lemma {:induction false} Pow10Grows(a: nat, b: nat)
    requires a <= b
    ensures Pow10(a) <= Pow10(b)
    decreases b
  {
    if a < b {
      Pow10Grows(a, b - 1);
    }
  }

  /** Digits are the number they read as, padded to their own length. */
  lemma PaddedOfNumber(t: seq<Byte>)
    requires AllDigits(t) && t != []
    ensures Padded(Number(t), |t|) == t
  {
    FixedOfNumber(t);
    SizeAtMost(Number(t), |t|);
    hide *;
    PaddedIs(Number(t), |t|);
  }

  lemma PaddedIs(n: nat, w: nat)
    requires Size(n) <= w
    ensures Padded(n, w) == Fixed(n, w)
  {
    hide Size, Fixed;
  }

  /** Without a zero in front, no padding is needed. */
  lemma {:induction false} NoLeadingZero(t: seq<Byte>)
    requires AllDigits(t) && t != [] && t[0] != 0x30
    ensures Number(t) >= Pow10(|t| - 1) && Padded(Number(t), 1) == t
  {
    LeadingDigit(t);
    FixedOfNumber(t);
    SizeIs(Number(t), |t|);
    hide Number, Fixed, Size, Pow10;
  }

  lemma {:induction false} LeadingDigit(t: seq<Byte>)
    requires AllDigits(t) && t != [] && t[0] != 0x30
    ensures Number(t) >= Pow10(|t| - 1)
  {
    assert IsDigit(t[0]);
    if |t| == 1 {
      assert Number(t[..0]) == 0;
    } else {
      var rest := t[..|t| - 1];
      assert rest[0] == t[0] && t == rest + [t[|t| - 1]];
      assert IsDigit(t[|t| - 1]);
      LeadingDigit(rest);
      assert Number(t) >= 10 * Number(rest);
      assert Pow10(|t| - 1) == 10 * Pow10(|rest| - 1);
    }
  }

  /** But for the last `m` digits, a multiple of the `m`-th power of ten is the quotient. */
  lemma {:induction false} FixedMultiple(k: nat, m: nat, w: nat)
    ensures Fixed(k * Pow10(m), w + m)[..w] == Fixed(k, w)
    decreases m
  {
    if m > 0 {
      FixedMultiple(k, m - 1, w);
      TenTimes(k, Pow10(m - 1));
      FixedTimesTen(k * Pow10(m - 1), w + m - 1);
      hide *;
    }
  }

  lemma FixedTimesTen(n: nat, w: nat)
    ensures |Fixed(10 * n, w + 1)| == w + 1 && Fixed(10 * n, w + 1)[..w] == Fixed(n, w)
    ensures forall v: nat | v <= w :: Fixed(10 * n, w + 1)[..v] == Fixed(n, w)[..v]
  {
    assert Fixed(10 * n, w + 1) == Fixed(n, w) + [0x30];
  }

  lemma TenTimes(k: nat, p: nat)
    ensures k * (10 * p) == 10 * (k * p)
  {
  }
}
