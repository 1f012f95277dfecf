/** Bytes, as every core of the format sees them: order, big-endian numbers, slices. */
module Bytes {
  type Byte = b: int | 0 <= b < 256

  datatype Option<+T> = None | Some(value: T)

  // ---------------------------------------------------------------------------
  // Slices
  // ---------------------------------------------------------------------------

  lemma SliceGrows<T>(s: seq<T>, lo: nat, hi: nat, take: nat)
    requires lo <= hi && hi + take <= |s|
    ensures s[lo..hi] + s[hi..][..take] == s[lo..hi + take]
    ensures s[hi..][take..] == s[hi + take..]
  {
  }

  lemma SliceSplits<T>(s: seq<T>, lo: nat, mid: nat, hi: nat)
    requires lo <= mid <= hi <= |s|
    ensures s[lo..hi] == s[lo..mid] + s[mid..hi]
  {
  }

  /** A slice that is known whole is known in its two halves. */
  lemma SliceParts<T>(s: seq<T>, lo: nat, a: seq<T>, b: seq<T>)
    requires lo + |a| + |b| <= |s| && s[lo..lo + |a| + |b|] == a + b
    ensures s[lo..lo + |a|] == a && s[lo + |a|..lo + |a| + |b|] == b
  {
    var whole := s[lo..lo + |a| + |b|];
    assert s[lo..lo + |a|] == whole[..|a|];
    assert s[lo + |a|..lo + |a| + |b|] == whole[|a|..];
  }

  // ---------------------------------------------------------------------------
  // Bytewise order
  // ---------------------------------------------------------------------------

  /** Lexicographic, a proper prefix first. */
  predicate Less(a: seq<Byte>, b: seq<Byte>) {
    if b == [] then false
    else if a == [] then true
    else if a[0] != b[0] then a[0] < b[0]
    else Less(a[1..], b[1..])
  }

  /** At the first byte where the two part: the lower there, or the one that ends there. */
  ghost predicate PartsAt(a: seq<Byte>, b: seq<Byte>, k: nat) {
    && k <= |a| && k < |b| && (forall i :: 0 <= i < k ==> a[i] == b[i])
    && (k == |a| || a[k] < b[k])
  }

  ghost predicate Before(a: seq<Byte>, b: seq<Byte>) {
    exists k: nat :: PartsAt(a, b, k)
  }

  lemma {:induction false} LessExactly(a: seq<Byte>, b: seq<Byte>)
    ensures Less(a, b) <==> Before(a, b)
  {
    if a == [] || b == [] || a[0] != b[0] {
      assert b != [] && (a == [] || a[0] < b[0]) ==> PartsAt(a, b, 0);
    } else {
      LessExactly(a[1..], b[1..]);
      PartsLater(a, b);
    }
  }

  lemma PartsLater(a: seq<Byte>, b: seq<Byte>)
    requires a != [] && b != [] && a[0] == b[0]
    ensures Before(a, b) <==> Before(a[1..], b[1..])
  {
    assert a == [a[0]] + a[1..] && b == [b[0]] + b[1..];
    if k: nat :| PartsAt(a, b, k) {
      assert PartsAt(a[1..], b[1..], k - 1);
    }
    if k: nat :| PartsAt(a[1..], b[1..], k) {
      assert PartsAt(a, b, k + 1);
    }
  }

  lemma {:induction false} LessIrreflexive(a: seq<Byte>)
    ensures !Less(a, a)
  {
    if a != [] {
      LessIrreflexive(a[1..]);
    }
  }

  lemma {:induction false} LessTransitive(a: seq<Byte>, b: seq<Byte>, c: seq<Byte>)
    requires Less(a, b) && Less(b, c)
    ensures Less(a, c)
  {
    if a != [] && a[0] == b[0] == c[0] {
      LessTransitive(a[1..], b[1..], c[1..]);
    }
  }

  lemma {:induction false} LessTotal(a: seq<Byte>, b: seq<Byte>)
    ensures Less(a, b) || a == b || Less(b, a)
  {
    if a != [] && b != [] && a[0] == b[0] {
      LessTotal(a[1..], b[1..]);
      assert a == [a[0]] + a[1..] && b == [b[0]] + b[1..];
    }
  }

  lemma LessAsymmetric(a: seq<Byte>, b: seq<Byte>)
    requires Less(a, b)
    ensures a != b && !Less(b, a)
  {
    LessIrreflexive(a);
    if Less(b, a) {
      LessTransitive(a, b, a);
    }
  }

  /** A common prefix decides nothing. */
  lemma {:induction false} LessAfterPrefix(p: seq<Byte>, a: seq<Byte>, b: seq<Byte>)
    ensures Less(p + a, p + b) == Less(a, b)
  {
    if p == [] {
      assert p + a == a && p + b == b;
    } else {
      assert (p + a)[1..] == p[1..] + a && (p + b)[1..] == p[1..] + b;
      LessAfterPrefix(p[1..], a, b);
    }
  }

  /** A difference inside parts of equal length decides everything. */
  lemma {:induction false} LessBeforeSuffix(a: seq<Byte>, b: seq<Byte>, x: seq<Byte>, y: seq<Byte>)
    requires |a| == |b| && a != b
    ensures Less(a + x, b + y) == Less(a, b)
  {
    assert (a + x)[1..] == a[1..] + x && (b + y)[1..] == b[1..] + y;
    if a[0] == b[0] {
      assert a == [a[0]] + a[1..] && b == [b[0]] + b[1..];
      LessBeforeSuffix(a[1..], b[1..], x, y);
    }
  }

  // ---------------------------------------------------------------------------
  // Big-endian numbers
  // ---------------------------------------------------------------------------

  function Pow256(k: nat): (p: nat)
    ensures p > 0
  {
    if k == 0 then 1 else 256 * Pow256(k - 1)
  }

  /** The last `k` bytes of `n`, most significant first. */
  function BigEndian(n: nat, k: nat): (b: seq<Byte>)
    ensures |b| == k
  {
    if k == 0 then [] else BigEndian(n / 256, k - 1) + [n % 256]
  }

  function FromBigEndian(b: seq<Byte>): nat {
    if b == [] then 0 else 256 * FromBigEndian(b[..|b| - 1]) + b[|b| - 1]
  }

  lemma {:induction false} BigEndianRead(n: nat, k: nat)
    requires n < Pow256(k)
    ensures FromBigEndian(BigEndian(n, k)) == n
  {
    if k > 0 {
      BigEndianRead(n / 256, k - 1);
      assert BigEndian(n, k)[..k - 1] == BigEndian(n / 256, k - 1);
    }
  }

  lemma {:induction false} BigEndianWritten(b: seq<Byte>)
    ensures FromBigEndian(b) < Pow256(|b|)
    ensures BigEndian(FromBigEndian(b), |b|) == b
  {
    if b != [] {
      BigEndianWritten(b[..|b| - 1]);
    }
  }

  /** Bytewise order of equally long big-endian numbers is numeric order. */
  lemma {:induction false} BigEndianOrder(m: nat, n: nat, k: nat)
    requires m < Pow256(k) && n < Pow256(k)
    ensures Less(BigEndian(m, k), BigEndian(n, k)) == (m < n)
  {
    if k > 0 {
      var a, b := BigEndian(m / 256, k - 1), BigEndian(n / 256, k - 1);
      BigEndianOrder(m / 256, n / 256, k - 1);
      if m / 256 == n / 256 {
        LessAfterPrefix(a, [m % 256], [n % 256]);
      } else {
        BigEndianRead(m / 256, k - 1);
        BigEndianRead(n / 256, k - 1);
        LessBeforeSuffix(a, b, [m % 256], [n % 256]);
      }
    }
  }
}
