/**
  The text of an identity: a prefix and base32 characters (section 6 of RFC 4648, lower case and
  without padding), most significant bit first.
 */
module IdentityText {
  import opened Bytes

  const DIGEST_LEN: nat := 32

  /** The lower-case alphabet: a to z, then 2 to 7. */
  function Letter(v: nat): Byte
    requires v < 32
  {
    if v < 26 then 0x61 + v else 0x32 + (v - 26)
  }

  function LetterIndex(c: Byte): (r: Option<nat>)
    ensures r.Some? <==> 97 <= c <= 122 || 50 <= c <= 55
  {
    if 0x61 <= c <= 0x7a then Some(c - 0x61)
    else if 0x32 <= c <= 0x37 then Some(26 + (c - 0x32))
    else None
  }

  lemma LetterRead(v: nat)
    requires v < 32
    ensures LetterIndex(Letter(v)) == Some(v)
  {
  }

  /** The alphabet, written out. */
  lemma LetterIs(v: nat)
    requires v < 32
    ensures Letter(v) == "abcdefghijklmnopqrstuvwxyz234567"[v] as int
  {
  }

  type Bit = b: int | 0 <= b < 2

  /** `1 << k` within a byte. */
  function Weight(k: nat): (w: nat)
    requires k < 8
    ensures w > 0
  {
    if k == 0 then 1 else if k == 1 then 2 else if k == 2 then 4 else if k == 3 then 8
    else if k == 4 then 16 else if k == 5 then 32 else if k == 6 then 64 else 128
  }

  /** Bit `i` of a digest, counted from the most significant; nothing but zeros after the end. */
  function BitAt(digest: seq<Byte>, i: nat): Bit {
    if i / 8 < |digest| then digest[i / 8] / Weight(7 - i % 8) % 2 else 0
  }

  function FiveBits(b0: Bit, b1: Bit, b2: Bit, b3: Bit, b4: Bit): (v: nat)
    ensures v < 32
  {
    16 * b0 + 8 * b1 + 4 * b2 + 2 * b3 + b4
  }

  /** Five bits of a digest as a number. */
  function Digit(digest: seq<Byte>, i: nat): (v: nat)
    ensures v < 32
  {
    FiveBits(BitAt(digest, 5 * i), BitAt(digest, 5 * i + 1), BitAt(digest, 5 * i + 2),
             BitAt(digest, 5 * i + 3), BitAt(digest, 5 * i + 4))
  }

  function Letters(digest: seq<Byte>, chars: nat): (t: seq<Byte>)
    ensures |t| == chars
    ensures forall i :: 0 <= i < chars ==> t[i] == Letter(Digit(digest, i))
  {
    seq(chars, i requires 0 <= i => Letter(Digit(digest, i)))
  }

  // ---------------------------------------------------------------------------
  // What the letters decide
  // ---------------------------------------------------------------------------

  ghost predicate SameBits(a: seq<Byte>, b: seq<Byte>, n: nat) {
    forall i :: 0 <= i < n ==> BitAt(a, i) == BitAt(b, i)
  }

  lemma FiveBitsDecide(b0: Bit, b1: Bit, b2: Bit, b3: Bit, b4: Bit, c0: Bit, c1: Bit, c2: Bit, c3: Bit, c4: Bit)
    ensures FiveBits(b0, b1, b2, b3, b4) == FiveBits(c0, c1, c2, c3, c4)
       <==> b0 == c0 && b1 == c1 && b2 == c2 && b3 == c3 && b4 == c4
  {
  }

  lemma DigitDecides(a: seq<Byte>, b: seq<Byte>, i: nat)
    ensures Letter(Digit(a, i)) == Letter(Digit(b, i))
       <==> && BitAt(a, 5 * i) == BitAt(b, 5 * i)
            && BitAt(a, 5 * i + 1) == BitAt(b, 5 * i + 1)
            && BitAt(a, 5 * i + 2) == BitAt(b, 5 * i + 2)
            && BitAt(a, 5 * i + 3) == BitAt(b, 5 * i + 3)
            && BitAt(a, 5 * i + 4) == BitAt(b, 5 * i + 4)
  {
    LetterRead(Digit(a, i));
    LetterRead(Digit(b, i));
    hide BitAt, FiveBits, Letter, LetterIndex;
    FiveBitsDecide(BitAt(a, 5 * i), BitAt(a, 5 * i + 1), BitAt(a, 5 * i + 2), BitAt(a, 5 * i + 3), BitAt(a, 5 * i + 4),
                   BitAt(b, 5 * i), BitAt(b, 5 * i + 1), BitAt(b, 5 * i + 2), BitAt(b, 5 * i + 3), BitAt(b, 5 * i + 4));
  }

  /** `n` letters are the same exactly when the first `5 * n` bits are. */
  lemma LettersDecide(a: seq<Byte>, b: seq<Byte>, n: nat)
    ensures Letters(a, n) == Letters(b, n) <==> SameBits(a, b, 5 * n)
  {
    hide BitAt, Letter, Digit;
    if Letters(a, n) == Letters(b, n) {
      forall i | 0 <= i < 5 * n
        ensures BitAt(a, i) == BitAt(b, i)
      {
        var q := i / 5;
        assert Letters(a, n)[q] == Letters(b, n)[q];
        DigitDecides(a, b, q);
        assert i == 5 * q || i == 5 * q + 1 || i == 5 * q + 2 || i == 5 * q + 3 || i == 5 * q + 4;
      }
    }
    if SameBits(a, b, 5 * n) {
      forall i | 0 <= i < n
        ensures Letters(a, n)[i] == Letters(b, n)[i]
      {
        DigitDecides(a, b, i);
      }
    }
  }

  lemma Halved(x: nat, d: nat, half: nat)
    requires d > 0 && half == x / d / 2
    ensures x / d == 2 * half + x / d % 2
  {
  }

  lemma Halves(x: Byte)
    ensures x / 4 == x / 2 / 2 && x / 8 == x / 4 / 2 && x / 16 == x / 8 / 2 && x / 32 == x / 16 / 2
    ensures x / 64 == x / 32 / 2 && x / 128 == x / 64 / 2 && x / 128 < 2
  {
  }

  /** Eight halvings, added up again. */
  lemma Added(h0: nat, h1: nat, h2: nat, h3: nat, h4: nat, h5: nat, h6: nat, h7: nat)
    requires h0 == 2 * h1 + h0 % 2 && h1 == 2 * h2 + h1 % 2 && h2 == 2 * h3 + h2 % 2 && h3 == 2 * h4 + h3 % 2
    requires h4 == 2 * h5 + h4 % 2 && h5 == 2 * h6 + h5 % 2 && h6 == 2 * h7 + h6 % 2 && h7 < 2
    ensures h0 == 128 * (h7 % 2) + 64 * (h6 % 2) + 32 * (h5 % 2) + 16 * (h4 % 2)
                  + 8 * (h3 % 2) + 4 * (h2 % 2) + 2 * (h1 % 2) + h0 % 2
  {
  }

  lemma ByteOfBits(x: Byte)
    ensures x == 128 * (x / 128 % 2) + 64 * (x / 64 % 2) + 32 * (x / 32 % 2) + 16 * (x / 16 % 2)
                 + 8 * (x / 8 % 2) + 4 * (x / 4 % 2) + 2 * (x / 2 % 2) + x / 1 % 2
  {
    Halves(x);
    Halved(x, 1, x / 2);
    Halved(x, 2, x / 4);
    Halved(x, 4, x / 8);
    Halved(x, 8, x / 16);
    Halved(x, 16, x / 32);
    Halved(x, 32, x / 64);
    Halved(x, 64, x / 128);
    Added(x / 1, x / 2, x / 4, x / 8, x / 16, x / 32, x / 64, x / 128);
  }

  /** The byte made of eight bits from bit `8 * j` on. */
  function Packed(bit: nat -> Bit, j: nat): (r: Byte) {
    128 * bit(8 * j) + 64 * bit(8 * j + 1) + 32 * bit(8 * j + 2) + 16 * bit(8 * j + 3)
    + 8 * bit(8 * j + 4) + 4 * bit(8 * j + 5) + 2 * bit(8 * j + 6) + bit(8 * j + 7)
  }

  lemma DigestPacked(digest: seq<Byte>, j: nat)
    requires j < |digest|
    ensures Packed(i => BitAt(digest, i), j) == digest[j]
  {
    ByteOfBits(digest[j]);
    BitOfByte(digest, j, 0, 128);
    BitOfByte(digest, j, 1, 64);
    BitOfByte(digest, j, 2, 32);
    BitOfByte(digest, j, 3, 16);
    BitOfByte(digest, j, 4, 8);
    BitOfByte(digest, j, 5, 4);
    BitOfByte(digest, j, 6, 2);
    BitOfByte(digest, j, 7, 1);
    hide BitAt, Weight;
  }

  lemma BitOfByte(digest: seq<Byte>, j: nat, k: nat, w: nat)
    requires j < |digest| && k < 8 && w == Weight(7 - k)
    ensures BitAt(digest, 8 * j + k) == digest[j] / w % 2
  {
    assert (8 * j + k) / 8 == j && (8 * j + k) % 8 == k;
  }

  // ---------------------------------------------------------------------------
  // Reading the text back
  // ---------------------------------------------------------------------------

  /** Bit `i` of the letters: bit `i % 5` of letter `i / 5`, the high bit first. */
  function LetterBit(letters: seq<Byte>, i: nat): Bit {
    if i / 5 < |letters| then
      match LetterIndex(letters[i / 5])
      case Some(v) => v / Weight(4 - i % 5) % 2
      case None => 0
    else 0
  }

  function Unpacked(letters: seq<Byte>): (digest: seq<Byte>)
    ensures |digest| == DIGEST_LEN
  {
    seq(DIGEST_LEN, j requires 0 <= j => Packed(i => LetterBit(letters, i), j))
  }

  lemma Pushed(q: nat, b: Bit)
    ensures (2 * q + b) / 2 == q && (2 * q + b) % 2 == b
  {
  }

  lemma DigitBits(b0: Bit, b1: Bit, b2: Bit, b3: Bit, b4: Bit)
    ensures var v := FiveBits(b0, b1, b2, b3, b4);
            v / 16 % 2 == b0 && v / 8 % 2 == b1 && v / 4 % 2 == b2 && v / 2 % 2 == b3 && v / 1 % 2 == b4
  {
    var v1 := 2 * b0 + b1;
    var v2 := 2 * v1 + b2;
    var v3 := 2 * v2 + b3;
    var v := 2 * v3 + b4;
    Pushed(b0, b1);
    Pushed(v1, b2);
    Pushed(v2, b3);
    Pushed(v3, b4);
    Halves(v);
    assert v == FiveBits(b0, b1, b2, b3, b4);
  }

  lemma LetterBitRead(digest: seq<Byte>, n: nat, i: nat)
    requires i < 5 * n
    ensures LetterBit(Letters(digest, n), i) == BitAt(digest, i)
  {
    hide BitAt, Digit;
    LetterRead(Digit(digest, i / 5));
    DigitBit(digest, i / 5, i % 5);
  }

  lemma DigitBit(digest: seq<Byte>, q: nat, k: nat)
    requires k < 5
    ensures Digit(digest, q) / Weight(4 - k) % 2 == BitAt(digest, 5 * q + k)
  {
    hide BitAt, FiveBits;
    DigitBits(BitAt(digest, 5 * q), BitAt(digest, 5 * q + 1), BitAt(digest, 5 * q + 2), BitAt(digest, 5 * q + 3),
              BitAt(digest, 5 * q + 4));
    if k == 0 {
    } else if k == 1 {
    } else if k == 2 {
    } else if k == 3 {
    } else {
    }
  }

  lemma PackedSame(f: nat -> Bit, g: nat -> Bit, j: nat)
    requires forall i: nat :: 8 * j <= i < 8 * j + 8 ==> f(i) == g(i)
    ensures Packed(f, j) == Packed(g, j)
  {
  }

  /** The 52 letters of a 32-byte identity can be read back bit for bit. */
  lemma TextRead(digest: seq<Byte>)
    requires |digest| == DIGEST_LEN
    ensures Unpacked(Letters(digest, 52)) == digest
  {
    hide Letters, LetterBit, BitAt, Packed;
    var t := Letters(digest, 52);
    forall j | 0 <= j < DIGEST_LEN
      ensures Unpacked(t)[j] == digest[j]
    {
      forall i: nat | 8 * j <= i < 8 * j + 8
        ensures LetterBit(t, i) == BitAt(digest, i)
      {
        LetterBitRead(digest, 52, i);
      }
      PackedSame(i => LetterBit(t, i), i => BitAt(digest, i), j);
      DigestPacked(digest, j);
    }
  }

  /**
    The long form names one identity; the short form is its beginning, and fixes the first 130 bits
    and no others.
   */
  lemma TextsDecide(a: seq<Byte>, b: seq<Byte>)
    requires |a| == |b| == DIGEST_LEN
    ensures Letters(a, 52) == Letters(b, 52) <==> a == b
    ensures Letters(a, 26) <= Letters(a, 52)
    ensures Letters(a, 26) == Letters(b, 26) <==> SameBits(a, b, 130)
  {
    TextRead(a);
    TextRead(b);
    hide Unpacked, Digit, Letter;
    LettersDecide(a, b, 26);
  }

  // ---------------------------------------------------------------------------
  // The letters by arithmetic
  // ---------------------------------------------------------------------------

  /** Byte `j`, and zero after the end. */
  function ByteOr0(digest: seq<Byte>, j: nat): Byte {
    if j < |digest| then digest[j] else 0
  }

  /** Bytes `j` and `j + 1` as one number of sixteen bits. */
  function Pair(digest: seq<Byte>, j: nat): nat {
    256 * ByteOr0(digest, j) + ByteOr0(digest, j + 1)
  }

  /** Two to the power of 11, 10 and so on down to 4. */
  function Cut(r: nat): (c: nat)
    requires r < 8
    ensures c > 0
  {
    if r == 0 then 2048 else if r == 1 then 1024 else if r == 2 then 512 else if r == 3 then 256
    else if r == 4 then 128 else if r == 5 then 64 else if r == 6 then 32 else 16
  }

  lemma HighBits(a: Byte, b: Byte)
    ensures var w := 256 * a + b;
            && w / 32768 % 2 == a / 128 % 2 && w / 16384 % 2 == a / 64 % 2 && w / 8192 % 2 == a / 32 % 2
            && w / 4096 % 2 == a / 16 % 2 && w / 2048 % 2 == a / 8 % 2 && w / 1024 % 2 == a / 4 % 2
            && w / 512 % 2 == a / 2 % 2 && w / 256 % 2 == a / 1 % 2
  {
    var w := 256 * a + b;
    assert w / 256 == a;
    assert w / 512 == w / 256 / 2 && w / 1024 == w / 256 / 4 && w / 2048 == w / 256 / 8;
    assert w / 4096 == w / 256 / 16 && w / 8192 == w / 256 / 32 && w / 16384 == w / 256 / 64 && w / 32768 == w / 256 / 128;
  }

  /** Two to the power of 15, 14 and so on down to 0. */
  function Sixteenth(m: nat): (d: nat)
    requires m < 16
    ensures d > 0
  {
    if m < 8 then 256 * Weight(7 - m) else Weight(15 - m)
  }

  /** Bit `m` of sixteen, from the highest. */
  function BitOf(w: nat, m: nat): nat
    requires m < 16
  {
    w / Sixteenth(m) % 2
  }

  lemma HighBit(a: Byte, b: Byte, m: nat)
    requires m < 8
    ensures BitOf(256 * a + b, m) == a / Weight(7 - m) % 2
  {
    HighBits(a, b);
  }

  lemma LowShift(a: Byte, b: Byte, m: nat) returns (h: nat)
    requires 8 <= m < 16
    ensures (256 * a + b) / Weight(15 - m) == 2 * h + b / Weight(15 - m)
  {
    if m == 8 {
      h := a;
    } else if m == 9 {
      h := 2 * a;
    } else if m == 10 {
      h := 4 * a;
    } else if m == 11 {
      h := 8 * a;
    } else if m == 12 {
      h := 16 * a;
    } else if m == 13 {
      h := 32 * a;
    } else if m == 14 {
      h := 64 * a;
    } else {
      h := 128 * a;
    }
  }

  lemma EvenAside(h: nat, x: nat)
    ensures (2 * h + x) % 2 == x % 2
  {
  }

  lemma LowBit(a: Byte, b: Byte, m: nat)
    requires 8 <= m < 16
    ensures BitOf(256 * a + b, m) == b / Weight(15 - m) % 2
  {
    var h := LowShift(a, b, m);
    hide Weight;
    EvenAside(h, b / Weight(15 - m));
  }

  lemma BitOfPair(digest: seq<Byte>, j: nat, m: nat)
    requires m < 16
    ensures BitAt(digest, 8 * j + m) == BitOf(Pair(digest, j), m)
  {
    var a, b := ByteOr0(digest, j), ByteOr0(digest, j + 1);
    if m < 8 {
      HighBit(a, b, m);
      assert (8 * j + m) / 8 == j && (8 * j + m) % 8 == m;
    } else {
      LowBit(a, b, m);
      assert (8 * j + m) / 8 == j + 1 && (8 * j + m) % 8 == m - 8;
    }
    NothingIs0(15 - m);
    hide Weight, BitOf;
  }

  lemma NothingIs0(k: nat)
    ensures k < 8 ==> 0 / Weight(k) % 2 == 0
    ensures 8 <= k < 16 ==> 0 / Weight(k - 8) % 2 == 0
  {
  }

  lemma FiveOf(v: nat)
    ensures 16 * (v / 16 % 2) + 8 * (v / 8 % 2) + 4 * (v / 4 % 2) + 2 * (v / 2 % 2) + v % 2 == v % 32
  {
    assert v / 4 == v / 2 / 2 && v / 8 == v / 4 / 2 && v / 16 == v / 8 / 2 && v / 32 == v / 16 / 2;
  }

  lemma Twice(w: nat, c: nat)
    requires c in {16, 32, 64, 128, 256, 512, 1024, 2048, 4096, 8192, 16384}
    ensures w / (2 * c) == w / c / 2
  {
  }

  lemma CutIs(r: nat)
    requires r < 8
    ensures var c := Cut(r);
            && c in {16, 32, 64, 128, 256, 512, 1024, 2048}
            && Sixteenth(r + 4) == c && Sixteenth(r + 3) == 2 * c && Sixteenth(r + 2) == 4 * c
            && Sixteenth(r + 1) == 8 * c && Sixteenth(r) == 16 * c
  {
  }

  lemma CutBits(w: nat, r: nat)
    requires r < 8
    ensures var v := w / Cut(r);
            && BitOf(w, r) == v / 16 % 2 && BitOf(w, r + 1) == v / 8 % 2 && BitOf(w, r + 2) == v / 4 % 2
            && BitOf(w, r + 3) == v / 2 % 2 && BitOf(w, r + 4) == v % 2
  {
    var c := Cut(r);
    CutIs(r);
    hide Cut, Sixteenth;
    Twice(w, c);
    Twice(w, 2 * c);
    Twice(w, 4 * c);
    Twice(w, 8 * c);
    var v := w / c;
    assert v / 4 == v / 2 / 2 && v / 8 == v / 4 / 2 && v / 16 == v / 8 / 2;
  }

  lemma DigitCut(digest: seq<Byte>, i: nat)
    ensures Digit(digest, i) == Pair(digest, 5 * i / 8) / Cut(5 * i % 8) % 32
  {
    hide *;
    var j, r := 5 * i / 8, 5 * i % 8;
    var w := Pair(digest, j);
    BitOfPair(digest, j, r);
    BitOfPair(digest, j, r + 1);
    BitOfPair(digest, j, r + 2);
    BitOfPair(digest, j, r + 3);
    BitOfPair(digest, j, r + 4);
    CutBits(w, r);
    FiveOf(w / Cut(r));
    DigitIs(digest, i);
  }

  lemma DigitIs(digest: seq<Byte>, i: nat)
    ensures Digit(digest, i) == 16 * BitAt(digest, 5 * i) + 8 * BitAt(digest, 5 * i + 1) + 4 * BitAt(digest, 5 * i + 2)
                                + 2 * BitAt(digest, 5 * i + 3) + BitAt(digest, 5 * i + 4)
  {
    hide BitAt;
  }

  /**
    Letter `i` stands for the five bits from bit `5 * i` on: of the two bytes in which they lie, taken
    as one number, what is left above the bits after them, modulo 32.
   */
  lemma LetterShown(digest: seq<Byte>, chars: nat, i: nat)
    requires i < chars
    ensures Letters(digest, chars)[i]
         == "abcdefghijklmnopqrstuvwxyz234567"[Pair(digest, 5 * i / 8) / Cut(5 * i % 8) % 32] as int
  {
    DigitCut(digest, i);
    LetterIs(Digit(digest, i));
    hide Digit, Pair, Cut, Letter;
  }

  // ---------------------------------------------------------------------------
  // The code
  // ---------------------------------------------------------------------------

  /** Writes the text; a digest that is not 32 bytes long is refused. */
  method WriteText(prefix: seq<Byte>, digest: seq<Byte>, chars: nat) returns (r: Option<seq<Byte>>)
    ensures r == if |digest| == 32 then Some(prefix + Letters(digest, chars)) else None
  {
    hide Letter, Digit;
    if |digest| != DIGEST_LEN {
      return None;
    }
    var out := prefix;
    var i := 0;
    while i < chars
      invariant 0 <= i <= chars && out == prefix + Letters(digest, chars)[..i]
    {
      var v := ReadDigit(digest, i);
      out := out + [Letter(v)];
      assert Letters(digest, chars)[..i + 1] == Letters(digest, chars)[..i] + [Letter(v)];
      i := i + 1;
    }
    assert Letters(digest, chars)[..chars] == Letters(digest, chars);
    return Some(out);
  }

  method ReadDigit(digest: seq<Byte>, i: nat) returns (v: nat)
    requires |digest| == DIGEST_LEN
    ensures v == Digit(digest, i)
  {
    hide BitAt, Digit, Weight;
    v := 0;
    var k := 0;
    while k < 5
      invariant 0 <= k <= 5 && v == Leading(digest, i, k)
    {
      var bit := i * 5 + k;
      var on := bit < 256 && digest[bit / 8] / Weight(7 - bit % 8) % 2 == 1;
      BitIsOn(digest, bit);
      v := 2 * v;
      if on {
        v := v + 1;
      }
      k := k + 1;
    }
    LeadingIsDigit(digest, i);
  }

  /** The first `k` bits of digit `i`. */
  function Leading(digest: seq<Byte>, i: nat, k: nat): nat {
    if k == 0 then 0 else 2 * Leading(digest, i, k - 1) + BitAt(digest, 5 * i + k - 1)
  }

  lemma LeadingIsDigit(digest: seq<Byte>, i: nat)
    ensures Leading(digest, i, 5) == Digit(digest, i)
  {
    hide BitAt;
    assert Leading(digest, i, 1) == BitAt(digest, 5 * i);
    assert Leading(digest, i, 2) == 2 * Leading(digest, i, 1) + BitAt(digest, 5 * i + 1);
    assert Leading(digest, i, 3) == 2 * Leading(digest, i, 2) + BitAt(digest, 5 * i + 2);
    assert Leading(digest, i, 4) == 2 * Leading(digest, i, 3) + BitAt(digest, 5 * i + 3);
    assert Leading(digest, i, 5) == 2 * Leading(digest, i, 4) + BitAt(digest, 5 * i + 4);
  }

  lemma BitIsOn(digest: seq<Byte>, bit: nat)
    requires |digest| == DIGEST_LEN
    ensures BitAt(digest, bit) == 1
       <==> bit < 256 && digest[bit / 8] / Weight(7 - bit % 8) % 2 == 1
  {
  }
}
