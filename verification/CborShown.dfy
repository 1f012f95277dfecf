/** What the decoder takes and refuses, byte by byte: floats, and how deep arrays may go. */
module CborShown {
  import opened Bytes
  import opened Numbers
  import opened CborHead
  import opened CborSpec
  import Floats

  lemma FourBytes(b: seq<Byte>)
    requires |b| == 4
    ensures var b0: nat, b1: nat, b2: nat, b3: nat := b[0], b[1], b[2], b[3];
            FromBigEndian(b) == 16777216 * b0 + 65536 * b1 + 256 * b2 + b3
  {
    assert b[..3] == [b[0], b[1], b[2]] && b[..3][..2] == [b[0], b[1]] && b[..3][..2][..1] == [b[0]];
    assert b[..3][..2][..1][..0] == [];
    assert FromBigEndian([b[0]]) == b[0];
    assert FromBigEndian([b[0], b[1]]) == 256 * (b[0] as int) + b[1];
    assert FromBigEndian([b[0], b[1], b[2]]) == 65536 * (b[0] as int) + 256 * (b[1] as int) + b[2];
  }

  /** Exponent and fraction, as they lie in the four bytes. */
  lemma BytesOfFloat(b0: nat, b1: nat, b2: nat, b3: nat)
    requires b0 < 256 && b1 < 256 && b2 < 256 && b3 < 256
    ensures var bits := 16777216 * b0 + 65536 * b1 + 256 * b2 + b3;
            && bits < 0x1_0000_0000
            && bits / 8388608 % 256 == b0 % 128 * 2 + b1 / 128
            && bits % 8388608 == 65536 * (b1 % 128) + 256 * b2 + b3
  {
    var bits := 16777216 * b0 + 65536 * b1 + 256 * b2 + b3;
    var f := 65536 * (b1 % 128) + 256 * b2 + b3;
    QuotientIs(bits, 8388608, 2 * b0 + b1 / 128);
    QuotientIs(2 * b0 + b1 / 128, 256, b0 / 128);
  }

  /** Exponent and fraction of a number that is zero, or finite and a multiple of 1/1024. */
  predicate OnGrid(e: nat, f: nat) {
    (e == 0 && f == 0) || (117 <= e < 140 && f % Pow2(140 - e) == 0) || 140 <= e < 255
  }

  lemma FloatChecked(u: Unicode, data: seq<Byte>, depth: nat)
    requires |data| == 5 && data[0] == 0xfa && depth <= 128
    ensures var bits := FromBigEndian(data[1..5]);
            bits < 0x1_0000_0000 ==> (ValueAt(u, data, 0, depth).Ok? <==> Floats.CheckFloat(bits) == None)
  {
    hide Floats.CheckFloat, FromBigEndian;
    assert HeadAt(data, 0) == Ok(Head(7, FromBigEndian(data[1..5]), 26), 5);
  }

  /** Which binary32 numbers are read, from the four bytes after the head. */
  lemma FloatShown(u: Unicode, data: seq<Byte>, depth: nat)
    requires |data| == 5 && data[0] == 0xfa && depth <= 128
    ensures var b0: nat, b1: nat, b2: nat, b3: nat := data[1], data[2], data[3], data[4];
            ValueAt(u, data, 0, depth).Ok? <==> OnGrid(b0 % 128 * 2 + b1 / 128, 65536 * (b1 % 128) + 256 * b2 + b3)
  {
    FloatChecked(u, data, depth);
    FourBytes(data[1..5]);
    BytesOfFloat(data[1], data[2], data[3], data[4]);
    hide ValueAt, FromBigEndian;
    GridIs(FromBigEndian(data[1..5]));
    hide OnGrid, Floats.CheckFloat;
  }

  lemma GridIs(b: Floats.Bits)
    ensures Floats.CheckFloat(b) == None <==> OnGrid(b / 8388608 % 256, b % 8388608)
  {
    Floats.GridExactly(b);
    hide Floats.CheckFloat, Pow2;
  }

  /** Four bytes, the greatest first. */
  function Quad(n: nat): (b: seq<Byte>) {
    [n / 16777216 % 256, n / 65536 % 256, n / 256 % 256, n % 256]
  }

  lemma Quarters(n: nat)
    ensures n / 65536 == n / 256 / 256 && n / 16777216 == n / 256 / 256 / 256
    ensures n / 4294967296 == n / 256 / 256 / 256 / 256
  {
  }

  lemma LastFour(n: nat, k: nat)
    ensures BigEndian(n, k + 4) == BigEndian(n / 4294967296, k) + Quad(n)
  {
    Quarters(n);
    assert BigEndian(n, k + 4) == BigEndian(n / 256, k + 3) + [n % 256];
    assert BigEndian(n / 256, k + 3) == BigEndian(n / 256 / 256, k + 2) + [n / 256 % 256];
    assert BigEndian(n / 256 / 256, k + 2) == BigEndian(n / 256 / 256 / 256, k + 1) + [n / 256 / 256 % 256];
    assert BigEndian(n / 256 / 256 / 256, k + 1)
        == BigEndian(n / 256 / 256 / 256 / 256, k) + [n / 256 / 256 / 256 % 256];
    hide BigEndian;
  }

  lemma NoBytes(n: nat)
    ensures BigEndian(n, 0) == []
  {
  }

  lemma NextByte(n: nat, k: nat)
    ensures BigEndian(n, k + 1) == BigEndian(n / 256, k) + [n % 256]
  {
  }

  lemma FewBytes(n: nat)
    ensures BigEndian(n, 1) == [n % 256]
    ensures BigEndian(n, 2) == [n / 256 % 256, n % 256]
  {
    NextByte(n, 0);
    NextByte(n / 256, 0);
    NextByte(n, 1);
    NoBytes(n / 256);
    NoBytes(n / 256 / 256);
    hide BigEndian;
  }

  lemma MoreBytes(n: nat)
    ensures BigEndian(n, 4) == Quad(n)
    ensures BigEndian(n, 8) == Quad(n / 4294967296) + Quad(n)
  {
    hide *;
    LastFour(n, 4);
    LastFour(n, 0);
    NoBytes(n / 4294967296);
    LastFour(n / 4294967296, 0);
    NoBytes(n / 4294967296 / 4294967296);
  }

  /** The heads written, byte by byte. */
  lemma HeadShown(major: nat, arg: nat)
    requires major < 8 && arg < 18446744073709551616
    ensures var b := HeadBytes(major, arg);
            && (arg < 24 ==> b == [32 * major + arg])
            && (24 <= arg < 256 ==> b == [32 * major + 24, arg])
            && (256 <= arg < 65536 ==> b == [32 * major + 25, arg / 256, arg % 256])
            && (65536 <= arg < 4294967296 ==> b == [32 * major + 26] + Quad(arg))
            && (4294967296 <= arg ==> b == [32 * major + 27] + (Quad(arg / 4294967296) + Quad(arg)))
  {
    FewBytes(arg);
    MoreBytes(arg);
    hide BigEndian, Quad;
  }

  /** A number inside `n` arrays of one item each, from place `i` on. */
  function Nested(n: nat): (data: seq<Byte>)
    ensures |data| == n + 1
  {
    seq(n, _ => 0x81) + [0]
  }

  lemma {:induction false} NestedFrom(u: Unicode, n: nat, i: nat)
    requires i <= n
    ensures ValueAt(u, Nested(n), i, i).Ok? <==> n <= 128
    ensures ValueAt(u, Nested(n), i, i).Ok? ==> ValueAt(u, Nested(n), i, i).end == n + 1
    decreases n - i
  {
    var data := Nested(n);
    if i <= 128 {
      if i == n {
        assert data[i] == 0;
      } else {
        assert data[i] == 0x81;
        NestedFrom(u, n, i + 1);
        assert HeadAt(data, i) == Ok(Head(4, 1, 1), i + 1);
        assert ItemsAt(u, data, i + 1, 1, i + 1)
            == match ValueAt(u, data, i + 1, i + 1) case Err(e) => Err(e) case Ok(v, k) => Ok([v] + [], k);
      }
    }
  }

  /** Arrays inside arrays are read down to 128 of them, and no further. */
  lemma NestingShown(u: Unicode, n: nat)
    ensures ValueAt(u, Nested(n), 0, 0).Ok? <==> n <= 128
  {
    NestedFrom(u, n, 0);
  }
}
