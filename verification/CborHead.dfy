/**
  Heads of CBOR items (section 3 of RFC 8949), in shortest form only: the major type, its
  argument, and the additional information that says how many bytes the argument takes.
 */
module CborHead {
  import opened Bytes

  /** Why the strict decoder refuses an input, one value for each refusal of the code. */
  datatype Error =
    | Ended | LengthPastEnd
    | NotShortest | IndefiniteLength | ReservedInfo
    | TooDeep | NotMajor
    | NotUtf8 | NotNfc
    | KeyOrder
    | NullForbidden | NotFinite | OffGrid | Binary64 | NotSimple
    | NotARecord | CodeNotUnsigned | NoBytes

  /** What is read at a position: a value and the position after it, or a refusal. */
  datatype Read<+T> = Ok(value: T, end: nat) | Err(error: Error)

  datatype Head = Head(major: nat, arg: nat, extra: nat)

  const ARG_LIMIT: nat := 0x1_0000_0000_0000_0000

  /** How many argument bytes follow additional information 24 to 27. */
  function ArgLen(extra: nat): nat
    requires 24 <= extra <= 27
  {
    if extra == 24 then 1 else if extra == 25 then 2 else if extra == 26 then 4 else 8
  }

  /** The greatest argument that a shorter form could have held. */
  function ShorterMax(extra: nat): nat
    requires 24 <= extra <= 27
  {
    if extra == 24 then 23 else if extra == 25 then 0xff else if extra == 26 then 0xffff else 0xffff_ffff
  }

  /** Reads the head at `i`. Under major type 7 the bytes are a payload, so no form is too long. */
  function HeadAt(data: seq<Byte>, i: nat): (r: Read<Head>)
    requires i <= |data|
    ensures r.Ok? ==> i < r.end <= |data| && r.value.major < 8
  {
    if i == |data| then Err(Ended)
    else
      var major, extra := data[i] / 32, data[i] % 32;
      if extra < 24 then Ok(Head(major, extra, extra), i + 1)
      else if extra <= 27 then
        var end := i + 1 + ArgLen(extra);
        if end > |data| then Err(if extra == 24 then Ended else LengthPastEnd)
        else
          var arg := FromBigEndian(data[i + 1..end]);
          if major != 7 && arg <= ShorterMax(extra) then Err(NotShortest)
          else Ok(Head(major, arg, extra), end)
      else if extra == 31 then Err(IndefiniteLength)
      else Err(ReservedInfo)
  }

  /** The additional information of the shortest form. */
  function InfoOf(arg: nat): (extra: nat)
    ensures extra <= 27
  {
    if arg < 24 then arg
    else if arg <= 0xff then 24
    else if arg <= 0xffff then 25
    else if arg <= 0xffff_ffff then 26
    else 27
  }

  /** The shortest head. */
  function HeadBytes(major: nat, arg: nat): (b: seq<Byte>)
    requires major < 8
    ensures b != []
  {
    var extra := InfoOf(arg);
    [major * 32 + extra] + if extra < 24 then [] else BigEndian(arg, ArgLen(extra))
  }

  lemma Pow256Values()
    ensures Pow256(1) == 0x100 && Pow256(2) == 0x1_0000
    ensures Pow256(4) == 0x1_0000_0000 && Pow256(8) == ARG_LIMIT
  {
    assert Pow256(1) == 256 * Pow256(0);
    assert Pow256(2) == 256 * Pow256(1);
    assert Pow256(3) == 256 * Pow256(2);
    assert Pow256(4) == 256 * Pow256(3);
    assert Pow256(5) == 256 * Pow256(4);
    assert Pow256(6) == 256 * Pow256(5);
    assert Pow256(7) == 256 * Pow256(6);
    assert Pow256(8) == 256 * Pow256(7);
  }

  /** Every argument fits the length that its shortest form gives it. */
  lemma InfoFits(arg: nat)
    requires 24 <= arg < ARG_LIMIT
    ensures 24 <= InfoOf(arg) && arg < Pow256(ArgLen(InfoOf(arg)))
  {
    Pow256Values();
  }

  /** Decode after encode, for heads. */
  lemma HeadRead(data: seq<Byte>, i: nat, major: nat, arg: nat)
    requires major < 8 && arg < ARG_LIMIT
    requires i + |HeadBytes(major, arg)| <= |data|
    requires data[i..i + |HeadBytes(major, arg)|] == HeadBytes(major, arg)
    ensures HeadAt(data, i) == Ok(Head(major, arg, InfoOf(arg)), i + |HeadBytes(major, arg)|)
  {
    hide Pow256, FromBigEndian, BigEndian;
    var b, extra := HeadBytes(major, arg), InfoOf(arg);
    assert data[i] == data[i..i + |b|][0] == b[0];
    assert (major * 32 + extra) / 32 == major && (major * 32 + extra) % 32 == extra;
    if arg >= 24 {
      InfoFits(arg);
      assert data[i + 1..i + |b|] == data[i..i + |b|][1..] == b[1..] == BigEndian(arg, ArgLen(extra));
      BigEndianRead(arg, ArgLen(extra));
    }
  }

  /** Encode after decode, for heads: a head that is accepted is the shortest one. */
  lemma HeadWritten(data: seq<Byte>, i: nat)
    requires i <= |data| && HeadAt(data, i).Ok? && HeadAt(data, i).value.major != 7
    ensures var r := HeadAt(data, i);
            && r.value.arg < ARG_LIMIT
            && r.value.extra == InfoOf(r.value.arg)
            && data[i..r.end] == HeadBytes(r.value.major, r.value.arg)
  {
    hide Pow256, FromBigEndian, BigEndian;
    var r := HeadAt(data, i);
    if r.value.extra >= 24 {
      Pow256Values();
      BigEndianWritten(data[i + 1..r.end]);
      assert data[i..r.end] == [data[i]] + data[i + 1..r.end];
    }
  }

  /** Bytewise order of shortest heads of one major type is the numeric order of the arguments. */
  lemma HeadOrder(major: nat, a: nat, b: nat)
    requires major < 8 && a < ARG_LIMIT && b < ARG_LIMIT
    ensures Less(HeadBytes(major, a), HeadBytes(major, b)) == (a < b)
    ensures HeadBytes(major, a) == HeadBytes(major, b) <==> a == b
  {
    hide Pow256, BigEndian;
    var x, y := HeadBytes(major, a), HeadBytes(major, b);
    LessIrreflexive(x);
    if x[0] == y[0] && a >= 24 {
      InfoFits(a);
      InfoFits(b);
      BigEndianOrder(a, b, ArgLen(InfoOf(a)));
      BigEndianRead(a, ArgLen(InfoOf(a)));
      BigEndianRead(b, ArgLen(InfoOf(a)));
      assert x[1..] == BigEndian(a, ArgLen(InfoOf(a))) && y[1..] == BigEndian(b, ArgLen(InfoOf(a)));
    }
  }
}
