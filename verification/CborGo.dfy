/**
  The Go codec: a decoder that walks a byte slice, an encoder that appends to one, and what Go's
  64-bit integers change.
 */
module CborGo {
  import opened Bytes
  import opened CborHead
  import opened Sorting
  import opened CborSpec
  import opened CborRoundTrip
  import opened CborStops
  import Floats

  // ---------------------------------------------------------------------------
  // Go's negative numbers
  // ---------------------------------------------------------------------------

  /** The Go value where the Python reader has `v`: arguments of 2^63 and more wrap. */
  function Wrap(v: Value): Value
    decreases v
  {
    match v
    case Int(i) => if i >= 0 then v else Int(-1 - AsInt64(-1 - i))
    case Array(items) => Array(WrapItems(items))
    case Map(entries) => Map(WrapPairs(entries))
    case _ => v
  }

  function WrapItems(items: seq<Value>): (r: seq<Value>)
    ensures |r| == |items|
    decreases items
  {
    if items == [] then [] else [Wrap(items[0])] + WrapItems(items[1..])
  }

  function WrapPair(p: Pair): Pair
    decreases p
  {
    Pair(Wrap(p.key), Wrap(p.value))
  }

  function WrapPairs(entries: seq<Pair>): (r: seq<Pair>)
    ensures |r| == |entries|
    decreases entries
  {
    if entries == [] then [] else [WrapPair(entries[0])] + WrapPairs(entries[1..])
  }

  /** No number below what an `int64` holds. */
  predicate Narrow(v: Value)
    decreases v
  {
    match v
    case Int(i) => i >= -0x8000_0000_0000_0000
    case Array(items) => forall x | x in items :: Narrow(x)
    case Map(entries) => forall p | p in entries :: Narrow(p.key) && Narrow(p.value)
    case _ => true
  }

  lemma {:induction false} WrapFixes(v: Value)
    requires Narrow(v)
    ensures Wrap(v) == v
    decreases v
  {
    match v
    case Array(items) => WrapFixesItems(items);
    case Map(entries) => WrapFixesPairs(entries);
    case _ =>
  }

  lemma {:induction false} WrapFixesItems(items: seq<Value>)
    requires forall x | x in items :: Narrow(x)
    ensures WrapItems(items) == items
    decreases items
  {
    if items != [] {
      WrapFixes(items[0]);
      WrapFixesItems(items[1..]);
      assert items == [items[0]] + items[1..];
    }
  }

  lemma {:induction false} WrapFixesPairs(entries: seq<Pair>)
    requires forall p | p in entries :: Narrow(p.key) && Narrow(p.value)
    ensures WrapPairs(entries) == entries
    decreases entries
  {
    if entries != [] {
      WrapFixesPair(entries[0]);
      WrapFixesPairs(entries[1..]);
      assert entries == [entries[0]] + entries[1..];
    }
  }

  lemma {:induction false} WrapFixesPair(p: Pair)
    requires Narrow(p.key) && Narrow(p.value)
    ensures WrapPair(p) == p
    decreases p
  {
    WrapFixes(p.key);
    WrapFixes(p.value);
  }

  lemma {:induction false} WrapNarrows(v: Value)
    requires Fits(v)
    ensures Narrow(Wrap(v)) && Fits(Wrap(v))
    decreases v
  {
    match v
    case Array(items) => WrapNarrowsItems(items);
    case Map(entries) => WrapNarrowsPairs(entries);
    case _ =>
  }

  lemma {:induction false} WrapNarrowsItems(items: seq<Value>)
    requires forall x | x in items :: Fits(x)
    ensures forall x | x in WrapItems(items) :: Narrow(x) && Fits(x)
    decreases items
  {
    if items != [] {
      WrapNarrows(items[0]);
      WrapNarrowsItems(items[1..]);
    }
  }

  lemma {:induction false} WrapNarrowsPairs(entries: seq<Pair>)
    requires forall p | p in entries :: Fits(p.key) && Fits(p.value)
    ensures forall p | p in WrapPairs(entries) :: Narrow(p.key) && Fits(p.key) && Narrow(p.value) && Fits(p.value)
    decreases entries
  {
    if entries != [] {
      WrapNarrowsPair(entries[0]);
      WrapNarrowsPairs(entries[1..]);
    }
  }

  lemma {:induction false} WrapNarrowsPair(p: Pair)
    requires Fits(p.key) && Fits(p.value)
    ensures var q := WrapPair(p); Narrow(q.key) && Fits(q.key) && Narrow(q.value) && Fits(q.value)
    decreases p
  {
    WrapNarrows(p.key);
    WrapNarrows(p.value);
  }

  lemma {:induction false} CanonNarrow(v: Value)
    requires Narrow(v)
    ensures Narrow(Canon(v))
    decreases v
  {
    match v
    case Array(items) => CanonNarrowItems(items);
    case Map(entries) =>
      CanonNarrowPairs(entries);
      SortPairsKeeps(CanonPairs(entries));
    case _ =>
  }

  lemma {:induction false} CanonNarrowItems(items: seq<Value>)
    requires forall x | x in items :: Narrow(x)
    ensures forall x | x in CanonItems(items) :: Narrow(x)
    decreases items
  {
    if items != [] {
      CanonNarrow(items[0]);
      CanonNarrowItems(items[1..]);
    }
  }

  lemma {:induction false} CanonNarrowPairs(entries: seq<Pair>)
    requires forall p | p in entries :: Narrow(p.key) && Narrow(p.value)
    ensures forall p | p in CanonPairs(entries) :: Narrow(p.key) && Narrow(p.value)
    decreases entries
  {
    if entries != [] {
      CanonNarrowPair(entries[0]);
      CanonNarrowPairs(entries[1..]);
    }
  }

  lemma {:induction false} CanonNarrowPair(p: Pair)
    requires Narrow(p.key) && Narrow(p.value)
    ensures Narrow(CanonPair(p).key) && Narrow(CanonPair(p).value)
    decreases p
  {
    CanonNarrow(p.key);
    CanonNarrow(p.value);
  }

  lemma {:induction false} PairsIn(s: seq<Keyed<Entry>>)
    ensures forall k :: 0 <= k < |s| ==> Pairs(s)[k] == s[k].item.pair
  {
    if s != [] {
      PairsIn(s[1..]);
    }
  }

  /** Sorting entries keeps each of them, at the place its key gives it. */
  lemma SortPairsKeeps(entries: seq<Pair>)
    ensures var s := Sort(KeyedEntries(entries));
            && |SortPairs(entries)| == |s| == |entries|
            && forall k :: 0 <= k < |s| ==> s[k] == KeyedEntry(SortPairs(entries)[k])
    ensures forall p | p in SortPairs(entries) :: p in entries
  {
    var s := Sort(KeyedEntries(entries));
    SortKeeps(KeyedEntries(entries));
    EntriesAreKeyed(entries);
    PairsIn(s);
    forall k | 0 <= k < |s|
      ensures s[k] == KeyedEntry(Pairs(s)[k]) && Pairs(s)[k] in entries
    {
      assert s[k] in s;
    }
  }

  /**
    Go's round trip holds exactly when no negative number in what was read lies below the range
    of an `int64`.
   */
  lemma GoReEncode(u: Unicode, data: seq<Byte>, i: nat, depth: nat)
    requires i <= |data| && ValueAt(u, data, i, depth).Ok?
    ensures var r := ValueAt(u, data, i, depth);
            Encode(Wrap(r.value)) == data[i..r.end] <==> Narrow(r.value)
  {
    var r := ValueAt(u, data, i, depth);
    ReEncode(u, data, i, depth);
    hide ValueAt, Encode, Wrap, WellFormed, Fits, Canon, Narrow;
    if Narrow(r.value) {
      WrapFixes(r.value);
    }
    if Encode(Wrap(r.value)) == data[i..r.end] {
      WrapNarrows(r.value);
      DecodeEncode(u, Wrap(r.value), data, i, depth);
      CanonNarrow(Wrap(r.value));
    }
  }

  /** The least such number, 3b 80 00 00 00 00 00 00 00 on the wire, comes back as a positive one. */
  lemma GoReEncodeFails(u: Unicode)
    ensures var data: seq<Byte> := [0x3b, 0x80, 0, 0, 0, 0, 0, 0, 0];
            && ValueAt(u, data, 0, 0) == Ok(Int(-0x8000_0000_0000_0001), 9)
            && Wrap(Int(-0x8000_0000_0000_0001)) == Int(0x7fff_ffff_ffff_ffff)
            && Encode(Int(0x7fff_ffff_ffff_ffff)) != data
  {
    var data: seq<Byte> := [0x3b, 0x80, 0, 0, 0, 0, 0, 0, 0];
    var n: nat := 0x8000_0000_0000_0000;
    LeastBytes();
    hide BigEndian;
    assert data[0..9] == HeadBytes(1, n);
    HeadRead(data, 0, 1, n);
    hide HeadAt;
    assert Encode(Int(0x7fff_ffff_ffff_ffff))[0] == 0x1b;
  }

  lemma LeastBytes()
    ensures BigEndian(0x8000_0000_0000_0000, 8) == [0x80, 0, 0, 0, 0, 0, 0, 0]
  {
    assert BigEndian(0x80, 1) == [0x80];
    assert BigEndian(0x8000, 2) == [0x80, 0];
    assert BigEndian(0x80_0000, 3) == [0x80, 0, 0];
    assert BigEndian(0x8000_0000, 4) == [0x80, 0, 0, 0];
    assert BigEndian(0x80_0000_0000, 5) == [0x80, 0, 0, 0, 0];
    assert BigEndian(0x8000_0000_0000, 6) == [0x80, 0, 0, 0, 0, 0];
    assert BigEndian(0x80_0000_0000_0000, 7) == [0x80, 0, 0, 0, 0, 0, 0];
  }

  // ---------------------------------------------------------------------------
  // The decoder
  // ---------------------------------------------------------------------------

  /** A value, a refusal, or a program stopped by the runtime. */
  datatype Result<+T> = Success(value: T) | Failure(error: Error) | Stopped

  /** A method's result and the position it leaves, against what is to be read there. */
  ghost predicate Agrees<T>(r: Result<T>, now: nat, stop: Option<nat>, spec: Read<T>) {
    if stop.Some? then r == Stopped && now == stop.value
    else
      match spec
      case Ok(v, end) => r == Success(v) && now == end
      case Err(e) => r == Failure(e)
  }

  function WrapRead(r: Read<Value>): Read<Value> {
    match r
    case Ok(v, end) => Ok(Wrap(v), end)
    case Err(e) => Err(e)
  }

  function Prepend<T>(done: seq<T>, r: Read<seq<T>>): Read<seq<T>> {
    match r
    case Ok(rest, end) => Ok(done + rest, end)
    case Err(e) => Err(e)
  }

  lemma {:induction false} WrapItemsAppend(a: seq<Value>, v: Value)
    ensures WrapItems(a + [v]) == WrapItems(a) + [Wrap(v)]
  {
    if a == [] {
      assert a + [v] == [v];
    } else {
      WrapItemsAppend(a[1..], v);
      assert (a + [v])[1..] == a[1..] + [v];
    }
  }

  lemma {:induction false} WrapPairsAppend(a: seq<Pair>, p: Pair)
    ensures WrapPairs(a + [p]) == WrapPairs(a) + [WrapPair(p)]
  {
    if a == [] {
      assert a + [p] == [p];
    } else {
      WrapPairsAppend(a[1..], p);
      assert (a + [p])[1..] == a[1..] + [p];
    }
  }

  /** Bytewise comparison: negative, zero or positive. */
  method CompareBytes(a: seq<Byte>, b: seq<Byte>) returns (c: int)
    ensures c < 0 <==> Less(a, b)
    ensures c == 0 <==> a == b
    ensures c > 0 <==> Less(b, a)
  {
    var n := if |b| < |a| then |b| else |a|;
    var i := 0;
    while i < n
      invariant 0 <= i <= n && a[..i] == b[..i]
      invariant Less(a, b) == Less(a[i..], b[i..]) && Less(b, a) == Less(b[i..], a[i..])
    {
      if a[i] != b[i] {
        if a[i] < b[i] {
          return -1;
        }
        return 1;
      }
      assert a[i..][1..] == a[i + 1..] && b[i..][1..] == b[i + 1..];
      i := i + 1;
    }
    assert a == a[..i] + a[i..] && b == b[..i] + b[i..];
    return |a| - |b|;
  }

  class Decoder {
    const unicode: Unicode
    const room: Room
    const data: Slice
    var i: nat

    ghost predicate Valid()
      reads this
    {
      i <= |data|
    }

    constructor (unicode: Unicode, room: Room, data: Slice)
      ensures Valid() && i == 0 && this.unicode == unicode && this.room == room && this.data == data
    {
      this.unicode := unicode;
      this.room := room;
      this.data := data;
      i := 0;
    }

    method ReadByte() returns (r: Result<Byte>)
      requires Valid()
      modifies this`i
      ensures Valid() && Agrees(r, i, None, if old(i) < |data| then Ok(data[old(i)], old(i) + 1) else Err(Ended))
    {
      if i >= |data| {
        return Failure(Ended);
      }
      var b := data[i];
      i := i + 1;
      return Success(b);
    }

    /** The next `n` bytes. The position after them may wrap, and then there is no such slice. */
    method Take(n: Int64) returns (r: Result<seq<Byte>>)
      requires Valid()
      modifies this`i
      ensures Valid()
      ensures Agrees(r, i, if n >= 0 && old(i) + n >= INT_LIMIT then Some(old(i)) else None,
                     if n >= 0 && old(i) + n <= |data| then Ok(data[old(i)..old(i) + n], old(i) + n) else Err(LengthPastEnd))
    {
      if n < 0 || Add(i, n) > |data| {
        return Failure(LengthPastEnd);
      }
      if Add(i, n) < i {
        return Stopped;
      }
      var taken := data[i..Add(i, n)];
      i := Add(i, n);
      return Success(taken);
    }

    /** The major type, its argument and the raw additional information. */
    method ReadHead() returns (r: Result<Head>)
      requires Valid()
      modifies this`i
      ensures Valid() && Agrees(r, i, if HeadStops(data, old(i)) then Some(old(i) + 1) else None, HeadAt(data, old(i)))
    {
      hide FromBigEndian;
      var first := ReadByte();
      if first.Failure? {
        return Failure(first.error);
      }
      var major, extra := first.value / 32, first.value % 32;
      var floaty := major == 7;
      if extra < 24 {
        return Success(Head(major, extra, extra));
      } else if extra == 24 {
        var v := ReadByte();
        if v.Failure? {
          return Failure(v.error);
        }
        OneByte(v.value);
        assert data[old(i) + 1..i] == [v.value];
        if !floaty && v.value < 24 {
          return Failure(NotShortest);
        }
        return Success(Head(major, v.value, extra));
      } else if extra <= 27 {
        var raw := Take(ArgLen(extra));
        if raw.Stopped? {
          return Stopped;
        }
        if raw.Failure? {
          return Failure(raw.error);
        }
        var v := FromBigEndian(raw.value);
        if !floaty && v <= ShorterMax(extra) {
          return Failure(NotShortest);
        }
        return Success(Head(major, v, extra));
      } else if extra == 31 {
        return Failure(IndefiniteLength);
      }
      return Failure(ReservedInfo);
    }

    /**
      Decodes one item. Unless a head ends the program it reads what the specification reads, ends
      where it ends and refuses what it refuses; only the value of a negative number may differ, by
      Go's conversion.
     */
    method ReadValue(depth: nat) returns (r: Result<Value>)
      requires Valid()
      modifies this`i
      ensures Valid()
      ensures Agrees(r, i, ValueStop(unicode, room, data, old(i), depth), WrapRead(ValueAt(unicode, data, old(i), depth)))
      decreases |data| - i, 0
    {
      if depth > MAX_NESTING {
        return Failure(TooDeep);
      }
      var head := ReadHead();
      if head.Stopped? {
        return Stopped;
      }
      if head.Failure? {
        return Failure(head.error);
      }
      var Head(major, arg, extra) := head.value;
      HeadArg(data, old(i));
      if major == 0 {
        return Success(Uint(arg));
      } else if major == 1 {
        return Success(Int(-1 - AsInt64(arg)));
      } else if major == 2 {
        var raw := Take(AsInt64(arg));
        if raw.Stopped? {
          return Stopped;
        }
        if raw.Failure? {
          return Failure(raw.error);
        }
        return Success(Blob(raw.value));
      } else if major == 3 {
        var raw := Take(AsInt64(arg));
        if raw.Stopped? {
          return Stopped;
        }
        if raw.Failure? {
          return Failure(raw.error);
        }
        if !unicode.utf8(raw.value) {
          return Failure(NotUtf8);
        }
        if unicode.nfc(raw.value) != raw.value {
          return Failure(NotNfc);
        }
        return Success(Text(raw.value));
      } else if major == 4 {
        r := ReadItems(arg, depth);
      } else if major == 5 {
        r := ReadMap(arg, depth);
      } else if major == 7 {
        r := ReadSimple(arg, extra);
      } else {
        return Failure(NotMajor);
      }
    }

    method ReadItems(n: nat, depth: nat) returns (r: Result<Value>)
      requires Valid()
      modifies this`i
      ensures Valid()
      ensures Agrees(r, i, if n > room.items then Some(old(i)) else ItemsStop(unicode, room, data, old(i), n, depth + 1),
                     WrapRead(match ItemsAt(unicode, data, old(i), n, depth + 1)
                              case Ok(items, end) => Ok(Array(items), end)
                              case Err(e) => Err(e)))
      decreases |data| - i, 2
    {
      hide ValueAt, ValueStop, ItemsAt, ItemsStop;
      if n > room.items {
        return Stopped;
      }
      var out: seq<Value> := [];
      ghost var done: seq<Value> := [];
      var k := 0;
      PrependNone(ItemsAt(unicode, data, i, n, depth + 1));
      while k < n
        invariant k <= n && old(i) <= i <= |data| && out == WrapItems(done)
        invariant Prepend(done, ItemsAt(unicode, data, i, n - k, depth + 1)) == ItemsAt(unicode, data, old(i), n, depth + 1)
        invariant ItemsStop(unicode, room, data, i, n - k, depth + 1) == ItemsStop(unicode, room, data, old(i), n, depth + 1)
      {
        ItemsNext(unicode, room, data, i, n - k, depth + 1);
        ghost var read := ValueAt(unicode, data, i, depth + 1);
        var v := ReadValue(depth + 1);
        if v.Stopped? {
          return Stopped;
        }
        if v.Failure? {
          return Failure(v.error);
        }
        WrapItemsAppend(done, read.value);
        PrependMore(done, read.value, ItemsAt(unicode, data, i, n - k - 1, depth + 1));
        done := done + [read.value];
        out := out + [v.value];
        k := k + 1;
      }
      NoMoreItems(unicode, room, data, i, depth + 1);
      assert done + [] == done;
      return Success(Array(out));
    }

    method ReadMap(n: nat, depth: nat) returns (r: Result<Value>)
      requires Valid()
      modifies this`i
      ensures Valid()
      ensures Agrees(r, i, if n > room.entries then Some(old(i)) else EntriesStop(unicode, room, data, old(i), n, None, depth + 1),
                     WrapRead(match EntriesAt(unicode, data, old(i), n, None, depth + 1)
                              case Ok(entries, end) => Ok(Map(entries), end)
                              case Err(e) => Err(e)))
      decreases |data| - i, 2
    {
      hide ValueAt, ValueStop, EntriesAt, EntriesStop;
      if n > room.entries {
        return Stopped;
      }
      var out: seq<Pair> := [];
      ghost var done: seq<Pair> := [];
      var prev: Option<seq<Byte>> := None;
      var k := 0;
      PrependNone(EntriesAt(unicode, data, i, n, None, depth + 1));
      while k < n
        invariant k <= n && old(i) <= i <= |data| && out == WrapPairs(done)
        invariant Prepend(done, EntriesAt(unicode, data, i, n - k, prev, depth + 1))
               == EntriesAt(unicode, data, old(i), n, None, depth + 1)
        invariant EntriesStop(unicode, room, data, i, n - k, prev, depth + 1)
               == EntriesStop(unicode, room, data, old(i), n, None, depth + 1)
      {
        var start := i;
        EntriesNext(unicode, room, data, i, n - k, prev, depth + 1);
        ghost var readKey := ValueAt(unicode, data, i, depth + 1);
        var key := ReadValue(depth + 1);
        if key.Stopped? {
          return Stopped;
        }
        if key.Failure? {
          return Failure(key.error);
        }
        var keyBytes := data[start..i];
        if prev.Some? {
          var c := CompareBytes(keyBytes, prev.value);
          if c <= 0 {
            return Failure(KeyOrder);
          }
        }
        ghost var readValue := ValueAt(unicode, data, i, depth + 1);
        prev := Some(keyBytes);
        var value := ReadValue(depth + 1);
        if value.Stopped? {
          return Stopped;
        }
        if value.Failure? {
          return Failure(value.error);
        }
        ghost var p := Pair(readKey.value, readValue.value);
        WrapPairsAppend(done, p);
        PrependMore(done, p, EntriesAt(unicode, data, i, n - k - 1, prev, depth + 1));
        done := done + [p];
        out := out + [Pair(key.value, value.value)];
        k := k + 1;
      }
      NoMoreEntries(unicode, room, data, i, prev, depth + 1);
      assert done + [] == done;
      return Success(Map(out));
    }

    method ReadSimple(arg: nat, extra: nat) returns (r: Result<Value>)
      ensures r == match SimpleOf(arg, extra) case Ok(v, _) => Success(v) case Err(e) => Failure(e)
      ensures SimpleOf(arg, extra).Ok? ==> Wrap(SimpleOf(arg, extra).value) == SimpleOf(arg, extra).value
    {
      hide Floats.CheckFloat;
      if extra == 20 {
        return Success(Bool(false));
      } else if extra == 21 {
        return Success(Bool(true));
      } else if extra == 22 {
        return Failure(NullForbidden);
      } else if extra == 26 {
        var bits := arg % 0x1_0000_0000;
        var refusal := Floats.CheckFloat(bits);
        if refusal.Some? {
          return Failure(refusal.value);
        }
        return Success(Float(bits));
      } else if extra == 27 {
        return Failure(Binary64);
      }
      return Failure(NotSimple);
    }
  }

  /** One item, then the rest: for the reading and for where it stops. */
  lemma ItemsNext(u: Unicode, room: Room, data: seq<Byte>, j: nat, count: nat, depth: nat)
    requires j <= |data| && count > 0
    ensures var v := ValueAt(u, data, j, depth);
            && ItemsStop(u, room, data, j, count, depth)
               == Earlier(ValueStop(u, room, data, j, depth),
                          if v.Err? then None else ItemsStop(u, room, data, v.end, count - 1, depth))
            && ItemsAt(u, data, j, count, depth)
               == if v.Err? then Err(v.error) else Prepend([v.value], ItemsAt(u, data, v.end, count - 1, depth))
  {
    hide ValueAt, ValueStop;
  }

  lemma NoMoreItems(u: Unicode, room: Room, data: seq<Byte>, j: nat, depth: nat)
    requires j <= |data|
    ensures ItemsAt(u, data, j, 0, depth) == Ok([], j) && ItemsStop(u, room, data, j, 0, depth) == None
  {
  }

  /** One entry, then the rest: for the reading and for where it stops. */
  lemma EntriesNext(u: Unicode, room: Room, data: seq<Byte>, j: nat, count: nat, prev: Option<seq<Byte>>, depth: nat)
    requires j <= |data| && count > 0
    ensures var key := ValueAt(u, data, j, depth);
            var ordered := key.Ok? && (prev.Some? ==> Less(prev.value, data[j..key.end]));
            && EntriesStop(u, room, data, j, count, prev, depth)
               == Earlier(ValueStop(u, room, data, j, depth),
                          if !ordered then None
                          else
                            Earlier(ValueStop(u, room, data, key.end, depth),
                                    var value := ValueAt(u, data, key.end, depth);
                                    if value.Err? then None
                                    else EntriesStop(u, room, data, value.end, count - 1, Some(data[j..key.end]), depth)))
            && (key.Err? ==> EntriesAt(u, data, j, count, prev, depth) == Err(key.error))
            && (key.Ok? && !ordered ==> EntriesAt(u, data, j, count, prev, depth) == Err(KeyOrder))
            && (ordered ==>
                  var value := ValueAt(u, data, key.end, depth);
                  && (value.Err? ==> EntriesAt(u, data, j, count, prev, depth) == Err(value.error))
                  && (value.Ok? ==>
                        EntriesAt(u, data, j, count, prev, depth)
                        == Prepend([Pair(key.value, value.value)],
                                   EntriesAt(u, data, value.end, count - 1, Some(data[j..key.end]), depth))))
  {
    hide ValueAt, ValueStop, Less;
  }

  lemma NoMoreEntries(u: Unicode, room: Room, data: seq<Byte>, j: nat, prev: Option<seq<Byte>>, depth: nat)
    requires j <= |data|
    ensures EntriesAt(u, data, j, 0, prev, depth) == Ok([], j) && EntriesStop(u, room, data, j, 0, prev, depth) == None
  {
  }

  lemma OneByte(b: Byte)
    ensures FromBigEndian([b]) == b
  {
    assert [b][..0] == [];
  }

  lemma PrependNone<T>(r: Read<seq<T>>)
    ensures Prepend([], r) == r
  {
    if r.Ok? {
      assert [] + r.value == r.value;
    }
  }

  lemma PrependMore<T>(done: seq<T>, x: T, r: Read<seq<T>>)
    ensures Prepend(done + [x], r) == Prepend(done, Prepend([x], r))
  {
    if r.Ok? {
      assert done + [x] + r.value == done + ([x] + r.value);
    }
  }

  /** An argument fits its 64 bits. */
  lemma HeadArg(data: seq<Byte>, i: nat)
    requires i <= |data|
    ensures HeadAt(data, i).Ok? ==> HeadAt(data, i).value.arg < ARG_LIMIT
  {
    var r := HeadAt(data, i);
    if r.Ok? && r.value.extra >= 24 {
      Pow256Values();
      BigEndianWritten(data[i + 1..r.end]);
    }
  }

  method DecodeOne(unicode: Unicode, room: Room, data: Slice) returns (r: Result<Value>, used: nat)
    ensures var stop := ValueStop(unicode, room, data, 0, 0);
            if stop.Some? then r == Stopped && used == stop.value
            else
              match ValueAt(unicode, data, 0, 0)
              case Ok(v, end) => r == Success(Wrap(v)) && used == end
              case Err(e) => r == Failure(e) && used == 0
  {
    var d := new Decoder(unicode, room, data);
    r := d.ReadValue(0);
    used := if r.Failure? then 0 else d.i;
  }

  // ---------------------------------------------------------------------------
  // The encoder
  // ---------------------------------------------------------------------------

  class Encoder {
    var out: seq<Byte>

    constructor ()
      ensures out == []
    {
      out := [];
    }

    method WriteHead(major: nat, arg: nat)
      requires major < 8
      modifies this
      ensures out == old(out) + HeadBytes(major, arg)
    {
      if arg < 24 {
        out := out + [major * 32 + arg];
      } else if arg <= 0xff {
        out := out + [major * 32 + 24] + BigEndian(arg, 1);
      } else if arg <= 0xffff {
        out := out + [major * 32 + 25] + BigEndian(arg, 2);
      } else if arg <= 0xffff_ffff {
        out := out + [major * 32 + 26] + BigEndian(arg, 4);
      } else {
        out := out + [major * 32 + 27] + BigEndian(arg, 8);
      }
    }

    /** Appends the encoding of `v`, a map's entries sorted by the bytes of their keys. */
    method WriteValue(v: Value)
      modifies this
      ensures out == old(out) + Encode(v)
      decreases v, 1
    {
      hide HeadBytes, BigEndian, Sort, Join, KeyedEntries, EncodeItems;
      match v
      case Bool(b) => out := out + if b then [0xf5] else [0xf4];
      case Uint(n) => WriteHead(0, n);
      case Int(i) =>
        if i >= 0 {
          WriteHead(0, i);
        } else {
          WriteHead(1, -1 - i);
        }
      case Float(bits) => out := out + [0xfa] + BigEndian(bits, 4);
      case Blob(b) =>
        WriteHead(2, |b|);
        out := out + b;
      case Text(b) =>
        WriteHead(3, |b|);
        out := out + b;
      case Array(items) =>
        WriteHead(4, |items|);
        WriteItems(items);
      case Map(entries) =>
        WriteHead(5, |entries|);
        WriteEntries(v);
    }

    method WriteItems(items: seq<Value>)
      modifies this
      ensures out == old(out) + EncodeItems(items)
      decreases items
    {
      hide Encode;
      ghost var target := out + EncodeItems(items);
      var k := 0;
      assert items[0..] == items;
      while k < |items|
        invariant 0 <= k <= |items| && out + EncodeItems(items[k..]) == target
      {
        assert items[k..][0] == items[k] && items[k..][1..] == items[k + 1..];
        WriteValue(items[k]);
        k := k + 1;
      }
      assert out + [] == out;
    }

    method WriteEntries(v: Value)
      requires v.Map?
      modifies this
      ensures out == old(out) + Join(Sort(KeyedEntries(v.entries)))
      decreases v, 0
    {
      hide Encode, Sort, KeyedEntries;
      var sorted := SortPairs(v.entries);
      ghost var s := Sort(KeyedEntries(v.entries));
      SortPairsKeeps(v.entries);
      hide SortPairs;
      ghost var target := out + Join(s);
      var k := 0;
      assert s[0..] == s;
      while k < |sorted|
        invariant 0 <= k <= |sorted| && out + Join(s[k..]) == target
      {
        assert s[k..][0] == s[k] == KeyedEntry(sorted[k]) && s[k..][1..] == s[k + 1..];
        assert sorted[k] in v.entries;
        WriteValue(sorted[k].key);
        WriteValue(sorted[k].value);
        k := k + 1;
      }
      assert out + [] == out;
    }
  }

  method EncodeOne(v: Value) returns (b: seq<Byte>)
    ensures b == Encode(v)
  {
    var e := new Encoder();
    e.WriteValue(v);
    b := e.out;
  }
}
