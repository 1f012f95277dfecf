/**
  Where the Go decoder stops without an answer. Its positions are machine integers, and it makes room
  for all the items a head announces before it reads any: a head that announces more than a slice can
  hold ends the program, although the format would only refuse it.
 */
module CborStops {
  import opened Bytes
  import opened CborHead
  import opened CborSpec

  // ---------------------------------------------------------------------------
  // Machine integers and slices
  // ---------------------------------------------------------------------------

  const INT_LIMIT: nat := 0x8000_0000_0000_0000

  type Int64 = n: int | -(INT_LIMIT as int) <= n < INT_LIMIT

  /** A byte slice: its length is an `int`. */
  type Slice = s: seq<Byte> | |s| < INT_LIMIT

  /** The conversion of a `uint64` to an `int64`. */
  function AsInt64(arg: nat): (n: int)
    ensures arg < ARG_LIMIT ==> -(INT_LIMIT as int) <= n < INT_LIMIT
  {
    if arg < INT_LIMIT then arg else arg - ARG_LIMIT
  }

  /** Addition of two `int`s, which wraps. */
  function Add(a: Int64, b: Int64): Int64 {
    if a + b >= INT_LIMIT then a + b - ARG_LIMIT
    else if a + b < -(INT_LIMIT as int) then a + b + ARG_LIMIT
    else a + b
  }

  // ---------------------------------------------------------------------------
  // Heads that end the program
  // ---------------------------------------------------------------------------

  /** The greatest count for which the runtime makes room for array items, and for map entries. */
  datatype Room = Room(items: nat, entries: nat)

  /** The bytes of the argument end past what an `int` can say. */
  predicate HeadStops(data: seq<Byte>, i: nat)
    requires i <= |data|
  {
    i < |data| && 25 <= data[i] % 32 <= 27 && i + 1 + ArgLen(data[i] % 32) >= INT_LIMIT
  }

  /** What a head announces cannot be sliced out or made room for. */
  predicate PayloadStops(room: Room, h: Head, j: nat) {
    match h.major
    case 2 => h.arg < INT_LIMIT <= j + h.arg
    case 3 => h.arg < INT_LIMIT <= j + h.arg
    case 4 => h.arg > room.items
    case 5 => h.arg > room.entries
    case _ => false
  }

  /** The head at `p` ends the program. */
  predicate StopsAt(room: Room, data: seq<Byte>, p: nat) {
    p <= |data|
    && (HeadStops(data, p) || (HeadAt(data, p).Ok? && PayloadStops(room, HeadAt(data, p).value, HeadAt(data, p).end)))
  }

  /** How far the input has been read when that happens. */
  function Reached(data: seq<Byte>, p: nat): nat {
    if p <= |data| && !HeadStops(data, p) && HeadAt(data, p).Ok? then HeadAt(data, p).end else p + 1
  }

  /** Where the decoder of one item ends the program, if it does so rather than answer or refuse. */
  function ValueStop(u: Unicode, room: Room, data: seq<Byte>, i: nat, depth: nat): Option<nat>
    requires i <= |data|
    decreases |data| - i, 0, 0
  {
    if depth > MAX_NESTING then None
    else if StopsAt(room, data, i) then Some(Reached(data, i))
    else
      match HeadAt(data, i)
      case Err(_) => None
      case Ok(h, j) =>
        if h.major == 4 then ItemsStop(u, room, data, j, h.arg, depth + 1)
        else if h.major == 5 then EntriesStop(u, room, data, j, h.arg, None, depth + 1)
        else None
  }

  function ItemsStop(u: Unicode, room: Room, data: seq<Byte>, j: nat, count: nat, depth: nat): Option<nat>
    requires j <= |data|
    decreases |data| - j, 1, count
  {
    if count == 0 then None
    else
      Earlier(ValueStop(u, room, data, j, depth),
              match ValueAt(u, data, j, depth)
              case Err(_) => None
              case Ok(_, k) => ItemsStop(u, room, data, k, count - 1, depth))
  }

  function EntriesStop(u: Unicode, room: Room, data: seq<Byte>, j: nat, count: nat, prev: Option<seq<Byte>>, depth: nat)
    : Option<nat>
    requires j <= |data|
    decreases |data| - j, 1, count
  {
    if count == 0 then None
    else
      Earlier(ValueStop(u, room, data, j, depth),
              match ValueAt(u, data, j, depth)
              case Err(_) => None
              case Ok(_, k) =>
                if prev.Some? && !Less(prev.value, data[j..k]) then None
                else
                  Earlier(ValueStop(u, room, data, k, depth),
                          match ValueAt(u, data, k, depth)
                          case Err(_) => None
                          case Ok(_, l) => EntriesStop(u, room, data, l, count - 1, Some(data[j..k]), depth)))
  }

  /** The first of two stops, if there is one. */
  function Earlier(a: Option<nat>, b: Option<nat>): Option<nat> {
    if a.Some? then a else b
  }

  /** The positions of the heads that the specification reads for one item, in order. */
  function Heads(u: Unicode, data: seq<Byte>, i: nat, depth: nat): seq<nat>
    requires i <= |data|
    decreases |data| - i, 0, 0
  {
    if depth > MAX_NESTING then []
    else
      [i] + match HeadAt(data, i)
            case Err(_) => []
            case Ok(h, j) =>
              if h.major == 4 then ItemHeads(u, data, j, h.arg, depth + 1)
              else if h.major == 5 then EntryHeads(u, data, j, h.arg, None, depth + 1)
              else []
  }

  function ItemHeads(u: Unicode, data: seq<Byte>, j: nat, count: nat, depth: nat): seq<nat>
    requires j <= |data|
    decreases |data| - j, 1, count
  {
    if count == 0 then []
    else
      Heads(u, data, j, depth)
      + match ValueAt(u, data, j, depth)
        case Err(_) => []
        case Ok(_, k) => ItemHeads(u, data, k, count - 1, depth)
  }

  function EntryHeads(u: Unicode, data: seq<Byte>, j: nat, count: nat, prev: Option<seq<Byte>>, depth: nat): seq<nat>
    requires j <= |data|
    decreases |data| - j, 1, count
  {
    if count == 0 then []
    else
      Heads(u, data, j, depth)
      + match ValueAt(u, data, j, depth)
        case Err(_) => []
        case Ok(_, k) =>
          if prev.Some? && !Less(prev.value, data[j..k]) then []
          else
            Heads(u, data, k, depth)
            + match ValueAt(u, data, k, depth)
              case Err(_) => []
              case Ok(_, l) => EntryHeads(u, data, l, count - 1, Some(data[j..k]), depth)
  }

  /** How far the input has been read at the first of these heads that ends the program. */
  function FirstStop(room: Room, data: seq<Byte>, heads: seq<nat>): Option<nat> {
    if heads == [] then None
    else if StopsAt(room, data, heads[0]) then Some(Reached(data, heads[0]))
    else FirstStop(room, data, heads[1..])
  }

  /** The head at place `k` ends the program, and none before it does. */
  ghost predicate FirstAt(room: Room, data: seq<Byte>, heads: seq<nat>, k: nat) {
    k < |heads| && StopsAt(room, data, heads[k]) && forall i :: 0 <= i < k ==> !StopsAt(room, data, heads[i])
  }

  lemma {:induction false} FirstStopIs(room: Room, data: seq<Byte>, heads: seq<nat>)
    ensures FirstStop(room, data, heads).None? <==> forall i :: 0 <= i < |heads| ==> !StopsAt(room, data, heads[i])
    ensures FirstStop(room, data, heads).Some? ==>
              exists k: nat :: FirstAt(room, data, heads, k) && FirstStop(room, data, heads).value == Reached(data, heads[k])
  {
    hide StopsAt, Reached;
    if heads != [] {
      var rest := heads[1..];
      FirstStopIs(room, data, rest);
      if StopsAt(room, data, heads[0]) {
        assert FirstAt(room, data, heads, 0);
      } else {
        assert forall i :: 0 < i < |heads| ==> heads[i] == rest[i - 1];
        if FirstStop(room, data, rest).Some? {
          var k: nat :| FirstAt(room, data, rest, k) && FirstStop(room, data, rest).value == Reached(data, rest[k]);
          assert heads[k + 1] == rest[k] && FirstAt(room, data, heads, k + 1);
        }
      }
    }
  }

  lemma {:induction false} FirstStopJoin(room: Room, data: seq<Byte>, a: seq<nat>, b: seq<nat>)
    ensures FirstStop(room, data, a + b) == Earlier(FirstStop(room, data, a), FirstStop(room, data, b))
  {
    hide StopsAt, Reached;
    if a == [] {
      assert a + b == b;
    } else {
      FirstStopJoin(room, data, a[1..], b);
      assert (a + b)[1..] == a[1..] + b;
    }
  }

  lemma FirstStopOne(room: Room, data: seq<Byte>, p: nat)
    ensures FirstStop(room, data, []) == None
    ensures FirstStop(room, data, [p]) == if StopsAt(room, data, p) then Some(Reached(data, p)) else None
  {
    hide StopsAt, Reached;
    assert [p][1..] == [];
  }

  /**
    Go stops without an answer exactly when one of the heads the specification comes to announces a
    length or a count that cannot be held, and it stops at the first of them.
   */
  lemma {:induction false} StopsExactly(u: Unicode, room: Room, data: seq<Byte>, i: nat, depth: nat)
    requires i <= |data|
    ensures ValueStop(u, room, data, i, depth) == FirstStop(room, data, Heads(u, data, i, depth))
    decreases |data| - i, 0, 0
  {
    hide StopsAt, Reached, FirstStop, ValueAt, ItemsStop, EntriesStop, ItemHeads, EntryHeads;
    FirstStopOne(room, data, i);
    if depth <= MAX_NESTING {
      var rest := match HeadAt(data, i)
                  case Err(_) => []
                  case Ok(h, j) =>
                    if h.major == 4 then ItemHeads(u, data, j, h.arg, depth + 1)
                    else if h.major == 5 then EntryHeads(u, data, j, h.arg, None, depth + 1)
                    else [];
      FirstStopJoin(room, data, [i], rest);
      if HeadAt(data, i).Ok? {
        var h, j := HeadAt(data, i).value, HeadAt(data, i).end;
        if h.major == 4 {
          ItemsStopExactly(u, room, data, j, h.arg, depth + 1);
        } else if h.major == 5 {
          EntriesStopExactly(u, room, data, j, h.arg, None, depth + 1);
        }
      }
    }
  }

  lemma {:induction false} ItemsStopExactly(u: Unicode, room: Room, data: seq<Byte>, j: nat, count: nat, depth: nat)
    requires j <= |data|
    ensures ItemsStop(u, room, data, j, count, depth) == FirstStop(room, data, ItemHeads(u, data, j, count, depth))
    decreases |data| - j, 1, count
  {
    hide StopsAt, FirstStop, ValueAt, ValueStop, Heads;
    FirstStopOne(room, data, j);
    if count > 0 {
      StopsExactly(u, room, data, j, depth);
      var v := ValueAt(u, data, j, depth);
      if v.Ok? {
        ItemsStopExactly(u, room, data, v.end, count - 1, depth);
        FirstStopJoin(room, data, Heads(u, data, j, depth), ItemHeads(u, data, v.end, count - 1, depth));
      } else {
        FirstStopJoin(room, data, Heads(u, data, j, depth), []);
      }
    }
  }

  lemma {:induction false} EntriesStopExactly(u: Unicode, room: Room, data: seq<Byte>, j: nat, count: nat,
                                              prev: Option<seq<Byte>>, depth: nat)
    requires j <= |data|
    ensures EntriesStop(u, room, data, j, count, prev, depth)
         == FirstStop(room, data, EntryHeads(u, data, j, count, prev, depth))
    decreases |data| - j, 1, count
  {
    hide StopsAt, FirstStop, ValueAt, ValueStop, Heads, Less;
    FirstStopOne(room, data, j);
    if count > 0 {
      StopsExactly(u, room, data, j, depth);
      var key := ValueAt(u, data, j, depth);
      if key.Ok? && (prev.Some? ==> Less(prev.value, data[j..key.end])) {
        StopsExactly(u, room, data, key.end, depth);
        var value := ValueAt(u, data, key.end, depth);
        var rest := if value.Ok? then EntryHeads(u, data, value.end, count - 1, Some(data[j..key.end]), depth) else [];
        if value.Ok? {
          EntriesStopExactly(u, room, data, value.end, count - 1, Some(data[j..key.end]), depth);
        }
        FirstStopJoin(room, data, Heads(u, data, key.end, depth), rest);
        FirstStopJoin(room, data, Heads(u, data, j, depth), Heads(u, data, key.end, depth) + rest);
      } else {
        FirstStopJoin(room, data, Heads(u, data, j, depth), []);
      }
    }
  }

  // ---------------------------------------------------------------------------
  // What the format accepts, and three inputs it only refuses
  // ---------------------------------------------------------------------------

  /** Whatever the format accepts is read to its end, if there is room for as many things as there are bytes. */
  lemma {:induction false} AcceptedNeverStops(u: Unicode, room: Room, data: Slice, i: nat, depth: nat)
    requires i <= |data| && ValueAt(u, data, i, depth).Ok?
    requires room.items >= |data| && room.entries >= |data|
    ensures ValueStop(u, room, data, i, depth) == None
    decreases |data| - i, 0, 0
  {
    hide HeadAt, ItemsStop, EntriesStop, ItemsAt, EntriesAt;
    var h, j := HeadAt(data, i).value, HeadAt(data, i).end;
    HeadGoesOn(data, i);
    if h.major == 4 {
      AcceptedItems(u, room, data, j, h.arg, depth + 1);
    } else if h.major == 5 {
      AcceptedEntries(u, room, data, j, h.arg, None, depth + 1);
    }
  }

  lemma HeadGoesOn(data: Slice, i: nat)
    requires i <= |data| && HeadAt(data, i).Ok?
    ensures !HeadStops(data, i)
  {
  }

  lemma {:induction false} AcceptedItems(u: Unicode, room: Room, data: Slice, j: nat, count: nat, depth: nat)
    requires j <= |data| && ItemsAt(u, data, j, count, depth).Ok?
    requires room.items >= |data| && room.entries >= |data|
    ensures ItemsStop(u, room, data, j, count, depth) == None && count <= |data| - j
    decreases |data| - j, 1, count
  {
    hide ValueAt, ValueStop;
    if count > 0 {
      AcceptedNeverStops(u, room, data, j, depth);
      AcceptedItems(u, room, data, ValueAt(u, data, j, depth).end, count - 1, depth);
    }
  }

  lemma {:induction false} AcceptedEntries(u: Unicode, room: Room, data: Slice, j: nat, count: nat,
                                           prev: Option<seq<Byte>>, depth: nat)
    requires j <= |data| && EntriesAt(u, data, j, count, prev, depth).Ok?
    requires room.items >= |data| && room.entries >= |data|
    ensures EntriesStop(u, room, data, j, count, prev, depth) == None && count <= |data| - j
    decreases |data| - j, 1, count
  {
    hide ValueAt, ValueStop;
    if count > 0 {
      var k := ValueAt(u, data, j, depth).end;
      var l := ValueAt(u, data, k, depth).end;
      AcceptedNeverStops(u, room, data, j, depth);
      AcceptedNeverStops(u, room, data, k, depth);
      AcceptedEntries(u, room, data, l, count - 1, Some(data[j..k]), depth);
    }
  }

  lemma GreatestBytes()
    ensures BigEndian(0x7fff_ffff_ffff_ffff, 8) == [0x7f, 0xff, 0xff, 0xff, 0xff, 0xff, 0xff, 0xff]
    ensures BigEndian(0xffff_ffff_ffff_ffff, 8) == [0xff, 0xff, 0xff, 0xff, 0xff, 0xff, 0xff, 0xff]
  {
    assert BigEndian(0x7f, 1) == [0x7f];
    assert BigEndian(0x7fff, 2) == [0x7f, 0xff];
    assert BigEndian(0x7f_ffff, 3) == [0x7f, 0xff, 0xff];
    assert BigEndian(0x7fff_ffff, 4) == [0x7f, 0xff, 0xff, 0xff];
    assert BigEndian(0x7f_ffff_ffff, 5) == [0x7f, 0xff, 0xff, 0xff, 0xff];
    assert BigEndian(0x7fff_ffff_ffff, 6) == [0x7f, 0xff, 0xff, 0xff, 0xff, 0xff];
    assert BigEndian(0x7f_ffff_ffff_ffff, 7) == [0x7f, 0xff, 0xff, 0xff, 0xff, 0xff, 0xff];
    assert BigEndian(0xff, 1) == [0xff];
    assert BigEndian(0xffff, 2) == [0xff, 0xff];
    assert BigEndian(0xff_ffff, 3) == [0xff, 0xff, 0xff];
    assert BigEndian(0xffff_ffff, 4) == [0xff, 0xff, 0xff, 0xff];
    assert BigEndian(0xff_ffff_ffff, 5) == [0xff, 0xff, 0xff, 0xff, 0xff];
    assert BigEndian(0xffff_ffff_ffff, 6) == [0xff, 0xff, 0xff, 0xff, 0xff, 0xff];
    assert BigEndian(0xff_ffff_ffff_ffff, 7) == [0xff, 0xff, 0xff, 0xff, 0xff, 0xff, 0xff];
  }

  /** A head of nine bytes is read as its number. */
  lemma NineByteHead(data: seq<Byte>, major: nat, arg: nat)
    requires major < 8 && 0xffff_ffff < arg < ARG_LIMIT && data == [32 * major + 27] + BigEndian(arg, 8)
    ensures |data| == 9 && HeadAt(data, 0) == Ok(Head(major, arg, 27), 9)
  {
    hide BigEndian, FromBigEndian, HeadAt;
    assert data[0..9] == HeadBytes(major, arg);
    HeadRead(data, 0, major, arg);
  }

  /** The end of the string wraps: refused by the format, a program stopped in Go. */
  lemma WrappedLengthStops(u: Unicode, room: Room)
    ensures var data: seq<Byte> := [0x5b, 0x7f, 0xff, 0xff, 0xff, 0xff, 0xff, 0xff, 0xff];
            ValueAt(u, data, 0, 0) == Err(LengthPastEnd) && ValueStop(u, room, data, 0, 0) == Some(9)
  {
    GreatestBytes();
    hide BigEndian, HeadAt;
    NineByteHead([0x5b, 0x7f, 0xff, 0xff, 0xff, 0xff, 0xff, 0xff, 0xff], 2, 0x7fff_ffff_ffff_ffff);
  }

  /** More items than any slice holds, and none of them there: refused by the format, a program stopped in Go. */
  lemma AnnouncedItemsStop(u: Unicode, room: Room)
    requires room.items < 0xffff_ffff_ffff_ffff
    ensures var data: seq<Byte> := [0x9b, 0xff, 0xff, 0xff, 0xff, 0xff, 0xff, 0xff, 0xff];
            ValueAt(u, data, 0, 0) == Err(Ended) && ValueStop(u, room, data, 0, 0) == Some(9)
  {
    var data: seq<Byte> := [0x9b, 0xff, 0xff, 0xff, 0xff, 0xff, 0xff, 0xff, 0xff];
    GreatestBytes();
    assert HeadAt(data, 9) == Err(Ended);
    hide BigEndian, HeadAt;
    NineByteHead(data, 4, 0xffff_ffff_ffff_ffff);
    assert ValueAt(u, data, 9, 1) == Err(Ended);
  }

  /** The same for the entries of a map. */
  lemma AnnouncedEntriesStop(u: Unicode, room: Room)
    requires room.entries < 0xffff_ffff_ffff_ffff
    ensures var data: seq<Byte> := [0xbb, 0xff, 0xff, 0xff, 0xff, 0xff, 0xff, 0xff, 0xff];
            ValueAt(u, data, 0, 0) == Err(Ended) && ValueStop(u, room, data, 0, 0) == Some(9)
  {
    var data: seq<Byte> := [0xbb, 0xff, 0xff, 0xff, 0xff, 0xff, 0xff, 0xff, 0xff];
    GreatestBytes();
    assert HeadAt(data, 9) == Err(Ended);
    hide BigEndian, HeadAt;
    NineByteHead(data, 5, 0xffff_ffff_ffff_ffff);
    assert ValueAt(u, data, 9, 1) == Err(Ended);
  }
}
