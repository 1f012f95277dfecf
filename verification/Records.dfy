/**
  A store is its records back to back, each a two-element array of a type code and a body, with
  no envelope around them.
 */
module Records {
  import opened Bytes
  import opened CborHead
  import opened CborSpec
  import opened CborRoundTrip
  import opened CborStops
  import opened CborGo

  /** A type code, a body, and the bytes the record came from. */
  datatype Record = Record(code: nat, body: Value, raw: seq<Byte>)

  function AsValue(r: Record): Value {
    Array([Uint(r.code), r.body])
  }

  // ---------------------------------------------------------------------------
  // The specification
  // ---------------------------------------------------------------------------

  /** The record at the front of `data`. */
  function RecordAt(u: Unicode, data: seq<Byte>): (r: Read<Record>)
    ensures r.Ok? ==> 0 < r.end <= |data| && r.value.raw == data[..r.end]
  {
    match HeadAt(data, 0)
    case Err(e) => Err(e)
    case Ok(h, j) =>
      if h.major != 4 || h.arg != 2 then Err(NotARecord)
      else
        match ValueAt(u, data, j, 0)
        case Err(e) => Err(e)
        case Ok(code, k) =>
          if !code.Uint? then Err(CodeNotUnsigned)
          else
            match ValueAt(u, data, k, 0)
            case Err(e) => Err(e)
            case Ok(body, end) => Ok(Record(code.n, body, data[..end]), end)
  }

  datatype StoreRead = Store(records: seq<Record>) | Refused(error: Error)

  function StoreAt(u: Unicode, data: seq<Byte>): StoreRead {
    if data == [] then Store([])
    else
      match RecordAt(u, data)
      case Err(e) => Refused(e)
      case Ok(r, end) =>
        match StoreAt(u, data[end..])
        case Refused(e) => Refused(e)
        case Store(rest) => Store([r] + rest)
  }

  function StoreBytes(records: seq<Record>): seq<Byte> {
    if records == [] then [] else Encode(AsValue(records[0])) + StoreBytes(records[1..])
  }

  function RawBytes(records: seq<Record>): seq<Byte> {
    if records == [] then [] else records[0].raw + RawBytes(records[1..])
  }

  /** A record that fits the format, at the nesting the store decoder starts from. */
  ghost predicate Sound(u: Unicode, r: Record) {
    r.code < ARG_LIMIT && Fits(r.body) && WellFormed(u, r.body, 0)
  }

  // ---------------------------------------------------------------------------
  // Round trips
  // ---------------------------------------------------------------------------

  lemma RecordBytes(r: Record)
    ensures Encode(AsValue(r)) == HeadBytes(4, 2) + Encode(Uint(r.code)) + Encode(r.body)
  {
    hide HeadBytes;
    var items := [Uint(r.code), r.body];
    assert items[1..] == [r.body] && items[1..][1..] == [];
    assert EncodeItems([r.body]) == Encode(r.body) + [];
    assert EncodeItems(items) == Encode(Uint(r.code)) + EncodeItems(items[1..]);
  }

  /** Where the body starts. */
  lemma BodyPosition(u: Unicode, data: seq<Byte>)
    requires RecordAt(u, data).Ok?
    ensures var r := RecordAt(u, data);
            var i := |HeadBytes(4, 2)| + |Encode(Uint(r.value.code))|;
            i <= |data| && ValueAt(u, data, i, 0) == Ok(r.value.body, r.end)
  {
    var h := HeadAt(data, 0);
    HeadWritten(data, 0);
    ReEncode(u, data, h.end, 0);
  }

  lemma RecordReEncode(u: Unicode, data: seq<Byte>)
    requires RecordAt(u, data).Ok?
    ensures var r := RecordAt(u, data).value;
            r.raw == Encode(AsValue(r)) && Normal(u, r.body, 0) && Sound(u, r)
  {
    var h := HeadAt(data, 0);
    var code := ValueAt(u, data, h.end, 0);
    var body := ValueAt(u, data, code.end, 0);
    HeadWritten(data, 0);
    ReEncode(u, data, h.end, 0);
    ReEncode(u, data, code.end, 0);
    RecordBytes(RecordAt(u, data).value);
    hide ValueAt, HeadAt, HeadBytes, Encode, WellFormed, Canon;
    SliceSplits(data, 0, h.end, code.end);
    SliceSplits(data, 0, code.end, body.end);
    assert data[0..body.end] == data[..body.end];
  }

  /** Re-encoding a store gives its bytes, and the records' own bytes are a partition of it. */
  lemma {:induction false} StoreReEncode(u: Unicode, data: seq<Byte>)
    requires StoreAt(u, data).Store?
    ensures var rs := StoreAt(u, data).records;
            && StoreBytes(rs) == data && RawBytes(rs) == data
            && forall r | r in rs :: Sound(u, r) && Canon(r.body) == r.body && r.raw == Encode(AsValue(r))
    decreases |data|
  {
    hide Encode, WellFormed, Canon, Fits;
    if data != [] {
      var r := RecordAt(u, data);
      RecordReEncode(u, data);
      hide RecordAt;
      StoreReEncode(u, data[r.end..]);
      var rest := StoreAt(u, data[r.end..]).records;
      assert ([r.value] + rest)[1..] == rest;
      assert data == data[..r.end] + data[r.end..];
    }
  }

  function Stored(r: Record): Record {
    Record(r.code, Canon(r.body), Encode(AsValue(r)))
  }

  function StoredAll(records: seq<Record>): seq<Record> {
    if records == [] then [] else [Stored(records[0])] + StoredAll(records[1..])
  }

  lemma RecordDecode(u: Unicode, r: Record, rest: seq<Byte>)
    requires Sound(u, r)
    ensures RecordAt(u, Encode(AsValue(r)) + rest) == Ok(Stored(r), |Encode(AsValue(r))|)
  {
    hide HeadAt, HeadBytes, WellFormed, Canon;
    var h, a, b := HeadBytes(4, 2), Encode(Uint(r.code)), Encode(r.body);
    var whole := Encode(AsValue(r));
    var data := whole + rest;
    RecordBytes(r);
    assert whole == h + a + b;
    assert data[0..0 + |h|] == h;
    assert data[|h|..|h| + |a|] == a;
    assert data[|h| + |a|..|h| + |a| + |b|] == b;
    HeadRead(data, 0, 4, 2);
    DecodeCode(u, r.code, data, |h|);
    DecodeEncode(u, r.body, data, |h| + |a|, 0);
    hide Encode, ValueAt;
    assert data[..|h| + |a| + |b|] == whole;
  }

  lemma DecodeCode(u: Unicode, code: nat, data: seq<Byte>, i: nat)
    requires code < ARG_LIMIT
    requires i + |Encode(Uint(code))| <= |data| && data[i..i + |Encode(Uint(code))|] == Encode(Uint(code))
    ensures ValueAt(u, data, i, 0) == Ok(Uint(code), i + |Encode(Uint(code))|)
  {
    DecodeEncode(u, Uint(code), data, i, 0);
  }

  /** A list of records survives the store: no envelope is needed to find where each one ends. */
  lemma {:induction false} StoreDecode(u: Unicode, records: seq<Record>)
    requires forall r | r in records :: Sound(u, r)
    ensures StoreAt(u, StoreBytes(records)) == Store(StoredAll(records))
  {
    hide Encode, WellFormed, Canon, Fits, RecordAt;
    if records != [] {
      var a, b := Encode(AsValue(records[0])), StoreBytes(records[1..]);
      RecordDecode(u, records[0], b);
      StoreDecode(u, records[1..]);
      assert (a + b)[|a|..] == b;
    }
  }

  // ---------------------------------------------------------------------------
  // The Go store
  // ---------------------------------------------------------------------------

  function WrapRecord(r: Record): Record {
    Record(r.code, Wrap(r.body), r.raw)
  }

  function WrapRecords(records: seq<Record>): (r: seq<Record>)
    ensures |r| == |records|
  {
    if records == [] then [] else [WrapRecord(records[0])] + WrapRecords(records[1..])
  }

  lemma WrappedRecordNarrow(u: Unicode, data: seq<Byte>, rest: seq<Byte>)
    requires RecordAt(u, data).Ok?
    requires data == Encode(AsValue(WrapRecord(RecordAt(u, data).value))) + rest
    ensures Narrow(RecordAt(u, data).value.body)
  {
    hide RecordAt, Encode, ValueAt, Fits, WellFormed, Canon, Narrow, HeadBytes, Wrap;
    var r := RecordAt(u, data).value;
    var w := WrapRecord(r);
    BodyPosition(u, data);
    RecordReEncode(u, data);
    RecordBytes(w);
    var h, a, b := HeadBytes(4, 2), Encode(Uint(r.code)), Encode(w.body);
    var i := |h| + |a|;
    WrapNarrows(r.body);
    BodySlice(data, h, a, b, rest);
    DecodeEncode(u, w.body, data, i, 0);
    CanonNarrow(w.body);
  }

  lemma BodySlice(data: seq<Byte>, h: seq<Byte>, a: seq<Byte>, b: seq<Byte>, rest: seq<Byte>)
    requires data == h + a + b + rest
    ensures data[|h| + |a|..|h| + |a| + |b|] == b
  {
  }

  /** Go re-encodes a store to its own bytes exactly when no body holds a number below an `int64`. */
  lemma {:induction false} GoStoreReEncode(u: Unicode, data: seq<Byte>)
    requires StoreAt(u, data).Store?
    ensures var rs := StoreAt(u, data).records;
            StoreBytes(WrapRecords(rs)) == data <==> forall r | r in rs :: Narrow(r.body)
    decreases |data|
  {
    if data != [] {
      var first := RecordAt(u, data);
      var r, rest := first.value, data[first.end..];
      var rs := StoreAt(u, rest).records;
      GoStoreReEncode(u, rest);
      FirstRecordNarrow(u, data, StoreBytes(WrapRecords(rs)));
      hide RecordAt, Encode, Narrow, Wrap, StoreAt;
      assert ([r] + rs)[1..] == rs;
      var w := WrapRecords([r] + rs);
      assert w == [WrapRecord(r)] + WrapRecords(rs) && w[1..] == WrapRecords(rs);
    }
  }

  lemma FirstRecordNarrow(u: Unicode, data: seq<Byte>, rest: seq<Byte>)
    requires RecordAt(u, data).Ok?
    ensures var r := RecordAt(u, data);
            Encode(AsValue(WrapRecord(r.value))) + rest == data <==> Narrow(r.value.body) && rest == data[r.end..]
  {
    var r := RecordAt(u, data);
    RecordReEncode(u, data);
    if Encode(AsValue(WrapRecord(r.value))) + rest == data {
      WrappedRecordNarrow(u, data, rest);
    }
    if Narrow(r.value.body) {
      WrapFixes(r.value.body);
    }
    hide RecordAt, Encode, Narrow, Wrap;
    assert data == r.value.raw + data[r.end..];
    SameTail(r.value.raw, rest, data[r.end..]);
  }

  lemma SameTail(p: seq<Byte>, a: seq<Byte>, b: seq<Byte>)
    ensures p + a == p + b <==> a == b
  {
    if p + a == p + b {
      assert (p + a)[|p|..] == a && (p + b)[|p|..] == b;
    }
  }

  lemma {:induction false} WrapRecordsAppend(a: seq<Record>, r: Record)
    ensures WrapRecords(a + [r]) == WrapRecords(a) + [WrapRecord(r)]
  {
    if a == [] {
      assert a + [r] == [r];
    } else {
      WrapRecordsAppend(a[1..], r);
      assert (a + [r])[1..] == a[1..] + [r];
    }
  }

  /** What `done` records and the reading of the rest make together. */
  function After(done: seq<Record>, rest: StoreRead): StoreRead {
    match rest
    case Store(records) => Store(done + records)
    case Refused(e) => Refused(e)
  }

  /** Where the decoder of one record ends the program, if it does. */
  function RecordStop(u: Unicode, room: Room, data: seq<Byte>): Option<nat> {
    if HeadStops(data, 0) then Some(1)
    else
      match HeadAt(data, 0)
      case Err(_) => None
      case Ok(h, j) =>
        if h.major != 4 || h.arg != 2 then None
        else
          Earlier(ValueStop(u, room, data, j, 0),
                  match ValueAt(u, data, j, 0)
                  case Err(_) => None
                  case Ok(code, k) => if code.Uint? then ValueStop(u, room, data, k, 0) else None)
  }

  function StoreStop(u: Unicode, room: Room, data: seq<Byte>): Option<nat> {
    if data == [] then None
    else
      Earlier(RecordStop(u, room, data),
              match RecordAt(u, data)
              case Err(_) => None
              case Ok(_, end) => Later(end, StoreStop(u, room, data[end..])))
  }

  function Later(n: nat, stop: Option<nat>): Option<nat> {
    if stop.Some? then Some(n + stop.value) else None
  }

  /** The heads that the specification comes to inside one record, after the record's own. */
  function RecordHeads(u: Unicode, data: seq<Byte>): seq<nat> {
    match HeadAt(data, 0)
    case Err(_) => []
    case Ok(h, j) =>
      if h.major != 4 || h.arg != 2 then []
      else
        Heads(u, data, j, 0)
        + match ValueAt(u, data, j, 0)
          case Err(_) => []
          case Ok(code, k) => if code.Uint? then Heads(u, data, k, 0) else []
  }

  /** A record stops the program at its own head, or else at the first of those inside it that does. */
  lemma RecordStopsExactly(u: Unicode, room: Room, data: seq<Byte>)
    ensures RecordStop(u, room, data)
         == if HeadStops(data, 0) then Some(1) else FirstStop(room, data, RecordHeads(u, data))
  {
    hide StopsAt, FirstStop, ValueAt, ValueStop, Heads, HeadStops;
    FirstStopOne(room, data, 0);
    if HeadAt(data, 0).Ok? {
      var h, j := HeadAt(data, 0).value, HeadAt(data, 0).end;
      if h.major == 4 && h.arg == 2 {
        var code := ValueAt(u, data, j, 0);
        StopsExactly(u, room, data, j, 0);
        if code.Ok? && code.value.Uint? {
          StopsExactly(u, room, data, code.end, 0);
          FirstStopJoin(room, data, Heads(u, data, j, 0), Heads(u, data, code.end, 0));
        } else {
          FirstStopJoin(room, data, Heads(u, data, j, 0), []);
        }
      }
    }
  }

  /** Where in a store the specification starts on a record. */
  function Starts(u: Unicode, data: seq<Byte>, off: nat): (r: seq<nat>)
    requires off <= |data|
    ensures forall p | p in r :: off <= p < |data|
    decreases |data| - off
  {
    if off == |data| then []
    else
      [off] + match RecordAt(u, data[off..])
              case Err(_) => []
              case Ok(_, end) => Starts(u, data, off + end)
  }

  /** The first of the records that start at these places to stop the program, and where in the store it does. */
  function FirstRecordStop(u: Unicode, room: Room, data: seq<Byte>, starts: seq<nat>): Option<nat>
    requires forall p | p in starts :: p <= |data|
  {
    if starts == [] then None
    else
      assert starts[0] in starts && forall p | p in starts[1..] :: p in starts;
      Earlier(Later(starts[0], RecordStop(u, room, data[starts[0]..])), FirstRecordStop(u, room, data, starts[1..]))
  }

  /** A store stops the program at the first of its records that does. */
  lemma {:induction false} StoreStopsExactly(u: Unicode, room: Room, data: seq<Byte>, off: nat)
    requires off <= |data|
    ensures Later(off, StoreStop(u, room, data[off..])) == FirstRecordStop(u, room, data, Starts(u, data, off))
    decreases |data| - off
  {
    hide RecordStop, RecordAt;
    if off < |data| {
      var r := RecordAt(u, data[off..]);
      if r.Ok? {
        StoreStopsExactly(u, room, data, off + r.end);
        assert data[off..][r.end..] == data[off + r.end..];
        assert Starts(u, data, off)[1..] == Starts(u, data, off + r.end);
      } else {
        assert Starts(u, data, off)[1..] == [];
      }
    }
  }

  /** An accepted store is read to its end, if there is room for as many things as there are bytes. */
  lemma {:induction false} AcceptedStoreNeverStops(u: Unicode, room: Room, data: Slice)
    requires StoreAt(u, data).Store? && room.items >= |data| && room.entries >= |data|
    ensures StoreStop(u, room, data) == None
    decreases |data|
  {
    hide ValueAt, ValueStop, HeadAt;
    if data != [] {
      var j := HeadAt(data, 0).end;
      HeadGoesOn(data, 0);
      AcceptedNeverStops(u, room, data, j, 0);
      AcceptedNeverStops(u, room, data, ValueAt(u, data, j, 0).end, 0);
      AcceptedStoreNeverStops(u, room, data[RecordAt(u, data).end..]);
    }
  }

  method DecodeRecord(unicode: Unicode, room: Room, data: Slice) returns (r: Result<Record>, used: nat)
    ensures var stop := RecordStop(unicode, room, data);
            if stop.Some? then r == Stopped && used == stop.value
            else
              match RecordAt(unicode, data)
              case Ok(v, end) => r == Success(WrapRecord(v)) && used == end
              case Err(e) => r == Failure(e)
  {
    hide HeadAt, HeadStops, ValueAt, ValueStop;
    used := 0;
    var d := new Decoder(unicode, room, data);
    var head := d.ReadHead();
    if head.Stopped? {
      return Stopped, d.i;
    }
    if head.Failure? {
      return Failure(head.error), 0;
    }
    if head.value.major != 4 || head.value.arg != 2 {
      return Failure(NotARecord), 0;
    }
    var code := d.ReadValue(0);
    if code.Stopped? {
      return Stopped, d.i;
    }
    if code.Failure? {
      return Failure(code.error), 0;
    }
    if !code.value.Uint? {
      return Failure(CodeNotUnsigned), 0;
    }
    var body := d.ReadValue(0);
    if body.Stopped? {
      return Stopped, d.i;
    }
    if body.Failure? {
      return Failure(body.error), 0;
    }
    return Success(Record(code.value.n, body.value, data[..d.i])), d.i;
  }

  /** Decodes a concatenation of records; the offset strictly grows, so it ends. */
  method DecodeStore(unicode: Unicode, room: Room, data: Slice) returns (r: Result<seq<Record>>, ghost reached: nat)
    ensures if StoreStop(unicode, room, data).Some? then r == Stopped
            else
              match StoreAt(unicode, data)
              case Store(records) => r == Success(WrapRecords(records))
              case Refused(e) => r == Failure(e)
    ensures StoreStop(unicode, room, data).Some? ==> reached == StoreStop(unicode, room, data).value
  {
    hide RecordAt, RecordStop;
    reached := 0;
    var out: seq<Record> := [];
    ghost var done: seq<Record> := [];
    var off := 0;
    assert data[0..] == data;
    AfterNone(StoreAt(unicode, data));
    while off < |data|
      invariant off <= |data| && out == WrapRecords(done)
      invariant After(done, StoreAt(unicode, data[off..])) == StoreAt(unicode, data)
      invariant Later(off, StoreStop(unicode, room, data[off..])) == StoreStop(unicode, room, data)
    {
      var rest := data[off..];
      ghost var read := RecordAt(unicode, rest);
      var one, used := DecodeRecord(unicode, room, rest);
      if one.Stopped? {
        return Stopped, off + used;
      }
      if one.Failure? {
        return Failure(one.error), 0;
      }
      assert rest[used..] == data[off + used..];
      AfterMore(done, read.value, StoreAt(unicode, data[off + used..]));
      WrapRecordsAppend(done, read.value);
      done := done + [read.value];
      out := out + [one.value];
      off := off + used;
    }
    assert done + [] == done;
    return Success(out), 0;
  }

  lemma AfterNone(r: StoreRead)
    ensures After([], r) == r
  {
    if r.Store? {
      assert [] + r.records == r.records;
    }
  }

  lemma AfterMore(done: seq<Record>, x: Record, r: StoreRead)
    ensures After(done + [x], r) == After(done, After([x], r))
  {
    if r.Store? {
      assert done + [x] + r.records == done + ([x] + r.records);
    }
  }

  method EncodeStore(records: seq<Record>) returns (out: seq<Byte>)
    ensures out == StoreBytes(records)
  {
    out := [];
    var k := 0;
    assert records[0..] == records;
    while k < |records|
      invariant 0 <= k <= |records| && out + StoreBytes(records[k..]) == StoreBytes(records)
    {
      assert records[k..][0] == records[k] && records[k..][1..] == records[k + 1..];
      var raw := EncodeOne(AsValue(records[k]));
      out := out + raw;
      k := k + 1;
    }
    assert out + [] == out;
  }
}
