/**
  The strict deterministic CBOR of the format, as functions: what the decoder reads at a position
  (with whole numbers of any size, as the Python reader has them) and what the encoder writes.
 */
module CborSpec {
  import opened Bytes
  import opened CborHead
  import opened Sorting
  import Floats

  const MAX_NESTING: nat := 128

  /** The Unicode tables, which the format takes from outside: UTF-8 validity and NFC. */
  datatype Unicode = Unicode(utf8: seq<Byte> -> bool, nfc: seq<Byte> -> seq<Byte>) {
    predicate IsText(raw: seq<Byte>) {
      utf8(raw) && nfc(raw) == raw
    }
  }

  /**
    A value by the shape it has in Go: `Uint` is what major type 0 yields, `Int` what major type 1
    yields, and a map keeps its entries in a sequence.
   */
  datatype Value =
    | Bool(b: bool)
    | Uint(n: nat)
    | Int(i: int)
    | Float(bits: Floats.Bits)
    | Blob(bytes: seq<Byte>)
    | Text(bytes: seq<Byte>)
    | Array(items: seq<Value>)
    | Map(entries: seq<Pair>)

  datatype Pair = Pair(key: Value, value: Value)

  // ---------------------------------------------------------------------------
  // Decoding
  // ---------------------------------------------------------------------------

  /** Reads one item at `i`. */
  function ValueAt(u: Unicode, data: seq<Byte>, i: nat, depth: nat): (r: Read<Value>)
    requires i <= |data|
    ensures r.Ok? ==> i < r.end <= |data|
    decreases |data| - i, 0, 0
  {
    if depth > MAX_NESTING then Err(TooDeep)
    else
      match HeadAt(data, i)
      case Err(e) => Err(e)
      case Ok(h, j) => BodyAt(u, data, h, j, depth)
  }

  function BodyAt(u: Unicode, data: seq<Byte>, h: Head, j: nat, depth: nat): (r: Read<Value>)
    requires j <= |data|
    ensures r.Ok? ==> j <= r.end <= |data|
    decreases |data| - j, 2, 0
  {
    match h.major
    case 0 => Ok(Uint(h.arg), j)
    case 1 => Ok(Int(-1 - h.arg), j)
    case 2 =>
      if j + h.arg > |data| then Err(LengthPastEnd) else Ok(Blob(data[j..j + h.arg]), j + h.arg)
    case 3 =>
      if j + h.arg > |data| then Err(LengthPastEnd)
      else
        var raw := data[j..j + h.arg];
        if !u.utf8(raw) then Err(NotUtf8)
        else if u.nfc(raw) != raw then Err(NotNfc)
        else Ok(Text(raw), j + h.arg)
    case 4 =>
      (match ItemsAt(u, data, j, h.arg, depth + 1)
       case Err(e) => Err(e)
       case Ok(items, end) => Ok(Array(items), end))
    case 5 =>
      (match EntriesAt(u, data, j, h.arg, None, depth + 1)
       case Err(e) => Err(e)
       case Ok(entries, end) => Ok(Map(entries), end))
    case 7 =>
      (match SimpleOf(h.arg, h.extra)
       case Err(e) => Err(e)
       case Ok(v, _) => Ok(v, j))
    case _ => Err(NotMajor)
  }

  /** Major type 7: two booleans and one float width. */
  function SimpleOf(arg: nat, extra: nat): Read<Value> {
    if extra == 20 then Ok(Bool(false), 0)
    else if extra == 21 then Ok(Bool(true), 0)
    else if extra == 22 then Err(NullForbidden)
    else if extra == 26 then
      var bits := arg % 0x1_0000_0000;
      match Floats.CheckFloat(bits)
      case Some(e) => Err(e)
      case None => Ok(Float(bits), 0)
    else if extra == 27 then Err(Binary64)
    else Err(NotSimple)
  }

  function ItemsAt(u: Unicode, data: seq<Byte>, j: nat, count: nat, depth: nat): (r: Read<seq<Value>>)
    requires j <= |data|
    ensures r.Ok? ==> j <= r.end <= |data| && |r.value| == count
    decreases |data| - j, 1, count
  {
    if count == 0 then Ok([], j)
    else
      match ValueAt(u, data, j, depth)
      case Err(e) => Err(e)
      case Ok(v, k) =>
        match ItemsAt(u, data, k, count - 1, depth)
        case Err(e) => Err(e)
        case Ok(vs, end) => Ok([v] + vs, end)
  }

  /** Reads `count` entries; every key's bytes must lie strictly above those of the key before. */
  function EntriesAt(u: Unicode, data: seq<Byte>, j: nat, count: nat, prev: Option<seq<Byte>>, depth: nat)
    : (r: Read<seq<Pair>>)
    requires j <= |data|
    ensures r.Ok? ==> j <= r.end <= |data| && |r.value| == count
    decreases |data| - j, 1, count
  {
    if count == 0 then Ok([], j)
    else
      match ValueAt(u, data, j, depth)
      case Err(e) => Err(e)
      case Ok(key, k) =>
        if prev.Some? && !Less(prev.value, data[j..k]) then Err(KeyOrder)
        else
          match ValueAt(u, data, k, depth)
          case Err(e) => Err(e)
          case Ok(value, l) =>
            match EntriesAt(u, data, l, count - 1, Some(data[j..k]), depth)
            case Err(e) => Err(e)
            case Ok(rest, end) => Ok([Pair(key, value)] + rest, end)
  }

  // ---------------------------------------------------------------------------
  // Encoding
  // ---------------------------------------------------------------------------

  /** An entry ready to be written: the pair and the bytes of its value. */
  datatype Entry = Entry(pair: Pair, valueBytes: seq<Byte>)

  function Encode(v: Value): (b: seq<Byte>)
    ensures b != []
    decreases v
  {
    match v
    case Bool(b) => if b then [0xf5] else [0xf4]
    case Uint(n) => HeadBytes(0, n)
    case Int(i) => if i >= 0 then HeadBytes(0, i) else HeadBytes(1, -1 - i)
    case Float(bits) => [0xfa] + BigEndian(bits, 4)
    case Blob(b) => HeadBytes(2, |b|) + b
    case Text(b) => HeadBytes(3, |b|) + b
    case Array(items) => HeadBytes(4, |items|) + EncodeItems(items)
    case Map(entries) => HeadBytes(5, |entries|) + Join(Sort(KeyedEntries(entries)))
  }

  function EncodeItems(items: seq<Value>): seq<Byte>
    decreases items
  {
    if items == [] then [] else Encode(items[0]) + EncodeItems(items[1..])
  }

  /** An entry under the bytes of its key. */
  function KeyedEntry(p: Pair): Keyed<Entry>
    decreases p
  {
    Keyed(Encode(p.key), Entry(p, Encode(p.value)))
  }

  function KeyedEntries(entries: seq<Pair>): (r: seq<Keyed<Entry>>)
    ensures |r| == |entries|
    decreases entries
  {
    if entries == [] then []
    else [KeyedEntry(entries[0])] + KeyedEntries(entries[1..])
  }

  function Join(s: seq<Keyed<Entry>>): seq<Byte> {
    if s == [] then [] else s[0].key + s[0].item.valueBytes + Join(s[1..])
  }

  function Pairs(s: seq<Keyed<Entry>>): (r: seq<Pair>)
    ensures |r| == |s|
  {
    if s == [] then [] else [s[0].item.pair] + Pairs(s[1..])
  }

  /** The entries in the order they are written: ascending by the bytes of their keys. */
  function SortPairs(entries: seq<Pair>): seq<Pair> {
    Pairs(Sort(KeyedEntries(entries)))
  }

  // ---------------------------------------------------------------------------
  // What the decoder returns, and what encodes to something it accepts
  // ---------------------------------------------------------------------------

  /** Maps in key order all the way down, and no non-negative number of the negative kind. */
  function Canon(v: Value): Value
    decreases v
  {
    match v
    case Int(i) => if i >= 0 then Uint(i) else v
    case Array(items) => Array(CanonItems(items))
    case Map(entries) => Map(SortPairs(CanonPairs(entries)))
    case _ => v
  }

  function CanonItems(items: seq<Value>): seq<Value>
    decreases items
  {
    if items == [] then [] else [Canon(items[0])] + CanonItems(items[1..])
  }

  function CanonPair(p: Pair): Pair
    decreases p
  {
    Pair(Canon(p.key), Canon(p.value))
  }

  function CanonPairs(entries: seq<Pair>): seq<Pair>
    decreases entries
  {
    if entries == [] then []
    else [CanonPair(entries[0])] + CanonPairs(entries[1..])
  }

  /** Numbers and lengths within the 64 bits of a head. */
  predicate Fits(v: Value)
    decreases v
  {
    match v
    case Uint(n) => n < ARG_LIMIT
    case Int(i) => -(ARG_LIMIT as int) <= i < ARG_LIMIT
    case Blob(b) => |b| < ARG_LIMIT
    case Text(b) => |b| < ARG_LIMIT
    case Array(items) => |items| < ARG_LIMIT && forall x | x in items :: Fits(x)
    case Map(entries) => |entries| < ARG_LIMIT && forall p | p in entries :: Fits(p.key) && Fits(p.value)
    case _ => true
  }

  /** Everything else the format asks of a value at nesting `depth`. */
  predicate WellFormed(u: Unicode, v: Value, depth: nat)
    decreases v
  {
    && depth <= MAX_NESTING
    && match v
       case Float(bits) => Floats.CheckFloat(bits) == None
       case Text(b) => u.IsText(b)
       case Array(items) => forall x | x in items :: WellFormed(u, x, depth + 1)
       case Map(entries) =>
         && (forall p | p in entries :: WellFormed(u, p.key, depth + 1) && WellFormed(u, p.value, depth + 1))
         && DistinctKeys(KeyedEntries(entries))
       case _ => true
  }
}
