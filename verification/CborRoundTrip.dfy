/** The decoder and the encoder are inverses, both ways round. */
module CborRoundTrip {
  import opened Bytes
  import opened CborHead
  import opened Sorting
  import opened CborSpec
  import Floats

  // ---------------------------------------------------------------------------
  // Encode after decode
  // ---------------------------------------------------------------------------

  /** What the decoder returns is in canonical form, within bounds, and well formed. */
  ghost predicate Normal(u: Unicode, v: Value, depth: nat) {
    Canon(v) == v && Fits(v) && WellFormed(u, v, depth)
  }

  ghost predicate NormalItems(u: Unicode, items: seq<Value>, depth: nat) {
    CanonItems(items) == items && forall x | x in items :: Fits(x) && WellFormed(u, x, depth)
  }

  ghost predicate NormalPairs(u: Unicode, entries: seq<Pair>, depth: nat) {
    && CanonPairs(entries) == entries
    && forall p | p in entries :: Fits(p.key) && Fits(p.value)
                                  && WellFormed(u, p.key, depth) && WellFormed(u, p.value, depth)
  }

  /**
    Whatever is accepted re-encodes to exactly the bytes it was read from.
   */
  lemma {:induction false} ReEncode(u: Unicode, data: seq<Byte>, i: nat, depth: nat)
    requires i <= |data| && ValueAt(u, data, i, depth).Ok?
    ensures var r := ValueAt(u, data, i, depth);
            Encode(r.value) == data[i..r.end] && Normal(u, r.value, depth)
    decreases |data| - i, 0, 0
  {
    hide HeadAt, HeadBytes, Floats.CheckFloat, BigEndian;
    var h := HeadAt(data, i);
    var j, major := h.end, h.value.major;
    var r := ValueAt(u, data, i, depth);
    SliceSplits(data, i, j, r.end);
    if major == 7 {
      ReEncodeSimple(data, i);
    } else {
      HeadWritten(data, i);
      if major == 4 {
        ReEncodeItems(u, data, j, h.value.arg, depth + 1);
      } else if major == 5 {
        ReEncodeEntries(u, data, j, h.value.arg, None, depth + 1);
        var ks := KeyedEntries(r.value.entries);
        AscendingDistinct(None, ks);
        SortFixes(ks);
        PairsOfEntries(r.value.entries);
      }
    }
  }

  lemma ReEncodeSimple(data: seq<Byte>, i: nat)
    requires i <= |data| && HeadAt(data, i).Ok? && HeadAt(data, i).value.major == 7
    requires SimpleOf(HeadAt(data, i).value.arg, HeadAt(data, i).value.extra).Ok?
    ensures var h := HeadAt(data, i);
            var v := SimpleOf(h.value.arg, h.value.extra).value;
            && Encode(v) == data[i..h.end]
            && Canon(v) == v && Fits(v)
            && (v.Bool? || (v.Float? && Floats.CheckFloat(v.bits) == None))
  {
    hide Floats.CheckFloat, BigEndian, FromBigEndian, Pow256;
    var h := HeadAt(data, i);
    if h.value.extra == 26 {
      Pow256Values();
      BigEndianWritten(data[i + 1..h.end]);
      assert data[i..h.end] == [data[i]] + data[i + 1..h.end];
    }
  }

  lemma {:induction false} ReEncodeItems(u: Unicode, data: seq<Byte>, j: nat, count: nat, depth: nat)
    requires j <= |data| && ItemsAt(u, data, j, count, depth).Ok?
    ensures var r := ItemsAt(u, data, j, count, depth);
            EncodeItems(r.value) == data[j..r.end] && NormalItems(u, r.value, depth)
    decreases |data| - j, 1, count
  {
    if count > 0 {
      var v := ValueAt(u, data, j, depth);
      ReEncode(u, data, j, depth);
      ReEncodeItems(u, data, v.end, count - 1, depth);
      var rest := ItemsAt(u, data, v.end, count - 1, depth);
      assert ([v.value] + rest.value)[1..] == rest.value;
      SliceSplits(data, j, v.end, rest.end);
    }
  }

  lemma {:induction false} ReEncodeEntries(u: Unicode, data: seq<Byte>, j: nat, count: nat,
                                           prev: Option<seq<Byte>>, depth: nat)
    requires j <= |data| && EntriesAt(u, data, j, count, prev, depth).Ok?
    ensures var r := EntriesAt(u, data, j, count, prev, depth);
            && Join(KeyedEntries(r.value)) == data[j..r.end]
            && AscendingFrom(prev, KeyedEntries(r.value))
            && NormalPairs(u, r.value, depth)
    decreases |data| - j, 1, count
  {
    if count > 0 {
      var key := ValueAt(u, data, j, depth);
      var value := ValueAt(u, data, key.end, depth);
      ReEncode(u, data, j, depth);
      ReEncode(u, data, key.end, depth);
      ReEncodeEntries(u, data, value.end, count - 1, Some(data[j..key.end]), depth);
      var rest := EntriesAt(u, data, value.end, count - 1, Some(data[j..key.end]), depth);
      var p := Pair(key.value, value.value);
      var ks := KeyedEntries(rest.value);
      assert ([p] + rest.value)[1..] == rest.value;
      assert ([KeyedEntry(p)] + ks)[1..] == ks;
      SliceSplits(data, j, key.end, value.end);
      SliceSplits(data, j, value.end, rest.end);
    }
  }

  lemma {:induction false} PairsOfEntries(entries: seq<Pair>)
    ensures Pairs(KeyedEntries(entries)) == entries
  {
    if entries != [] {
      PairsOfEntries(entries[1..]);
      assert KeyedEntries(entries)[1..] == KeyedEntries(entries[1..]);
    }
  }

  // ---------------------------------------------------------------------------
  // The canonical form encodes alike
  // ---------------------------------------------------------------------------

  function CanonEntry(e: Entry): Entry {
    Entry(CanonPair(e.pair), e.valueBytes)
  }

  lemma {:induction false} EncodeCanon(v: Value)
    ensures Encode(Canon(v)) == Encode(v)
    decreases v
  {
    match v
    case Array(items) => EncodeCanonItems(items);
    case Map(entries) =>
      CanonKeyed(entries);
      CanonSorted(entries);
    case _ =>
  }

  /** Sorting the canonical entries changes none of their bytes. */
  lemma CanonSorted(entries: seq<Pair>)
    requires |CanonPairs(entries)| == |entries|
    requires KeyedEntries(CanonPairs(entries)) == MapKeyed(CanonEntry, KeyedEntries(entries))
    ensures |SortPairs(CanonPairs(entries))| == |entries|
    ensures Join(Sort(KeyedEntries(SortPairs(CanonPairs(entries))))) == Join(Sort(KeyedEntries(entries)))
  {
    hide Encode, KeyedEntry, KeyedEntries, CanonPairs, CanonPair, Sort, Join, Pairs, MapKeyed, CanonEntry,
         NonDescending, DistinctKeys, Ascending, Less;
    var ks, canon := KeyedEntries(entries), KeyedEntries(CanonPairs(entries));
    var s := Sort(canon);
    SortMaps(CanonEntry, ks);
    SortKeeps(canon);
    EntriesAreKeyed(CanonPairs(entries));
    EntriesOfPairs(s);
    SortOrders(canon);
    SortFixes(s);
    JoinMaps(Sort(ks));
  }

  lemma {:induction false} EncodeCanonItems(items: seq<Value>)
    ensures EncodeItems(CanonItems(items)) == EncodeItems(items) && |CanonItems(items)| == |items|
    decreases items
  {
    if items != [] {
      EncodeCanon(items[0]);
      EncodeCanonItems(items[1..]);
      assert CanonItems(items)[1..] == CanonItems(items[1..]);
    }
  }

  lemma {:induction false} CanonKeyed(entries: seq<Pair>)
    ensures |CanonPairs(entries)| == |entries|
    ensures KeyedEntries(CanonPairs(entries)) == MapKeyed(CanonEntry, KeyedEntries(entries))
    decreases entries
  {
    if entries != [] {
      EncodeCanonPair(entries[0]);
      CanonKeyed(entries[1..]);
      assert CanonPairs(entries)[1..] == CanonPairs(entries[1..]);
      assert KeyedEntries(entries)[1..] == KeyedEntries(entries[1..]);
    }
  }

  lemma {:induction false} EncodeCanonPair(p: Pair)
    ensures KeyedEntry(CanonPair(p)) == Keyed(KeyedEntry(p).key, CanonEntry(KeyedEntry(p).item))
    decreases p
  {
    EncodeCanon(p.key);
    EncodeCanon(p.value);
  }

  ghost predicate AreKeyed(s: seq<Keyed<Entry>>, entries: seq<Pair>) {
    forall e | e in s :: e == KeyedEntry(e.item.pair) && e.item.pair in entries
  }

  lemma {:induction false} EntriesAreKeyed(entries: seq<Pair>)
    ensures AreKeyed(KeyedEntries(entries), entries)
    ensures forall p | p in entries :: KeyedEntry(p) in KeyedEntries(entries)
  {
    if entries != [] {
      EntriesAreKeyed(entries[1..]);
      assert entries == [entries[0]] + entries[1..];
    }
  }

  lemma {:induction false} EntriesOfPairs(s: seq<Keyed<Entry>>)
    requires forall e | e in s :: e == KeyedEntry(e.item.pair)
    ensures KeyedEntries(Pairs(s)) == s
  {
    if s != [] {
      EntriesOfPairs(s[1..]);
      assert Pairs(s)[1..] == Pairs(s[1..]);
      assert s == [s[0]] + s[1..];
    }
  }

  lemma {:induction false} JoinMaps(s: seq<Keyed<Entry>>)
    ensures Join(MapKeyed(CanonEntry, s)) == Join(s)
    ensures Pairs(MapKeyed(CanonEntry, s)) == CanonPairs(Pairs(s))
  {
    if s != [] {
      JoinMaps(s[1..]);
      assert MapKeyed(CanonEntry, s)[1..] == MapKeyed(CanonEntry, s[1..]);
      assert Pairs(s)[1..] == Pairs(s[1..]);
    }
  }

  /** Sorting the canonical entries is making the sorted entries canonical. */
  lemma SortCanon(entries: seq<Pair>)
    ensures SortPairs(CanonPairs(entries)) == CanonPairs(SortPairs(entries))
  {
    CanonKeyed(entries);
    SortMaps(CanonEntry, KeyedEntries(entries));
    JoinMaps(Sort(KeyedEntries(entries)));
  }

  // ---------------------------------------------------------------------------
  // Decode after encode
  // ---------------------------------------------------------------------------

  ghost predicate Decodes<T>(r: Read<T>, ok: bool, v: T, end: nat) {
    if ok then r == Ok(v, end) else r.Err?
  }

  /**
    The decoder accepts an encoding, whatever follows it, exactly when the value is well formed;
    it then consumes the encoding and nothing else, and returns the canonical form.
   */
  lemma {:induction false} DecodeEncode(u: Unicode, v: Value, data: seq<Byte>, i: nat, depth: nat)
    requires Fits(v)
    requires i + |Encode(v)| <= |data| && data[i..i + |Encode(v)|] == Encode(v)
    ensures Decodes(ValueAt(u, data, i, depth), WellFormed(u, v, depth), Canon(v), i + |Encode(v)|)
    decreases v, 2
  {
    hide HeadAt, HeadBytes, Floats.CheckFloat, BigEndian, EntriesAt, ItemsAt, Sort, Join, KeyedEntries;
    match v
    case Array(items) =>
      SliceParts(data, i, HeadBytes(4, |items|), EncodeItems(items));
      HeadRead(data, i, 4, |items|);
      if depth <= MAX_NESTING {
        DecodeItems(u, items, data, i + |HeadBytes(4, |items|)|, depth + 1);
      }
    case Map(entries) =>
      SliceParts(data, i, HeadBytes(5, |entries|), Join(Sort(KeyedEntries(entries))));
      HeadRead(data, i, 5, |entries|);
      if depth <= MAX_NESTING {
        DecodeMap(u, v, data, i + |HeadBytes(5, |entries|)|, depth);
      }
    case _ => DecodeScalar(u, v, data, i, depth);
  }

  lemma DecodeScalar(u: Unicode, v: Value, data: seq<Byte>, i: nat, depth: nat)
    requires Fits(v) && !v.Array? && !v.Map?
    requires i + |Encode(v)| <= |data| && data[i..i + |Encode(v)|] == Encode(v)
    ensures Decodes(ValueAt(u, data, i, depth), WellFormed(u, v, depth), Canon(v), i + |Encode(v)|)
  {
    hide *;
    match v
    case Bool(b) => DecodeSimple(u, v, data, i, depth);
    case Float(bits) => DecodeSimple(u, v, data, i, depth);
    case Uint(n) => DecodeNumber(u, v, data, i, depth);
    case Int(k) => DecodeNumber(u, v, data, i, depth);
    case Blob(b) => DecodeBlob(u, b, data, i, depth);
    case Text(b) => DecodeText(u, b, data, i, depth);
  }

  lemma DecodeSimple(u: Unicode, v: Value, data: seq<Byte>, i: nat, depth: nat)
    requires v.Bool? || v.Float?
    requires i + |Encode(v)| <= |data| && data[i..i + |Encode(v)|] == Encode(v)
    ensures Decodes(ValueAt(u, data, i, depth), WellFormed(u, v, depth), Canon(v), i + |Encode(v)|)
  {
    SimpleRead(data, i, v);
    hide HeadAt, Encode, Floats.CheckFloat;
  }

  lemma DecodeNumber(u: Unicode, v: Value, data: seq<Byte>, i: nat, depth: nat)
    requires (v.Uint? || v.Int?) && Fits(v)
    requires i + |Encode(v)| <= |data| && data[i..i + |Encode(v)|] == Encode(v)
    ensures Decodes(ValueAt(u, data, i, depth), WellFormed(u, v, depth), Canon(v), i + |Encode(v)|)
  {
    hide HeadAt, HeadBytes;
    match v
    case Uint(n) => HeadRead(data, i, 0, n);
    case Int(k) =>
      if k >= 0 {
        HeadRead(data, i, 0, k);
      } else {
        HeadRead(data, i, 1, -1 - k);
      }
  }

  lemma DecodeBlob(u: Unicode, b: seq<Byte>, data: seq<Byte>, i: nat, depth: nat)
    requires Fits(Blob(b))
    requires i + |Encode(Blob(b))| <= |data| && data[i..i + |Encode(Blob(b))|] == Encode(Blob(b))
    ensures Decodes(ValueAt(u, data, i, depth), WellFormed(u, Blob(b), depth), Canon(Blob(b)), i + |Encode(Blob(b))|)
  {
    hide HeadAt, HeadBytes;
    SliceParts(data, i, HeadBytes(2, |b|), b);
    HeadRead(data, i, 2, |b|);
  }

  lemma DecodeText(u: Unicode, b: seq<Byte>, data: seq<Byte>, i: nat, depth: nat)
    requires Fits(Text(b))
    requires i + |Encode(Text(b))| <= |data| && data[i..i + |Encode(Text(b))|] == Encode(Text(b))
    ensures Decodes(ValueAt(u, data, i, depth), WellFormed(u, Text(b), depth), Canon(Text(b)), i + |Encode(Text(b))|)
  {
    hide HeadAt, HeadBytes;
    SliceParts(data, i, HeadBytes(3, |b|), b);
    HeadRead(data, i, 3, |b|);
  }

  lemma {:induction false} DecodeMap(u: Unicode, v: Value, data: seq<Byte>, j: nat, depth: nat)
    requires v.Map? && Fits(v) && depth <= MAX_NESTING
    requires var b := Join(Sort(KeyedEntries(v.entries))); j + |b| <= |data| && data[j..j + |b|] == b
    ensures Decodes(EntriesAt(u, data, j, |v.entries|, None, depth + 1), WellFormed(u, v, depth),
                    SortPairs(CanonPairs(v.entries)), j + |Join(Sort(KeyedEntries(v.entries)))|)
    decreases v, 1
  {
    hide EntriesAt, ValueAt, BodyAt, Sort, KeyedEntry, KeyedEntries, Encode, Canon, CanonPairs, CanonPair, Join, Pairs,
         DistinctKeys, EntriesWellFormed, Less, HeadBytes;
    var ks := KeyedEntries(v.entries);
    SortKeeps(ks);
    EntriesAreKeyed(v.entries);
    DecodeEntries(u, v, Sort(ks), data, j, None, depth + 1);
    SortAscending(ks);
    SortCanon(v.entries);
    SortedWellFormed(u, v.entries, depth + 1);
  }

  lemma SimpleRead(data: seq<Byte>, i: nat, v: Value)
    requires v.Bool? || v.Float?
    requires i + |Encode(v)| <= |data| && data[i..i + |Encode(v)|] == Encode(v)
    ensures var h := HeadAt(data, i);
            && h.Ok? && h.end == i + |Encode(v)| && h.value.major == 7
            && match v
               case Bool(b) => SimpleOf(h.value.arg, h.value.extra) == Ok(v, 0)
               case Float(bits) =>
                 SimpleOf(h.value.arg, h.value.extra)
                 == match Floats.CheckFloat(bits) case Some(e) => Err(e) case None => Ok(v, 0)
  {
    hide Floats.CheckFloat, BigEndian, FromBigEndian, Pow256;
    assert data[i] == data[i..i + |Encode(v)|][0] == Encode(v)[0];
    if v.Float? {
      Pow256Values();
      BigEndianRead(v.bits, 4);
      assert data[i + 1..i + 5] == data[i..i + 5][1..] == Encode(v)[1..] == BigEndian(v.bits, 4);
    }
  }

  lemma {:induction false} DecodeItems(u: Unicode, items: seq<Value>, data: seq<Byte>, j: nat, depth: nat)
    requires forall x | x in items :: Fits(x)
    requires j + |EncodeItems(items)| <= |data| && data[j..j + |EncodeItems(items)|] == EncodeItems(items)
    ensures Decodes(ItemsAt(u, data, j, |items|, depth), forall x | x in items :: WellFormed(u, x, depth),
                    CanonItems(items), j + |EncodeItems(items)|)
    decreases items, 0
  {
    hide ValueAt, BodyAt, Encode, WellFormed, Canon, Fits;
    if items != [] {
      assert items == [items[0]] + items[1..];
      var a, b := Encode(items[0]), EncodeItems(items[1..]);
      SliceParts(data, j, a, b);
      DecodeEncode(u, items[0], data, j, depth);
      DecodeItems(u, items[1..], data, j + |a|, depth);
    }
  }

  lemma {:induction false} DecodeEntries(u: Unicode, v: Value, s: seq<Keyed<Entry>>, data: seq<Byte>, j: nat,
                                         prev: Option<seq<Byte>>, depth: nat)
    requires v.Map? && Fits(v) && AreKeyed(s, v.entries)
    requires j + |Join(s)| <= |data| && data[j..j + |Join(s)|] == Join(s)
    ensures Decodes(EntriesAt(u, data, j, |s|, prev, depth),
                    AscendingFrom(prev, s) && EntriesWellFormed(u, s, depth),
                    CanonPairs(Pairs(s)), j + |Join(s)|)
    decreases v, 0, |s|
  {
    hide ValueAt, BodyAt, Encode, WellFormed, Canon, Less, Join;
    if s == [] {
      EmptyJoin();
    } else {
      var p := s[0].item.pair;
      assert p in v.entries && Fits(p.key) && Fits(p.value);
      EntrySlices(s, p, data, j);
      var k, l := j + |Encode(p.key)|, j + |Encode(p.key)| + |Encode(p.value)|;
      DecodeEncode(u, p.key, data, j, depth);
      DecodeEncode(u, p.value, data, k, depth);
      DecodeEntries(u, v, s[1..], data, l, Some(s[0].key), depth);
      hide *;
      DecodeEntry(u, s, data, j, prev, depth, k, l, j + |Join(s)|);
    }
  }

  lemma EmptyJoin()
    ensures Join([]) == []
  {
  }

  lemma EntrySlices(s: seq<Keyed<Entry>>, p: Pair, data: seq<Byte>, j: nat)
    requires s != [] && s[0] == KeyedEntry(p)
    requires j + |Join(s)| <= |data| && data[j..j + |Join(s)|] == Join(s)
    ensures var a, b, c := Encode(p.key), Encode(p.value), Join(s[1..]);
            && |Join(s)| == |a| + |b| + |c|
            && data[j..j + |a|] == a
            && data[j + |a|..j + |a| + |b|] == b
            && data[j + |a| + |b|..j + |a| + |b| + |c|] == c
  {
    hide Encode;
    var a, b, c := Encode(p.key), Encode(p.value), Join(s[1..]);
    assert Join(s) == a + b + c;
    SliceParts(data, j, a + b, c);
    SliceParts(data, j, a, b);
  }

  lemma DecodeEntry(u: Unicode, s: seq<Keyed<Entry>>, data: seq<Byte>, j: nat, prev: Option<seq<Byte>>, depth: nat,
                    k: nat, l: nat, end: nat)
    requires s != [] && j <= k <= l <= |data| && data[j..k] == s[0].key
    requires var p := s[0].item.pair;
             && Decodes(ValueAt(u, data, j, depth), WellFormed(u, p.key, depth), Canon(p.key), k)
             && Decodes(ValueAt(u, data, k, depth), WellFormed(u, p.value, depth), Canon(p.value), l)
    requires Decodes(EntriesAt(u, data, l, |s| - 1, Some(s[0].key), depth),
                     AscendingFrom(Some(s[0].key), s[1..]) && EntriesWellFormed(u, s[1..], depth),
                     CanonPairs(Pairs(s[1..])), end)
    ensures Decodes(EntriesAt(u, data, j, |s|, prev, depth),
                    AscendingFrom(prev, s) && EntriesWellFormed(u, s, depth), CanonPairs(Pairs(s)), end)
  {
    hide ValueAt, WellFormed, Canon, Less;
    assert Pairs(s)[1..] == Pairs(s[1..]);
  }

  ghost predicate EntriesWellFormed(u: Unicode, s: seq<Keyed<Entry>>, depth: nat) {
    s == [] || (&& WellFormed(u, s[0].item.pair.key, depth) && WellFormed(u, s[0].item.pair.value, depth)
                && EntriesWellFormed(u, s[1..], depth))
  }

  lemma {:induction false} EachWellFormed(u: Unicode, s: seq<Keyed<Entry>>, depth: nat)
    ensures EntriesWellFormed(u, s, depth)
       <==> forall e | e in s :: WellFormed(u, e.item.pair.key, depth) && WellFormed(u, e.item.pair.value, depth)
  {
    if s != [] {
      EachWellFormed(u, s[1..], depth);
      assert s == [s[0]] + s[1..];
    }
  }

  lemma SortedWellFormed(u: Unicode, entries: seq<Pair>, depth: nat)
    ensures EntriesWellFormed(u, Sort(KeyedEntries(entries)), depth)
       <==> forall p | p in entries :: WellFormed(u, p.key, depth) && WellFormed(u, p.value, depth)
  {
    var ks := KeyedEntries(entries);
    EachWellFormed(u, Sort(ks), depth);
    SortKeeps(ks);
    EntriesAreKeyed(entries);
    forall p | p in entries
      ensures KeyedEntry(p) in ks && KeyedEntry(p).item.pair == p
    {
    }
  }

  // ---------------------------------------------------------------------------
  // One value at a place
  // ---------------------------------------------------------------------------

  predicate Simple(v: Value) {
    v.Bool? || v.Float?
  }

  function MajorOf(v: Value): (major: nat)
    requires !Simple(v)
    ensures major < 6
  {
    match v
    case Uint(_) => 0
    case Int(i) => if i >= 0 then 0 else 1
    case Blob(_) => 2
    case Text(_) => 3
    case Array(_) => 4
    case Map(_) => 5
  }

  function ArgOf(v: Value): nat
    requires !Simple(v)
  {
    match v
    case Uint(n) => n
    case Int(i) => if i >= 0 then i else -1 - i
    case Blob(b) => |b|
    case Text(b) => |b|
    case Array(items) => |items|
    case Map(entries) => |entries|
  }

  /** What follows the head. */
  function RestOf(v: Value): seq<Byte> {
    match v
    case Blob(b) => b
    case Text(b) => b
    case Array(items) => EncodeItems(items)
    case Map(entries) => Join(Sort(KeyedEntries(entries)))
    case _ => []
  }

  ghost predicate Holds(data: seq<Byte>, i: nat, b: seq<Byte>) {
    i + |b| <= |data| && data[i..i + |b|] == b
  }

  /** Where an encoding stands, its head is read and the rest stands after that. */
  lemma HeadAndRest(v: Value, data: seq<Byte>, i: nat)
    requires Fits(v) && !Simple(v) && Holds(data, i, Encode(v))
    ensures var j := i + |HeadBytes(MajorOf(v), ArgOf(v))|;
            && HeadAt(data, i) == Ok(Head(MajorOf(v), ArgOf(v), InfoOf(ArgOf(v))), j)
            && Holds(data, j, RestOf(v)) && i + |Encode(v)| == j + |RestOf(v)|
  {
    hide HeadAt, HeadBytes, InfoOf, Sort, Join, KeyedEntries, EncodeItems;
    var h := HeadBytes(MajorOf(v), ArgOf(v));
    assert Encode(v) == h + RestOf(v);
    SliceParts(data, i, h, RestOf(v));
    HeadRead(data, i, MajorOf(v), ArgOf(v));
  }

  lemma SimpleApart(v: Value, data: seq<Byte>, i: nat)
    requires Fits(v) && Holds(data, i, Encode(v))
    ensures i < |data| && (data[i] >= 224 <==> Simple(v))
  {
    hide HeadAt, BigEndian, Sort, Join, KeyedEntries, EncodeItems;
    assert data[i] == data[i..i + |Encode(v)|][0] == Encode(v)[0];
  }

  lemma OneSimple(v: Value, w: Value, data: seq<Byte>, i: nat)
    requires Simple(v) && Simple(w) && Holds(data, i, Encode(v)) && Holds(data, i, Encode(w))
    ensures v == w
  {
    hide BigEndian, Pow256, FromBigEndian;
    assert data[i] == data[i..i + |Encode(v)|][0] == Encode(v)[0];
    assert data[i] == data[i..i + |Encode(w)|][0] == Encode(w)[0];
    if v.Float? {
      Pow256Values();
      assert BigEndian(v.bits, 4) == Encode(v)[1..] == Encode(w)[1..] == BigEndian(w.bits, 4);
      BigEndianRead(v.bits, 4);
      BigEndianRead(w.bits, 4);
    }
  }

  /** If the encodings of two values stand at one place, they end together and the values agree. */
  lemma {:induction false} OneValueAt(v: Value, w: Value, data: seq<Byte>, i: nat)
    requires Fits(v) && Fits(w) && Holds(data, i, Encode(v)) && Holds(data, i, Encode(w))
    ensures Canon(v) == Canon(w) && |Encode(v)| == |Encode(w)|
    decreases v, 2
  {
    hide HeadAt, HeadBytes, InfoOf, Encode, RestOf, Canon, Fits;
    SimpleApart(v, data, i);
    SimpleApart(w, data, i);
    if Simple(v) {
      OneSimple(v, w, data, i);
    } else {
      HeadAndRest(v, data, i);
      HeadAndRest(w, data, i);
      OneRestAt(v, w, data, i + |HeadBytes(MajorOf(v), ArgOf(v))|);
    }
  }

  /** Under one head, the rest of an encoding decides the value. */
  lemma {:induction false} OneRestAt(v: Value, w: Value, data: seq<Byte>, j: nat)
    requires Fits(v) && Fits(w) && !Simple(v) && !Simple(w)
    requires MajorOf(v) == MajorOf(w) && ArgOf(v) == ArgOf(w)
    requires Holds(data, j, RestOf(v)) && Holds(data, j, RestOf(w))
    ensures Canon(v) == Canon(w) && |RestOf(v)| == |RestOf(w)|
    decreases v, 1
  {
    hide EncodeItems, Sort, Join, KeyedEntries, Pairs, CanonItems, CanonPairs, SortPairs;
    if v.Array? {
      OneItemsAt(v.items, w.items, data, j);
    } else if v.Map? {
      var s := SortedEntries(v.entries);
      var t := SortedEntries(w.entries);
      OneEntriesAt(v, s, w, t, data, j);
    }
  }

  lemma {:induction false} OneItemsAt(xs: seq<Value>, ys: seq<Value>, data: seq<Byte>, j: nat)
    requires |xs| == |ys| && (forall x | x in xs :: Fits(x)) && (forall y | y in ys :: Fits(y))
    requires Holds(data, j, EncodeItems(xs)) && Holds(data, j, EncodeItems(ys))
    ensures CanonItems(xs) == CanonItems(ys) && |EncodeItems(xs)| == |EncodeItems(ys)|
    decreases xs, 0
  {
    hide Encode, Canon, Fits;
    if xs != [] {
      assert xs == [xs[0]] + xs[1..] && ys == [ys[0]] + ys[1..];
      SliceParts(data, j, Encode(xs[0]), EncodeItems(xs[1..]));
      SliceParts(data, j, Encode(ys[0]), EncodeItems(ys[1..]));
      OneValueAt(xs[0], ys[0], data, j);
      OneItemsAt(xs[1..], ys[1..], data, j + |Encode(xs[0])|);
    }
  }

  /** The entries of a map in the order they are written. */
  lemma SortedEntries(entries: seq<Pair>) returns (s: seq<Keyed<Entry>>)
    ensures s == Sort(KeyedEntries(entries)) && AreKeyed(s, entries)
    ensures SortPairs(CanonPairs(entries)) == CanonPairs(Pairs(s))
  {
    s := Sort(KeyedEntries(entries));
    SortCanon(entries);
    SortKeeps(KeyedEntries(entries));
    EntriesAreKeyed(entries);
  }

  lemma {:induction false} OneEntriesAt(v: Value, s: seq<Keyed<Entry>>, w: Value, t: seq<Keyed<Entry>>,
                                        data: seq<Byte>, j: nat)
    requires v.Map? && Fits(v) && AreKeyed(s, v.entries) && w.Map? && Fits(w) && AreKeyed(t, w.entries)
    requires |s| == |t| && Holds(data, j, Join(s)) && Holds(data, j, Join(t))
    ensures CanonPairs(Pairs(s)) == CanonPairs(Pairs(t)) && |Join(s)| == |Join(t)|
    decreases v, 0, |s|
  {
    hide Encode, Canon, Join;
    if s == [] {
      EmptyJoin();
    } else {
      var p, q := s[0].item.pair, t[0].item.pair;
      assert p in v.entries && q in w.entries;
      EntrySlices(s, p, data, j);
      EntrySlices(t, q, data, j);
      var k := j + |Encode(p.key)|;
      OneValueAt(p.key, q.key, data, j);
      OneValueAt(p.value, q.value, data, k);
      OneEntriesAt(v, s[1..], w, t[1..], data, k + |Encode(p.value)|);
      assert Pairs(s)[1..] == Pairs(s[1..]) && Pairs(t)[1..] == Pairs(t[1..]);
    }
  }

  // ---------------------------------------------------------------------------
  // Consequences
  // ---------------------------------------------------------------------------

  /** The decoder, as a relation: it accepts exactly the encodings of canonical values. */
  lemma DecoderGraph(u: Unicode, data: seq<Byte>, i: nat, depth: nat, v: Value, j: nat)
    requires i <= |data|
    ensures ValueAt(u, data, i, depth) == Ok(v, j)
       <==> i <= j <= |data| && data[i..j] == Encode(v) && Normal(u, v, depth)
  {
    if ValueAt(u, data, i, depth) == Ok(v, j) {
      ReEncode(u, data, i, depth);
    }
    hide ValueAt, Encode;
    if i <= j <= |data| && data[i..j] == Encode(v) && Normal(u, v, depth) {
      DecodeEncode(u, v, data, i, depth);
    }
  }

  /** No encoding is a proper prefix of another, so concatenated items need no envelope. */
  lemma PrefixFree(v: Value, w: Value)
    requires Fits(v) && Fits(w) && Encode(v) <= Encode(w)
    ensures Encode(v) == Encode(w) && Canon(v) == Canon(w)
  {
    hide Encode, Fits, Canon;
    var data := Encode(w);
    assert data[0..|Encode(v)|] == Encode(v) && data[0..|data|] == data;
    OneValueAt(v, w, data, 0);
  }

  /**
    Two values have the same bytes exactly when they are one value up to the order of map entries:
    well formed or not, with repeated keys or without.
   */
  lemma EncodeInjective(v: Value, w: Value)
    requires Fits(v) && Fits(w)
    ensures Encode(v) == Encode(w) <==> Canon(v) == Canon(w)
  {
    hide Encode, Fits, Canon;
    EncodeCanon(v);
    EncodeCanon(w);
    if Encode(v) == Encode(w) {
      PrefixFree(v, w);
    }
  }
}
