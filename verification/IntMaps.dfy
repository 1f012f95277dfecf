/**
  The hand-written map encoder: entries under whole-number keys, sorted by number, whose values are
  bytes already encoded. It writes what the general encoder writes for the same map, because the
  bytewise order of shortest heads is the order of the numbers.
 */
module IntMaps {
  import opened Bytes
  import opened CborHead
  import opened Sorting
  import opened CborSpec
  import opened CborRoundTrip
  import opened CborGo

  type U64 = n: int | 0 <= n < 0x1_0000_0000_0000_0000

  datatype Numbered<+T> = Numbered(key: U64, item: T)

  // ---------------------------------------------------------------------------
  // Sorting by number is sorting by head
  // ---------------------------------------------------------------------------

  function InsertNumber<T>(e: Numbered<T>, s: seq<Numbered<T>>): (r: seq<Numbered<T>>)
    ensures |r| == |s| + 1
  {
    if s == [] || !(s[0].key < e.key) then [e] + s else [s[0]] + InsertNumber(e, s[1..])
  }

  function SortNumbers<T>(s: seq<Numbered<T>>): (r: seq<Numbered<T>>)
    ensures |r| == |s|
  {
    if s == [] then [] else InsertNumber(s[0], SortNumbers(s[1..]))
  }

  function Heads<T>(s: seq<Numbered<T>>): (r: seq<Keyed<T>>)
    ensures |r| == |s|
    ensures forall i :: 0 <= i < |s| ==> r[i] == Keyed(HeadBytes(0, s[i].key), s[i].item)
  {
    if s == [] then [] else [Keyed(HeadBytes(0, s[0].key), s[0].item)] + Heads(s[1..])
  }

  lemma {:induction false} InsertByHead<T>(e: Numbered<T>, s: seq<Numbered<T>>)
    ensures Heads(InsertNumber(e, s)) == Insert(Keyed(HeadBytes(0, e.key), e.item), Heads(s))
  {
    hide HeadBytes;
    if s != [] {
      HeadOrder(0, s[0].key, e.key);
      InsertByHead(e, s[1..]);
      assert Heads(s)[1..] == Heads(s[1..]);
    }
  }

  lemma {:induction false} SortByHead<T>(s: seq<Numbered<T>>)
    ensures Heads(SortNumbers(s)) == Sort(Heads(s))
  {
    hide HeadBytes;
    if s != [] {
      SortByHead(s[1..]);
      InsertByHead(s[0], SortNumbers(s[1..]));
      assert Heads(s)[1..] == Heads(s[1..]);
    }
  }

  // ---------------------------------------------------------------------------
  // The encoder
  // ---------------------------------------------------------------------------

  function JoinBytes(s: seq<Keyed<seq<Byte>>>): seq<Byte> {
    if s == [] then [] else s[0].key + s[0].item + JoinBytes(s[1..])
  }

  function IntMapBytes(entries: seq<Numbered<seq<Byte>>>): Option<seq<Byte>> {
    if DistinctKeys(Heads(entries)) then Some(HeadBytes(5, |entries|) + JoinBytes(Sort(Heads(entries)))) else None
  }

  lemma {:induction false} NoAdjacentEqual<T>(s: seq<Keyed<T>>)
    requires NonDescending(s) && forall i :: 0 < i < |s| ==> s[i].key != s[i - 1].key
    ensures Ascending(s)
  {
    if |s| > 1 {
      forall i | 0 < i < |s[1..]|
        ensures s[1..][i].key != s[1..][i - 1].key
      {
        assert s[1..][i] == s[i + 1] && s[1..][i - 1] == s[i];
      }
      NoAdjacentEqual(s[1..]);
      LessTotal(s[0].key, s[1].key);
    }
  }

  lemma {:induction false} AdjacentEqual<T>(s: seq<Keyed<T>>, i: nat)
    requires 0 < i < |s| && s[i].key == s[i - 1].key
    ensures !DistinctKeys(s)
  {
    if i > 1 {
      AdjacentEqual(s[1..], i - 1);
    }
  }

  method EncodeMap(entries: seq<Numbered<seq<Byte>>>) returns (r: Option<seq<Byte>>)
    ensures r == IntMapBytes(entries)
  {
    hide HeadBytes, Sort, SortNumbers, Ascending, NonDescending, DistinctKeys, JoinBytes, Less;
    var sorted := SortNumbers(entries);
    SortByHead(entries);
    SortOrders(Heads(entries));
    SortAscending(Heads(entries));
    var i := 1;
    while i < |sorted|
      invariant 0 < i
      invariant forall j :: 0 < j < i && j < |sorted| ==> sorted[j].key != sorted[j - 1].key
    {
      if sorted[i].key == sorted[i - 1].key {
        AdjacentEqual(Heads(sorted), i);
        SortDistinct(Heads(entries), []);
        return None;
      }
      i := i + 1;
    }
    forall j | 0 < j < |sorted|
      ensures Heads(sorted)[j].key != Heads(sorted)[j - 1].key
    {
      HeadOrder(0, sorted[j].key, sorted[j - 1].key);
    }
    NoAdjacentEqual(Heads(sorted));
    var out := WriteEntries(HeadBytes(5, |entries|), sorted);
    return Some(out);
  }

  method WriteEntries(start: seq<Byte>, sorted: seq<Numbered<seq<Byte>>>) returns (out: seq<Byte>)
    ensures out == start + JoinBytes(Heads(sorted))
  {
    hide HeadBytes;
    out := start;
    var i := 0;
    assert sorted[0..] == sorted;
    while i < |sorted|
      invariant 0 <= i <= |sorted| && out + JoinBytes(Heads(sorted[i..])) == start + JoinBytes(Heads(sorted))
    {
      assert sorted[i..][0] == sorted[i] && sorted[i..][1..] == sorted[i + 1..];
      assert Heads(sorted[i..])[1..] == Heads(sorted[i + 1..]);
      out := out + HeadBytes(0, sorted[i].key);
      out := out + sorted[i].item;
      i := i + 1;
    }
    assert out + [] == out;
  }

  // ---------------------------------------------------------------------------
  // The map it stands for
  // ---------------------------------------------------------------------------

  type Fields = seq<Numbered<Value>>

  function FieldPairs(fields: Fields): (r: seq<Pair>)
    ensures |r| == |fields|
    ensures forall i :: 0 <= i < |fields| ==> r[i] == Pair(Uint(fields[i].key), fields[i].item)
  {
    if fields == [] then [] else [Pair(Uint(fields[0].key), fields[0].item)] + FieldPairs(fields[1..])
  }

  function Encoded(fields: Fields): (r: seq<Numbered<seq<Byte>>>)
    ensures |r| == |fields|
    ensures forall i :: 0 <= i < |fields| ==> r[i] == Numbered(fields[i].key, Encode(fields[i].item))
  {
    if fields == [] then [] else [Numbered(fields[0].key, Encode(fields[0].item))] + Encoded(fields[1..])
  }

  function ValueBytes(e: Entry): seq<Byte> {
    e.valueBytes
  }

  lemma {:induction false} FieldHeads(fields: Fields)
    ensures MapKeyed(ValueBytes, KeyedEntries(FieldPairs(fields))) == Heads(Encoded(fields))
  {
    hide HeadBytes;
    if fields != [] {
      FieldHeads(fields[1..]);
      assert FieldPairs(fields)[1..] == FieldPairs(fields[1..]);
      assert Encoded(fields)[1..] == Encoded(fields[1..]);
      var ks := KeyedEntries(FieldPairs(fields));
      assert ks[1..] == KeyedEntries(FieldPairs(fields[1..]));
      UintEncodes(fields[0].key);
    }
  }

  lemma UintEncodes(n: U64)
    ensures Encode(Uint(n)) == HeadBytes(0, n)
  {
  }

  lemma {:induction false} MapKeyedKeys<T, U>(f: T -> U, s: seq<Keyed<T>>, k: seq<Byte>)
    ensures HasKey(k, MapKeyed(f, s)) == HasKey(k, s)
    ensures DistinctKeys(MapKeyed(f, s)) == DistinctKeys(s)
  {
    if s != [] {
      assert MapKeyed(f, s)[1..] == MapKeyed(f, s[1..]);
      MapKeyedKeys(f, s[1..], k);
      MapKeyedKeys(f, s[1..], s[0].key);
    }
  }

  lemma {:induction false} JoinOfMapped(s: seq<Keyed<Entry>>)
    ensures JoinBytes(MapKeyed(ValueBytes, s)) == Join(s)
  {
    if s != [] {
      assert MapKeyed(ValueBytes, s)[1..] == MapKeyed(ValueBytes, s[1..]);
      JoinOfMapped(s[1..]);
    }
  }

  function FieldsValue(fields: Fields): Value {
    Map(FieldPairs(fields))
  }

  ghost predicate DistinctNumbers<T>(s: seq<Numbered<T>>) {
    forall i, j :: 0 <= i < j < |s| ==> s[i].key != s[j].key
  }

  lemma {:induction false} DistinctHeads<T>(s: seq<Numbered<T>>)
    ensures DistinctKeys(Heads(s)) <==> DistinctNumbers(s)
  {
    hide HeadBytes;
    if s != [] {
      DistinctHeads(s[1..]);
      HeadAmong(s[1..], s[0].key);
      assert Heads(s)[1..] == Heads(s[1..]);
      forall i | 0 < i < |s|
        ensures s[i] == s[1..][i - 1]
      {
      }
    }
  }

  lemma {:induction false} HeadAmong<T>(s: seq<Numbered<T>>, k: U64)
    ensures HasKey(HeadBytes(0, k), Heads(s)) <==> exists i :: 0 <= i < |s| && s[i].key == k
  {
    hide HeadBytes;
    if s != [] {
      HeadOrder(0, s[0].key, k);
      HeadAmong(s[1..], k);
      assert Heads(s)[1..] == Heads(s[1..]);
      if HasKey(HeadBytes(0, k), Heads(s[1..])) {
        var i :| 0 <= i < |s[1..]| && s[1..][i].key == k;
        assert s[i + 1].key == k;
      }
      if i :| 0 <= i < |s| && s[i].key == k {
        if i > 0 {
          assert s[1..][i - 1].key == k;
        }
      }
    }
  }

  /** Repeated keys are refused, and nothing else. */
  lemma RepeatRefused(entries: seq<Numbered<seq<Byte>>>)
    ensures IntMapBytes(entries) == None <==> !DistinctNumbers(entries)
  {
    DistinctHeads(entries);
  }

  /**
    The hand-written encoder and the general one write the same bytes for the same map; repeated
    keys are the only thing it refuses.
   */
  lemma IntMapIsEncode(fields: Fields)
    ensures DistinctNumbers(fields) <==> DistinctKeys(KeyedEntries(FieldPairs(fields)))
    ensures IntMapBytes(Encoded(fields)) == if DistinctNumbers(fields) then Some(Encode(FieldsValue(fields))) else None
  {
    hide HeadBytes;
    var ks := KeyedEntries(FieldPairs(fields));
    FieldHeads(fields);
    MapKeyedKeys(ValueBytes, ks, []);
    SortMaps(ValueBytes, ks);
    JoinOfMapped(Sort(ks));
    DistinctHeads(Encoded(fields));
    assert DistinctNumbers(Encoded(fields)) <==> DistinctNumbers(fields);
  }

  // ---------------------------------------------------------------------------
  // What the bytes decide
  // ---------------------------------------------------------------------------

  /** The value under a key. */
  function Get(fields: Fields, k: U64): Option<Value> {
    if fields == [] then None
    else if fields[0].key == k then Some(fields[0].item)
    else Get(fields[1..], k)
  }

  function CanonOption(v: Option<Value>): Option<Value> {
    match v
    case None => None
    case Some(x) => Some(Canon(x))
  }

  /** The same canonical value, or none, under every key. */
  ghost predicate SameFields(a: Fields, b: Fields) {
    forall k: U64 :: CanonOption(Get(a, k)) == CanonOption(Get(b, k))
  }

  lemma {:induction false} GetMember(fields: Fields, k: U64)
    ensures Get(fields, k).Some? ==> Numbered(k, Get(fields, k).value) in fields
    ensures Get(fields, k).None? ==> forall f | f in fields :: f.key != k
    ensures DistinctNumbers(fields) ==> forall f | f in fields && f.key == k :: Get(fields, k) == Some(f.item)
  {
    if fields != [] {
      GetMember(fields[1..], k);
      assert fields == [fields[0]] + fields[1..];
    }
  }

  /** The canonical pairs of a map are the canonical fields, under their keys. */
  lemma {:induction false} CanonFieldPairs(fields: Fields)
    ensures |CanonPairs(FieldPairs(fields))| == |fields|
    ensures forall i :: 0 <= i < |fields| ==>
              CanonPairs(FieldPairs(fields))[i] == Pair(Uint(fields[i].key), Canon(fields[i].item))
  {
    if fields != [] {
      CanonFieldPairs(fields[1..]);
      var p := FieldPairs(fields);
      assert p[1..] == FieldPairs(fields[1..]);
      assert CanonPair(p[0]) == Pair(Uint(fields[0].key), Canon(fields[0].item));
    }
  }

  lemma CanonMember(fields: Fields, k: U64, v: Value)
    requires DistinctNumbers(fields)
    ensures Pair(Uint(k), v) in CanonPairs(FieldPairs(fields)) <==> CanonOption(Get(fields, k)) == Some(v)
  {
    hide Canon, CanonPairs;
    var p := Pair(Uint(k), v);
    CanonFieldPairs(fields);
    GetMember(fields, k);
    if p in CanonPairs(FieldPairs(fields)) {
      var i :| 0 <= i < |fields| && CanonPairs(FieldPairs(fields))[i] == p;
      assert fields[i] in fields;
    }
    if CanonOption(Get(fields, k)) == Some(v) {
      var i :| 0 <= i < |fields| && fields[i] == Numbered(k, Get(fields, k).value);
      assert CanonPairs(FieldPairs(fields))[i] == p;
    }
  }

  lemma SortPairsMembers(entries: seq<Pair>)
    ensures forall p :: p in SortPairs(entries) <==> p in entries
  {
    SortPairsKeeps(entries);
    var ks := KeyedEntries(entries);
    SortKeeps(ks);
    EntriesAreKeyed(entries);
    PairsIn(Sort(ks));
    forall p | p in entries
      ensures p in SortPairs(entries)
    {
      assert KeyedEntry(p) in Sort(ks);
      var i :| 0 <= i < |ks| && Sort(ks)[i] == KeyedEntry(p);
      assert SortPairs(entries)[i] == p;
    }
  }

  lemma CanonDistinct(fields: Fields)
    requires DistinctNumbers(fields)
    ensures Ascending(Sort(KeyedEntries(CanonPairs(FieldPairs(fields)))))
  {
    IntMapIsEncode(fields);
    CanonKeyed(FieldPairs(fields));
    MapKeyedKeys(CanonEntry, KeyedEntries(FieldPairs(fields)), []);
    SortAscending(KeyedEntries(CanonPairs(FieldPairs(fields))));
  }

  /** Maps whose fields agree up to order, and up to canonical form, have one canonical form. */
  lemma SameFieldsSameCanon(a: Fields, b: Fields)
    requires DistinctNumbers(a) && DistinctNumbers(b)
    requires SameFields(a, b)
    ensures Canon(FieldsValue(a)) == Canon(FieldsValue(b))
  {
    var p, q := CanonPairs(FieldPairs(a)), CanonPairs(FieldPairs(b));
    CanonFieldPairs(a);
    CanonFieldPairs(b);
    forall x
      ensures x in p <==> x in q
    {
      if x in p || x in q {
        var k: U64 := x.key.n;
        CanonMember(a, k, x.value);
        CanonMember(b, k, x.value);
      }
    }
    CanonDistinct(a);
    CanonDistinct(b);
    SameMembersSameSort(p, q);
  }

  lemma SameMembersSameSort(p: seq<Pair>, q: seq<Pair>)
    requires forall x :: x in p <==> x in q
    requires Ascending(Sort(KeyedEntries(p))) && Ascending(Sort(KeyedEntries(q)))
    ensures SortPairs(p) == SortPairs(q)
  {
    var a, b := Sort(KeyedEntries(p)), Sort(KeyedEntries(q));
    SortKeeps(KeyedEntries(p));
    SortKeeps(KeyedEntries(q));
    EntriesAreKeyed(p);
    EntriesAreKeyed(q);
    forall e
      ensures e in a <==> e in b
    {
      if e in a {
        assert e == KeyedEntry(e.item.pair) && e.item.pair in q;
      }
      if e in b {
        assert e == KeyedEntry(e.item.pair) && e.item.pair in p;
      }
    }
    AscendingUnique(None, a, b);
  }

  /** The bytes of two maps agree exactly when every key has the same canonical value. */
  lemma FieldsDecide(a: Fields, b: Fields)
    requires Fits(FieldsValue(a)) && DistinctNumbers(a)
    requires Fits(FieldsValue(b)) && DistinctNumbers(b)
    ensures Encode(FieldsValue(a)) == Encode(FieldsValue(b))
       <==> SameFields(a, b)
  {
    hide *;
    EncodeInjective(FieldsValue(a), FieldsValue(b));
    if SameFields(a, b) {
      SameFieldsSameCanon(a, b);
    }
    if Canon(FieldsValue(a)) == Canon(FieldsValue(b)) {
      SameCanonSameFields(a, b);
    }
  }

  lemma WellFormedDistinct(u: Unicode, a: Fields, depth: nat)
    requires WellFormed(u, FieldsValue(a), depth)
    ensures DistinctNumbers(a)
  {
    IntMapIsEncode(a);
    hide Encode, DistinctNumbers, DistinctKeys, KeyedEntries, FieldPairs;
  }

  lemma SameCanonSameFields(a: Fields, b: Fields)
    requires DistinctNumbers(a) && DistinctNumbers(b)
    requires Canon(FieldsValue(a)) == Canon(FieldsValue(b))
    ensures SameFields(a, b)
  {
    var p, q := CanonPairs(FieldPairs(a)), CanonPairs(FieldPairs(b));
    SortPairsMembers(p);
    SortPairsMembers(q);
    assert SortPairs(p) == SortPairs(q);
    forall k: U64
      ensures CanonOption(Get(a, k)) == CanonOption(Get(b, k))
    {
      var x, y := CanonOption(Get(a, k)), CanonOption(Get(b, k));
      if x.Some? {
        CanonMember(a, k, x.value);
        CanonMember(b, k, x.value);
      }
      if y.Some? {
        CanonMember(a, k, y.value);
        CanonMember(b, k, y.value);
      }
    }
  }
}
