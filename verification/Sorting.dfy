/**
  Sorting by byte keys, as the encoders do it: a stable sort of keyed items, the strict order the
  decoder checks, and the canonical form of a set of byte strings.
 */
module Sorting {
  import opened Bytes

  datatype Keyed<+T> = Keyed(key: seq<Byte>, item: T)

  // ---------------------------------------------------------------------------
  // The stable sort
  // ---------------------------------------------------------------------------

  function Insert<T>(e: Keyed<T>, s: seq<Keyed<T>>): (r: seq<Keyed<T>>)
    ensures |r| == |s| + 1
  {
    if s == [] || !Less(s[0].key, e.key) then [e] + s else [s[0]] + Insert(e, s[1..])
  }

  function Sort<T>(s: seq<Keyed<T>>): (r: seq<Keyed<T>>)
    ensures |r| == |s|
  {
    if s == [] then [] else Insert(s[0], Sort(s[1..]))
  }

  lemma {:induction false} InsertKeeps<T>(e: Keyed<T>, s: seq<Keyed<T>>)
    ensures multiset(Insert(e, s)) == multiset(s) + multiset{e}
  {
    if s != [] {
      assert s == [s[0]] + s[1..];
      InsertKeeps(e, s[1..]);
    }
  }

  /** Sorting moves entries; it neither loses nor makes any. */
  lemma {:induction false} SortKeeps<T>(s: seq<Keyed<T>>)
    ensures multiset(Sort(s)) == multiset(s)
    ensures forall e :: e in Sort(s) <==> e in s
  {
    if s != [] {
      assert s == [s[0]] + s[1..];
      SortKeeps(s[1..]);
      InsertKeeps(s[0], Sort(s[1..]));
    }
    assert forall e :: e in Sort(s) <==> e in multiset(Sort(s));
    assert forall e :: e in s <==> e in multiset(s);
  }

  /** The entries under one key, in order. */
  function Under<T>(k: seq<Byte>, s: seq<Keyed<T>>): seq<Keyed<T>> {
    if s == [] then []
    else if s[0].key == k then [s[0]] + Under(k, s[1..])
    else Under(k, s[1..])
  }

  lemma {:induction false} InsertStable<T>(e: Keyed<T>, s: seq<Keyed<T>>, k: seq<Byte>)
    ensures Under(k, Insert(e, s)) == if e.key == k then [e] + Under(k, s) else Under(k, s)
  {
    if s == [] || !Less(s[0].key, e.key) {
      assert ([e] + s)[1..] == s;
    } else {
      InsertStable(e, s[1..], k);
      LessIrreflexive(e.key);
      assert Insert(e, s)[1..] == Insert(e, s[1..]);
    }
  }

  /** The sort is stable: entries under one key keep their order. */
  lemma {:induction false} SortStable<T>(s: seq<Keyed<T>>, k: seq<Byte>)
    ensures Under(k, Sort(s)) == Under(k, s)
  {
    if s != [] {
      SortStable(s[1..], k);
      InsertStable(s[0], Sort(s[1..]), k);
    }
  }

  // ---------------------------------------------------------------------------
  // The order a decoder accepts
  // ---------------------------------------------------------------------------

  /** Each key strictly above the one before it, and the first above `prev`. */
  predicate AscendingFrom<T>(prev: Option<seq<Byte>>, s: seq<Keyed<T>>)
    decreases s
  {
    s == [] || ((prev.Some? ==> Less(prev.value, s[0].key)) && AscendingFrom(Some(s[0].key), s[1..]))
  }

  predicate Ascending<T>(s: seq<Keyed<T>>) {
    AscendingFrom(None, s)
  }

  predicate NonDescending<T>(s: seq<Keyed<T>>) {
    s == [] || s[1..] == [] || (!Less(s[1].key, s[0].key) && NonDescending(s[1..]))
  }

  predicate HasKey<T>(k: seq<Byte>, s: seq<Keyed<T>>) {
    s != [] && (s[0].key == k || HasKey(k, s[1..]))
  }

  predicate DistinctKeys<T>(s: seq<Keyed<T>>) {
    s == [] || (!HasKey(s[0].key, s[1..]) && DistinctKeys(s[1..]))
  }

  lemma {:induction false} InsertDistinct<T>(e: Keyed<T>, s: seq<Keyed<T>>, k: seq<Byte>)
    ensures HasKey(k, Insert(e, s)) == (k == e.key || HasKey(k, s))
    ensures DistinctKeys(Insert(e, s)) == (!HasKey(e.key, s) && DistinctKeys(s))
  {
    if s == [] || !Less(s[0].key, e.key) {
      assert ([e] + s)[1..] == s;
    } else {
      var r := [s[0]] + Insert(e, s[1..]);
      assert r[1..] == Insert(e, s[1..]);
      InsertDistinct(e, s[1..], k);
      InsertDistinct(e, s[1..], s[0].key);
      LessIrreflexive(e.key);
    }
  }

  lemma {:induction false} SortDistinct<T>(s: seq<Keyed<T>>, k: seq<Byte>)
    ensures HasKey(k, Sort(s)) == HasKey(k, s)
    ensures DistinctKeys(Sort(s)) == DistinctKeys(s)
  {
    if s != [] {
      SortDistinct(s[1..], k);
      SortDistinct(s[1..], s[0].key);
      InsertDistinct(s[0], Sort(s[1..]), k);
    }
  }

  lemma {:induction false} InsertOrders<T>(e: Keyed<T>, s: seq<Keyed<T>>)
    requires NonDescending(s)
    ensures NonDescending(Insert(e, s))
  {
    if s == [] || !Less(s[0].key, e.key) {
      assert ([e] + s)[1..] == s;
    } else {
      var rest := Insert(e, s[1..]);
      InsertOrders(e, s[1..]);
      LessAsymmetric(s[0].key, e.key);
      assert ([s[0]] + rest)[1..] == rest;
    }
  }

  lemma {:induction false} SortOrders<T>(s: seq<Keyed<T>>)
    ensures NonDescending(Sort(s))
  {
    if s != [] {
      SortOrders(s[1..]);
      InsertOrders(s[0], Sort(s[1..]));
    }
  }

  lemma {:induction false} AscendingBelow<T>(k: seq<Byte>, s: seq<Keyed<T>>, h: seq<Byte>)
    requires AscendingFrom(Some(k), s) && HasKey(h, s)
    ensures Less(k, h)
    decreases s
  {
    if s[0].key != h {
      AscendingBelow(s[0].key, s[1..], h);
      LessTransitive(k, s[0].key, h);
    }
  }

  lemma {:induction false} AscendingDistinct<T>(prev: Option<seq<Byte>>, s: seq<Keyed<T>>)
    requires AscendingFrom(prev, s)
    ensures DistinctKeys(s) && NonDescending(s)
    decreases s
  {
    if s != [] {
      AscendingDistinct(Some(s[0].key), s[1..]);
      if HasKey(s[0].key, s[1..]) {
        AscendingBelow(s[0].key, s[1..], s[0].key);
        LessIrreflexive(s[0].key);
      }
      if |s| > 1 {
        LessAsymmetric(s[0].key, s[1].key);
      }
    }
  }

  lemma {:induction false} DistinctAscending<T>(s: seq<Keyed<T>>)
    requires NonDescending(s) && DistinctKeys(s)
    ensures Ascending(s)
  {
    if |s| > 1 {
      DistinctAscending(s[1..]);
      LessTotal(s[0].key, s[1].key);
    }
  }

  lemma {:induction false} MembersHaveKeys<T>(s: seq<Keyed<T>>)
    ensures forall e | e in s :: HasKey(e.key, s)
  {
    if s != [] {
      MembersHaveKeys(s[1..]);
      assert s == [s[0]] + s[1..];
    }
  }

  lemma TailMembers<T>(prev: Option<seq<Byte>>, s: seq<Keyed<T>>, e: Keyed<T>)
    requires s != [] && AscendingFrom(prev, s)
    ensures e in s[1..] ==> Less(s[0].key, e.key)
    ensures e in s[1..] <==> e in s && e != s[0]
  {
    assert s == [s[0]] + s[1..];
    MembersHaveKeys(s[1..]);
    if e in s[1..] {
      AscendingBelow(s[0].key, s[1..], e.key);
      LessIrreflexive(e.key);
    }
  }

  /** A strictly ascending sequence is determined by its members. */
  lemma {:induction false} AscendingUnique<T>(prev: Option<seq<Byte>>, a: seq<Keyed<T>>, b: seq<Keyed<T>>)
    requires AscendingFrom(prev, a) && AscendingFrom(prev, b)
    requires forall e :: e in a <==> e in b
    ensures a == b
    decreases |a|
  {
    assert a != [] ==> a[0] in b;
    assert b != [] ==> b[0] in a;
    if a != [] {
      TailMembers(prev, a, b[0]);
      TailMembers(prev, b, a[0]);
      if a[0] != b[0] {
        LessAsymmetric(a[0].key, b[0].key);
      }
      forall e
        ensures e in a[1..] <==> e in b[1..]
      {
        TailMembers(prev, a, e);
        TailMembers(prev, b, e);
      }
      AscendingUnique(Some(a[0].key), a[1..], b[1..]);
      assert a == [a[0]] + a[1..] && b == [b[0]] + b[1..];
    }
  }

  /** Sorted entries are strictly ascending exactly when no two keys are equal. */
  lemma SortAscending<T>(s: seq<Keyed<T>>)
    ensures Ascending(Sort(s)) <==> DistinctKeys(s)
  {
    SortOrders(s);
    SortDistinct(s, []);
    if Ascending(Sort(s)) {
      AscendingDistinct(None, Sort(s));
    } else if DistinctKeys(s) {
      DistinctAscending(Sort(s));
    }
  }

  /** What is already in order stays as it is. */
  lemma {:induction false} SortFixes<T>(s: seq<Keyed<T>>)
    requires NonDescending(s)
    ensures Sort(s) == s
  {
    if s != [] {
      SortFixes(s[1..]);
      assert s == [s[0]] + s[1..];
    }
  }

  // ---------------------------------------------------------------------------
  // The sort looks at keys only
  // ---------------------------------------------------------------------------

  function MapKeyed<T, U>(f: T -> U, s: seq<Keyed<T>>): (r: seq<Keyed<U>>)
    ensures |r| == |s|
    ensures forall i :: 0 <= i < |s| ==> r[i] == Keyed(s[i].key, f(s[i].item))
  {
    if s == [] then [] else [Keyed(s[0].key, f(s[0].item))] + MapKeyed(f, s[1..])
  }

  lemma {:induction false} InsertMaps<T, U>(f: T -> U, e: Keyed<T>, s: seq<Keyed<T>>)
    ensures Insert(Keyed(e.key, f(e.item)), MapKeyed(f, s)) == MapKeyed(f, Insert(e, s))
  {
    if s != [] {
      InsertMaps(f, e, s[1..]);
      assert MapKeyed(f, s)[1..] == MapKeyed(f, s[1..]);
    }
  }

  lemma {:induction false} SortMaps<T, U>(f: T -> U, s: seq<Keyed<T>>)
    ensures Sort(MapKeyed(f, s)) == MapKeyed(f, Sort(s))
  {
    if s != [] {
      SortMaps(f, s[1..]);
      InsertMaps(f, s[0], Sort(s[1..]));
      assert MapKeyed(f, s)[1..] == MapKeyed(f, s[1..]);
    }
  }

  function Items<T>(s: seq<Keyed<T>>): (r: seq<T>)
    ensures |r| == |s|
    ensures forall i :: 0 <= i < |s| ==> r[i] == s[i].item
  {
    if s == [] then [] else [s[0].item] + Items(s[1..])
  }
}
