/**
  Sets of byte strings in canonical form - each element once, ascending bytewise - and the three
  places that hash or encode one: uid sets, contention positions and record-set digests.
 */
module ByteSets {
  import opened Bytes
  import opened CborHead
  import opened Sorting
  import opened CborSpec
  import CborRoundTrip
  import opened Blake3Tree
  import Blake3

  // ---------------------------------------------------------------------------
  // The canonical form
  // ---------------------------------------------------------------------------

  function Self(xs: seq<seq<Byte>>): (r: seq<Keyed<seq<Byte>>>)
    ensures |r| == |xs|
  {
    if xs == [] then [] else [Keyed(xs[0], xs[0])] + Self(xs[1..])
  }

  /** The first occurrence of every element. */
  function Dedup(xs: seq<seq<Byte>>): seq<seq<Byte>> {
    if xs == [] then []
    else
      var r, x := Dedup(xs[..|xs| - 1]), xs[|xs| - 1];
      if x in r then r else r + [x]
  }

  predicate StrictlyAscending(xs: seq<seq<Byte>>) {
    Ascending(Self(xs))
  }

  function CanonicalSet(xs: seq<seq<Byte>>): seq<seq<Byte>> {
    Items(Sort(Self(Dedup(xs))))
  }

  lemma {:induction false} SelfKeys(xs: seq<seq<Byte>>, k: seq<Byte>)
    ensures HasKey(k, Self(xs)) <==> k in xs
    ensures forall e | e in Self(xs) :: e.key == e.item && e.item in xs
  {
    if xs != [] {
      SelfKeys(xs[1..], k);
      assert xs == [xs[0]] + xs[1..];
      assert Self(xs)[1..] == Self(xs[1..]);
    }
  }

  lemma {:induction false} SelfOfItems(s: seq<Keyed<seq<Byte>>>)
    requires forall e | e in s :: e.key == e.item
    ensures Self(Items(s)) == s
  {
    if s != [] {
      SelfOfItems(s[1..]);
      assert s == [s[0]] + s[1..];
      assert Items(s)[1..] == Items(s[1..]);
    }
  }

  ghost predicate NoRepeats(xs: seq<seq<Byte>>) {
    forall i, j :: 0 <= i < j < |xs| ==> xs[i] != xs[j]
  }

  lemma {:induction false} DedupSpec(xs: seq<seq<Byte>>)
    ensures NoRepeats(Dedup(xs))
    ensures forall x :: x in Dedup(xs) <==> x in xs
  {
    if xs != [] {
      var n := |xs| - 1;
      DedupSpec(xs[..n]);
      assert xs == xs[..n] + [xs[n]];
    }
  }

  lemma {:induction false} NoRepeatsDistinct(xs: seq<seq<Byte>>)
    requires NoRepeats(xs)
    ensures DistinctKeys(Self(xs))
  {
    if xs != [] {
      NoRepeatsDistinct(xs[1..]);
      SelfKeys(xs[1..], xs[0]);
      assert Self(xs)[1..] == Self(xs[1..]);
    }
  }

  /** Sorting a list without repeats gives a strictly ascending list of the same elements. */
  lemma SortedSpec(xs: seq<seq<Byte>>)
    requires NoRepeats(xs)
    ensures var r := Items(Sort(Self(xs))); StrictlyAscending(r) && forall x :: x in r <==> x in xs
  {
    var s := Sort(Self(xs));
    SortKeeps(Self(xs));
    SelfKeys(xs, []);
    SelfOfItems(s);
    NoRepeatsDistinct(xs);
    SortAscending(Self(xs));
    forall x
      ensures x in Items(s) <==> x in xs
    {
      SelfKeys(xs, x);
      SortDistinct(Self(xs), x);
      SelfKeys(Items(s), x);
    }
  }

  lemma ElementsDecide(a: seq<seq<Byte>>, b: seq<seq<Byte>>)
    requires StrictlyAscending(a) && StrictlyAscending(b)
    requires forall x :: x in a <==> x in b
    ensures a == b
  {
    forall e
      ensures e in Self(a) <==> e in Self(b)
    {
      SelfMembers(a, e);
      SelfMembers(b, e);
    }
    AscendingUnique(None, Self(a), Self(b));
    ItemsOfSelf(a);
    ItemsOfSelf(b);
  }

  lemma {:induction false} SelfMembers(xs: seq<seq<Byte>>, e: Keyed<seq<Byte>>)
    ensures e in Self(xs) <==> e.key == e.item && e.item in xs
  {
    if xs != [] {
      SelfMembers(xs[1..], e);
      assert xs == [xs[0]] + xs[1..];
    }
  }

  lemma {:induction false} ItemsOfSelf(xs: seq<seq<Byte>>)
    ensures Items(Self(xs)) == xs
  {
    if xs != [] {
      ItemsOfSelf(xs[1..]);
      assert Self(xs)[1..] == Self(xs[1..]);
    }
  }

  /** By its places: each element below every later one, and the elements are those given. */
  lemma CanonicalSetExactly(xs: seq<seq<Byte>>)
    ensures var r := CanonicalSet(xs);
            && (forall i, j :: 0 <= i < j < |r| ==> Before(r[i], r[j]))
            && forall x :: x in r <==> x in xs
  {
    DedupSpec(xs);
    SortedSpec(Dedup(xs));
    var r := CanonicalSet(xs);
    hide CanonicalSet, Before;
    forall i, j | 0 <= i < j < |r|
      ensures Before(r[i], r[j])
    {
      PlacesRise(None, r, i, j);
      LessExactly(r[i], r[j]);
    }
  }

  lemma {:induction false} PlacesRise(prev: Option<seq<Byte>>, xs: seq<seq<Byte>>, i: nat, j: nat)
    requires AscendingFrom(prev, Self(xs)) && i < j < |xs|
    ensures Less(xs[i], xs[j])
    decreases |xs|
  {
    assert Self(xs)[0] == Keyed(xs[0], xs[0]) && Self(xs)[1..] == Self(xs[1..]);
    if i > 0 {
      PlacesRise(Some(xs[0]), xs[1..], i - 1, j - 1);
    } else {
      SelfKeys(xs[1..], xs[j]);
      AscendingBelow(xs[0], Self(xs[1..]), xs[j]);
    }
  }

  /** One form for every set: neither order nor repetition shows, and different sets differ. */
  lemma CanonicalSetDecides(xs: seq<seq<Byte>>, ys: seq<seq<Byte>>)
    ensures CanonicalSet(xs) == CanonicalSet(ys) <==> (forall x :: x in xs <==> x in ys)
  {
    DedupSpec(xs);
    DedupSpec(ys);
    SortedSpec(Dedup(xs));
    SortedSpec(Dedup(ys));
    var a, b := CanonicalSet(xs), CanonicalSet(ys);
    if forall x :: x in xs <==> x in ys {
      ElementsDecide(a, b);
    }
    if a == b {
      forall x
        ensures x in xs <==> x in ys
      {
        assert x in a <==> x in xs;
        assert x in b <==> x in ys;
      }
    }
  }

  // ---------------------------------------------------------------------------
  // What is hashed or encoded
  // ---------------------------------------------------------------------------

  const UID_LEN: nat := 32

  function JoinAll(xs: seq<seq<Byte>>): seq<Byte> {
    if xs == [] then [] else xs[0] + JoinAll(xs[1..])
  }

  function Blobs(xs: seq<seq<Byte>>): (r: seq<Value>)
    ensures |r| == |xs|
  {
    if xs == [] then [] else [Blob(xs[0])] + Blobs(xs[1..])
  }

  ghost predicate AllUids(xs: seq<seq<Byte>>) {
    forall x | x in xs :: |x| == UID_LEN
  }

  function UidSetValue(uids: seq<seq<Byte>>): Value {
    Array(Blobs(CanonicalSet(uids)))
  }

  function ContentionPreimage(kind: Byte, over: seq<Byte>, positions: seq<seq<Byte>>): seq<Byte> {
    [kind] + over + JoinAll(CanonicalSet(positions))
  }

  /** The ASCII bytes of "smysl/rsd/1" and a zero byte. */
  const RSD_TAG: seq<Byte> := [0x73, 0x6d, 0x79, 0x73, 0x6c, 0x2f, 0x72, 0x73, 0x64, 0x2f, 0x31, 0]

  function RecordSetPreimage(hashes: seq<seq<Byte>>): seq<Byte> {
    RSD_TAG + JoinAll(CanonicalSet(hashes))
  }

  lemma {:induction false} JoinInjective(a: seq<seq<Byte>>, b: seq<seq<Byte>>)
    requires AllUids(a) && AllUids(b) && JoinAll(a) == JoinAll(b)
    ensures a == b
  {
    if a != [] && b != [] {
      assert a[0] == JoinAll(a)[..UID_LEN] == JoinAll(b)[..UID_LEN] == b[0];
      assert JoinAll(a[1..]) == JoinAll(a)[UID_LEN..] == JoinAll(b)[UID_LEN..] == JoinAll(b[1..]);
      JoinInjective(a[1..], b[1..]);
      assert a == [a[0]] + a[1..] && b == [b[0]] + b[1..];
    }
  }

  lemma {:induction false} BlobsInjective(a: seq<seq<Byte>>, b: seq<seq<Byte>>)
    ensures Blobs(a) == Blobs(b) <==> a == b
  {
    if a != [] && b != [] {
      BlobsInjective(a[1..], b[1..]);
      assert a == [a[0]] + a[1..] && b == [b[0]] + b[1..];
      assert Blobs(a)[1..] == Blobs(a[1..]) && Blobs(b)[1..] == Blobs(b[1..]);
      assert Blobs(a)[0] == Blob(a[0]) && Blobs(b)[0] == Blob(b[0]);
    }
  }

  lemma CanonicalSetUids(xs: seq<seq<Byte>>)
    ensures forall x :: x in CanonicalSet(xs) <==> x in xs
    ensures AllUids(xs) ==> AllUids(CanonicalSet(xs))
    ensures |CanonicalSet(xs)| <= |xs|
  {
    DedupSpec(xs);
    SortedSpec(Dedup(xs));
    DedupShorter(xs);
  }

  lemma {:induction false} DedupShorter(xs: seq<seq<Byte>>)
    ensures |Dedup(xs)| <= |xs|
  {
    if xs != [] {
      DedupShorter(xs[..|xs| - 1]);
    }
  }

  /** The joined form of a set of 32-byte items decides the set, whatever stands before it. */
  lemma JoinedSetDecides(prefix: seq<Byte>, xs: seq<seq<Byte>>, ys: seq<seq<Byte>>)
    requires AllUids(xs) && AllUids(ys)
    ensures prefix + JoinAll(CanonicalSet(xs)) == prefix + JoinAll(CanonicalSet(ys))
       <==> (forall x :: x in xs <==> x in ys)
  {
    CanonicalSetUids(xs);
    CanonicalSetUids(ys);
    CanonicalSetDecides(xs, ys);
    hide CanonicalSet;
    var a, b := JoinAll(CanonicalSet(xs)), JoinAll(CanonicalSet(ys));
    if prefix + a == prefix + b {
      assert a == (prefix + a)[|prefix|..] == (prefix + b)[|prefix|..] == b;
      JoinInjective(CanonicalSet(xs), CanonicalSet(ys));
    }
  }

  /** All three canonicalisers, on 32-byte items: the same bytes exactly for the same set. */
  lemma SetBytesDecide(u: Unicode, kind: Byte, over: seq<Byte>, xs: seq<seq<Byte>>, ys: seq<seq<Byte>>)
    requires AllUids(xs) && AllUids(ys) && |xs| < ARG_LIMIT && |ys| < ARG_LIMIT
    ensures ContentionPreimage(kind, over, xs) == ContentionPreimage(kind, over, ys)
       <==> (forall x :: x in xs <==> x in ys)
    ensures RecordSetPreimage(xs) == RecordSetPreimage(ys) <==> (forall x :: x in xs <==> x in ys)
    ensures Encode(UidSetValue(xs)) == Encode(UidSetValue(ys)) <==> (forall x :: x in xs <==> x in ys)
  {
    JoinedSetDecides([kind] + over, xs, ys);
    JoinedSetDecides(RSD_TAG, xs, ys);
    UidSetNormal(u, xs, 0);
    UidSetNormal(u, ys, 0);
    CborRoundTrip.EncodeInjective(UidSetValue(xs), UidSetValue(ys));
    BlobsInjective(CanonicalSet(xs), CanonicalSet(ys));
    CanonicalSetDecides(xs, ys);
  }

  lemma {:induction false} BlobsNormal(u: Unicode, xs: seq<seq<Byte>>, depth: nat)
    requires AllUids(xs) && depth <= MAX_NESTING
    ensures CanonItems(Blobs(xs)) == Blobs(xs)
    ensures forall v | v in Blobs(xs) :: Fits(v) && WellFormed(u, v, depth)
  {
    if xs != [] {
      BlobsNormal(u, xs[1..], depth);
      assert Blobs(xs)[1..] == Blobs(xs[1..]);
    }
  }

  lemma UidSetNormal(u: Unicode, uids: seq<seq<Byte>>, depth: nat)
    requires AllUids(uids) && |uids| < ARG_LIMIT && depth < MAX_NESTING
    ensures CborRoundTrip.Normal(u, UidSetValue(uids), depth)
  {
    CanonicalSetUids(uids);
    BlobsNormal(u, CanonicalSet(uids), depth + 1);
  }

  // ---------------------------------------------------------------------------
  // The code that builds them
  // ---------------------------------------------------------------------------

  /** A uid set, refused when an element is not 32 bytes long. */
  method EncodeUidSet(uids: seq<seq<Byte>>) returns (r: Option<seq<Byte>>)
    ensures r == if AllUids(uids) then Some(Encode(UidSetValue(uids))) else None
    ensures r.None? <==> exists k :: 0 <= k < |uids| && |uids[k]| != 32
  {
    hide Encode;
    var seen: set<seq<Byte>> := {};
    var ordered: seq<seq<Byte>> := [];
    var k := 0;
    while k < |uids|
      invariant 0 <= k <= |uids| && AllUids(uids[..k])
      invariant ordered == Dedup(uids[..k]) && forall x :: x in seen <==> x in ordered
    {
      var x := uids[k];
      assert uids[..k + 1] == uids[..k] + [x] && uids[..k + 1][..k] == uids[..k];
      if |x| != UID_LEN {
        assert x in uids;
        return None;
      }
      if x !in seen {
        seen := seen + {x};
        ordered := ordered + [x];
      }
      k := k + 1;
    }
    assert uids[..|uids|] == uids;
    var out := EncodeBlobs(Items(Sort(Self(ordered))));
    return Some(out);
  }

  method EncodeBlobs(xs: seq<seq<Byte>>) returns (out: seq<Byte>)
    ensures out == Encode(Array(Blobs(xs)))
  {
    hide Encode, HeadBytes;
    out := HeadBytes(4, |xs|);
    BlobArray(xs);
    var k := 0;
    assert xs[0..] == xs;
    while k < |xs|
      invariant 0 <= k <= |xs| && out + EncodeItems(Blobs(xs[k..])) == Encode(Array(Blobs(xs)))
    {
      BlobItems(xs, k);
      out := out + (HeadBytes(2, |xs[k]|) + xs[k]);
      k := k + 1;
    }
    assert out + [] == out;
  }

  lemma BlobArray(xs: seq<seq<Byte>>)
    ensures Encode(Array(Blobs(xs))) == HeadBytes(4, |xs|) + EncodeItems(Blobs(xs))
  {
  }

  lemma BlobItems(xs: seq<seq<Byte>>, k: nat)
    requires k < |xs|
    ensures EncodeItems(Blobs(xs[k..])) == HeadBytes(2, |xs[k]|) + xs[k] + EncodeItems(Blobs(xs[k + 1..]))
  {
    hide HeadBytes;
    assert xs[k..][0] == xs[k] && xs[k..][1..] == xs[k + 1..];
    assert Blobs(xs[k..])[1..] == Blobs(xs[k + 1..]);
  }

  /** The elements of a set in whatever order the runtime yields them, then sorted: one result. */
  method SortedElements(elements: set<seq<Byte>>, ghost xs: seq<seq<Byte>>) returns (sorted: seq<seq<Byte>>)
    requires forall x :: x in elements <==> x in xs
    ensures sorted == CanonicalSet(xs)
  {
    var rest := elements;
    var keys: seq<seq<Byte>> := [];
    while rest != {}
      invariant rest <= elements && NoRepeats(keys)
      invariant forall x :: x in keys <==> x in elements && x !in rest
      decreases |rest|
    {
      var k :| k in rest;
      rest := rest - {k};
      keys := keys + [k];
    }
    sorted := Items(Sort(Self(keys)));
    SortedSpec(keys);
    DedupSpec(xs);
    SortedSpec(Dedup(xs));
    ElementsDecide(sorted, CanonicalSet(xs));
  }

  method Concatenated(prefix: seq<Byte>, xs: seq<seq<Byte>>) returns (out: seq<Byte>)
    ensures out == prefix + JoinAll(xs)
  {
    out := prefix;
    var k := 0;
    assert xs[0..] == xs;
    while k < |xs|
      invariant 0 <= k <= |xs| && out + JoinAll(xs[k..]) == prefix + JoinAll(xs)
    {
      assert xs[k..][0] == xs[k] && xs[k..][1..] == xs[k + 1..];
      out := out + xs[k];
      k := k + 1;
    }
    assert out + [] == out;
  }

  method ContentionDigest(mode: Mode, kind: Byte, over: seq<Byte>, positions: seq<seq<Byte>>)
    returns (digest: seq<Byte>)
    ensures digest == Hash(mode, ContentionPreimage(kind, over, positions), OUT_LEN)
    ensures digest == Hash(mode, [kind] + over + JoinAll(CanonicalSet(positions)), 32)
  {
    hide Hash, CanonicalSet;
    var seen: set<seq<Byte>> := {};
    for k := 0 to |positions|
      invariant forall x :: x in seen <==> x in positions[..k]
    {
      seen := seen + {positions[k]};
    }
    assert positions[..|positions|] == positions;
    var keys := SortedElements(seen, positions);
    var pre := Concatenated([kind] + over, keys);
    digest := Blake3.Hash32(mode, pre);
  }

  function Hashes(mode: Mode, raws: seq<seq<Byte>>): (r: seq<seq<Byte>>)
    ensures |r| == |raws| && AllUids(r)
    ensures forall k :: 0 <= k < |raws| ==> r[k] == Hash(mode, raws[k], OUT_LEN)
  {
    if raws == [] then [] else [Hash(mode, raws[0], OUT_LEN)] + Hashes(mode, raws[1..])
  }

  method RecordSetDigest(mode: Mode, raws: seq<seq<Byte>>) returns (digest: seq<Byte>)
    ensures digest == Hash(mode, RecordSetPreimage(Hashes(mode, raws)), OUT_LEN)
    ensures RecordSetPreimage(Hashes(mode, raws))
         == ['s' as int, 'm' as int, 'y' as int, 's' as int, 'l' as int, '/' as int, 'r' as int, 's' as int, 'd' as int,
             '/' as int, '1' as int, 0] + JoinAll(CanonicalSet(Hashes(mode, raws)))
  {
    hide Hash, CanonicalSet;
    ghost var hs := Hashes(mode, raws);
    var seen: set<seq<Byte>> := {};
    for k := 0 to |raws|
      invariant forall x :: x in seen <==> x in hs[..k]
    {
      var h := Blake3.Hash32(mode, raws[k]);
      seen := seen + {h};
    }
    assert hs[..|raws|] == hs;
    var hashes := SortedElements(seen, hs);
    var pre := Concatenated(RSD_TAG, hashes);
    digest := Blake3.Hash32(mode, pre);
  }
}
