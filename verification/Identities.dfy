/**
  The other identities of the format, by what is hashed for each: relations, the four library
  records with a domain byte, and the tree of a segment table.
 */
module Identities {
  import opened Bytes
  import opened CborHead
  import opened Sorting
  import opened CborSpec
  import opened CborRoundTrip
  import opened CborStops
  import opened CborGo
  import opened Records
  import opened ByteSets
  import opened Blake3Tree
  import Blake3
  import IdentityText
  import IntMaps
  import Units
  import UnitIdentity

  // ---------------------------------------------------------------------------
  // Relations
  // ---------------------------------------------------------------------------

  const RELATION_DOMAIN: Byte := 0x03

  function RelationPreimage(kind: seq<Byte>, from: seq<Byte>, to: seq<Byte>): seq<Byte> {
    [RELATION_DOMAIN] + kind + [0] + from + to
  }

  predicate RelationNamed(kind: seq<Byte>, from: seq<Byte>, to: seq<Byte>) {
    |from| == UID_LEN && |to| == UID_LEN && 0 !in kind
  }

  method RelationId(mode: Mode, kind: seq<Byte>, from: seq<Byte>, to: seq<Byte>) returns (r: Option<seq<Byte>>)
    ensures r == if RelationNamed(kind, from, to) then Some(Hash(mode, RelationPreimage(kind, from, to), OUT_LEN)) else None
    ensures r == if |from| == 32 && |to| == 32 && 0 !in kind then Some(Hash(mode, [3] + kind + [0] + from + to, 32)) else None
  {
    hide Hash;
    if |from| != 32 || |to| != 32 {
      return None;
    }
    var i := 0;
    while i < |kind|
      invariant 0 <= i <= |kind| && 0 !in kind[..i]
    {
      if kind[i] == 0 {
        return None;
      }
      i := i + 1;
    }
    assert kind[..i] == kind;
    var pre := [RELATION_DOMAIN] + kind;
    pre := pre + [0];
    pre := pre + from;
    pre := pre + to;
    var digest := Blake3.Hash32(mode, pre);
    return Some(digest);
  }

  /** What is hashed for a relation decides its kind and both ends: the zero byte and the fixed lengths see to it. */
  lemma RelationDecides(kind: seq<Byte>, from: seq<Byte>, to: seq<Byte>, kind': seq<Byte>, from': seq<Byte>, to': seq<Byte>)
    requires RelationNamed(kind, from, to) && RelationNamed(kind', from', to')
    ensures RelationPreimage(kind, from, to) == RelationPreimage(kind', from', to')
       <==> kind == kind' && from == from' && to == to'
  {
    var a, b := RelationPreimage(kind, from, to), RelationPreimage(kind', from', to');
    var n := |kind|;
    if a == b {
      assert |a| == n + 66 && |b| == |kind'| + 66;
      assert kind == a[1..n + 1] == b[1..n + 1] == kind';
      assert from == a[n + 2..n + 34] == b[n + 2..n + 34] == from';
      assert to == a[n + 34..] == b[n + 34..] == to';
    }
  }

  // ---------------------------------------------------------------------------
  // Domains
  // ---------------------------------------------------------------------------

  const TID_DOMAIN: Byte := 0x0f
  const MID_DOMAIN: Byte := 0x0e
  const DID_DOMAIN: Byte := 0x11
  const RDID_DOMAIN: Byte := 0x12

  method DomainDigest(mode: Mode, domain: Byte, preimage: seq<Byte>) returns (digest: seq<Byte>)
    ensures digest == Hash(mode, [domain] + preimage, OUT_LEN)
  {
    hide Hash;
    var input := [domain];
    input := input + preimage;
    digest := Blake3.Hash32(mode, input);
  }

  /** A part by its normalised bytes. */
  method Tid(mode: Mode, normalised: seq<Byte>) returns (digest: seq<Byte>)
    ensures digest == Hash(mode, [0x0f] + normalised, 32)
  {
    hide Hash;
    digest := DomainDigest(mode, TID_DOMAIN, normalised);
  }

  /** A manifest by its body. */
  method Mid(mode: Mode, body: seq<Byte>) returns (digest: seq<Byte>)
    ensures digest == Hash(mode, [0x0e] + body, 32)
  {
    hide Hash;
    digest := DomainDigest(mode, MID_DOMAIN, body);
  }

  /** A dating by its body. */
  method Did(mode: Mode, body: seq<Byte>) returns (digest: seq<Byte>)
    ensures digest == Hash(mode, [0x11] + body, 32)
  {
    hide Hash;
    digest := DomainDigest(mode, DID_DOMAIN, body);
  }

  /** A reading by its body. */
  method Rdid(mode: Mode, body: seq<Byte>) returns (digest: seq<Byte>)
    ensures digest == Hash(mode, [0x12] + body, 32)
  {
    hide Hash;
    digest := DomainDigest(mode, RDID_DOMAIN, body);
  }

  /** A domain byte and a preimage, told apart from the bytes behind every other kind of identity. */
  lemma DomainsApart(domain: Byte, preimage: seq<Byte>, domain': Byte, preimage': seq<Byte>)
    ensures [domain] + preimage == [domain'] + preimage' <==> domain == domain' && preimage == preimage'
  {
    assert ([domain] + preimage)[1..] == preimage && ([domain'] + preimage')[1..] == preimage';
  }

  /**
    What is hashed for a unit core, for a relation and for each of the four library records begins
    differently, so none of these is ever the bytes of another.
   */
  lemma KindsApart(u: Unicode, c: Units.UnitCore, kind: seq<Byte>, from: seq<Byte>, to: seq<Byte>, domain: Byte, body: seq<Byte>)
    requires UnitIdentity.Admissible(u, c) && domain in {TID_DOMAIN, MID_DOMAIN, DID_DOMAIN, RDID_DOMAIN}
    ensures Units.CanonicalBytesOf(u, c).Some?
    ensures Units.CanonicalBytesOf(u, c).value != RelationPreimage(kind, from, to)
    ensures Units.CanonicalBytesOf(u, c).value != [domain] + body
    ensures RelationPreimage(kind, from, to) != [domain] + body
  {
    UnitIdentity.UnitBytes(u, c, []);
    MapBegins(IntMaps.FieldsValue(UnitIdentity.UnitFields(u, c)));
    hide UnitIdentity.Admissible, Units.CanonicalBytesOf, Encode;
    var b := Units.CanonicalBytesOf(u, c).value;
    assert b[0] >= 0xa0;
    assert ([domain] + body)[0] == domain && RelationPreimage(kind, from, to)[0] == RELATION_DOMAIN;
  }

  lemma MapBegins(v: Value)
    requires v.Map?
    ensures Encode(v)[0] >= 0xa0
  {
    hide Sort, Join, KeyedEntries, BigEndian;
  }

  /** What follows the first byte of a contention is a kind name, its zero byte and both ends. */
  ghost predicate LinesUp(over: seq<Byte>, c: seq<seq<Byte>>, name: seq<Byte>, from: seq<Byte>, to: seq<Byte>) {
    var n := |c| - 2;
    if n >= 0 then over + JoinAll(c[..n]) == name + [0] && from == c[n] && to == c[n + 1]
    else if c != [] then over == name + [0] + from && to == c[0]
    else over == name + [0] + from + to
  }

  /**
    A contention has its kind for a first byte, and no kind is set apart from the domain of relations:
    the two hash the same bytes exactly when that byte is the relations' own and what follows lines
    up, the last canonical positions with the ends. Over a uid that takes two positions at least.
   */
  lemma ContentionIsRelation(kind: Byte, over: seq<Byte>, positions: seq<seq<Byte>>,
                             name: seq<Byte>, from: seq<Byte>, to: seq<Byte>)
    requires AllUids(positions) && |from| == |to| == UID_LEN
    ensures var c := CanonicalSet(positions);
            var same := ContentionPreimage(kind, over, positions) == RelationPreimage(name, from, to);
            && (same <==> kind == RELATION_DOMAIN && LinesUp(over, c, name, from, to))
            && (same && |over| == UID_LEN ==> |c| >= 2)
  {
    var c := CanonicalSet(positions);
    CanonicalSetUids(positions);
    hide CanonicalSet;
    DomainsApart(kind, over + JoinAll(c), RELATION_DOMAIN, name + [0] + from + to);
    assert ContentionPreimage(kind, over, positions) == [kind] + (over + JoinAll(c));
    assert RelationPreimage(name, from, to) == [RELATION_DOMAIN] + (name + [0] + from + to);
    hide ContentionPreimage, RelationPreimage;
    LinesUpExactly(over, c, name, from, to);
  }

  lemma LinesUpExactly(over: seq<Byte>, c: seq<seq<Byte>>, name: seq<Byte>, from: seq<Byte>, to: seq<Byte>)
    requires AllUids(c) && |from| == |to| == UID_LEN
    ensures over + JoinAll(c) == name + [0] + from + to <==> LinesUp(over, c, name, from, to)
    ensures over + JoinAll(c) == name + [0] + from + to && |over| == UID_LEN ==> |c| >= 2
  {
    if |c| >= 2 {
      LastTwo(c);
      assert c[|c| - 2] in c && c[|c| - 1] in c;
      hide JoinAll, AllUids;
      TwoEnds(over, JoinAll(c[..|c| - 2]), c[|c| - 2], c[|c| - 1], name + [0], from, to);
    } else if |c| == 1 {
      assert c[0] in c && JoinAll(c[1..]) == [] && c[0] + [] == c[0];
      hide AllUids;
      SameEnd(over, c[0], name + [0] + from, to);
    } else {
      assert over + [] == over;
    }
  }

  lemma TwoEnds(over: seq<Byte>, joined: seq<Byte>, a: seq<Byte>, b: seq<Byte>, p: seq<Byte>, from: seq<Byte>, to: seq<Byte>)
    requires |a| == |from| && |b| == |to|
    ensures over + (joined + a + b) == p + from + to <==> over + joined == p && a == from && b == to
  {
    assert over + (joined + a + b) == over + joined + a + b;
    SameEnd(over + joined + a, b, p + from, to);
    SameEnd(over + joined, a, p, from);
  }

  lemma SameEnd(p: seq<Byte>, a: seq<Byte>, q: seq<Byte>, b: seq<Byte>)
    requires |a| == |b|
    ensures p + a == q + b <==> p == q && a == b
  {
    if p + a == q + b {
      assert |p| == |q|;
      assert p == (p + a)[..|p|] && q == (q + b)[..|q|] && a == (p + a)[|p|..] && b == (q + b)[|q|..];
    }
  }

  lemma {:induction false} LastTwo(c: seq<seq<Byte>>)
    requires |c| >= 2
    ensures var n := |c| - 2; JoinAll(c) == JoinAll(c[..n]) + c[n] + c[n + 1]
  {
    if |c| == 2 {
      assert c[1..][1..] == [];
    } else {
      LastTwo(c[1..]);
      assert c[1..][..|c| - 3] == c[..|c| - 2][1..];
    }
  }

  /**
    There are such pairs: a commitment fork (kind 3) over 31 bytes without a zero and a zero after
    them, with two positions, and the relation of that name from the lower to the higher.
   */
  lemma ForkIsRelation(name: seq<Byte>, a: seq<Byte>, b: seq<Byte>)
    requires |name| == 31 && 0 !in name && |a| == |b| == UID_LEN && Less(a, b)
    ensures |name + [0]| == UID_LEN && RelationNamed(name, a, b)
    ensures ContentionPreimage(3, name + [0], [a, b]) == RelationPreimage(name, a, b)
  {
    TwoInOrder(a, b);
    LastTwo([a, b]);
    hide CanonicalSet;
    assert [a, b][..0] == [] && JoinAll([]) == [];
    ContentionIsRelation(3, name + [0], [a, b], name, a, b);
  }

  lemma TwoInOrder(a: seq<Byte>, b: seq<Byte>)
    requires Less(a, b)
    ensures CanonicalSet([a, b]) == [a, b]
  {
    LessIrreflexive(a);
    CanonicalSetUids([a, b]);
    SelfKeys([a, b], a);
    DedupSpec([a, b]);
    SortedSpec(Dedup([a, b]));
    hide Less, Sort;
    var s: seq<Keyed<seq<Byte>>> := Self([a, b]);
    var t: seq<Keyed<seq<Byte>>> := s[1..];
    assert s == [Keyed(a, a), Keyed(b, b)] && t == [Keyed(b, b)];
    assert AscendingFrom(Some(a), t);
    assert StrictlyAscending([a, b]);
    ElementsDecide(CanonicalSet([a, b]), [a, b]);
  }

  /**
    Contentions as the store detects them are not such pairs: only a commitment fork has the
    relations' byte, and its single position leaves no room for a name before the first end.
   */
  lemma DetectedForkIsNot(over: seq<Byte>, position: seq<Byte>, name: seq<Byte>, from: seq<Byte>, to: seq<Byte>)
    requires |over| == UID_LEN && |position| == UID_LEN && |from| == |to| == UID_LEN
    ensures ContentionPreimage(3, over, [position]) != RelationPreimage(name, from, to)
  {
    CanonicalSetUids([position]);
    var c := CanonicalSet([position]);
    hide CanonicalSet;
    assert c != [] by {
      assert position in c;
    }
    assert |c| == 1 && c[0] in c;
    assert JoinAll(c) == c[0] + JoinAll(c[1..]);
  }

  // ---------------------------------------------------------------------------
  // The body of a record
  // ---------------------------------------------------------------------------

  /** The bytes of a record after its head and its code, and where they start. */
  function BodyAt(u: Unicode, raw: seq<Byte>): Read<seq<Byte>> {
    match HeadAt(raw, 0)
    case Err(e) => Err(e)
    case Ok(h, j) =>
      if h.major != 4 || h.arg != 2 then Err(NotARecord)
      else
        match ValueAt(u, raw, j, 0)
        case Err(e) => Err(e)
        case Ok(_, k) => Ok(raw[k..], k)
  }

  predicate BodyStops(u: Unicode, room: Room, raw: seq<Byte>) {
    HeadStops(raw, 0)
    || match HeadAt(raw, 0)
       case Err(_) => false
       case Ok(h, j) => h.major == 4 && h.arg == 2 && ValueStop(u, room, raw, j, 0).Some?
  }

  /** The body of a record that was read; a record that was built has no bytes. */
  method BodyBytes(u: Unicode, room: Room, raw: Option<Slice>) returns (r: Result<seq<Byte>>)
    ensures raw.None? ==> r == Failure(NoBytes)
    ensures raw.Some? ==>
              if BodyStops(u, room, raw.value) then r == Stopped
              else
                match BodyAt(u, raw.value)
                case Ok(b, _) => r == Success(b)
                case Err(e) => r == Failure(e)
  {
    hide HeadAt, HeadStops, ValueAt, ValueStop;
    if raw.None? {
      return Failure(NoBytes);
    }
    var d := new Decoder(u, room, raw.value);
    var head := d.ReadHead();
    if head.Stopped? {
      return Stopped;
    }
    if head.Failure? {
      return Failure(head.error);
    }
    if head.value.major != 4 || head.value.arg != 2 {
      return Failure(NotARecord);
    }
    var code := d.ReadValue(0);
    if code.Stopped? {
      return Stopped;
    }
    if code.Failure? {
      return Failure(code.error);
    }
    return Success(raw.value[d.i..]);
  }

  /** Of a record's own bytes, what is left after head and code is the encoding of its body. */
  lemma BodyIsEncoding(u: Unicode, room: Room, raw: Slice)
    requires RecordAt(u, raw).Ok? && RecordAt(u, raw).end == |raw| && room.items >= |raw| && room.entries >= |raw|
    ensures !BodyStops(u, room, raw) && BodyAt(u, raw).Ok?
    ensures BodyAt(u, raw).value == Encode(RecordAt(u, raw).value.body)
  {
    var j := HeadAt(raw, 0).end;
    var k := ValueAt(u, raw, j, 0).end;
    HeadGoesOn(raw, 0);
    AcceptedNeverStops(u, room, raw, j, 0);
    ReEncode(u, raw, k, 0);
    hide ValueAt, ValueStop, HeadAt, Encode;
    assert raw[k..|raw|] == raw[k..];
  }

  /** Go's encoder gives those bytes back exactly when the body holds no number below an `int64`. */
  lemma CanonicalBodyExactly(u: Unicode, raw: seq<Byte>)
    requires RecordAt(u, raw).Ok? && RecordAt(u, raw).end == |raw|
    ensures BodyAt(u, raw).Ok?
    ensures Encode(Wrap(RecordAt(u, raw).value.body)) == BodyAt(u, raw).value <==> Narrow(RecordAt(u, raw).value.body)
  {
    var k := ValueAt(u, raw, HeadAt(raw, 0).end, 0).end;
    GoReEncode(u, raw, k, 0);
    hide ValueAt, HeadAt, Encode, Wrap, Narrow;
    assert raw[k..|raw|] == raw[k..];
  }

  // ---------------------------------------------------------------------------
  // Canonical values
  // ---------------------------------------------------------------------------

  /** The canonical form of a well-formed value is what the decoder would return. */
  lemma CanonNormal(u: Unicode, v: Value, depth: nat)
    requires Fits(v) && WellFormed(u, v, depth)
    ensures Normal(u, Canon(v), depth)
  {
    hide ValueAt, Encode, WellFormed, Fits, Canon;
    var data := Encode(v);
    assert data[0..|data|] == data;
    DecodeEncode(u, v, data, 0, depth);
    ReEncode(u, data, 0, depth);
  }

  /** Entries that are canonical each, and in key order. */
  ghost predicate Ordered(entries: seq<Pair>) {
    Ascending(KeyedEntries(entries)) && forall p | p in entries :: CanonPair(p) == p
  }

  lemma {:induction false} CanonPairsFixed(entries: seq<Pair>)
    requires forall p | p in entries :: CanonPair(p) == p
    ensures CanonPairs(entries) == entries
  {
    if entries != [] {
      CanonPairsFixed(entries[1..]);
      hide CanonPair;
      assert entries == [entries[0]] + entries[1..];
    }
  }

  /** A map in key order is canonical. */
  lemma OrderedCanon(entries: seq<Pair>)
    requires Ordered(entries)
    ensures Canon(Map(entries)) == Map(entries) && DistinctKeys(KeyedEntries(entries))
  {
    CanonPairsFixed(entries);
    var ks := KeyedEntries(entries);
    AscendingDistinct(None, ks);
    hide CanonPair, KeyedEntries, CanonPairs;
    SortFixes(ks);
    PairsOfEntries(entries);
  }

  lemma MemberCanon(u: Unicode, entries: seq<Pair>, depth: nat, p: Pair)
    requires Normal(u, Map(entries), depth) && p in CanonPairs(entries)
    ensures CanonPair(p) == p
  {
    hide Encode, KeyedEntries, Canon, CanonPairs;
    CanonOfMember(entries, p);
    var q :| q in entries && p == CanonPair(q);
    assert Fits(q.key) && Fits(q.value) && WellFormed(u, q.key, depth + 1) && WellFormed(u, q.value, depth + 1);
    hide Fits, WellFormed;
    CanonNormal(u, q.key, depth + 1);
    CanonNormal(u, q.value, depth + 1);
  }

  /** And only such a map is, among those that are well formed. */
  lemma CanonOrdered(u: Unicode, entries: seq<Pair>, depth: nat)
    requires Normal(u, Map(entries), depth)
    ensures Ordered(entries)
  {
    hide Encode, KeyedEntry, KeyedEntries, Sort, CanonPairs, CanonPair, Pairs, DistinctKeys, Fits;
    var canon := CanonPairs(entries);
    var s := Sort(KeyedEntries(canon));
    assert Pairs(s) == SortPairs(canon) == entries && DistinctKeys(KeyedEntries(entries));
    hide Canon, WellFormed, SortPairs, NonDescending;
    SortKeeps(KeyedEntries(canon));
    EntriesAreKeyed(canon);
    EntriesOfPairs(s);
    SortOrders(KeyedEntries(canon));
    DistinctAscending(s);
    SortPairsKeeps(canon);
    forall p | p in entries
      ensures CanonPair(p) == p
    {
      MemberCanon(u, entries, depth, p);
    }
  }

  lemma {:induction false} CanonOfMember(entries: seq<Pair>, p: Pair)
    requires p in CanonPairs(entries)
    ensures exists q :: q in entries && p == CanonPair(q)
  {
    hide CanonPair;
    if p != CanonPair(entries[0]) {
      assert p in CanonPairs(entries[1..]);
      CanonOfMember(entries[1..], p);
    } else {
      assert entries[0] in entries;
    }
  }

  // ---------------------------------------------------------------------------
  // The tree of a segment table
  // ---------------------------------------------------------------------------

  const TREE_KEYS: nat := 4

  predicate IsTreeKey(k: Value) {
    k.Uint? && k.n < TREE_KEYS
  }

  function TreeEntries(entries: seq<Pair>): seq<Pair> {
    if entries == [] then []
    else (if IsTreeKey(entries[0].key) then [entries[0]] else []) + TreeEntries(entries[1..])
  }

  /** A row cut to its start, end, level and locator; anything but a map as it stands. */
  function TreeRow(row: Value): Value {
    if row.Map? then Map(TreeEntries(row.entries)) else row
  }

  function TreeRows(rows: seq<Value>): (r: seq<Value>)
    ensures |r| == |rows| && forall i :: 0 <= i < |rows| ==> r[i] == TreeRow(rows[i])
  {
    seq(|rows|, i requires 0 <= i < |rows| => TreeRow(rows[i]))
  }

  function Tree(segments: Value): Value {
    if segments.Array? then Array(TreeRows(segments.items)) else segments
  }

  lemma {:induction false} TreeEntriesAppend(entries: seq<Pair>, p: Pair)
    ensures TreeEntries(entries + [p]) == TreeEntries(entries) + if IsTreeKey(p.key) then [p] else []
  {
    if entries == [] {
      assert entries + [p] == [p];
    } else {
      assert (entries + [p])[1..] == entries[1..] + [p];
      TreeEntriesAppend(entries[1..], p);
    }
  }

  /** The inner loop: the entries of one row. */
  method CutRow(entries: seq<Pair>) returns (kept: seq<Pair>)
    ensures kept == TreeEntries(entries)
  {
    kept := [];
    for j := 0 to |entries|
      invariant kept == TreeEntries(entries[..j])
    {
      TreeEntriesAppend(entries[..j], entries[j]);
      assert entries[..j + 1] == entries[..j] + [entries[j]];
      if IsTreeKey(entries[j].key) {
        kept := kept + [entries[j]];
      }
    }
    assert entries[..|entries|] == entries;
  }

  method CutToTree(segments: Value) returns (r: Value)
    ensures r == Tree(segments)
  {
    hide TreeEntries;
    if !segments.Array? {
      return segments;
    }
    var rows := segments.items;
    var out: seq<Value> := [];
    for i := 0 to |rows|
      invariant out == TreeRows(rows)[..i]
    {
      if !rows[i].Map? {
        out := out + [rows[i]];
      } else {
        var kept := CutRow(rows[i].entries);
        out := out + [Map(kept)];
      }
    }
    assert TreeRows(rows)[..|rows|] == TreeRows(rows);
    return Array(out);
  }

  lemma {:induction false} TreeEntriesOrdered(entries: seq<Pair>, prev: Option<seq<Byte>>)
    requires AscendingFrom(prev, KeyedEntries(entries))
    ensures AscendingFrom(prev, KeyedEntries(TreeEntries(entries)))
    decreases entries
  {
    hide KeyedEntry;
    if entries != [] {
      var first, rest := entries[0], entries[1..];
      assert KeyedEntries(entries)[1..] == KeyedEntries(rest);
      if IsTreeKey(first.key) {
        TreeEntriesOrdered(rest, Some(KeyedEntry(first).key));
        assert TreeEntries(entries)[1..] == TreeEntries(rest);
        assert KeyedEntries(TreeEntries(entries))[1..] == KeyedEntries(TreeEntries(rest));
      } else {
        TreeEntriesOrdered(rest, Some(KeyedEntry(first).key));
        assert TreeEntries(entries) == TreeEntries(rest);
        AscendingSooner(prev, KeyedEntry(first).key, KeyedEntries(TreeEntries(rest)));
      }
    }
  }

  lemma AscendingSooner(prev: Option<seq<Byte>>, k: seq<Byte>, s: seq<Keyed<Entry>>)
    requires AscendingFrom(Some(k), s) && (prev.Some? ==> Less(prev.value, k))
    ensures AscendingFrom(prev, s)
  {
    if s != [] && prev.Some? {
      LessTransitive(prev.value, k, s[0].key);
    }
  }

  /** Which entries of a row are left: those under the four keys, and they all are. */
  lemma {:induction false} TreeEntriesAre(entries: seq<Pair>)
    ensures forall p :: p in TreeEntries(entries) <==> p in entries && IsTreeKey(p.key)
    ensures forall k :: IsTreeKey(k) <==> k == Uint(0) || k == Uint(1) || k == Uint(2) || k == Uint(3)
    ensures |TreeEntries(entries)| <= |entries|
  {
    if entries != [] {
      TreeEntriesAre(entries[1..]);
      assert entries == [entries[0]] + entries[1..];
    }
  }

  lemma RowNormal(u: Unicode, row: Value, depth: nat)
    requires Normal(u, row, depth)
    ensures Normal(u, TreeRow(row), depth)
  {
    if row.Map? {
      var kept := TreeEntries(row.entries);
      TreeEntriesAre(row.entries);
      CanonOrdered(u, row.entries, depth);
      TreeEntriesOrdered(row.entries, None);
      OrderedCanon(kept);
      hide KeyedEntries, Canon, TreeEntries;
    }
  }

  lemma {:induction false} CanonItemsFixed(items: seq<Value>)
    ensures CanonItems(items) == items <==> forall x | x in items :: Canon(x) == x
  {
    if items != [] {
      CanonItemsFixed(items[1..]);
      hide Canon;
      assert items == [items[0]] + items[1..];
      assert CanonItems(items)[1..] == CanonItems(items[1..]);
    }
  }

  /** The tree of a table that was decoded is canonical again. */
  lemma TreeNormal(u: Unicode, v: Value, depth: nat)
    requires Normal(u, v, depth)
    ensures Normal(u, Tree(v), depth)
  {
    if v.Array? {
      CanonItemsFixed(v.items);
      forall i | 0 <= i < |v.items|
        ensures Normal(u, TreeRow(v.items[i]), depth + 1)
      {
        assert v.items[i] in v.items;
        hide TreeRow;
        RowNormal(u, v.items[i], depth + 1);
      }
      RowsNormal(u, TreeRows(v.items), depth);
      hide Normal, TreeRows;
    }
  }

  lemma RowsNormal(u: Unicode, rows: seq<Value>, depth: nat)
    requires (forall i | 0 <= i < |rows| :: Normal(u, rows[i], depth + 1)) && |rows| < ARG_LIMIT && depth <= MAX_NESTING
    ensures Normal(u, Array(rows), depth)
  {
    assert forall x | x in rows :: Normal(u, x, depth + 1);
    CanonItemsFixed(rows);
  }

  method StructureHash(mode: Mode, segments: Value) returns (digest: seq<Byte>)
    ensures digest == Hash(mode, Encode(Tree(segments)), OUT_LEN)
  {
    hide Hash, Encode;
    var tree := CutToTree(segments);
    var encoded := EncodeOne(tree);
    digest := Blake3.Hash32(mode, encoded);
  }

  /**
    What a structure hash is taken over decides the tree of the table and nothing else: every row, in
    order, under its four tree keys. This holds of any two tables, as they were read or as Go holds
    them after wrapping.
   */
  lemma TreeDecides(a: Value, b: Value)
    requires Fits(a) && Fits(b)
    ensures Encode(Tree(a)) == Encode(Tree(b)) <==> Canon(Tree(a)) == Canon(Tree(b))
  {
    TreeFits(a);
    TreeFits(b);
    hide Tree, Encode, Canon, Fits;
    EncodeInjective(Tree(a), Tree(b));
  }

  lemma TreeFits(v: Value)
    requires Fits(v)
    ensures Fits(Tree(v))
  {
    if v.Array? {
      var rows := TreeRows(v.items);
      forall i | 0 <= i < |rows|
        ensures Fits(rows[i])
      {
        assert v.items[i] in v.items;
        RowFits(v.items[i]);
      }
      hide TreeRows, TreeRow;
      assert forall x | x in rows :: Fits(x);
    }
  }

  lemma RowFits(row: Value)
    requires Fits(row)
    ensures Fits(TreeRow(row))
  {
    if row.Map? {
      TreeEntriesAre(row.entries);
      hide TreeEntries;
    }
  }

  /** The tree of a table as it was read is its own canonical form. */
  lemma ReadTreeDecides(u: Unicode, a: Value, b: Value, depth: nat)
    requires Normal(u, a, depth) && Normal(u, b, depth)
    ensures Encode(Tree(a)) == Encode(Tree(b)) <==> Tree(a) == Tree(b)
  {
    TreeNormal(u, a, depth);
    TreeNormal(u, b, depth);
    hide Tree, Encode, Canon, Fits, WellFormed;
    TreeDecides(a, b);
  }

  // ---------------------------------------------------------------------------
  // Contentions
  // ---------------------------------------------------------------------------

  /** The digest of a contention and its display form: "k/c" and the first 130 bits. */
  method ContentionId(mode: Mode, kind: Byte, over: seq<Byte>, positions: seq<seq<Byte>>)
    returns (digest: seq<Byte>, text: seq<Byte>)
    ensures digest == Hash(mode, ContentionPreimage(kind, over, positions), OUT_LEN)
    ensures text == [0x6b, 0x2f, 0x63] + IdentityText.Letters(digest, 26)
  {
    hide Hash, ContentionPreimage;
    digest := ContentionDigest(mode, kind, over, positions);
    text := [0x6b, 0x2f, 0x63] + IdentityText.Letters(digest, 52)[..26];
    IdentityText.TextsDecide(digest, digest);
  }
}
