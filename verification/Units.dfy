/**
  Unit cores: their canonical bytes, which are what a uid is the hash of, and what those bytes say.
 */
module Units {
  import opened Bytes
  import opened CborHead
  import opened CborSpec
  import opened ByteSets
  import opened IntMaps
  import opened Blake3Tree
  import Blake3

  /** Text as Go holds it: bytes, in whatever normalisation the caller wrote. */
  type String = seq<Byte>

  datatype Source = Source(
    kind: U64,
    reference: String,
    captured: String,
    observed: U64,
    published: String,
    span: Option<seq<U64>>,
    manifest: Option<seq<Byte>>)

  /** The unknown keys are listed in the order in which the runtime walks them. */
  datatype UnitCore = UnitCore(
    schema: String,
    gist: String,
    status: U64,
    body: String,
    detail: String,
    deps: seq<seq<Byte>>,
    grounds: seq<seq<Byte>>,
    source: Option<Source>,
    payload: Option<seq<Byte>>,
    lang: String,
    extra: seq<Numbered<seq<Byte>>>)

  const UNFOUNDED: U64 := 0
  const INFERRED: U64 := 2
  const DERIVED: U64 := 3
  const CITED: U64 := 4
  const MEASURED: U64 := 5
  const KEY_LANG: U64 := 9

  // ---------------------------------------------------------------------------
  // Well-formed units
  // ---------------------------------------------------------------------------

  predicate IsSpace(c: Byte) {
    c == 0x20 || 0x09 <= c <= 0x0d
  }

  /** `t` is what stands from `i` to `j`, with nothing but white space on either side. */
  ghost predicate TrimmedTo(s: String, t: String, i: nat, j: nat)
    requires i <= j <= |s|
  {
    t == s[i..j] && (forall c | c in s[..i] :: IsSpace(c)) && (forall c | c in s[j..] :: IsSpace(c))
  }

  /** The text without the white space around it; blank exactly when nothing but space was there. */
  method Trimmed(s: String) returns (t: String)
    ensures t == [] <==> forall c | c in s :: IsSpace(c)
    ensures t != [] ==> !IsSpace(t[0]) && !IsSpace(t[|t| - 1])
    ensures exists i, j :: 0 <= i <= j <= |s| && TrimmedTo(s, t, i, j)
  {
    var start, end := 0, |s|;
    while start < end && IsSpace(s[start])
      invariant 0 <= start <= end == |s| && forall c | c in s[..start] :: IsSpace(c)
    {
      start := start + 1;
    }
    while end > start && IsSpace(s[end - 1])
      invariant start <= end <= |s| && forall c | c in s[end..] :: IsSpace(c)
      invariant start < |s| ==> start < end
    {
      end := end - 1;
    }
    t := s[start..end];
    assert TrimmedTo(s, t, start, end);
    assert s == s[..start] + t + s[end..];
  }

  predicate RequiresSource(status: U64) {
    status == MEASURED || status == CITED
  }

  predicate RequiresGrounds(status: U64) {
    status == DERIVED || status == INFERRED
  }

  predicate SourceValidates(s: Source) {
    && (s.span.Some? ==>
          && |s.span.value| == 2 && s.span.value[0] < s.span.value[1]
          && s.manifest.Some?)
    && (s.manifest.Some? ==> |s.manifest.value| == UID_LEN)
  }

  /** What a producer may emit. */
  predicate Validates(c: UnitCore) {
    && c.schema != []
    && (exists x :: x in c.gist && !IsSpace(x))
    && (c.detail != [] ==> c.body != [])
    && c.status != UNFOUNDED && c.status <= MEASURED
    && (RequiresSource(c.status) ==> c.source.Some?)
    && (RequiresGrounds(c.status) ==> c.grounds != [])
    && (c.source.Some? ==> SourceValidates(c.source.value))
    && forall e | e in c.extra :: e.key > KEY_LANG
  }

  /**
    The same by the numbers: a byte of the gist that is no tab, line feed, vertical tab, form feed,
    carriage return or space; statuses 1 to 5, of which 2 and 3 stand on a ground and 4 and 5 on a
    source; a span that goes forward, beside the 32 bytes it is an offset into; extra keys from 10.
   */
  ghost predicate Shaped(c: UnitCore) {
    && |c.schema| > 0
    && (exists x :: x in c.gist && x !in {9, 10, 11, 12, 13, 32})
    && (|c.body| > 0 || |c.detail| == 0)
    && (c.status == 1
        || ((c.status == 2 || c.status == 3) && |c.grounds| > 0)
        || ((c.status == 4 || c.status == 5) && c.source != None))
    && (match c.source
        case None => true
        case Some(s) =>
          (match s.manifest
           case None => s.span == None
           case Some(m) => |m| == 32 && (s.span == None || (|s.span.value| == 2 && s.span.value[1] > s.span.value[0]))))
    && forall i :: 0 <= i < |c.extra| ==> c.extra[i].key >= 10
  }

  lemma ValidatesExactly(c: UnitCore)
    ensures Validates(c) <==> Shaped(c)
  {
    assert (forall e | e in c.extra :: e.key > 9) <==> forall i :: 0 <= i < |c.extra| ==> c.extra[i].key >= 10;
    assert forall x | x in c.gist :: IsSpace(x) <==> x in {9, 10, 11, 12, 13, 32};
  }

  /** Collects every shape problem; well formed when there is none. */
  method Validate(c: UnitCore) returns (ok: bool)
    ensures ok == Validates(c)
    ensures ok <==> Shaped(c)
  {
    ValidatesExactly(c);
    hide Shaped;
    var gist := Trimmed(c.gist);
    ok := c.schema != [] && gist != [] && !(c.detail != [] && c.body == []);
    ok := ok && c.status != UNFOUNDED && c.status <= MEASURED;
    ok := ok && !(RequiresSource(c.status) && c.source.None?) && !(RequiresGrounds(c.status) && c.grounds == []);
    if c.source.Some? {
      ok := ok && SourceValidates(c.source.value);
    }
    ghost var kernel := ok;
    var k := 0;
    while k < |c.extra|
      invariant 0 <= k <= |c.extra| && ok == (kernel && forall e | e in c.extra[..k] :: e.key > KEY_LANG)
    {
      assert c.extra[..k + 1] == c.extra[..k] + [c.extra[k]];
      if c.extra[k].key <= KEY_LANG {
        ok := false;
      }
      k := k + 1;
    }
    assert c.extra[..|c.extra|] == c.extra;
  }

  // ---------------------------------------------------------------------------
  // Layout
  // ---------------------------------------------------------------------------

  /** A key and, unless the field is left out, its value. */
  type Slot = Numbered<Option<Value>>

  function Present(slots: seq<Slot>): Fields {
    if slots == [] then []
    else
      (match slots[0].item
       case None => []
       case Some(v) => [Numbered(slots[0].key, v)]) + Present(slots[1..])
  }

  function TextUnlessEmpty(u: Unicode, s: String): Option<Value> {
    if s == [] then None else Some(Text(u.nfc(s)))
  }

  function UidsUnlessEmpty(uids: seq<seq<Byte>>): Option<Value> {
    if uids == [] then None else Some(UidSetValue(uids))
  }

  function SourceSlots(u: Unicode, s: Source): seq<Slot> {
    [Numbered(0, Some(Uint(s.kind))),
     Numbered(1, Some(Text(u.nfc(s.reference)))),
     Numbered(3, if s.observed == 0 then None else Some(Uint(s.observed))),
     Numbered(2, TextUnlessEmpty(u, s.captured)),
     Numbered(4, TextUnlessEmpty(u, s.published)),
     Numbered(5, if s.span.Some? && |s.span.value| == 2
                 then Some(Array([Uint(s.span.value[0]), Uint(s.span.value[1])])) else None),
     Numbered(6, if s.manifest.Some? && |s.manifest.value| == UID_LEN then Some(Blob(s.manifest.value)) else None)]
  }

  function SourceValue(u: Unicode, s: Source): Value {
    FieldsValue(Present(SourceSlots(u, s)))
  }

  function UnitSlots(u: Unicode, c: UnitCore): seq<Slot> {
    [Numbered(0, Some(Text(u.nfc(c.schema)))),
     Numbered(1, Some(Text(u.nfc(c.gist)))),
     Numbered(6, Some(Uint(c.status))),
     Numbered(2, TextUnlessEmpty(u, c.body)),
     Numbered(3, TextUnlessEmpty(u, c.detail)),
     Numbered(4, UidsUnlessEmpty(c.deps)),
     Numbered(5, UidsUnlessEmpty(c.grounds)),
     Numbered(7, match c.source case None => None case Some(s) => Some(SourceValue(u, s))),
     Numbered(8, match c.payload case None => None case Some(b) => Some(Blob(b))),
     Numbered(9, TextUnlessEmpty(u, c.lang))]
  }

  /** The hash input of a uid, or nothing where the code refuses. */
  function CanonicalBytesOf(u: Unicode, c: UnitCore): Option<seq<Byte>> {
    if !(forall x | x in c.deps :: |x| == UID_LEN) || !(forall x | x in c.grounds :: |x| == UID_LEN) then None
    else if exists e | e in c.extra :: e.key <= KEY_LANG then None
    else IntMapBytes(Encoded(Present(UnitSlots(u, c))) + c.extra)
  }

  // ---------------------------------------------------------------------------
  // The code that lays a unit out
  // ---------------------------------------------------------------------------

  lemma {:induction false} PresentAppend(done: seq<Slot>, s: Slot)
    ensures Encoded(Present(done + [s]))
         == Encoded(Present(done)) + match s.item case None => [] case Some(v) => [Numbered(s.key, Encode(v))]
  {
    hide Encode;
    if done == [] {
      assert done + [s] == [s];
    } else {
      PresentAppend(done[1..], s);
      assert (done + [s])[1..] == done[1..] + [s];
      if done[0].item.Some? {
        var f := Numbered(done[0].key, done[0].item.value);
        assert Present(done) == [f] + Present(done[1..]) && Present(done + [s]) == [f] + Present(done[1..] + [s]);
        assert ([f] + Present(done[1..]))[1..] == Present(done[1..]);
        assert ([f] + Present(done[1..] + [s]))[1..] == Present(done[1..] + [s]);
      } else {
        assert Present(done) == Present(done[1..]) && Present(done + [s]) == Present(done[1..] + [s]);
      }
    }
  }

  function EncodeText(u: Unicode, s: String): (b: seq<Byte>)
    ensures b == Encode(Text(u.nfc(s)))
  {
    var raw := u.nfc(s);
    HeadBytes(3, |raw|) + raw
  }

  function EncodeBytes(b: seq<Byte>): (r: seq<Byte>)
    ensures r == Encode(Blob(b))
  {
    HeadBytes(2, |b|) + b
  }

  function EncodeUint(n: U64): (r: seq<Byte>)
    ensures r == Encode(Uint(n))
  {
    HeadBytes(0, n)
  }

  lemma SpanEncodes(a: U64, b: U64)
    ensures HeadBytes(4, 2) + EncodeUint(a) + EncodeUint(b) == Encode(Array([Uint(a), Uint(b)]))
  {
    hide HeadBytes, EncodeUint;
    var items := [Uint(a), Uint(b)];
    assert items[1..] == [Uint(b)] && items[1..][1..] == [];
    assert EncodeItems(items[1..]) == Encode(Uint(b)) + [];
    assert EncodeItems(items) == Encode(Uint(a)) + EncodeItems(items[1..]);
  }

  method EncodeSource(u: Unicode, s: Source) returns (r: Option<seq<Byte>>)
    ensures r == Some(Encode(SourceValue(u, s)))
  {
    hide Encode, Present, Encoded, Laid, HeadBytes, EncodeUint, EncodeText, EncodeBytes, IntMapBytes;
    ghost var slots := SourceSlots(u, s);
    NextSlot(slots, 0);
    NextSlot(slots, 1);
    var entries := [Numbered(0, EncodeUint(s.kind)), Numbered(1, EncodeText(u, s.reference))];
    assert entries == Laid(slots, 2);
    if s.observed != 0 {
      entries := entries + [Numbered(3, EncodeUint(s.observed))];
    }
    NextSlot(slots, 2);
    assert entries == Laid(slots, 3);
    if s.captured != [] {
      entries := entries + [Numbered(2, EncodeText(u, s.captured))];
    }
    NextSlot(slots, 3);
    assert entries == Laid(slots, 4);
    if s.published != [] {
      entries := entries + [Numbered(4, EncodeText(u, s.published))];
    }
    NextSlot(slots, 4);
    assert entries == Laid(slots, 5);
    if s.span.Some? && |s.span.value| == 2 {
      SpanEncodes(s.span.value[0], s.span.value[1]);
      var enc := HeadBytes(4, 2) + EncodeUint(s.span.value[0]) + EncodeUint(s.span.value[1]);
      entries := entries + [Numbered(5, enc)];
    }
    NextSlot(slots, 5);
    assert entries == Laid(slots, 6);
    if s.manifest.Some? && |s.manifest.value| == UID_LEN {
      entries := entries + [Numbered(6, EncodeBytes(s.manifest.value))];
    }
    NextSlot(slots, 6);
    assert entries == Laid(slots, 7);
    AllSlots(slots);
    r := EncodeMap(entries);
    PresentDistinct(slots);
    IntMapIsEncode(Present(slots));
  }

  /** The entries that the first `n` slots leave. */
  function Laid(slots: seq<Slot>, n: nat): seq<Numbered<seq<Byte>>>
    requires n <= |slots|
  {
    Encoded(Present(slots[..n]))
  }

  lemma AllSlots(slots: seq<Slot>)
    ensures Laid(slots, |slots|) == Encoded(Present(slots))
  {
    assert slots[..|slots|] == slots;
  }

  lemma NextSlot(slots: seq<Slot>, n: nat)
    requires n < |slots|
    ensures n == 0 ==> Laid(slots, 0) == []
    ensures slots[n].item.None? ==> Laid(slots, n + 1) == Laid(slots, n)
    ensures slots[n].item.Some? ==>
              Laid(slots, n + 1) == Laid(slots, n) + [Numbered(slots[n].key, Encode(slots[n].item.value))]
  {
    assert slots[..n + 1] == slots[..n] + [slots[n]];
    PresentAppend(slots[..n], slots[n]);
  }

  /** The slots have keys of their own. */
  ghost predicate DistinctSlots(slots: seq<Slot>) {
    forall i, j :: 0 <= i < j < |slots| ==> slots[i].key != slots[j].key
  }

  /** Every entry that is present stands in a slot. */
  lemma {:induction false} PresentStands(slots: seq<Slot>, f: Numbered<Value>)
    requires f in Present(slots)
    ensures exists i :: 0 <= i < |slots| && slots[i] == Numbered(f.key, Some(f.item))
  {
    if slots[0] != Numbered(f.key, Some(f.item)) {
      PresentStands(slots[1..], f);
      var i :| 0 <= i < |slots[1..]| && slots[1..][i] == Numbered(f.key, Some(f.item));
      assert slots[i + 1] == slots[1..][i];
    }
  }

  lemma {:induction false} PresentDistinct(slots: seq<Slot>)
    requires DistinctSlots(slots)
    ensures DistinctNumbers(Present(slots))
    ensures forall f | f in Present(slots) :: exists i :: 0 <= i < |slots| && slots[i] == Numbered(f.key, Some(f.item))
    ensures |Present(slots)| <= |slots|
  {
    if slots != [] {
      PresentDistinct(slots[1..]);
      forall f | f in Present(slots[1..])
        ensures f.key != slots[0].key
      {
        PresentStands(slots[1..], f);
      }
    }
    forall f | f in Present(slots)
      ensures exists i :: 0 <= i < |slots| && slots[i] == Numbered(f.key, Some(f.item))
    {
      PresentStands(slots, f);
    }
  }

  lemma {:induction false} PresentGet(slots: seq<Slot>, i: nat)
    requires DistinctSlots(slots) && i < |slots|
    ensures Get(Present(slots), slots[i].key) == slots[i].item
  {
    PresentDistinct(slots);
    hide *;
    var fields, k := Present(slots), slots[i].key;
    GetMember(fields, k);
    match slots[i].item
    case None =>
      if Get(fields, k).Some? {
        assert Numbered(k, Get(fields, k).value) in fields;
        NotPresent(slots, i, Get(fields, k).value);
      }
    case Some(v) =>
      PresentHolds(slots, i);
      assert Numbered(k, v) in fields;
  }

  lemma NotPresent(slots: seq<Slot>, i: nat, v: Value)
    requires DistinctSlots(slots) && i < |slots| && slots[i].item.None?
    ensures !exists j :: 0 <= j < |slots| && slots[j] == Numbered(slots[i].key, Some(v))
  {
  }

  lemma {:induction false} PresentHolds(slots: seq<Slot>, i: nat)
    requires i < |slots| && slots[i].item.Some?
    ensures Numbered(slots[i].key, slots[i].item.value) in Present(slots)
  {
    if i > 0 {
      PresentHolds(slots[1..], i - 1);
    }
  }

  lemma OpeningSlots(u: Unicode, c: UnitCore)
    ensures var s := UnitSlots(u, c);
            && |s| == 10
            && s[0] == Numbered(0, Some(Text(u.nfc(c.schema)))) && s[1] == Numbered(1, Some(Text(u.nfc(c.gist))))
            && s[2] == Numbered(6, Some(Uint(c.status)))
            && s[3] == Numbered(2, TextUnlessEmpty(u, c.body)) && s[4] == Numbered(3, TextUnlessEmpty(u, c.detail))
            && s[5] == Numbered(4, UidsUnlessEmpty(c.deps)) && s[6] == Numbered(5, UidsUnlessEmpty(c.grounds))
  {
    hide SourceValue, TextUnlessEmpty, UidsUnlessEmpty;
  }

  /** The fields up to the two uid sets; a uid of the wrong length is refused. */
  method OpeningEntries(u: Unicode, c: UnitCore) returns (r: Option<seq<Numbered<seq<Byte>>>>)
    ensures r == if AllUids(c.deps) && AllUids(c.grounds) then Some(Laid(UnitSlots(u, c), 7)) else None
  {
    hide Encode, Present, Encoded, Laid, SourceValue, UidSetValue, IntMapBytes, EncodeUint, EncodeText, EncodeBytes, HeadBytes,
         CanonicalSet, Blobs, UnitSlots;
    ghost var slots := UnitSlots(u, c);
    OpeningSlots(u, c);
    NextSlot(slots, 0);
    NextSlot(slots, 1);
    NextSlot(slots, 2);
    var entries := [Numbered(0, EncodeText(u, c.schema)), Numbered(1, EncodeText(u, c.gist)),
                    Numbered(6, EncodeUint(c.status))];
    assert entries == Laid(slots, 3);
    if c.body != [] {
      entries := entries + [Numbered(2, EncodeText(u, c.body))];
    }
    NextSlot(slots, 3);
    assert entries == Laid(slots, 4);
    if c.detail != [] {
      entries := entries + [Numbered(3, EncodeText(u, c.detail))];
    }
    NextSlot(slots, 4);
    assert entries == Laid(slots, 5);
    if c.deps != [] {
      var enc := EncodeUidSet(c.deps);
      if enc.None? {
        return None;
      }
      entries := entries + [Numbered(4, enc.value)];
    }
    NextSlot(slots, 5);
    assert entries == Laid(slots, 6);
    if c.grounds != [] {
      var enc := EncodeUidSet(c.grounds);
      if enc.None? {
        return None;
      }
      entries := entries + [Numbered(5, enc.value)];
    }
    NextSlot(slots, 6);
    assert entries == Laid(slots, 7);
    return Some(entries);
  }

  method ClosingEntries(u: Unicode, c: UnitCore, opening: seq<Numbered<seq<Byte>>>)
    returns (entries: seq<Numbered<seq<Byte>>>)
    requires opening == Laid(UnitSlots(u, c), 7)
    ensures entries == Encoded(Present(UnitSlots(u, c)))
  {
    hide Encode, Present, Encoded, Laid, SourceValue, UidSetValue, EncodeText, EncodeBytes;
    ghost var slots := UnitSlots(u, c);
    entries := opening;
    if c.source.Some? {
      var enc := EncodeSource(u, c.source.value);
      entries := entries + [Numbered(7, enc.value)];
    }
    NextSlot(slots, 7);
    assert entries == Laid(slots, 8);
    if c.payload.Some? {
      entries := entries + [Numbered(8, EncodeBytes(c.payload.value))];
    }
    NextSlot(slots, 8);
    assert entries == Laid(slots, 9);
    if c.lang != [] {
      entries := entries + [Numbered(9, EncodeText(u, c.lang))];
    }
    NextSlot(slots, 9);
    assert entries == Laid(slots, 10);
    AllSlots(slots);
  }

  lemma BytesOrRefusal(u: Unicode, c: UnitCore)
    ensures !AllUids(c.deps) || !AllUids(c.grounds) ==> CanonicalBytesOf(u, c) == None
    ensures (exists e | e in c.extra :: e.key <= KEY_LANG) ==> CanonicalBytesOf(u, c) == None
    ensures AllUids(c.deps) && AllUids(c.grounds) && (forall e | e in c.extra :: e.key > KEY_LANG) ==>
              CanonicalBytesOf(u, c) == IntMapBytes(Encoded(Present(UnitSlots(u, c))) + c.extra)
  {
    hide Encoded, Present, UnitSlots, IntMapBytes;
  }

  method CanonicalBytes(u: Unicode, c: UnitCore) returns (r: Option<seq<Byte>>)
    ensures r == CanonicalBytesOf(u, c)
  {
    BytesOrRefusal(u, c);
    hide Encoded, Present, UnitSlots, IntMapBytes, CanonicalBytesOf, AllUids;
    var opening := OpeningEntries(u, c);
    if opening.None? {
      return None;
    }
    var entries := ClosingEntries(u, c, opening.value);
    ghost var kernel := entries;
    var k := 0;
    while k < |c.extra|
      invariant 0 <= k <= |c.extra| && entries == kernel + c.extra[..k]
      invariant forall e | e in c.extra[..k] :: e.key > KEY_LANG
    {
      if c.extra[k].key <= KEY_LANG {
        assert c.extra[k] in c.extra;
        return None;
      }
      entries := entries + [c.extra[k]];
      k := k + 1;
    }
    assert c.extra[..|c.extra|] == c.extra;
    r := EncodeMap(entries);
  }

  /** A uid that is not 32 bytes long, a kernel key or a repeated one among the extra keys. */
  ghost predicate Unencodable(c: UnitCore) {
    || (exists x :: x in c.deps && |x| != 32)
    || (exists x :: x in c.grounds && |x| != 32)
    || (exists i :: 0 <= i < |c.extra| && c.extra[i].key < 10)
    || exists i, j :: 0 <= i < j < |c.extra| && c.extra[i].key == c.extra[j].key
  }

  lemma KernelKeys(u: Unicode, c: UnitCore)
    ensures DistinctSlots(UnitSlots(u, c)) && forall i :: 0 <= i < 10 ==> UnitSlots(u, c)[i].key < 10
  {
    hide SourceValue, TextUnlessEmpty, UidsUnlessEmpty;
  }

  /** Kernel entries have keys of their own, below 10. */
  lemma KernelEntries(u: Unicode, c: UnitCore)
    ensures var e := Encoded(Present(UnitSlots(u, c)));
            DistinctNumbers(e) && forall i :: 0 <= i < |e| ==> e[i].key < 10
  {
    var slots := UnitSlots(u, c);
    KernelKeys(u, c);
    PresentDistinct(slots);
    var fields := Present(slots);
    hide Present, Encode, UnitSlots;
    forall i | 0 <= i < |Encoded(fields)|
      ensures Encoded(fields)[i].key < 10
    {
      assert fields[i] in fields && Encoded(fields)[i].key == fields[i].key;
    }
  }

  lemma DistinctJoin<T>(a: seq<Numbered<T>>, b: seq<Numbered<T>>)
    requires DistinctNumbers(a) && (forall i :: 0 <= i < |a| ==> a[i].key < 10)
    requires forall i :: 0 <= i < |b| ==> b[i].key >= 10
    ensures DistinctNumbers(a + b) <==> DistinctNumbers(b)
  {
    if DistinctNumbers(a + b) {
      forall i, j | 0 <= i < j < |b|
        ensures b[i].key != b[j].key
      {
        assert (a + b)[|a| + i] == b[i] && (a + b)[|a| + j] == b[j];
      }
    }
  }

  lemma RepeatsRefused(u: Unicode, c: UnitCore)
    requires forall i :: 0 <= i < |c.extra| ==> c.extra[i].key >= 10
    ensures IntMapBytes(Encoded(Present(UnitSlots(u, c))) + c.extra) == None <==> !DistinctNumbers(c.extra)
  {
    hide *;
    var kernel := Encoded(Present(UnitSlots(u, c)));
    KernelEntries(u, c);
    RepeatRefused(kernel + c.extra);
    DistinctJoin(kernel, c.extra);
  }

  /** Exactly these units have no hash input. */
  lemma RefusedExactly(u: Unicode, c: UnitCore)
    ensures CanonicalBytesOf(u, c) == None <==> Unencodable(c)
  {
    BytesOrRefusal(u, c);
    hide CanonicalBytesOf, Encoded, Present, UnitSlots, IntMapBytes;
    if forall e | e in c.extra :: e.key > KEY_LANG {
      assert forall i :: 0 <= i < |c.extra| ==> c.extra[i] in c.extra;
      RepeatsRefused(u, c);
    } else {
      var e :| e in c.extra && e.key <= KEY_LANG;
      var i :| 0 <= i < |c.extra| && c.extra[i] == e;
      assert c.extra[i].key < 10;
    }
  }

  /** A uid: only for a unit that may exist, and over its canonical bytes, status included. */
  method Uid(mode: Mode, u: Unicode, c: UnitCore) returns (r: Option<seq<Byte>>)
    ensures r == if !Validates(c) then None
                 else match CanonicalBytesOf(u, c)
                      case None => None
                      case Some(b) => Some(Hash(mode, b, OUT_LEN))
    ensures if r.Some? then Shaped(c) && !Unencodable(c) && |r.value| == 32 else !Shaped(c) || Unencodable(c)
  {
    ValidatesExactly(c);
    RefusedExactly(u, c);
    hide CanonicalBytesOf, Hash, Validates, Shaped, Unencodable;
    var ok := Validate(c);
    if !ok {
      return None;
    }
    var b := CanonicalBytes(u, c);
    if b.None? {
      return None;
    }
    var digest := Blake3.Hash32(mode, b.value);
    return Some(digest);
  }
}
