/**
  What a unit's canonical bytes say: the strict decoder accepts them, finds exactly the fields the
  unit has, and two units share their bytes exactly when they are one unit - up to Unicode
  normalisation, the order and repetition inside uid sets, and empty standing for absent.
 */
module UnitIdentity {
  import opened Bytes
  import opened CborHead
  import opened Sorting
  import opened CborSpec
  import opened CborRoundTrip
  import opened ByteSets
  import opened IntMaps
  import opened Units

  // ---------------------------------------------------------------------------
  // Units whose parts are what they claim to be
  // ---------------------------------------------------------------------------

  /** Normalising twice is normalising once, and normalising keeps UTF-8 valid. */
  ghost predicate LawfulAt(u: Unicode, s: String) {
    u.nfc(u.nfc(s)) == u.nfc(s) && (u.utf8(s) ==> u.utf8(u.nfc(s)))
  }

  ghost predicate Lawful(u: Unicode) {
    forall s :: LawfulAt(u, s)
  }

  ghost predicate TextIn(u: Unicode, s: String) {
    u.utf8(s) && |u.nfc(s)| < ARG_LIMIT
  }

  /** One canonical item within the nesting that is left, and nothing after it. */
  ghost predicate ExtraIn(u: Unicode, raw: seq<Byte>) {
    ValueAt(u, raw, 0, 1).Ok? && ValueAt(u, raw, 0, 1).end == |raw|
  }

  ghost predicate UidsIn(uids: seq<seq<Byte>>) {
    AllUids(uids) && |uids| < ARG_LIMIT
  }

  ghost predicate SourceIn(u: Unicode, s: Source) {
    TextIn(u, s.reference) && TextIn(u, s.captured) && TextIn(u, s.published)
  }

  ghost predicate Admissible(u: Unicode, c: UnitCore) {
    && Lawful(u) && Validates(c)
    && TextIn(u, c.schema) && TextIn(u, c.gist) && TextIn(u, c.body) && TextIn(u, c.detail) && TextIn(u, c.lang)
    && UidsIn(c.deps) && UidsIn(c.grounds)
    && (c.source.Some? ==> SourceIn(u, c.source.value))
    && (c.payload.Some? ==> |c.payload.value| < ARG_LIMIT)
    && |c.extra| + 10 < ARG_LIMIT && DistinctNumbers(c.extra)
    && forall e | e in c.extra :: ExtraIn(u, e.item)
  }

  // ---------------------------------------------------------------------------
  // The value that the bytes encode
  // ---------------------------------------------------------------------------

  function ExtraValue(u: Unicode, raw: seq<Byte>): Value {
    match ValueAt(u, raw, 0, 1)
    case Ok(v, _) => v
    case Err(_) => Bool(false)
  }

  function ExtraFields(u: Unicode, extra: seq<Numbered<seq<Byte>>>): (r: Fields)
    ensures |r| == |extra|
    ensures forall i :: 0 <= i < |extra| ==> r[i] == Numbered(extra[i].key, ExtraValue(u, extra[i].item))
  {
    if extra == [] then []
    else [Numbered(extra[0].key, ExtraValue(u, extra[0].item))] + ExtraFields(u, extra[1..])
  }

  function UnitFields(u: Unicode, c: UnitCore): Fields {
    Present(UnitSlots(u, c)) + ExtraFields(u, c.extra)
  }

  ghost predicate SoundAt(u: Unicode, v: Value, depth: nat) {
    Fits(v) && WellFormed(u, v, depth)
  }

  lemma ExtraSound(u: Unicode, raw: seq<Byte>)
    requires ExtraIn(u, raw)
    ensures var v := ExtraValue(u, raw); Encode(v) == raw && Canon(v) == v && SoundAt(u, v, 1)
  {
    ReEncode(u, raw, 0, 1);
    assert raw[0..|raw|] == raw;
  }

  lemma ExtrasSound(u: Unicode, extra: seq<Numbered<seq<Byte>>>)
    requires forall e | e in extra :: ExtraIn(u, e.item)
    ensures Encoded(ExtraFields(u, extra)) == extra
    ensures forall f | f in ExtraFields(u, extra) :: SoundAt(u, f.item, 1) && Canon(f.item) == f.item
  {
    hide Encode, ExtraValue, ExtraFields, Fits, WellFormed, Canon;
    forall i | 0 <= i < |extra|
      ensures Encode(ExtraFields(u, extra)[i].item) == extra[i].item
      ensures SoundAt(u, ExtraFields(u, extra)[i].item, 1)
      ensures Canon(ExtraFields(u, extra)[i].item) == ExtraFields(u, extra)[i].item
    {
      assert extra[i] in extra;
      ExtraSound(u, extra[i].item);
    }
  }

  lemma ScalarsSound(u: Unicode, n: U64, b: seq<Byte>, uids: seq<seq<Byte>>, depth: nat)
    requires depth < MAX_NESTING
    ensures SoundAt(u, Uint(n), depth)
    ensures |b| < ARG_LIMIT ==> SoundAt(u, Blob(b), depth)
    ensures UidsIn(uids) ==> SoundAt(u, UidSetValue(uids), depth) && Canon(UidSetValue(uids)) == UidSetValue(uids)
  {
    if UidsIn(uids) {
      UidSetNormal(u, uids, depth);
    }
  }

  /** A map of sound fields is sound. */
  lemma FieldsSound(u: Unicode, fields: Fields, depth: nat)
    requires depth < MAX_NESTING && |fields| < ARG_LIMIT && DistinctNumbers(fields)
    requires forall f | f in fields :: SoundAt(u, f.item, depth + 1)
    ensures SoundAt(u, FieldsValue(fields), depth)
  {
    hide SoundAt, Encode, KeyedEntries, Canon;
    IntMapIsEncode(fields);
    forall p | p in FieldPairs(fields)
      ensures SoundAt(u, p.key, depth + 1) && SoundAt(u, p.value, depth + 1)
    {
      var i :| 0 <= i < |fields| && FieldPairs(fields)[i] == p;
      assert fields[i] in fields;
      UintSound(u, fields[i].key, depth + 1);
    }
    MapSound(u, FieldPairs(fields), depth);
  }

  lemma UintSound(u: Unicode, n: U64, depth: nat)
    requires depth <= MAX_NESTING
    ensures SoundAt(u, Uint(n), depth)
  {
  }

  lemma MapSound(u: Unicode, entries: seq<Pair>, depth: nat)
    requires depth < MAX_NESTING && |entries| < ARG_LIMIT && DistinctKeys(KeyedEntries(entries))
    requires forall p | p in entries :: SoundAt(u, p.key, depth + 1) && SoundAt(u, p.value, depth + 1)
    ensures SoundAt(u, Map(entries), depth)
  {
    hide KeyedEntries, DistinctKeys;
    assert Fits(Map(entries)) by {
      hide WellFormed;
      assert forall p | p in entries :: Fits(p.key) && Fits(p.value);
    }
    assert WellFormed(u, Map(entries), depth) by {
      hide Fits;
      assert forall p | p in entries :: WellFormed(u, p.key, depth + 1) && WellFormed(u, p.value, depth + 1);
    }
  }

  ghost predicate SlotsSound(u: Unicode, slots: seq<Slot>, depth: nat) {
    forall i :: 0 <= i < |slots| && slots[i].item.Some? ==> SoundAt(u, slots[i].item.value, depth)
  }

  lemma PresentSound(u: Unicode, slots: seq<Slot>, depth: nat)
    requires DistinctSlots(slots) && SlotsSound(u, slots, depth)
    ensures forall f | f in Present(slots) :: SoundAt(u, f.item, depth)
  {
    hide Present, Fits, WellFormed;
    PresentDistinct(slots);
    forall f | f in Present(slots)
      ensures SoundAt(u, f.item, depth)
    {
      var i :| 0 <= i < |slots| && slots[i] == Numbered(f.key, Some(f.item));
    }
  }

  lemma TextSound(u: Unicode, s: String, depth: nat)
    requires Lawful(u) && TextIn(u, s) && depth <= MAX_NESTING
    ensures SoundAt(u, Text(u.nfc(s)), depth)
  {
    assert LawfulAt(u, s);
  }

  lemma SourceSound(u: Unicode, s: Source)
    requires Lawful(u) && SourceIn(u, s)
    ensures SoundAt(u, SourceValue(u, s), 1)
  {
    hide FieldsValue;
    var slots := SourceSlots(u, s);
    TextSound(u, s.reference, 2);
    TextSound(u, s.captured, 2);
    TextSound(u, s.published, 2);
    SpanSound(u, s);
    assert SlotsSound(u, slots, 2);
    PresentSound(u, slots, 2);
    PresentDistinct(slots);
    FieldsSound(u, Present(slots), 1);
  }

  lemma SpanSound(u: Unicode, s: Source)
    ensures var v := SourceSlots(u, s)[5].item; v.Some? ==> SoundAt(u, v.value, 2) && Canon(v.value) == v.value
  {
    if s.span.Some? && |s.span.value| == 2 {
      var x, y := Uint(s.span.value[0]), Uint(s.span.value[1]);
      var items := [x, y];
      assert items[1..] == [y] && [y][1..] == [];
      assert CanonItems([y]) == [y] + CanonItems([]);
      assert CanonItems(items) == [x] + CanonItems([y]) == items;
    }
  }

  lemma UnitSlotsSound(u: Unicode, c: UnitCore)
    requires Admissible(u, c)
    ensures SlotsSound(u, UnitSlots(u, c), 1)
  {
    hide SoundAt, SourceValue, UidSetValue, Fits, WellFormed, Validates, LawfulAt, Lawful, UidsIn, ExtraIn, DistinctNumbers;
    TextSound(u, c.schema, 1);
    TextSound(u, c.gist, 1);
    TextSound(u, c.body, 1);
    TextSound(u, c.detail, 1);
    TextSound(u, c.lang, 1);
    ScalarsSound(u, c.status, [], c.deps, 1);
    ScalarsSound(u, 0, if c.payload.Some? then c.payload.value else [], c.grounds, 1);
    if c.source.Some? {
      SourceSound(u, c.source.value);
    }
    SlotsOneByOne(u, UnitSlots(u, c));
  }

  lemma SlotsOneByOne(u: Unicode, slots: seq<Slot>)
    requires |slots| == 10
    requires slots[0].item.Some? ==> SoundAt(u, slots[0].item.value, 1)
    requires slots[1].item.Some? ==> SoundAt(u, slots[1].item.value, 1)
    requires slots[2].item.Some? ==> SoundAt(u, slots[2].item.value, 1)
    requires slots[3].item.Some? ==> SoundAt(u, slots[3].item.value, 1)
    requires slots[4].item.Some? ==> SoundAt(u, slots[4].item.value, 1)
    requires slots[5].item.Some? ==> SoundAt(u, slots[5].item.value, 1)
    requires slots[6].item.Some? ==> SoundAt(u, slots[6].item.value, 1)
    requires slots[7].item.Some? ==> SoundAt(u, slots[7].item.value, 1)
    requires slots[8].item.Some? ==> SoundAt(u, slots[8].item.value, 1)
    requires slots[9].item.Some? ==> SoundAt(u, slots[9].item.value, 1)
    ensures SlotsSound(u, slots, 1)
  {
    hide SoundAt;
  }

  lemma UnitSlotKeys(u: Unicode, c: UnitCore)
    ensures DistinctSlots(UnitSlots(u, c)) && |UnitSlots(u, c)| == 10
    ensures forall s | s in UnitSlots(u, c) :: s.key <= KEY_LANG
  {
    hide SourceValue, UidsUnlessEmpty, TextUnlessEmpty;
  }

  // ---------------------------------------------------------------------------
  // The bytes of an admissible unit
  // ---------------------------------------------------------------------------

  lemma KeysApart(slots: seq<Slot>, extras: Fields)
    requires DistinctSlots(slots) && forall s | s in slots :: s.key <= KEY_LANG
    requires DistinctNumbers(extras) && forall f | f in extras :: f.key > KEY_LANG
    ensures DistinctNumbers(Present(slots) + extras)
    ensures forall f | f in Present(slots) :: f.key <= KEY_LANG
    ensures |Present(slots) + extras| <= |slots| + |extras|
  {
    PresentDistinct(slots);
    hide Present;
    forall f | f in Present(slots)
      ensures f.key <= KEY_LANG
    {
      var i :| 0 <= i < |slots| && slots[i] == Numbered(f.key, Some(f.item));
      assert slots[i] in slots;
    }
    var a: Fields, all: Fields := Present(slots), Present(slots) + extras;
    forall i, j | 0 <= i < j < |all|
      ensures all[i].key != all[j].key
    {
      if i < |a| <= j {
        assert a[i] in a && extras[j - |a|] in extras;
      }
    }
  }

  lemma ExtraKeys(u: Unicode, extra: seq<Numbered<seq<Byte>>>)
    requires DistinctNumbers(extra) && forall e | e in extra :: e.key > KEY_LANG
    ensures DistinctNumbers(ExtraFields(u, extra)) && forall f | f in ExtraFields(u, extra) :: f.key > KEY_LANG
  {
    hide ExtraValue;
    forall f | f in ExtraFields(u, extra)
      ensures f.key > KEY_LANG
    {
      var i :| 0 <= i < |extra| && ExtraFields(u, extra)[i] == f;
      assert extra[i] in extra;
    }
  }

  lemma ExtrasAbove(c: UnitCore)
    requires Validates(c)
    ensures forall e | e in c.extra :: e.key > KEY_LANG
  {
  }

  lemma NotRefused(u: Unicode, c: UnitCore)
    requires Admissible(u, c)
    ensures CanonicalBytesOf(u, c) == IntMapBytes(Encoded(Present(UnitSlots(u, c))) + c.extra)
  {
    hide LawfulAt, Lawful, TextIn, SourceIn, IntMapBytes, UnitSlots, Present, Encoded;
  }

  /** What the rest of the argument needs of a unit. */
  lemma UnitFacts(u: Unicode, c: UnitCore)
    requires Admissible(u, c)
    ensures DistinctSlots(UnitSlots(u, c)) && DistinctNumbers(UnitFields(u, c))
    ensures forall f | f in Present(UnitSlots(u, c)) :: f.key <= KEY_LANG
    ensures forall f | f in ExtraFields(u, c.extra) :: f.key > KEY_LANG && Canon(f.item) == f.item
    ensures Encoded(ExtraFields(u, c.extra)) == c.extra
    ensures SoundAt(u, FieldsValue(UnitFields(u, c)), 0)
  {
    hide Validates, LawfulAt, Lawful, UidsIn, TextIn, SourceIn, Fits, WellFormed;
    ExtrasAbove(c);
    UnitSlotKeys(u, c);
    ExtraKeys(u, c.extra);
    UnitSlotsSound(u, c);
    ExtrasSound(u, c.extra);
    assert |c.extra| + 10 < ARG_LIMIT;
    hide Admissible, UnitSlots, ExtraFields, Present, SoundAt, Encode, Canon, FieldsValue, DistinctSlots, DistinctNumbers;
    PartsSound(u, UnitSlots(u, c), ExtraFields(u, c.extra));
  }

  lemma PartsSound(u: Unicode, slots: seq<Slot>, extras: Fields)
    requires DistinctSlots(slots) && (forall s | s in slots :: s.key <= KEY_LANG) && SlotsSound(u, slots, 1)
    requires DistinctNumbers(extras) && forall f | f in extras :: f.key > KEY_LANG && SoundAt(u, f.item, 1)
    requires |slots| + |extras| < ARG_LIMIT
    ensures DistinctNumbers(Present(slots) + extras) && forall f | f in Present(slots) :: f.key <= KEY_LANG
    ensures SoundAt(u, FieldsValue(Present(slots) + extras), 0)
  {
    hide Present, SoundAt, FieldsValue, DistinctSlots, DistinctNumbers;
    PresentSound(u, slots, 1);
    KeysApart(slots, extras);
    FieldsSound(u, Present(slots) + extras, 0);
  }

  /**
    The canonical bytes are the general encoding of the unit's fields, and the strict decoder takes
    them whole, whatever comes after them.
   */
  lemma UnitBytes(u: Unicode, c: UnitCore, rest: seq<Byte>)
    requires Admissible(u, c)
    ensures var v := FieldsValue(UnitFields(u, c));
            && CanonicalBytesOf(u, c) == Some(Encode(v))
            && ValueAt(u, Encode(v) + rest, 0, 0) == Ok(Canon(v), |Encode(v)|)
  {
    hide UnitSlots, ExtraFields, Present, IntMapBytes, Encode, Canon, FieldsValue, ValueAt, Fits, WellFormed,
         Admissible, CanonicalBytesOf, DistinctNumbers, DistinctSlots;
    UnitFacts(u, c);
    NotRefused(u, c);
    var fields := UnitFields(u, c);
    var v := FieldsValue(fields);
    assert Encoded(fields) == Encoded(Present(UnitSlots(u, c))) + c.extra by {
      EncodedAppends(Present(UnitSlots(u, c)), ExtraFields(u, c.extra));
    }
    IntMapIsEncode(fields);
    assert (Encode(v) + rest)[0..|Encode(v)|] == Encode(v);
    DecodeEncode(u, v, Encode(v) + rest, 0, 0);
  }

  lemma EncodedAppends(a: Fields, b: Fields)
    ensures Encoded(a + b) == Encoded(a) + Encoded(b)
  {
    hide Encode;
  }

  /** The entries that the strict decoder finds in a unit's canonical bytes. */
  function Found(u: Unicode, c: UnitCore): seq<Pair> {
    SortPairs(CanonPairs(FieldPairs(UnitFields(u, c))))
  }

  lemma FoundUnder(u: Unicode, c: UnitCore, k: U64, v: Value)
    requires DistinctNumbers(UnitFields(u, c))
    ensures Pair(Uint(k), v) in Found(u, c) <==> CanonOption(Get(UnitFields(u, c), k)) == Some(v)
  {
    hide UnitFields, Get, CanonOption, SortPairs, CanonPairs, FieldPairs;
    SortPairsMembers(CanonPairs(FieldPairs(UnitFields(u, c))));
    CanonMember(UnitFields(u, c), k, v);
  }

  lemma SlotField(u: Unicode, c: UnitCore, i: nat)
    requires Admissible(u, c) && i < |UnitSlots(u, c)|
    ensures Get(UnitFields(u, c), UnitSlots(u, c)[i].key) == UnitSlots(u, c)[i].item
  {
    UnitFacts(u, c);
    UnitSlotKeys(u, c);
    hide Admissible, UnitSlots, Present, Get, ExtraFields, FieldsValue, SoundAt;
    var k := UnitSlots(u, c)[i].key;
    assert UnitSlots(u, c)[i] in UnitSlots(u, c);
    PresentGet(UnitSlots(u, c), i);
    GetAppend(Present(UnitSlots(u, c)), ExtraFields(u, c.extra), k);
    NoLowKey(ExtraFields(u, c.extra), k);
  }

  lemma ExtraField(u: Unicode, c: UnitCore, i: nat)
    requires Admissible(u, c) && i < |c.extra|
    ensures Get(UnitFields(u, c), c.extra[i].key) == Some(ExtraValue(u, c.extra[i].item))
  {
    UnitFacts(u, c);
    hide Admissible, UnitSlots, Present, Get, FieldsValue, SoundAt, ExtraValue;
    var f := ExtraFields(u, c.extra)[i];
    assert f in UnitFields(u, c);
    GetMember(UnitFields(u, c), f.key);
  }

  lemma ExtraCanon(u: Unicode, c: UnitCore, i: nat)
    requires Admissible(u, c) && i < |c.extra|
    ensures Canon(ExtraValue(u, c.extra[i].item)) == ExtraValue(u, c.extra[i].item)
  {
    hide Validates, Lawful, TextIn;
    assert c.extra[i] in c.extra;
    ExtraSound(u, c.extra[i].item);
  }

  /**
    The strict decoder finds exactly the expected keys: under each kernel key what its field
    amounts to, or nothing; under each unknown key the item that was carried; and no others.
   */
  lemma UnitDecoded(u: Unicode, c: UnitCore, rest: seq<Byte>)
    requires Admissible(u, c)
    ensures CanonicalBytesOf(u, c).Some?
    ensures var b := CanonicalBytesOf(u, c).value; ValueAt(u, b + rest, 0, 0) == Ok(Map(Found(u, c)), |b|)
    ensures forall i, v :: 0 <= i < 10 ==>
              (Pair(Uint(UnitSlots(u, c)[i].key), v) in Found(u, c) <==> CanonOption(UnitSlots(u, c)[i].item) == Some(v))
    ensures forall i, v :: 0 <= i < |c.extra| ==>
              (Pair(Uint(c.extra[i].key), v) in Found(u, c) <==> v == ExtraValue(u, c.extra[i].item))
    ensures forall p | p in Found(u, c) ::
              p.key.Uint? && (p.key.n <= KEY_LANG || exists i :: 0 <= i < |c.extra| && c.extra[i].key == p.key.n)
  {
    UnitBytes(u, c, rest);
    UnitFacts(u, c);
    UnitSlotKeys(u, c);
    FoundKeys(u, c);
    hide Admissible, UnitSlots, UnitFields, Found, Get, ExtraValue, Canon, ValueAt, Encode, SoundAt, CanonicalBytesOf;
    forall i, v | 0 <= i < 10
      ensures Pair(Uint(UnitSlots(u, c)[i].key), v) in Found(u, c) <==> CanonOption(UnitSlots(u, c)[i].item) == Some(v)
    {
      SlotField(u, c, i);
      FoundUnder(u, c, UnitSlots(u, c)[i].key, v);
    }
    forall i, v | 0 <= i < |c.extra|
      ensures Pair(Uint(c.extra[i].key), v) in Found(u, c) <==> v == ExtraValue(u, c.extra[i].item)
    {
      ExtraField(u, c, i);
      ExtraCanon(u, c, i);
      FoundUnder(u, c, c.extra[i].key, v);
    }
  }

  /** The ten kernel keys, by number: what the decoder finds under each. */
  lemma UnitLayout(u: Unicode, c: UnitCore, v: Value)
    requires Admissible(u, c)
    ensures Pair(Uint(0), v) in Found(u, c) <==> v == Text(u.nfc(c.schema))
    ensures Pair(Uint(1), v) in Found(u, c) <==> v == Text(u.nfc(c.gist))
    ensures Pair(Uint(2), v) in Found(u, c) <==> c.body != [] && v == Text(u.nfc(c.body))
    ensures Pair(Uint(3), v) in Found(u, c) <==> c.detail != [] && v == Text(u.nfc(c.detail))
    ensures Pair(Uint(4), v) in Found(u, c) <==> c.deps != [] && v == UidSetValue(c.deps)
    ensures Pair(Uint(5), v) in Found(u, c) <==> c.grounds != [] && v == UidSetValue(c.grounds)
    ensures Pair(Uint(6), v) in Found(u, c) <==> v == Uint(c.status)
    ensures Pair(Uint(7), v) in Found(u, c) <==> c.source.Some? && v == Canon(SourceValue(u, c.source.value))
    ensures Pair(Uint(8), v) in Found(u, c) <==> c.payload.Some? && v == Blob(c.payload.value)
    ensures Pair(Uint(9), v) in Found(u, c) <==> c.lang != [] && v == Text(u.nfc(c.lang))
  {
    hide *;
    TenKeys(u, c);
    UnderSlot(u, c, 0, v);
    UnderSlot(u, c, 1, v);
    UnderSlot(u, c, 2, v);
    UnderSlot(u, c, 3, v);
    UnderSlot(u, c, 4, v);
    UnderSlot(u, c, 5, v);
    UnderSlot(u, c, 6, v);
    UnderSlot(u, c, 7, v);
    UnderSlot(u, c, 8, v);
    UnderSlot(u, c, 9, v);
    AdmissibleParts(u, c);
    SlotCanon(u, c.schema, c.status, c.payload, v);
    SlotCanon(u, c.gist, c.status, c.payload, v);
    SlotCanon(u, c.body, c.status, c.payload, v);
    SlotCanon(u, c.detail, c.status, c.payload, v);
    SlotCanon(u, c.lang, c.status, c.payload, v);
    UidSlotCanon(u, c.deps, v);
    UidSlotCanon(u, c.grounds, v);
    SourceSlotCanon(if c.source.Some? then Some(SourceValue(u, c.source.value)) else None, v);
  }

  lemma UnderSlot(u: Unicode, c: UnitCore, i: nat, v: Value)
    requires Admissible(u, c) && i < 10
    ensures |UnitSlots(u, c)| == 10
    ensures Pair(Uint(UnitSlots(u, c)[i].key), v) in Found(u, c) <==> CanonOption(UnitSlots(u, c)[i].item) == Some(v)
  {
    hide *;
    TenKeys(u, c);
    UnitDecoded(u, c, []);
  }

  lemma SlotCanon(u: Unicode, s: String, n: U64, b: Option<seq<Byte>>, v: Value)
    ensures CanonOption(Some(Text(u.nfc(s)))) == Some(v) <==> v == Text(u.nfc(s))
    ensures CanonOption(TextUnlessEmpty(u, s)) == Some(v) <==> s != [] && v == Text(u.nfc(s))
    ensures CanonOption(Some(Uint(n))) == Some(v) <==> v == Uint(n)
    ensures CanonOption(if b.Some? then Some(Blob(b.value)) else None) == Some(v) <==> b.Some? && v == Blob(b.value)
  {
  }

  lemma UidSlotCanon(u: Unicode, uids: seq<seq<Byte>>, v: Value)
    requires UidsIn(uids)
    ensures CanonOption(UidsUnlessEmpty(uids)) == Some(v) <==> uids != [] && v == UidSetValue(uids)
  {
    UidSetNormal(u, uids, 1);
    hide UidSetValue, Canon, Fits, WellFormed;
  }

  lemma SourceSlotCanon(s: Option<Value>, v: Value)
    ensures CanonOption(s) == Some(v) <==> s.Some? && v == Canon(s.value)
  {
    hide Canon;
  }

  /** The seven keys of a source, by number: what its map has under each. */
  lemma SourceLayout(u: Unicode, s: Source)
    ensures var fields := Present(SourceSlots(u, s));
            && SourceValue(u, s) == FieldsValue(fields)
            && Get(fields, 0) == Some(Uint(s.kind)) && Get(fields, 1) == Some(Text(u.nfc(s.reference)))
            && Get(fields, 2) == TextUnlessEmpty(u, s.captured) && Get(fields, 4) == TextUnlessEmpty(u, s.published)
            && Get(fields, 3) == (if s.observed == 0 then None else Some(Uint(s.observed)))
            && Get(fields, 5) == (if s.span.Some? && |s.span.value| == 2
                                  then Some(Array([Uint(s.span.value[0]), Uint(s.span.value[1])])) else None)
            && Get(fields, 6) == if s.manifest.Some? && |s.manifest.value| == UID_LEN then Some(Blob(s.manifest.value)) else None
  {
    hide TextUnlessEmpty, Present, Get, FieldsValue;
    var slots := SourceSlots(u, s);
    assert DistinctSlots(slots);
    PresentGet(slots, 0);
    PresentGet(slots, 1);
    PresentGet(slots, 2);
    PresentGet(slots, 3);
    PresentGet(slots, 4);
    PresentGet(slots, 5);
    PresentGet(slots, 6);
  }

  lemma TenKeys(u: Unicode, c: UnitCore)
    ensures var s := UnitSlots(u, c);
            && |s| == 10
            && s[0] == Numbered(0, Some(Text(u.nfc(c.schema)))) && s[1] == Numbered(1, Some(Text(u.nfc(c.gist))))
            && s[2] == Numbered(6, Some(Uint(c.status)))
            && s[3] == Numbered(2, TextUnlessEmpty(u, c.body)) && s[4] == Numbered(3, TextUnlessEmpty(u, c.detail))
            && s[5] == Numbered(4, UidsUnlessEmpty(c.deps)) && s[6] == Numbered(5, UidsUnlessEmpty(c.grounds))
            && s[7] == Numbered(7, if c.source.Some? then Some(SourceValue(u, c.source.value)) else None)
            && s[8] == Numbered(8, if c.payload.Some? then Some(Blob(c.payload.value)) else None)
            && s[9] == Numbered(9, TextUnlessEmpty(u, c.lang))
  {
    hide SourceValue, TextUnlessEmpty, UidsUnlessEmpty;
  }

  lemma FoundKeys(u: Unicode, c: UnitCore)
    requires Admissible(u, c)
    ensures Canon(FieldsValue(UnitFields(u, c))) == Map(Found(u, c))
    ensures forall p | p in Found(u, c) ::
              p.key.Uint? && (p.key.n <= KEY_LANG || exists i :: 0 <= i < |c.extra| && c.extra[i].key == p.key.n)
  {
    var fields := UnitFields(u, c);
    CanonOfFields(fields);
    assert Found(u, c) == SortPairs(CanonPairs(FieldPairs(fields))) by {
      hide UnitFields, SortPairs, CanonPairs, FieldPairs;
    }
    UnitFacts(u, c);
    hide *;
    forall p | p in Found(u, c)
      ensures p.key.Uint? && (p.key.n <= KEY_LANG || exists i :: 0 <= i < |c.extra| && c.extra[i].key == p.key.n)
    {
      var j :| 0 <= j < |fields| && p.key == Uint(fields[j].key);
      FieldKey(u, c, j);
    }
  }

  lemma FieldKey(u: Unicode, c: UnitCore, j: nat)
    requires j < |UnitFields(u, c)| && forall f | f in Present(UnitSlots(u, c)) :: f.key <= KEY_LANG
    ensures var k := UnitFields(u, c)[j].key;
            k <= KEY_LANG || exists i :: 0 <= i < |c.extra| && c.extra[i].key == k
  {
    hide UnitSlots, Present, ExtraValue;
    var kernel := Present(UnitSlots(u, c));
    if j < |kernel| {
      assert kernel[j] in kernel;
    } else {
      assert UnitFields(u, c)[j].key == c.extra[j - |kernel|].key;
    }
  }

  lemma CanonOfFields(fields: Fields)
    ensures Canon(FieldsValue(fields)) == Map(SortPairs(CanonPairs(FieldPairs(fields))))
    ensures forall p | p in SortPairs(CanonPairs(FieldPairs(fields))) ::
              exists j :: 0 <= j < |fields| && p.key == Uint(fields[j].key)
  {
    CanonFieldPairs(fields);
    SortPairsMembers(CanonPairs(FieldPairs(fields)));
    hide SortPairs, CanonPairs;
    forall p | p in SortPairs(CanonPairs(FieldPairs(fields)))
      ensures exists j :: 0 <= j < |fields| && p.key == Uint(fields[j].key)
    {
      var j :| 0 <= j < |fields| && CanonPairs(FieldPairs(fields))[j] == p;
    }
  }

  // ---------------------------------------------------------------------------
  // What two units with the same bytes share
  // ---------------------------------------------------------------------------

  datatype SourceView = SourceView(
    kind: U64,
    reference: String,
    captured: Option<String>,
    observed: U64,
    published: Option<String>,
    span: Option<seq<U64>>,
    manifest: Option<seq<Byte>>)

  /** A unit as the format sees it: normalised text, uid sets as sets, empty as absent. */
  datatype UnitView = UnitView(
    schema: String,
    gist: String,
    status: U64,
    body: Option<String>,
    detail: Option<String>,
    deps: set<seq<Byte>>,
    grounds: set<seq<Byte>>,
    source: Option<SourceView>,
    payload: Option<seq<Byte>>,
    lang: Option<String>,
    extra: set<Numbered<seq<Byte>>>)

  function Elements<T>(xs: seq<T>): set<T> {
    set x | x in xs
  }

  function TextView(u: Unicode, s: String): Option<String> {
    if s == [] then None else Some(u.nfc(s))
  }

  function SourceViewOf(u: Unicode, s: Source): SourceView {
    SourceView(s.kind, u.nfc(s.reference), TextView(u, s.captured), s.observed, TextView(u, s.published), s.span, s.manifest)
  }

  function View(u: Unicode, c: UnitCore): UnitView {
    UnitView(u.nfc(c.schema), u.nfc(c.gist), c.status, TextView(u, c.body), TextView(u, c.detail),
             Elements(c.deps), Elements(c.grounds),
             match c.source case None => None case Some(s) => Some(SourceViewOf(u, s)),
             c.payload, TextView(u, c.lang), Elements(c.extra))
  }

  /** Slot by slot the same canonical value, or none. */
  ghost predicate SameSlots(a: seq<Slot>, b: seq<Slot>) {
    |a| == |b| && forall i :: 0 <= i < |a| ==> a[i].key == b[i].key && CanonOption(a[i].item) == CanonOption(b[i].item)
  }

  lemma {:induction false} GetAppend(a: Fields, b: Fields, k: U64)
    ensures Get(a + b, k) == if Get(a, k).Some? then Get(a, k) else Get(b, k)
  {
    if a == [] {
      assert a + b == b;
    } else {
      GetAppend(a[1..], b, k);
      assert (a + b)[1..] == a[1..] + b;
    }
  }

  lemma SlotOf(slots: seq<Slot>, k: U64)
    requires DistinctSlots(slots)
    ensures Get(Present(slots), k).Some? ==> exists i :: 0 <= i < |slots| && slots[i].key == k
  {
    PresentDistinct(slots);
    GetMember(Present(slots), k);
    hide Present, Get;
    if Get(Present(slots), k).Some? {
      var f := Numbered(k, Get(Present(slots), k).value);
      assert f in Present(slots);
    }
  }

  /** Fields made of slots under low keys and extras above them agree exactly part by part. */
  lemma PartsDecide(a: seq<Slot>, b: seq<Slot>, x: Fields, y: Fields)
    requires DistinctSlots(a) && DistinctSlots(b) && |a| == |b| && forall i :: 0 <= i < |a| ==> a[i].key == b[i].key
    requires forall s | s in a :: s.key <= KEY_LANG
    requires forall f | f in x + y :: f.key > KEY_LANG
    ensures SameFields(Present(a) + x, Present(b) + y) <==> SameSlots(a, b) && SameFields(x, y)
  {
    hide Present, Get, CanonOption, DistinctSlots;
    forall k: U64
      ensures Get(Present(a) + x, k) == if k <= KEY_LANG then Get(Present(a), k) else Get(x, k)
      ensures Get(Present(b) + y, k) == if k <= KEY_LANG then Get(Present(b), k) else Get(y, k)
      ensures k <= KEY_LANG ==> Get(x, k) == None && Get(y, k) == None
    {
      GetAppend(Present(a), x, k);
      GetAppend(Present(b), y, k);
      GetMember(x, k);
      GetMember(y, k);
      SlotOf(a, k);
      SlotOf(b, k);
      if k <= KEY_LANG {
        NoLowKey(x, k);
        NoLowKey(y, k);
      } else {
        NoHighSlot(a, k);
        NoHighSlot(b, k);
      }
    }
    forall i | 0 <= i < |a|
      ensures Get(Present(a), a[i].key) == a[i].item && Get(Present(b), b[i].key) == b[i].item && a[i].key <= KEY_LANG
    {
      PresentGet(a, i);
      PresentGet(b, i);
      assert a[i] in a;
    }
    if SameSlots(a, b) && SameFields(x, y) {
      forall k: U64
        ensures CanonOption(Get(Present(a) + x, k)) == CanonOption(Get(Present(b) + y, k))
      {
        SlotOf(a, k);
        SlotOf(b, k);
      }
    }
    if SameFields(Present(a) + x, Present(b) + y) {
      forall i | 0 <= i < |a|
        ensures CanonOption(a[i].item) == CanonOption(b[i].item)
      {
        assert CanonOption(Get(Present(a) + x, a[i].key)) == CanonOption(Get(Present(b) + y, a[i].key));
      }
      forall k: U64
        ensures CanonOption(Get(x, k)) == CanonOption(Get(y, k))
      {
        assert CanonOption(Get(Present(a) + x, k)) == CanonOption(Get(Present(b) + y, k));
      }
    }
  }

  lemma NoLowKey(x: Fields, k: U64)
    requires k <= KEY_LANG && forall f | f in x :: f.key > KEY_LANG
    ensures Get(x, k) == None
  {
    GetMember(x, k);
  }

  lemma NoHighSlot(a: seq<Slot>, k: U64)
    requires k > KEY_LANG && DistinctSlots(a) && forall s | s in a :: s.key <= KEY_LANG
    ensures Get(Present(a), k) == None
  {
    SlotOf(a, k);
    if i :| 0 <= i < |a| && a[i].key == k {
      assert a[i] in a;
    }
  }

  lemma ExtrasDecide(u: Unicode, x: seq<Numbered<seq<Byte>>>, y: seq<Numbered<seq<Byte>>>)
    requires DistinctNumbers(x) && forall e | e in x :: ExtraIn(u, e.item)
    requires DistinctNumbers(y) && forall e | e in y :: ExtraIn(u, e.item)
    ensures SameFields(ExtraFields(u, x), ExtraFields(u, y)) <==> (forall e :: e in x <==> e in y)
  {
    hide ExtraIn, ExtraValue, Canon, Encode;
    forall k: U64, raw
      ensures Numbered(k, raw) in x <==> exists v :: CanonOption(Get(ExtraFields(u, x), k)) == Some(v) && Encode(v) == raw
      ensures Numbered(k, raw) in y <==> exists v :: CanonOption(Get(ExtraFields(u, y), k)) == Some(v) && Encode(v) == raw
    {
      ExtraAt(u, x, k, raw);
      ExtraAt(u, y, k, raw);
    }
    if SameFields(ExtraFields(u, x), ExtraFields(u, y)) {
      forall e
        ensures e in x <==> e in y
      {
        assert e == Numbered(e.key, e.item);
      }
    }
    if forall e :: e in x <==> e in y {
      forall k: U64
        ensures CanonOption(Get(ExtraFields(u, x), k)) == CanonOption(Get(ExtraFields(u, y), k))
      {
        ExtraValueAt(u, x, k);
        ExtraValueAt(u, y, k);
      }
    }
  }

  /** The field under `k` is the item whose bytes the unit carries there. */
  lemma ExtraValueAt(u: Unicode, x: seq<Numbered<seq<Byte>>>, k: U64)
    requires DistinctNumbers(x) && forall e | e in x :: ExtraIn(u, e.item)
    ensures var v := Get(ExtraFields(u, x), k);
            && CanonOption(v) == v
            && (v.Some? ==> Numbered(k, Encode(v.value)) in x && v.value == ExtraValue(u, Encode(v.value)))
            && (v.None? ==> forall e | e in x :: e.key != k)
            && (forall raw | Numbered(k, raw) in x :: v == Some(ExtraValue(u, raw)) && Encode(v.value) == raw)
  {
    var fields := ExtraFields(u, x);
    GetMember(fields, k);
    hide ExtraFields, ExtraValue, Get, Encode, Canon;
    var v := Get(fields, k);
    if v.Some? {
      var i :| 0 <= i < |fields| && fields[i] == Numbered(k, v.value);
      assert x[i] in x;
      ExtraSound(u, x[i].item);
    }
    forall e | e in x && e.key == k
      ensures v == Some(ExtraValue(u, e.item)) && Encode(v.value) == e.item
    {
      var i :| 0 <= i < |x| && x[i] == e;
      assert fields[i] in fields;
      ExtraSound(u, e.item);
    }
    assert forall raw | Numbered(k, raw) in x :: Numbered(k, raw).key == k;
  }

  lemma ExtraAt(u: Unicode, x: seq<Numbered<seq<Byte>>>, k: U64, raw: seq<Byte>)
    requires DistinctNumbers(x) && forall e | e in x :: ExtraIn(u, e.item)
    ensures Numbered(k, raw) in x
       <==> exists v :: CanonOption(Get(ExtraFields(u, x), k)) == Some(v) && Encode(v) == raw
  {
    ExtraValueAt(u, x, k);
    hide ExtraFields, ExtraValue, Get, Encode, Canon, ExtraIn, CanonOption;
    var v := Get(ExtraFields(u, x), k);
    if Numbered(k, raw) in x {
      assert CanonOption(v) == Some(v.value) && Encode(v.value) == raw;
    }
  }

  /** A source's value and its view decide each other. */
  lemma SourceDecides(u: Unicode, a: Source, b: Source)
    requires SourceValidates(a) && SourceValidates(b)
    ensures Canon(SourceValue(u, a)) == Canon(SourceValue(u, b)) <==> SourceViewOf(u, a) == SourceViewOf(u, b)
  {
    var s, t := SourceSlots(u, a), SourceSlots(u, b);
    SourceSlotsDecide(u, a, b);
    hide SourceSlots, SourceValidates, SourceViewOf, SameSlots;
    SlotMapsDecide(s, t);
  }

  lemma SlotMapsDecide(a: seq<Slot>, b: seq<Slot>)
    requires DistinctSlots(a) && DistinctSlots(b) && |a| == |b| && forall i :: 0 <= i < |a| ==> a[i].key == b[i].key
    requires forall s | s in a :: s.key <= KEY_LANG
    ensures Canon(FieldsValue(Present(a))) == Canon(FieldsValue(Present(b))) <==> SameSlots(a, b)
  {
    hide Present, DistinctSlots, SameSlots, FieldsValue, SameFields, Canon;
    PartsDecide(a, b, [], []);
    assert Present(a) + [] == Present(a) && Present(b) + [] == Present(b);
    SameFieldsReflexive([]);
    PresentDistinct(a);
    PresentDistinct(b);
    if SameFields(Present(a), Present(b)) {
      SameFieldsSameCanon(Present(a), Present(b));
    }
    if Canon(FieldsValue(Present(a))) == Canon(FieldsValue(Present(b))) {
      SameCanonSameFields(Present(a), Present(b));
    }
  }

  lemma SameFieldsReflexive(x: Fields)
    ensures SameFields(x, x)
  {
  }

  lemma SourceSlotShape(u: Unicode, a: Source)
    ensures var s := SourceSlots(u, a);
            && DistinctSlots(s) && |s| == 7 && (forall x | x in s :: x.key <= KEY_LANG)
            && s[0].key == 0 && s[1].key == 1 && s[2].key == 3 && s[3].key == 2 && s[4].key == 4 && s[5].key == 5 && s[6].key == 6
  {
    hide TextUnlessEmpty;
  }

  lemma SourceSlotsDecide(u: Unicode, a: Source, b: Source)
    requires SourceValidates(a) && SourceValidates(b)
    ensures var s, t := SourceSlots(u, a), SourceSlots(u, b);
            && DistinctSlots(s) && DistinctSlots(t) && |s| == |t| == 7
            && (forall i :: 0 <= i < |s| ==> s[i].key == t[i].key) && (forall x | x in s :: x.key <= KEY_LANG)
            && (SameSlots(s, t) <==> SourceViewOf(u, a) == SourceViewOf(u, b))
  {
    hide SourceSlots, SourceViewOf, SourceValidates, DistinctSlots, CanonOption;
    SourceSlotShape(u, a);
    SourceSlotShape(u, b);
    SourceSlotsCanon(u, a);
    SourceSlotsCanon(u, b);
    if SameSlots(SourceSlots(u, a), SourceSlots(u, b)) {
      SourceItemsDecide(u, a, b);
    }
    if SourceViewOf(u, a) == SourceViewOf(u, b) {
      SourceViewDecides(u, a, b);
    }
  }

  lemma SourceViewDecides(u: Unicode, a: Source, b: Source)
    requires SourceViewOf(u, a) == SourceViewOf(u, b)
    ensures SourceSlots(u, a) == SourceSlots(u, b)
  {
  }

  lemma SourceItemsDecide(u: Unicode, a: Source, b: Source)
    requires SourceValidates(a) && SourceValidates(b)
    requires forall i :: 0 <= i < 7 ==> SourceSlots(u, a)[i].item == SourceSlots(u, b)[i].item
    ensures SourceViewOf(u, a) == SourceViewOf(u, b)
  {
    var s, t := SourceSlots(u, a), SourceSlots(u, b);
    assert s[0].item == t[0].item && s[1].item == t[1].item && s[2].item == t[2].item && s[3].item == t[3].item;
    assert s[4].item == t[4].item && s[5].item == t[5].item && s[6].item == t[6].item;
    SpansDecide(u, a, b);
  }

  lemma SourceSlotsCanon(u: Unicode, s: Source)
    ensures forall i :: 0 <= i < 7 ==> CanonOption(SourceSlots(u, s)[i].item) == SourceSlots(u, s)[i].item
  {
    var slots := SourceSlots(u, s);
    SpanSound(u, s);
    forall i | 0 <= i < 7
      ensures CanonOption(slots[i].item) == slots[i].item
    {
      if i != 5 {
        CanonScalars(slots[i].item);
      }
    }
  }

  lemma SpansDecide(u: Unicode, a: Source, b: Source)
    requires SourceValidates(a) && SourceValidates(b) && SourceSlots(u, a)[5].item == SourceSlots(u, b)[5].item
    ensures a.span == b.span
  {
    if a.span.Some? {
      var x, y := a.span.value, b.span.value;
      var v := SourceSlots(u, a)[5].item.value;
      assert v.items == [Uint(x[0]), Uint(x[1])] == [Uint(y[0]), Uint(y[1])];
      assert Uint(x[0]) == Uint(y[0]) && Uint(x[1]) == Uint(y[1]);
      assert x == y;
    }
  }

  lemma CanonScalars(v: Option<Value>)
    requires v.Some? ==> v.value.Uint? || v.value.Text? || v.value.Blob?
    ensures CanonOption(v) == v
  {
  }

  lemma UidsDecide(u: Unicode, xs: seq<seq<Byte>>, ys: seq<seq<Byte>>)
    requires UidsIn(xs) && UidsIn(ys)
    ensures CanonOption(UidsUnlessEmpty(xs)) == CanonOption(UidsUnlessEmpty(ys))
       <==> Elements(xs) == Elements(ys)
  {
    hide SoundAt, CanonicalSet, Canon;
    ScalarsSound(u, 0, [], xs, 0);
    ScalarsSound(u, 0, [], ys, 0);
    BlobsInjective(CanonicalSet(xs), CanonicalSet(ys));
    CanonicalSetDecides(xs, ys);
    hide Blobs, UidsIn;
    SetsDecide(xs, ys);
    if xs == [] && ys != [] {
      assert ys[0] in ys;
    }
    if ys == [] && xs != [] {
      assert xs[0] in xs;
    }
  }

  lemma SetsDecide<T>(xs: seq<T>, ys: seq<T>)
    ensures Elements(xs) == Elements(ys) <==> (forall x :: x in xs <==> x in ys)
  {
    var a, b := Elements(xs), Elements(ys);
    if a == b {
      forall x
        ensures x in xs <==> x in ys
      {
        assert x in xs <==> x in a;
        assert x in ys <==> x in b;
      }
    }
  }

  lemma TextsDecide(u: Unicode, x: String, y: String)
    ensures CanonOption(TextUnlessEmpty(u, x)) == CanonOption(TextUnlessEmpty(u, y)) <==> TextView(u, x) == TextView(u, y)
  {
  }

  lemma ScalarsDecide(a: UnitCore, b: UnitCore, u: Unicode)
    ensures forall i :: 0 <= i < 3 ==> CanonOption(UnitSlots(u, a)[i].item) == UnitSlots(u, a)[i].item
    ensures CanonOption(UnitSlots(u, a)[8].item) == UnitSlots(u, a)[8].item
    ensures UnitSlots(u, a)[8].item == UnitSlots(u, b)[8].item <==> a.payload == b.payload
  {
  }

  lemma SourcesDecide(u: Unicode, a: UnitCore, b: UnitCore)
    requires Validates(a) && Validates(b)
    ensures CanonOption(UnitSlots(u, a)[7].item) == CanonOption(UnitSlots(u, b)[7].item)
       <==> View(u, a).source == View(u, b).source
  {
    hide SourceValue, SourceViewOf, Canon;
    if a.source.Some? && b.source.Some? {
      SourceDecides(u, a.source.value, b.source.value);
    }
  }

  lemma TenSlots(s: seq<Slot>, t: seq<Slot>)
    requires |s| == |t| == 10 && forall i :: 0 <= i < 10 ==> s[i].key == t[i].key
    ensures SameSlots(s, t)
       <==> && CanonOption(s[0].item) == CanonOption(t[0].item)
            && CanonOption(s[1].item) == CanonOption(t[1].item)
            && CanonOption(s[2].item) == CanonOption(t[2].item)
            && CanonOption(s[3].item) == CanonOption(t[3].item)
            && CanonOption(s[4].item) == CanonOption(t[4].item)
            && CanonOption(s[5].item) == CanonOption(t[5].item)
            && CanonOption(s[6].item) == CanonOption(t[6].item)
            && CanonOption(s[7].item) == CanonOption(t[7].item)
            && CanonOption(s[8].item) == CanonOption(t[8].item)
            && CanonOption(s[9].item) == CanonOption(t[9].item)
  {
    hide CanonOption;
  }

  lemma UnitSlotsAlike(u: Unicode, a: UnitCore, b: UnitCore)
    ensures forall i :: 0 <= i < 10 ==> UnitSlots(u, a)[i].key == UnitSlots(u, b)[i].key
  {
    hide SourceValue, UidsUnlessEmpty, TextUnlessEmpty;
  }

  lemma UnitSlotsDecide(u: Unicode, a: UnitCore, b: UnitCore)
    requires UidsIn(a.deps) && UidsIn(b.deps) && UidsIn(a.grounds) && UidsIn(b.grounds)
    requires Validates(a) && Validates(b)
    ensures SameSlots(UnitSlots(u, a), UnitSlots(u, b)) <==> View(u, a).(extra := {}) == View(u, b).(extra := {})
  {
    hide Validates, UidsIn, Canon, SourceValue, UidsUnlessEmpty, TextUnlessEmpty, TextView, SourceViewOf, SameSlots;
    SourcesDecide(u, a, b);
    UidsDecide(u, a.deps, b.deps);
    UidsDecide(u, a.grounds, b.grounds);
    TextsDecide(u, a.body, b.body);
    TextsDecide(u, a.detail, b.detail);
    TextsDecide(u, a.lang, b.lang);
    ScalarsDecide(a, b, u);
    ScalarsDecide(b, a, u);
    UnitSlotsAlike(u, a, b);
    TenSlots(UnitSlots(u, a), UnitSlots(u, b));
    hide CanonOption;
  }

  lemma ViewSplits(u: Unicode, a: UnitCore, b: UnitCore)
    ensures View(u, a) == View(u, b)
       <==> View(u, a).(extra := {}) == View(u, b).(extra := {}) && (forall e :: e in a.extra <==> e in b.extra)
  {
    SetsDecide(a.extra, b.extra);
    hide SourceViewOf, TextView, Elements;
    assert View(u, a).extra == Elements(a.extra) && View(u, b).extra == Elements(b.extra);
  }

  lemma AdmissibleParts(u: Unicode, c: UnitCore)
    requires Admissible(u, c)
    ensures Validates(c) && UidsIn(c.deps) && UidsIn(c.grounds)
    ensures DistinctNumbers(c.extra) && forall e | e in c.extra :: ExtraIn(u, e.item)
  {
    hide Validates, UidsIn, Lawful, TextIn, ExtraIn, SourceIn;
  }

  /**
    The identity theorem: the bytes that a uid is the hash of agree exactly when the two units are
    the same to the format.
   */
  lemma UnitIdentified(u: Unicode, a: UnitCore, b: UnitCore)
    requires Admissible(u, a) && Admissible(u, b)
    ensures CanonicalBytesOf(u, a) == CanonicalBytesOf(u, b) <==> View(u, a) == View(u, b)
  {
    hide Admissible, Validates, UidsIn, ExtraIn, DistinctNumbers, DistinctSlots, UnitSlots, ExtraFields, Present, Encode, Canon,
         ValueAt, Fits, WellFormed, CanonicalBytesOf, View, SameSlots, SameFields, FieldsValue, Encoded;
    UnitBytes(u, a, []);
    UnitBytes(u, b, []);
    UnitFacts(u, a);
    UnitFacts(u, b);
    AdmissibleParts(u, a);
    AdmissibleParts(u, b);
    UnitSlotKeys(u, a);
    UnitSlotKeys(u, b);
    UnitSlotsAlike(u, a, b);
    UnitSlotsDecide(u, a, b);
    ExtrasDecide(u, a.extra, b.extra);
    ViewSplits(u, a, b);
    WellFormedDistinct(u, UnitFields(u, a), 0);
    WellFormedDistinct(u, UnitFields(u, b), 0);
    FieldsDecide(UnitFields(u, a), UnitFields(u, b));
    PartsDecide(UnitSlots(u, a), UnitSlots(u, b), ExtraFields(u, a.extra), ExtraFields(u, b.extra));
  }

  /** Status is part of identity: another status is other bytes. */
  lemma StatusIsIdentity(u: Unicode, a: UnitCore, b: UnitCore)
    requires Admissible(u, a) && Admissible(u, b) && a.status != b.status
    ensures CanonicalBytesOf(u, a) != CanonicalBytesOf(u, b)
  {
    hide Admissible, CanonicalBytesOf;
    UnitIdentified(u, a, b);
  }
}
