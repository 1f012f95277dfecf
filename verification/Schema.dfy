/**
  Lens steps of a schema declaration: what is read from key 5, that it is written back byte for
  byte (law L9), and what the chain hash is taken over.
 */
module Schema {
  import opened Bytes
  import opened CborHead
  import opened CborSpec
  import opened CborRoundTrip
  import opened CborGo
  import opened Blake3Tree
  import Blake3

  // ---------------------------------------------------------------------------
  // Shapes
  // ---------------------------------------------------------------------------

  function Ascii(s: string): (r: seq<Byte>)
    ensures |r| == |s| && forall i :: 0 <= i < |s| && s[i] as int < 128 ==> r[i] == s[i] as int
  {
    seq(|s|, i requires 0 <= i < |s| => (s[i] as int) % 256)
  }

  predicate IsIntMap(v: Value) {
    v.Map? && forall p | p in v.entries :: p.key.Uint?
  }

  predicate IsTextMap(v: Value) {
    v.Map? && forall p | p in v.entries :: p.key.Text?
  }

  predicate IsRev(v: Value) {
    v.Uint? && v.n <= 0xffff_ffff
  }

  predicate IsCond(v: Value) {
    IsTextMap(v) && |v.entries| == 1
  }

  predicate IsTextValues(v: Value) {
    IsTextMap(v) && forall p | p in v.entries :: p.value.Text?
  }

  /** The value of the first entry under `k`. */
  function Lookup(entries: seq<Pair>, k: nat): Option<Value> {
    if entries == [] then None
    else if entries[0].key == Uint(k) then Some(entries[0].value)
    else Lookup(entries[1..], k)
  }

  // ---------------------------------------------------------------------------
  // One op
  // ---------------------------------------------------------------------------

  datatype OpRead = Mismatch | Op(tag: seq<Byte>, known: bool)

  datatype Check = TextCheck | TextMapCheck | TextValuesCheck | AnyCheck

  predicate Passes(c: Check, v: Value) {
    match c
    case TextCheck => v.Text?
    case TextMapCheck => IsTextMap(v)
    case TextValuesCheck => IsTextValues(v)
    case AnyCheck => true
  }

  /** What each known op needs under keys 1, 2, ...; which optional condition key it has after that. */
  datatype OpShape = OpShape(needs: seq<Check>, condition: bool)

  function ShapeOf(tag: seq<Byte>): Option<OpShape> {
    if tag == Ascii("rename-type") || tag == Ascii("rename-relation") || tag == Ascii("rename-key") then
      Some(OpShape([TextCheck, TextCheck], false))
    else if tag == Ascii("map-value") then Some(OpShape([TextCheck, TextValuesCheck], false))
    else if tag == Ascii("split-value") then Some(OpShape([TextCheck, TextCheck, TextCheck, TextMapCheck], false))
    else if tag == Ascii("require") then Some(OpShape([TextCheck], true))
    else if tag == Ascii("default") then Some(OpShape([TextCheck, AnyCheck], true))
    else if tag == Ascii("retire") then Some(OpShape([TextCheck], false))
    else None
  }

  function LastKey(shape: OpShape): nat {
    |shape.needs| + if shape.condition then 1 else 0
  }

  predicate MetAt(entries: seq<Pair>, k: nat, c: Check) {
    Lookup(entries, k).Some? && Passes(c, Lookup(entries, k).value)
  }

  predicate NeedsMet(entries: seq<Pair>, needs: seq<Check>) {
    forall i :: 0 <= i < |needs| ==> MetAt(entries, i + 1, needs[i])
  }

  predicate ConditionMet(entries: seq<Pair>, shape: OpShape) {
    shape.condition ==> var v := Lookup(entries, LastKey(shape)); v.Some? ==> IsCond(v.value)
  }

  /**
    An op is a whole-number-keyed map with a text tag. One whose tag, or one of whose keys, is not
    known is kept without being read; a known one must have its keys in their shapes.
   */
  function LensOp(v: Value): OpRead {
    if !IsIntMap(v) then Mismatch
    else
      var tag := Lookup(v.entries, 0);
      if tag.None? || !tag.value.Text? then Mismatch
      else
        match ShapeOf(tag.value.bytes)
        case None => Op(tag.value.bytes, false)
        case Some(shape) =>
          if exists p | p in v.entries :: p.key.n > LastKey(shape) then Op(tag.value.bytes, false)
          else if NeedsMet(v.entries, shape.needs) && ConditionMet(v.entries, shape) then Op(tag.value.bytes, true)
          else Mismatch
  }

  // ---------------------------------------------------------------------------
  // Steps
  // ---------------------------------------------------------------------------

  /** A step's revisions, op tags, whether every op is known, and its bytes. */
  datatype Step = Step(from: nat, to: nat, ops: seq<seq<Byte>>, usable: bool, bytes: seq<Byte>)

  predicate OpsRead(ops: seq<Value>) {
    forall o | o in ops :: LensOp(o).Op?
  }

  function Tags(ops: seq<Value>): (r: seq<seq<Byte>>)
    requires OpsRead(ops)
    ensures |r| == |ops|
  {
    if ops == [] then [] else [LensOp(ops[0]).tag] + Tags(ops[1..])
  }

  predicate AllKnown(ops: seq<Value>)
    requires OpsRead(ops)
  {
    forall o | o in ops :: LensOp(o).known
  }

  function Keys(entries: seq<Pair>): multiset<Value> {
    if entries == [] then multiset{} else multiset{entries[0].key} + Keys(entries[1..])
  }

  /** A step is {0: from, 1: to, 2: ops}, and goes up. */
  function StepOf(v: Value): Option<Step> {
    if !IsIntMap(v) || Keys(v.entries) != multiset{Uint(0), Uint(1), Uint(2)} then None
    else
      var from, to, ops := Lookup(v.entries, 0), Lookup(v.entries, 1), Lookup(v.entries, 2);
      if from.None? || to.None? || ops.None? then None
      else if !IsRev(from.value) || !IsRev(to.value) || to.value.n <= from.value.n then None
      else if !ops.value.Array? || !OpsRead(ops.value.items) then None
      else Some(Step(from.value.n, to.value.n, Tags(ops.value.items), AllKnown(ops.value.items), Encode(v)))
  }

  function StepsOf(items: seq<Value>): Option<seq<Step>> {
    if items == [] then Some([])
    else
      var first, rest := StepOf(items[0]), StepsOf(items[1..]);
      if first.None? || rest.None? then None else Some([first.value] + rest.value)
  }

  function LensSteps(v: Value): Option<seq<Step>> {
    if v.Array? then StepsOf(v.items) else None
  }

  function JoinSteps(steps: seq<Step>): seq<Byte> {
    if steps == [] then [] else steps[0].bytes + JoinSteps(steps[1..])
  }

  function LensBytes(steps: seq<Step>): seq<Byte> {
    HeadBytes(4, |steps|) + JoinSteps(steps)
  }

  // ---------------------------------------------------------------------------
  // What is read, tag by tag
  // ---------------------------------------------------------------------------

  /** The value beside the first key `k`. */
  ghost predicate Stands(entries: seq<Pair>, k: nat, v: Value) {
    exists i :: 0 <= i < |entries| && entries[i] == Pair(Uint(k), v)
                && forall j :: 0 <= j < i ==> entries[j].key != Uint(k)
  }

  lemma {:induction false} LookupExactly(entries: seq<Pair>, k: nat, v: Value)
    ensures Lookup(entries, k) == Some(v) <==> Stands(entries, k, v)
    ensures Lookup(entries, k) == None <==> forall i :: 0 <= i < |entries| ==> entries[i].key != Uint(k)
  {
    if entries != [] {
      var rest := entries[1..];
      LookupExactly(rest, k, v);
      if entries[0].key == Uint(k) {
        if entries[0].value == v {
          assert entries[0] == Pair(Uint(k), v);
        }
      } else {
        assert forall i :: 0 < i < |entries| ==> entries[i] == rest[i - 1];
        if Stands(rest, k, v) {
          var i :| 0 <= i < |rest| && rest[i] == Pair(Uint(k), v) && forall j :: 0 <= j < i ==> rest[j].key != Uint(k);
          assert entries[i + 1] == Pair(Uint(k), v);
        }
        if Stands(entries, k, v) {
          var i :| 0 <= i < |entries| && entries[i] == Pair(Uint(k), v)
                   && forall j :: 0 <= j < i ==> entries[j].key != Uint(k);
          assert rest[i - 1] == Pair(Uint(k), v);
        }
      }
    }
  }

  /** Text under `k`. */
  ghost predicate TextAt(entries: seq<Pair>, k: nat) {
    exists t :: Lookup(entries, k) == Some(Text(t))
  }

  /** A map from texts under `k`: with a condition on its size, and on its values. */
  ghost predicate TextsAt(entries: seq<Pair>, k: nat, one: bool, texts: bool) {
    exists m: seq<Pair> :: Lookup(entries, k) == Some(Map(m)) && (one ==> |m| == 1)
                && forall i :: 0 <= i < |m| ==> m[i].key.Text? && (texts ==> m[i].value.Text?)
  }

  ghost predicate ConditionAt(entries: seq<Pair>, k: nat) {
    Lookup(entries, k) == None || TextsAt(entries, k, true, false)
  }

  /** What each of the eight ops needs, by its tag. */
  ghost predicate Complete(tag: seq<Byte>, entries: seq<Pair>) {
    if tag == Ascii("retire") then TextAt(entries, 1)
    else if tag == Ascii("require") then TextAt(entries, 1) && ConditionAt(entries, 2)
    else if tag == Ascii("default") then TextAt(entries, 1) && Lookup(entries, 2) != None && ConditionAt(entries, 3)
    else if tag == Ascii("map-value") then TextAt(entries, 1) && TextsAt(entries, 2, false, true)
    else if tag == Ascii("split-value") then
      TextAt(entries, 1) && TextAt(entries, 2) && TextAt(entries, 3) && TextsAt(entries, 4, false, false)
    else
      && (tag == Ascii("rename-type") || tag == Ascii("rename-relation") || tag == Ascii("rename-key"))
      && TextAt(entries, 1) && TextAt(entries, 2)
  }

  /** The greatest key each may carry; one that carries more, like one that is none of them, is not known. */
  ghost predicate Carries(tag: seq<Byte>, most: nat) {
    if tag == Ascii("retire") then most == 1
    else if tag == Ascii("default") then most == 3
    else if tag == Ascii("split-value") then most == 4
    else
      && (tag == Ascii("rename-type") || tag == Ascii("rename-relation") || tag == Ascii("rename-key")
          || tag == Ascii("map-value") || tag == Ascii("require"))
      && most == 2
  }

  /** Nothing but whole-number keys. */
  ghost predicate Numbered(v: Value) {
    v.Map? && forall i :: 0 <= i < |v.entries| ==> v.entries[i].key.Uint?
  }

  /** A known tag, with no key beyond those it may carry. */
  ghost predicate Recognised(tag: seq<Byte>, entries: seq<Pair>) {
    exists most :: Carries(tag, most) && forall i :: 0 <= i < |entries| ==> entries[i].key.Uint? && entries[i].key.n <= most
  }

  lemma CheckAt(entries: seq<Pair>, k: nat)
    ensures var v := Lookup(entries, k);
            && (v.Some? && Passes(TextCheck, v.value) <==> TextAt(entries, k))
            && (v.Some? && Passes(TextMapCheck, v.value) <==> TextsAt(entries, k, false, false))
            && (v.Some? && Passes(TextValuesCheck, v.value) <==> TextsAt(entries, k, false, true))
            && ((v.Some? ==> IsCond(v.value)) <==> ConditionAt(entries, k))
  {
    var v := Lookup(entries, k);
    hide Lookup;
    if v.Some? && v.value.Map? {
      var m := v.value.entries;
      assert Lookup(entries, k) == Some(Map(m));
      assert forall i :: 0 <= i < |m| ==> m[i] in m;
    } else if v.Some? && v.value.Text? {
      assert Lookup(entries, k) == Some(Text(v.value.bytes));
    }
  }

  /** The eight tags are not one another. */
  lemma TagsApart()
    ensures |Ascii("rename-type")| == 11 && |Ascii("rename-relation")| == 15 && |Ascii("rename-key")| == 10
    ensures |Ascii("map-value")| == 9 && |Ascii("split-value")| == 11 && |Ascii("require")| == 7
    ensures |Ascii("default")| == 7 && |Ascii("retire")| == 6
    ensures Ascii("rename-type")[0] != Ascii("split-value")[0] && Ascii("require")[0] != Ascii("default")[0]
  {
  }

  lemma NeedsAre(entries: seq<Pair>, a: Check, b: Check, c: Check, d: Check)
    ensures NeedsMet(entries, [a]) <==> MetAt(entries, 1, a)
    ensures NeedsMet(entries, [a, b]) <==> MetAt(entries, 1, a) && MetAt(entries, 2, b)
    ensures NeedsMet(entries, [a, b, c, d])
       <==> MetAt(entries, 1, a) && MetAt(entries, 2, b) && MetAt(entries, 3, c) && MetAt(entries, 4, d)
  {
    hide MetAt;
    var one, two, four := [a], [a, b], [a, b, c, d];
    assert one[0] == a && two[0] == a && two[1] == b;
    assert four[0] == a && four[1] == b && four[2] == c && four[3] == d;
  }

  lemma Checked(entries: seq<Pair>, k: nat)
    ensures MetAt(entries, k, TextCheck) <==> TextAt(entries, k)
    ensures MetAt(entries, k, TextMapCheck) <==> TextsAt(entries, k, false, false)
    ensures MetAt(entries, k, TextValuesCheck) <==> TextsAt(entries, k, false, true)
    ensures MetAt(entries, k, AnyCheck) <==> Lookup(entries, k) != None
  {
    CheckAt(entries, k);
    hide Lookup, TextAt, TextsAt;
  }

  lemma ShapeCarries(tag: seq<Byte>, most: nat)
    ensures ShapeOf(tag).None? ==> !Carries(tag, most)
    ensures ShapeOf(tag).Some? ==> (Carries(tag, most) <==> most == LastKey(ShapeOf(tag).value))
  {
    TagsApart();
    hide Ascii;
  }

  lemma ConditionIs(entries: seq<Pair>, shape: OpShape)
    ensures ConditionMet(entries, shape) <==> (shape.condition ==> ConditionAt(entries, LastKey(shape)))
  {
    CheckAt(entries, LastKey(shape));
    hide Lookup, ConditionAt, IsCond;
  }

  lemma ShapeComplete(tag: seq<Byte>, entries: seq<Pair>)
    ensures match ShapeOf(tag)
            case None => !Complete(tag, entries)
            case Some(shape) => NeedsMet(entries, shape.needs) && ConditionMet(entries, shape) <==> Complete(tag, entries)
  {
    TagsApart();
    match ShapeOf(tag)
    case None =>
      hide Ascii;
    case Some(shape) =>
      ConditionIs(entries, shape);
      NeedsOf(entries, shape);
      hide Ascii, Lookup, NeedsMet, ConditionMet, TextAt, TextsAt, ConditionAt;
  }

  /** The five lists of needs that there are. */
  lemma NeedsOf(entries: seq<Pair>, shape: OpShape)
    ensures var n := shape.needs;
            && (n == [TextCheck] ==> (NeedsMet(entries, n) <==> TextAt(entries, 1)))
            && (n == [TextCheck, TextCheck] ==> (NeedsMet(entries, n) <==> TextAt(entries, 1) && TextAt(entries, 2)))
            && (n == [TextCheck, TextValuesCheck] ==>
                  (NeedsMet(entries, n) <==> TextAt(entries, 1) && TextsAt(entries, 2, false, true)))
            && (n == [TextCheck, AnyCheck] ==> (NeedsMet(entries, n) <==> TextAt(entries, 1) && Lookup(entries, 2) != None))
            && (n == [TextCheck, TextCheck, TextCheck, TextMapCheck] ==>
                  (NeedsMet(entries, n) <==> TextAt(entries, 1) && TextAt(entries, 2) && TextAt(entries, 3)
                                             && TextsAt(entries, 4, false, false)))
  {
    hide NeedsMet, MetAt, Lookup, TextAt, TextsAt;
    Checked(entries, 1);
    Checked(entries, 2);
    Checked(entries, 3);
    Checked(entries, 4);
    NeedsAre(entries, TextCheck, TextCheck, TextCheck, TextMapCheck);
    NeedsAre(entries, TextCheck, TextValuesCheck, TextCheck, TextMapCheck);
    NeedsAre(entries, TextCheck, AnyCheck, TextCheck, TextMapCheck);
  }

  /** What a lens op is read as. */
  lemma OpExactly(v: Value, tag: seq<Byte>)
    ensures var o := LensOp(v);
            && (o == Op(tag, true)
                <==> Numbered(v) && Lookup(v.entries, 0) == Some(Text(tag)) && Recognised(tag, v.entries) && Complete(tag, v.entries))
            && (o == Op(tag, false)
                <==> Numbered(v) && Lookup(v.entries, 0) == Some(Text(tag)) && !Recognised(tag, v.entries))
  {
    IsNumbered(v);
    if Numbered(v) {
      ShapeComplete(tag, v.entries);
      ShapeRecognised(v, tag);
      hide IsIntMap, ShapeOf, Complete, Recognised, NeedsMet, ConditionMet, Lookup, LastKey;
    }
  }

  lemma IsNumbered(v: Value)
    ensures IsIntMap(v) <==> Numbered(v)
  {
    if v.Map? {
      assert forall i :: 0 <= i < |v.entries| ==> v.entries[i] in v.entries;
    }
  }

  lemma ShapeRecognised(v: Value, tag: seq<Byte>)
    requires IsIntMap(v)
    ensures Recognised(tag, v.entries)
       <==> ShapeOf(tag).Some? && !(exists p | p in v.entries :: p.key.n > LastKey(ShapeOf(tag).value))
  {
    var entries := v.entries;
    assert forall i :: 0 <= i < |entries| ==> entries[i] in entries;
    forall most
      ensures ShapeOf(tag).None? ==> !Carries(tag, most)
      ensures ShapeOf(tag).Some? ==> (Carries(tag, most) <==> most == LastKey(ShapeOf(tag).value))
    {
      ShapeCarries(tag, most);
    }
    if ShapeOf(tag).Some? {
      var last := LastKey(ShapeOf(tag).value);
      hide ShapeOf, Carries, LastKey;
      assert Carries(tag, last);
      assert (forall p | p in entries :: p.key.n <= last)
        <==> forall i :: 0 <= i < |entries| ==> entries[i].key.Uint? && entries[i].key.n <= last;
    }
  }

  /** Revisions below 2^32 that go up, and ops of which each is read, under keys 0 to 2 and no other. */
  ghost predicate Rises(entries: seq<Pair>, from: nat, to: nat, ops: seq<Value>) {
    && |entries| == 3 && (forall i :: 0 <= i < 3 ==> entries[i].key.Uint? && entries[i].key.n < 3)
    && Lookup(entries, 0) == Some(Uint(from)) && Lookup(entries, 1) == Some(Uint(to)) && Lookup(entries, 2) == Some(Array(ops))
    && from < to < 0x1_0000_0000 && forall k :: 0 <= k < |ops| ==> LensOp(ops[k]) != Mismatch
  }

  lemma {:induction false} KeysAre(entries: seq<Pair>)
    ensures |Keys(entries)| == |entries|
    ensures forall v :: v in Keys(entries) <==> exists i :: 0 <= i < |entries| && entries[i].key == v
  {
    if entries != [] {
      KeysAre(entries[1..]);
      forall v
        ensures v in Keys(entries) <==> exists i :: 0 <= i < |entries| && entries[i].key == v
      {
        if v in Keys(entries[1..]) {
          var i :| 0 <= i < |entries[1..]| && entries[1..][i].key == v;
          assert entries[i + 1].key == v;
        }
        if i :| 0 <= i < |entries| && entries[i].key == v {
          assert i > 0 ==> entries[1..][i - 1].key == v;
        }
      }
    }
  }

  lemma ThreeKeys(entries: seq<Pair>)
    ensures Keys(entries) == multiset{Uint(0), Uint(1), Uint(2)}
       <==> && |entries| == 3 && (forall i :: 0 <= i < 3 ==> entries[i].key.Uint? && entries[i].key.n < 3)
            && Lookup(entries, 0) != None && Lookup(entries, 1) != None && Lookup(entries, 2) != None
  {
    KeysAre(entries);
    KeyFound(entries, 0);
    KeyFound(entries, 1);
    KeyFound(entries, 2);
    ThreeOnly(Keys(entries));
    hide Lookup, Keys;
    if Keys(entries) == multiset{Uint(0), Uint(1), Uint(2)} {
      forall i | 0 <= i < 3
        ensures entries[i].key.Uint? && entries[i].key.n < 3
      {
        assert entries[i].key in Keys(entries);
      }
    }
  }

  lemma KeyFound(entries: seq<Pair>, k: nat)
    ensures Lookup(entries, k) != None <==> Uint(k) in Keys(entries)
  {
    KeysAre(entries);
    LookupExactly(entries, k, Bool(true));
    hide Lookup, Stands, Keys;
  }

  lemma ThreeOnly(keys: multiset<Value>)
    ensures keys == multiset{Uint(0), Uint(1), Uint(2)}
       <==> |keys| == 3 && Uint(0) in keys && Uint(1) in keys && Uint(2) in keys
  {
    var three := multiset{Uint(0), Uint(1), Uint(2)};
    assert |three| == 3;
    if |keys| == 3 && Uint(0) in keys && Uint(1) in keys && Uint(2) in keys {
      SameSize(three, keys);
    }
  }

  lemma SameSize<T>(a: multiset<T>, b: multiset<T>)
    requires a <= b && |a| == |b|
    ensures a == b
  {
    assert b == a + (b - a);
    assert |b - a| == 0;
  }

  /** A step is read exactly where one rises, as its revisions, its ops' tags and its own encoding. */
  lemma StepExactly(v: Value)
    ensures StepOf(v).Some? <==> v.Map? && exists from, to, ops :: Rises(v.entries, from, to, ops)
    ensures StepOf(v).Some? ==>
              var s := StepOf(v).value;
              exists ops :: Rises(v.entries, s.from, s.to, ops) && s.bytes == Encode(v) && Reads(s, ops)
  {
    if v.Map? {
      ThreeKeys(v.entries);
      IsNumbered(v);
      hide Keys, LensOp, Encode;
      if StepOf(v).Some? {
        StepRises(v);
      }
      if from, to, ops :| Rises(v.entries, from, to, ops) {
        RisesStep(v, from, to, ops);
      }
    }
  }

  ghost predicate Reads(s: Step, ops: seq<Value>) {
    && |s.ops| == |ops| && (forall k :: 0 <= k < |ops| ==> LensOp(ops[k]).Op? && s.ops[k] == LensOp(ops[k]).tag)
    && (s.usable <==> forall k :: 0 <= k < |ops| ==> LensOp(ops[k]).Op? && LensOp(ops[k]).known)
  }

  lemma {:induction false} TagsAre(ops: seq<Value>)
    requires OpsRead(ops)
    ensures forall k :: 0 <= k < |ops| ==> LensOp(ops[k]).Op? && Tags(ops)[k] == LensOp(ops[k]).tag
  {
    hide LensOp;
    if ops != [] {
      assert ops == [ops[0]] + ops[1..];
      TagsAre(ops[1..]);
    }
  }

  lemma StepRises(v: Value)
    requires StepOf(v).Some? && Keys(v.entries) == multiset{Uint(0), Uint(1), Uint(2)}
    ensures var s := StepOf(v).value;
            exists ops :: Rises(v.entries, s.from, s.to, ops) && s.bytes == Encode(v) && Reads(s, ops)
  {
    ThreeKeys(v.entries);
    var s, ops := StepOf(v).value, Lookup(v.entries, 2).value.items;
    hide Keys, LensOp, Encode, Lookup;
    TagsAre(ops);
    assert forall k :: 0 <= k < |ops| ==> ops[k] in ops;
    assert Rises(v.entries, s.from, s.to, ops) && Reads(s, ops);
  }

  lemma RisesStep(v: Value, from: nat, to: nat, ops: seq<Value>)
    requires v.Map? && Rises(v.entries, from, to, ops)
    ensures StepOf(v).Some?
  {
    ThreeKeys(v.entries);
    IsNumbered(v);
    hide Keys, LensOp, Encode, Lookup;
    assert forall o | o in ops :: LensOp(o).Op?;
  }

  // ---------------------------------------------------------------------------
  // Law L9
  // ---------------------------------------------------------------------------

  lemma {:induction false} StepsKeepBytes(items: seq<Value>)
    requires StepsOf(items).Some?
    ensures |StepsOf(items).value| == |items| && JoinSteps(StepsOf(items).value) == EncodeItems(items)
  {
    hide Encode, LensOp;
    if items != [] {
      StepsKeepBytes(items[1..]);
      var rest := StepsOf(items[1..]).value;
      assert ([StepOf(items[0]).value] + rest)[1..] == rest;
    }
  }

  /** Steps that were read are written back as they came, unknown ops and all. */
  lemma StepsWrittenBack(u: Unicode, data: seq<Byte>, i: nat, depth: nat)
    requires i <= |data| && ValueAt(u, data, i, depth).Ok?
    requires LensSteps(ValueAt(u, data, i, depth).value).Some?
    ensures var r := ValueAt(u, data, i, depth);
            && LensBytes(LensSteps(r.value).value) == Encode(r.value)
            && LensBytes(LensSteps(r.value).value) == data[i..r.end]
  {
    var v := ValueAt(u, data, i, depth).value;
    ReEncode(u, data, i, depth);
    hide ValueAt, HeadBytes, StepsOf;
    StepsKeepBytes(v.items);
  }

  /**
    In Go the steps written back are the encoding of the value Go decoded, which is what was read
    exactly when no number in it lies below an `int64`.
   */
  lemma GoStepsWrittenBack(u: Unicode, data: seq<Byte>, i: nat, depth: nat)
    requires i <= |data| && ValueAt(u, data, i, depth).Ok?
    requires LensSteps(Wrap(ValueAt(u, data, i, depth).value)).Some?
    ensures var r := ValueAt(u, data, i, depth);
            && LensBytes(LensSteps(Wrap(r.value)).value) == Encode(Wrap(r.value))
            && (LensBytes(LensSteps(Wrap(r.value)).value) == data[i..r.end] <==> Narrow(r.value))
  {
    GoReEncode(u, data, i, depth);
    var v := Wrap(ValueAt(u, data, i, depth).value);
    hide ValueAt, HeadBytes, StepsOf, Wrap, Narrow;
    StepsKeepBytes(v.items);
  }

  // ---------------------------------------------------------------------------
  // The chain hash
  // ---------------------------------------------------------------------------

  /** The ASCII bytes of "smysl/lens-chain/1" and a zero byte. */
  function ChainTag(): seq<Byte> {
    Ascii("smysl/lens-chain/1") + [0]
  }

  function ChainPreimage(id: seq<Byte>, from: nat, to: nat, steps: seq<Step>): seq<Byte> {
    ChainTag() + HeadBytes(4, 4) + Encode(Text(id)) + Encode(Uint(from)) + Encode(Uint(to)) + LensBytes(steps)
  }

  /** The one value that a preimage is the encoding of, after its tag. */
  function ChainValue(id: seq<Byte>, from: nat, to: nat, v: Value): Value {
    Array([Text(id), Uint(from), Uint(to), v])
  }

  lemma ChainIsEncoding(id: seq<Byte>, from: nat, to: nat, v: Value)
    requires LensSteps(v).Some?
    ensures ChainPreimage(id, from, to, LensSteps(v).value) == ChainTag() + Encode(ChainValue(id, from, to, v))
  {
    hide HeadBytes, StepsOf;
    StepsKeepBytes(v.items);
    var a, b, c := Text(id), Uint(from), Uint(to);
    var items := [a, b, c, v];
    ItemsOfFour(a, b, c, v);
    hide Encode, LensSteps;
    var t, h, w, x, y, z := ChainTag(), HeadBytes(4, 4), Encode(a), Encode(b), Encode(c), LensBytes(LensSteps(v).value);
    assert t + h + w + x + y + z == t + (h + (w + x + y + z));
  }

  lemma ItemsOfFour(a: Value, b: Value, c: Value, d: Value)
    ensures Encode(Array([a, b, c, d])) == HeadBytes(4, 4) + (Encode(a) + Encode(b) + Encode(c) + Encode(d))
  {
    hide HeadBytes;
    var items := [a, b, c, d];
    assert items[1..] == [b, c, d] && [b, c, d][1..] == [c, d] && [c, d][1..] == [d] && [d][1..] == [];
    EncodeItemsNext([d]);
    EncodeItemsNext([c, d]);
    EncodeItemsNext([b, c, d]);
    EncodeItemsNext(items);
  }

  lemma EncodeItemsNext(items: seq<Value>)
    requires items != []
    ensures EncodeItems(items) == Encode(items[0]) + EncodeItems(items[1..])
    ensures items[1..] == [] ==> EncodeItems(items) == Encode(items[0])
  {
    hide Encode;
  }

  lemma ChainFits(id: seq<Byte>, from: nat, to: nat, v: Value)
    requires |id| < ARG_LIMIT && from < ARG_LIMIT && to < ARG_LIMIT && Fits(v)
    ensures Fits(ChainValue(id, from, to, v))
  {
  }

  lemma ChainCanon(id: seq<Byte>, from: nat, to: nat, v: Value)
    ensures Canon(ChainValue(id, from, to, v)) == ChainValue(id, from, to, Canon(v))
  {
    hide CborSpec.Encode;
    var items := [Text(id), Uint(from), Uint(to), v];
    assert items[1..] == [Uint(from), Uint(to), v] && [Uint(from), Uint(to), v][1..] == [Uint(to), v];
    assert [Uint(to), v][1..] == [v] && [v][1..] == [];
    assert CanonItems([v]) == [Canon(v)];
    assert CanonItems([Uint(to), v]) == [Uint(to), Canon(v)];
    assert CanonItems([Uint(from), Uint(to), v]) == [Uint(from), Uint(to), Canon(v)];
    assert CanonItems(items) == [Text(id), Uint(from), Uint(to), Canon(v)];
  }

  /**
    The preimage of a chain hash decides the id, both revisions and, up to the order of map entries,
    every step: for any lens values, those that were decoded as those that Go holds after wrapping.
   */
  lemma ChainPreimageDecides(id: seq<Byte>, from: nat, to: nat, v: Value,
                             id': seq<Byte>, from': nat, to': nat, v': Value)
    requires |id| < ARG_LIMIT && from < ARG_LIMIT && to < ARG_LIMIT && Fits(v) && LensSteps(v).Some?
    requires |id'| < ARG_LIMIT && from' < ARG_LIMIT && to' < ARG_LIMIT && Fits(v') && LensSteps(v').Some?
    ensures ChainPreimage(id, from, to, LensSteps(v).value) == ChainPreimage(id', from', to', LensSteps(v').value)
       <==> id == id' && from == from' && to == to' && Canon(v) == Canon(v')
  {
    hide CborSpec.Encode, Fits, Canon, LensSteps, ChainPreimage;
    var a, b := ChainValue(id, from, to, v), ChainValue(id', from', to', v');
    ChainIsEncoding(id, from, to, v);
    ChainIsEncoding(id', from', to', v');
    ChainFits(id, from, to, v);
    ChainFits(id', from', to', v');
    ChainCanon(id, from, to, v);
    ChainCanon(id', from', to', v');
    EncodeInjective(a, b);
    var t := ChainTag();
    hide ChainTag;
    if t + Encode(a) == t + Encode(b) {
      assert Encode(a) == (t + Encode(a))[|t|..] == (t + Encode(b))[|t|..] == Encode(b);
      ChainValueInjective(id, from, to, Canon(v), id', from', to', Canon(v'));
    }
  }

  /**
    So in Go: two decoded lens values give one preimage exactly when id and revisions agree and
    wrapping makes the values one. Where no number lies below an `int64`, they are one already.
   */
  lemma GoChainDecides(u: Unicode, id: seq<Byte>, from: nat, to: nat, v: Value,
                       id': seq<Byte>, from': nat, to': nat, v': Value)
    requires |id| < ARG_LIMIT && from < ARG_LIMIT && to < ARG_LIMIT && Normal(u, v, 1)
    requires |id'| < ARG_LIMIT && from' < ARG_LIMIT && to' < ARG_LIMIT && Normal(u, v', 1)
    requires LensSteps(Wrap(v)).Some? && LensSteps(Wrap(v')).Some?
    ensures ChainPreimage(id, from, to, LensSteps(Wrap(v)).value)
            == ChainPreimage(id', from', to', LensSteps(Wrap(v')).value)
       <==> id == id' && from == from' && to == to' && Canon(Wrap(v)) == Canon(Wrap(v'))
    ensures Narrow(v) && Narrow(v') ==> (Canon(Wrap(v)) == Canon(Wrap(v')) <==> v == v')
  {
    WrapNarrows(v);
    WrapNarrows(v');
    hide Fits, WellFormed, Canon, Wrap, Narrow, LensSteps, ChainPreimage;
    ChainPreimageDecides(id, from, to, Wrap(v), id', from', to', Wrap(v'));
    if Narrow(v) && Narrow(v') {
      WrapFixes(v);
      WrapFixes(v');
    }
  }

  lemma ChainValueInjective(id: seq<Byte>, from: nat, to: nat, v: Value,
                            id': seq<Byte>, from': nat, to': nat, v': Value)
    requires ChainValue(id, from, to, v) == ChainValue(id', from', to', v')
    ensures id == id' && from == from' && to == to' && v == v'
  {
    var a, b := [Text(id), Uint(from), Uint(to), v], [Text(id'), Uint(from'), Uint(to'), v'];
    assert a == b;
    assert a[0] == b[0] && a[1] == b[1] && a[2] == b[2] && a[3] == b[3];
  }

  // ---------------------------------------------------------------------------
  // The code
  // ---------------------------------------------------------------------------

  /** Reads one step, walking its ops. */
  method ReadStep(v: Value) returns (r: Option<Step>)
    ensures r == StepOf(v)
  {
    hide Encode, LensOp;
    if !IsIntMap(v) || Keys(v.entries) != multiset{Uint(0), Uint(1), Uint(2)} {
      return None;
    }
    var from, to, ops := Lookup(v.entries, 0), Lookup(v.entries, 1), Lookup(v.entries, 2);
    if from.None? || to.None? || ops.None? || !IsRev(from.value) || !IsRev(to.value) || to.value.n <= from.value.n {
      return None;
    }
    if !ops.value.Array? {
      return None;
    }
    var items := ops.value.items;
    var tags: seq<seq<Byte>> := [];
    var usable := true;
    var k := 0;
    while k < |items|
      invariant 0 <= k <= |items| && OpsRead(items[..k])
      invariant tags == Tags(items[..k]) && usable == AllKnown(items[..k])
    {
      var op := LensOp(items[k]);
      if op.Mismatch? {
        assert items[k] in items;
        return None;
      }
      OpsAppend(items[..k], items[k]);
      assert items[..k + 1] == items[..k] + [items[k]];
      tags := tags + [op.tag];
      usable := usable && op.known;
      k := k + 1;
    }
    assert items[..|items|] == items;
    var bytes := EncodeOne(v);
    return Some(Step(from.value.n, to.value.n, tags, usable, bytes));
  }

  lemma {:induction false} OpsAppend(ops: seq<Value>, o: Value)
    requires OpsRead(ops) && LensOp(o).Op?
    ensures OpsRead(ops + [o]) && Tags(ops + [o]) == Tags(ops) + [LensOp(o).tag]
    ensures AllKnown(ops + [o]) == (AllKnown(ops) && LensOp(o).known)
  {
    hide LensOp;
    if ops == [] {
      assert ops + [o] == [o];
    } else {
      assert ops == [ops[0]] + ops[1..];
      assert (ops + [o])[1..] == ops[1..] + [o];
      OpsAppend(ops[1..], o);
    }
  }

  function Joined(done: seq<Step>, rest: Option<seq<Step>>): Option<seq<Step>> {
    match rest
    case None => None
    case Some(steps) => Some(done + steps)
  }

  method ReadSteps(v: Value) returns (r: Option<seq<Step>>)
    ensures r == LensSteps(v)
  {
    hide StepOf;
    if !v.Array? {
      return None;
    }
    var out: seq<Step> := [];
    var k := 0;
    assert v.items[0..] == v.items;
    JoinedNone(StepsOf(v.items));
    while k < |v.items|
      invariant 0 <= k <= |v.items| && Joined(out, StepsOf(v.items[k..])) == StepsOf(v.items)
    {
      assert v.items[k..][0] == v.items[k] && v.items[k..][1..] == v.items[k + 1..];
      var step := ReadStep(v.items[k]);
      if step.None? {
        return None;
      }
      JoinedMore(out, step.value, StepsOf(v.items[k + 1..]));
      out := out + [step.value];
      k := k + 1;
    }
    assert out + [] == out;
    return Some(out);
  }

  lemma JoinedNone(r: Option<seq<Step>>)
    ensures Joined([], r) == r
  {
    if r.Some? {
      assert [] + r.value == r.value;
    }
  }

  lemma JoinedMore(done: seq<Step>, x: Step, r: Option<seq<Step>>)
    ensures Joined(done + [x], r) == Joined(done, Joined([x], r))
  {
    if r.Some? {
      assert done + [x] + r.value == done + ([x] + r.value);
    }
  }

  method EncodeLenses(steps: seq<Step>) returns (out: seq<Byte>)
    ensures out == LensBytes(steps)
  {
    hide HeadBytes;
    var e := new Encoder();
    e.WriteHead(4, |steps|);
    out := e.out;
    assert out == HeadBytes(4, |steps|);
    var k := 0;
    assert steps[0..] == steps;
    while k < |steps|
      invariant 0 <= k <= |steps| && out + JoinSteps(steps[k..]) == LensBytes(steps)
    {
      assert steps[k..][0] == steps[k] && steps[k..][1..] == steps[k + 1..];
      out := out + steps[k].bytes;
      k := k + 1;
    }
    assert out + [] == out;
  }

  method ChainHash(mode: Mode, id: seq<Byte>, from: nat, to: nat, steps: seq<Step>) returns (digest: seq<Byte>)
    ensures digest == Hash(mode, ChainPreimage(id, from, to, steps), OUT_LEN)
    ensures digest == Hash(mode, Ascii("smysl/lens-chain/1") + [0] + [0x84] + Encode(Text(id)) + Encode(Uint(from))
                                 + Encode(Uint(to)) + LensBytes(steps), 32)
  {
    assert HeadBytes(4, 4) == [0x84];
    hide HeadBytes, Encode, Hash, LensBytes;
    var input := Ascii("smysl/lens-chain/1") + [0];
    input := input + HeadBytes(4, 4);
    var part := EncodeOne(Text(id));
    input := input + part;
    part := EncodeOne(Uint(from));
    input := input + part;
    part := EncodeOne(Uint(to));
    input := input + part;
    part := EncodeLenses(steps);
    input := input + part;
    digest := Blake3.Hash32(mode, input);
  }

  // ---------------------------------------------------------------------------
  // The declaration
  // ---------------------------------------------------------------------------

  datatype Code = W430 | W469

  /** What key 5 of a declaration is read as, with the codes that reading it reports. */
  datatype Reading = Reading(opaqueLenses: bool, steps: seq<Step>, codes: seq<Code>)

  function UnusableCount(steps: seq<Step>): nat {
    if steps == [] then 0 else (if steps[0].usable then 0 else 1) + UnusableCount(steps[1..])
  }

  method ReadLenses(entries: seq<Pair>) returns (r: Reading)
    ensures var v := Lookup(entries, 5);
            && r.opaqueLenses == (v.Some? && LensSteps(v.value).None?)
            && r.steps == (if v.Some? && LensSteps(v.value).Some? then LensSteps(v.value).value else [])
            && (r.opaqueLenses ==> r.codes == [W430])
            && (!r.opaqueLenses ==> r.codes == seq(UnusableCount(r.steps), _ => W469))
  {
    hide LensSteps;
    var v := Lookup(entries, 5);
    var steps: Option<seq<Step>> := Some([]);
    if v.Some? {
      steps := ReadSteps(v.value);
    }
    if steps.None? {
      return Reading(true, [], [W430]);
    }
    var codes: seq<Code> := [];
    var k := 0;
    assert steps.value[0..] == steps.value;
    while k < |steps.value|
      invariant 0 <= k <= |steps.value|
      invariant |codes| + UnusableCount(steps.value[k..]) == UnusableCount(steps.value)
      invariant forall i :: 0 <= i < |codes| ==> codes[i] == W469
    {
      assert steps.value[k..][0] == steps.value[k] && steps.value[k..][1..] == steps.value[k + 1..];
      if !steps.value[k].usable {
        codes := codes + [W469];
      }
      k := k + 1;
    }
    return Reading(false, steps.value, codes);
  }
}
