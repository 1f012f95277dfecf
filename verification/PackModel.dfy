/**
  What packing works on: units by what their texts cost, the links between them, and selections
  with what they cost and what they are worth.
 */
module PackModel {
  import opened Bytes

  type Uid = nat

  /** How much of a unit is packed: its gist, its body too, its detail too. */
  type Lod = l: nat | l <= 2

  /** Which units are packed, each at what level. */
  type Selection = map<Uid, Lod>

  /** A unit by what each of its texts costs, with the units that it refers to. */
  datatype Unit = Unit(gist: nat, body: Option<nat>, detail: Option<nat>, references: seq<Uid>)

  type Units = map<Uid, Unit>

  // ---------------------------------------------------------------------------
  // Levels
  // ---------------------------------------------------------------------------

  function TextCost(text: Option<nat>): nat {
    match text
    case Some(cost) => cost
    case None => 0
  }

  /** Levels are cumulative. */
  function UnitCost(unit: Unit, level: Lod): nat {
    unit.gist + (if level >= 1 then TextCost(unit.body) else 0) + (if level >= 2 then TextCost(unit.detail) else 0)
  }

  function UpgradeCost(unit: Unit, held: Option<Lod>, level: Lod): nat {
    var before := if held.Some? then UnitCost(unit, held.value) else 0;
    if UnitCost(unit, level) >= before then UnitCost(unit, level) - before else 0
  }

  /** The levels that a unit was written at. */
  function Available(unit: Unit): seq<Lod> {
    [0] + (if unit.body.Some? then [1] else []) + (if unit.detail.Some? then [2] else [])
  }

  function Capped(cap: Option<Lod>, level: Lod): Lod {
    if cap.Some? && level > cap.value then cap.value else level
  }

  /** What a level is worth, by the salience of its unit. */
  function Gain(level: Lod): real {
    if level == 0 then 1.0 else if level == 1 then 1.6 else 1.85
  }

  function Worth(salience: map<Uid, real>, u: Uid, level: Lod): real {
    if u in salience then salience[u] * Gain(level) else 0.0
  }

  // ---------------------------------------------------------------------------
  // Sums over maps, by ascending key
  // ---------------------------------------------------------------------------

  lemma {:induction false} HasLeast(keys: set<Uid>)
    requires keys != {}
    ensures exists m :: m in keys && forall k | k in keys :: m <= k
  {
    var k :| k in keys;
    var rest := keys - {k};
    assert forall j | j in keys :: j == k || j in rest;
    if rest != {} {
      HasLeast(rest);
      var m :| m in rest && forall j | j in rest :: m <= j;
      LeastOfTwo(keys, k, m);
    } else {
      assert forall j | j in keys :: k <= j;
    }
  }

  lemma LeastOfTwo(keys: set<Uid>, k: Uid, m: Uid)
    requires k in keys && m in keys && forall j | j in keys :: j == k || m <= j
    ensures exists l :: l in keys && forall j | j in keys :: l <= j
  {
    if k < m {
      assert forall j | j in keys :: k <= j;
    } else {
      assert forall j | j in keys :: m <= j;
    }
  }

  function Least(keys: set<Uid>): (m: Uid)
    requires keys != {}
    ensures m in keys
  {
    HasLeast(keys);
    var m :| m in keys && forall k | k in keys :: m <= k;
    m
  }

  function Sum(w: map<Uid, real>): real
    decreases |w|
  {
    if w.Keys == {} then 0.0
    else
      var k := Least(w.Keys);
      Shrinks(w, k);
      w[k] + Sum(w - {k})
  }

  function Total(w: map<Uid, nat>): nat
    decreases |w|
  {
    if w.Keys == {} then 0
    else
      var k := Least(w.Keys);
      Shrinks(w, k);
      w[k] + Total(w - {k})
  }

  lemma Shrinks<T>(w: map<Uid, T>, k: Uid)
    requires k in w
    ensures |w - {k}| < |w|
  {
    assert (w - {k}).Keys == w.Keys - {k};
    assert |w.Keys - {k}| < |w.Keys|;
  }

  /** Any entry can be taken out of a sum first. */
  lemma {:induction false} SumWithout(w: map<Uid, real>, k: Uid)
    requires k in w
    ensures Sum(w) == w[k] + Sum(w - {k})
    decreases |w|
  {
    var m := Least(w.Keys);
    if m != k {
      Shrinks(w, m);
      SumWithout(w - {m}, k);
      var v := w - {k};
      assert m in v && Least(v.Keys) == m;
      assert w - {m} - {k} == v - {m};
    }
  }

  function Reals(w: map<Uid, nat>): map<Uid, real> {
    map k | k in w :: w[k] as real
  }

  lemma {:induction false} TotalIsSum(w: map<Uid, nat>)
    ensures Total(w) as real == Sum(Reals(w))
    decreases |w|
  {
    if w.Keys != {} {
      var k := Least(w.Keys);
      Shrinks(w, k);
      TotalIsSum(w - {k});
      assert Reals(w).Keys == w.Keys;
      assert Reals(w) - {k} == Reals(w - {k});
    }
  }

  function At(w: map<Uid, real>, k: Uid): real {
    if k in w then w[k] else 0.0
  }

  /** Entry by entry less is less in sum, and more is more. */
  lemma {:induction false} SumsCompare(v: map<Uid, real>, w: map<Uid, real>)
    requires v.Keys <= w.Keys
    ensures (forall k | k in w :: At(v, k) <= w[k]) ==> Sum(v) <= Sum(w)
    ensures (forall k | k in w :: At(v, k) >= w[k]) ==> Sum(v) >= Sum(w)
    decreases |w|
  {
    if w.Keys != {} {
      var k := Least(w.Keys);
      Shrinks(w, k);
      var v', w' := v - {k}, w - {k};
      assert forall j | j in w' :: At(v', j) == At(v, j) && w'[j] == w[j];
      SumsCompare(v', w');
      if k in v {
        SumWithout(v, k);
      } else {
        assert v' == v;
      }
    }
  }

  // ---------------------------------------------------------------------------
  // What a selection costs and is worth
  // ---------------------------------------------------------------------------

  function Costs(units: Units, s: Selection): map<Uid, nat> {
    map u | u in s && u in units :: UnitCost(units[u], s[u])
  }

  function CostOf(units: Units, s: Selection): nat {
    Total(Costs(units, s))
  }

  function Worths(salience: map<Uid, real>, s: Selection): map<Uid, real> {
    map u | u in s :: Worth(salience, u, s[u])
  }

  function Achieved(salience: map<Uid, real>, s: Selection): real {
    Sum(Worths(salience, s))
  }

  /** Every unit of `s` is in `t`, at its level or higher. */
  ghost predicate Below(s: Selection, t: Selection) {
    forall u | u in s :: u in t && s[u] <= t[u]
  }

  lemma BelowCosts(units: Units, s: Selection, t: Selection)
    requires Below(s, t)
    ensures CostOf(units, s) <= CostOf(units, t)
  {
    var v, w := Costs(units, s), Costs(units, t);
    TotalIsSum(v);
    TotalIsSum(w);
    SumsCompare(Reals(v), Reals(w));
  }

  /** The levels of one unit, and what that unit adds. */
  function LevelIn(s: Selection, u: Uid): Option<Lod> {
    if u in s then Some(s[u]) else None
  }

  function CostAt(units: Units, u: Uid, level: Option<Lod>): nat {
    if u in units && level.Some? then UnitCost(units[u], level.value) else 0
  }

  function WorthAt(salience: map<Uid, real>, u: Uid, level: Option<Lod>): real {
    if level.Some? then Worth(salience, u, level.value) else 0.0
  }

  /** Two selections that differ in one unit differ by what that unit adds. */
  lemma DifferInOne(units: Units, salience: map<Uid, real>, s: Selection, t: Selection, u: Uid)
    requires s - {u} == t - {u}
    ensures Achieved(salience, s) - WorthAt(salience, u, LevelIn(s, u))
         == Achieved(salience, t) - WorthAt(salience, u, LevelIn(t, u))
    ensures CostOf(units, s) - CostAt(units, u, LevelIn(s, u)) == CostOf(units, t) - CostAt(units, u, LevelIn(t, u))
  {
    WithoutOne(units, salience, s, u);
    WithoutOne(units, salience, t, u);
  }

  lemma WithoutOne(units: Units, salience: map<Uid, real>, s: Selection, u: Uid)
    ensures Achieved(salience, s) == WorthAt(salience, u, LevelIn(s, u)) + Achieved(salience, s - {u})
    ensures CostOf(units, s) == CostAt(units, u, LevelIn(s, u)) + CostOf(units, s - {u})
  {
    WorthWithoutOne(salience, s, u);
    CostWithoutOne(units, s, u);
    hide *;
  }

  lemma WorthWithoutOne(salience: map<Uid, real>, s: Selection, u: Uid)
    ensures Achieved(salience, s) == WorthAt(salience, u, LevelIn(s, u)) + Achieved(salience, s - {u})
  {
    hide Sum, Worth;
    var w := Worths(salience, s);
    assert Worths(salience, s - {u}) == w - {u};
    if u in s {
      SumWithout(w, u);
    } else {
      assert w - {u} == w;
    }
  }

  lemma CostWithoutOne(units: Units, s: Selection, u: Uid)
    ensures CostOf(units, s) == CostAt(units, u, LevelIn(s, u)) + CostOf(units, s - {u})
  {
    hide Sum, Total, UnitCost;
    var c := Costs(units, s);
    assert Costs(units, s - {u}) == c - {u};
    TotalIsSum(c);
    TotalIsSum(c - {u});
    assert Reals(c) - {u} == Reals(c - {u});
    if u in c {
      SumWithout(Reals(c), u);
    } else {
      assert c - {u} == c;
    }
  }

  lemma OfOne(units: Units, salience: map<Uid, real>, u: Uid, level: Lod)
    ensures CostOf(units, map[u := level]) == CostAt(units, u, Some(level))
    ensures Achieved(salience, map[u := level]) == WorthAt(salience, u, Some(level))
  {
    var s: Selection := map[u := level];
    WithoutOne(units, salience, s, u);
    assert s - {u} == map[];
    assert Costs(units, map[]) == map[] && Worths(salience, map[]) == map[];
  }

  lemma OfTwo(units: Units, salience: map<Uid, real>, s: Selection, u: Uid, v: Uid)
    requires u != v && forall x | x in s :: x == u || x == v
    ensures CostOf(units, s) == CostAt(units, u, LevelIn(s, u)) + CostAt(units, v, LevelIn(s, v))
    ensures Achieved(salience, s) == WorthAt(salience, u, LevelIn(s, u)) + WorthAt(salience, v, LevelIn(s, v))
  {
    WithoutOne(units, salience, s, u);
    WithoutOne(units, salience, s - {u}, v);
    assert s - {u} - {v} == map[];
    assert Costs(units, map[]) == map[] && Worths(salience, map[]) == map[];
  }

  // ---------------------------------------------------------------------------
  // Costs by text and worth by level
  // ---------------------------------------------------------------------------

  /** A sum taken apart, entry by entry. */
  lemma {:induction false} SumsAdd(w: map<Uid, real>, a: map<Uid, real>, b: map<Uid, real>)
    requires a.Keys <= w.Keys && b.Keys <= w.Keys && forall k | k in w :: w[k] == At(a, k) + At(b, k)
    ensures Sum(w) == Sum(a) + Sum(b)
    decreases |w|
  {
    if w.Keys != {} {
      var k := Least(w.Keys);
      Shrinks(w, k);
      forall j | j in w - {k}
        ensures (w - {k})[j] == At(a - {k}, j) + At(b - {k}, j)
      {
      }
      SumsAdd(w - {k}, a - {k}, b - {k});
      OneApart(a, k);
      OneApart(b, k);
    }
  }

  lemma OneApart(w: map<Uid, real>, k: Uid)
    ensures Sum(w) == At(w, k) + Sum(w - {k})
  {
    if k in w {
      SumWithout(w, k);
    } else {
      assert w - {k} == w;
    }
  }

  function Gists(units: Units, s: Selection): map<Uid, nat> {
    map u | u in s && u in units :: units[u].gist
  }

  function Bodies(units: Units, s: Selection): map<Uid, nat> {
    map u | u in s && u in units && s[u] != 0 && units[u].body.Some? :: units[u].body.value
  }

  function Details(units: Units, s: Selection): map<Uid, nat> {
    map u | u in s && u in units && s[u] == 2 && units[u].detail.Some? :: units[u].detail.value
  }

  /** A selection costs the gists of all it holds, the bodies above the gist and the details at the top. */
  lemma CostByText(units: Units, s: Selection)
    ensures CostOf(units, s) == Total(Gists(units, s)) + Total(Bodies(units, s)) + Total(Details(units, s))
  {
    var c, g, b, d := Costs(units, s), Gists(units, s), Bodies(units, s), Details(units, s);
    var texts: map<Uid, real> := map u | u in c :: At(Reals(b), u) + At(Reals(d), u);
    TotalIsSum(c);
    TotalIsSum(g);
    TotalIsSum(b);
    TotalIsSum(d);
    hide Sum, Total;
    SumsAdd(texts, Reals(b), Reals(d));
    SumsAdd(Reals(c), Reals(g), texts);
  }

  /** The salience of what is held at a level. */
  function HeldAt(salience: map<Uid, real>, s: Selection, level: Lod): map<Uid, real> {
    map u | u in s && u in salience && s[u] == level :: salience[u]
  }

  function Weighed(rate: real, x: real): real {
    rate * x
  }

  lemma WeighedAdds(rate: real, x: real, y: real)
    ensures Weighed(rate, x + y) == Weighed(rate, x) + Weighed(rate, y) && Weighed(rate, 0.0) == 0.0
  {
  }

  function Multiplied(rate: real, w: map<Uid, real>): map<Uid, real> {
    map u | u in w :: Weighed(rate, w[u])
  }

  lemma {:induction false} SumMultiplied(rate: real, w: map<Uid, real>)
    ensures Sum(Multiplied(rate, w)) == Weighed(rate, Sum(w))
    decreases |w|
  {
    hide Weighed;
    var v := Multiplied(rate, w);
    assert v.Keys == w.Keys;
    WeighedAdds(rate, 0.0, 0.0);
    if w.Keys != {} {
      var k := Least(w.Keys);
      Shrinks(w, k);
      SumMultiplied(rate, w - {k});
      assert v - {k} == Multiplied(rate, w - {k});
      WeighedAdds(rate, w[k], Sum(w - {k}));
    }
  }

  /** A selection is worth the salience of its gists, 1.6 times that of its bodies, 1.85 of its details. */
  lemma WorthByLevel(salience: map<Uid, real>, s: Selection)
    ensures Achieved(salience, s)
         == Sum(HeldAt(salience, s, 0)) + 1.6 * Sum(HeldAt(salience, s, 1)) + 1.85 * Sum(HeldAt(salience, s, 2))
  {
    var w := Worths(salience, s);
    var a, b, c := HeldAt(salience, s, 0), Multiplied(1.6, HeldAt(salience, s, 1)), Multiplied(1.85, HeldAt(salience, s, 2));
    var above: map<Uid, real> := map u | u in w :: At(b, u) + At(c, u);
    SumMultiplied(1.6, HeldAt(salience, s, 1));
    SumMultiplied(1.85, HeldAt(salience, s, 2));
    hide Sum;
    SumsAdd(above, b, c);
    SumsAdd(w, a, above);
  }
}
