/**
  What it means that a result is proven, and exactly when it is the best: when nothing in scope is to
  be gained for nothing, and nothing at all outside it.
 */
module PackBest {
  import opened Bytes
  import opened PackModel
  import opened PackClosure
  import opened PackBound
  import opened PackSearch

  ghost predicate Startable(q: Request, floor: Selection, incumbent: Selection) {
    Legal(q, floor, floor) && Legal(q, floor, incumbent)
  }

  /** Nothing legal is worth more than what was found. */
  ghost predicate IsBest(q: Request, floor: Selection, found: Found) {
    forall t | Legal(q, floor, t) :: Achieved(q.salience, t) <= found.value
  }

  ghost predicate RightIfProven(q: Request, floor: Selection, incumbent: Selection) {
    var r := Solved(q, floor, incumbent); r.proven ==> IsBest(q, floor, r.found)
  }

  /** Right for whatever links, budget and limit, from whatever floor and incumbent. */
  ghost predicate AlwaysRight(o: Offer, scope: seq<Uid>) {
    forall q, floor, incumbent | OfferOf(q) == o && q.scope == scope && Startable(q, floor, incumbent) ::
      RightIfProven(q, floor, incumbent)
  }

  function First(q: Request, incumbent: Selection): Found {
    Found(incumbent, CostOf(q.graph.units, incumbent), Achieved(q.salience, incumbent))
  }

  /** Where the bound sees nothing to gain, the search ends at its first node. */
  lemma EndsAtOnce(q: Request, s: Selection)
    requires q.limit >= 1 && Headroom(OfferOf(q), s, q.scope, Remaining(q.budget, CostOf(q.graph.units, s))) == 0.0
    ensures Solved(q, s, s) == Exact(First(q, s), 1, true)
  {
    hide Headroom, Achieved, CostOf;
    assert q.scope[0..] == q.scope;
  }

  function Unlinked(o: Offer, scope: seq<Uid>, budget: nat): Request {
    Request(Graph(o.units, [], [], [], []), scope, o.salience, o.cap, budget, 1)
  }

  lemma UnlinkedGist(o: Offer, scope: seq<Uid>, budget: nat, u: Uid)
    requires u in o.units && budget == UnitCost(o.units[u], 0)
    ensures Legal(Unlinked(o, scope, budget), map[], map[u := 0])
    ensures Achieved(o.salience, map[u := 0]) == Worth(o.salience, u, 0)
    ensures CostOf(o.units, map[]) == 0 && Achieved(o.salience, map[]) == 0.0 && Legal(Unlinked(o, scope, budget), map[], map[])
  {
    var q, s: Selection := Unlinked(o, scope, budget), map[u := 0];
    NothingIsLegal(q);
    assert Costs(o.units, map[]) == map[];
    OfOne(o.units, o.salience, u, 0);
    LevelsAre(q, u, 0);
    assert Brings(Seen(q), u, 0) == [];
    hide Achieved, CostOf, Reachable, Brings;
    assert forall x | x in s :: x == u;
  }

  /** From a level that is held: everything else in place, and the budget spent. */
  lemma FreeUpgradeMissed(o: Offer, scope: seq<Uid>, u: Uid, held: Lod, level: Lod)
    requires AlwaysRight(o, scope) && Reachable(o, u, level) && held < level
    ensures Paid(UpgradeTo(o, u, Some(held), level))
  {
    hide Required, Achieved, CostOf, Closed, Legal, AlwaysRight, Worth, UnitCost;
    var t := Required(Graph(o.units, [], [], [], []), u, level);
    RequiredIs(Graph(o.units, [], [], [], []), u, level);
    var floor := t[u := held];
    assert floor - {u} == t - {u};
    DifferInOne(o.units, o.salience, floor, t, u);
    assert LevelIn(floor, u) == Some(held) && LevelIn(t, u) == Some(level);
    if UpgradeTo(o, u, Some(held), level).cost == 0 {
      UnitCostGrows(o.units[u], held, level);
      FloorLegal(o, scope, u, held, level);
      EndsAtOnce(Unlinked(o, scope, CostOf(o.units, floor)), floor);
      UseAlwaysRight(o, scope, CostOf(o.units, floor), floor, t);
    }
  }

  lemma UnitCostGrows(unit: Unit, low: Lod, high: Lod)
    requires low <= high
    ensures UnitCost(unit, low) <= UnitCost(unit, high)
  {
  }

  lemma UseAlwaysRight(o: Offer, scope: seq<Uid>, budget: nat, s: Selection, t: Selection)
    requires AlwaysRight(o, scope)
    requires var q := Unlinked(o, scope, budget);
             Legal(q, s, s) && Legal(q, s, t) && Solved(q, s, s) == Exact(First(q, s), 1, true)
    ensures Achieved(o.salience, t) <= Achieved(o.salience, s)
  {
    hide Legal, Achieved, CostOf, Solved;
    assert RightIfProven(Unlinked(o, scope, budget), s, s);
  }

  lemma FloorLegal(o: Offer, scope: seq<Uid>, u: Uid, held: Lod, level: Lod)
    requires Reachable(o, u, level) && held < level
    ensures var t := Required(Graph(o.units, [], [], [], []), u, level);
            var floor := t[u := held];
            var q := Unlinked(o, scope, CostOf(o.units, floor));
            Legal(q, floor, floor) && (CostOf(o.units, t) <= CostOf(o.units, floor) ==> Legal(q, floor, t))
  {
    hide Required, CostOf, Closed, Legal;
    var g := Graph(o.units, [], [], [], []);
    RequiredIs(g, u, level);
    FloorCloses(g, Required(g, u, level), u, held);
    LoweredLegal(o, scope, Required(g, u, level), u, held);
  }

  /** A closed selection with one unit lowered, and the selection itself above it. */
  lemma LoweredLegal(o: Offer, scope: seq<Uid>, t: Selection, u: Uid, held: Lod)
    requires u in t && held < t[u] && Reachable(o, u, t[u])
    requires var g := Graph(o.units, [], [], [], []); Closed(g, t) && Closed(g, t[u := held])
    ensures var floor := t[u := held];
            var q := Unlinked(o, scope, CostOf(o.units, floor));
            Legal(q, floor, floor) && (CostOf(o.units, t) <= CostOf(o.units, floor) ==> Legal(q, floor, t))
  {
    hide CostOf, Closed, Reachable;
    var floor := t[u := held];
    var q := Unlinked(o, scope, CostOf(o.units, floor));
    assert Seen(q) == Graph(o.units, [], [], [], []) && OfferOf(q) == o;
    assert Below(floor, floor) && Below(floor, t);
    assert Levelled(q, floor, t);
  }

  lemma FloorCloses(g: Graph, t: Selection, u: Uid, held: Lod)
    requires Closed(g, t) && u in t && held <= t[u]
    ensures Closed(g, t[u := held])
  {
    BringsMore(g, u, held, t[u]);
    hide Brings;
    var floor := t[u := held];
    forall x | x in floor
      ensures Bound(g, floor, x)
    {
      assert Bound(g, t, x);
    }
  }

  lemma FreeUnitMissed(o: Offer, scope: seq<Uid>, u: Uid, level: Lod)
    requires AlwaysRight(o, scope) && Reachable(o, u, level)
    ensures Paid(UpgradeTo(o, u, None, level))
  {
    var up := UpgradeTo(o, u, None, level);
    if up.cost == 0 {
      UnlinkedGist(o, scope, 0, u);
      hide Achieved, CostOf, Legal, AlwaysRight;
      EndsAtOnce(Unlinked(o, scope, 0), map[]);
      UseAlwaysRight(o, scope, 0, map[], map[u := 0]);
    }
  }

  /**
    Proven means best, whatever the links, the budget, the limit, the floor and the incumbent,
    exactly when nothing in scope is to be gained for nothing.
   */
  lemma RightExactly(o: Offer, scope: seq<Uid>)
    requires Local(o, scope)
    ensures AlwaysRight(o, scope) <==> NoFreeGain(o, scope)
  {
    hide Solved, Legal, Achieved, Available, UpgradeTo, Paid, Local;
    if NoFreeGain(o, scope) {
      forall q, floor, incumbent | OfferOf(q) == o && q.scope == scope && Startable(q, floor, incumbent)
        ensures RightIfProven(q, floor, incumbent)
      {
        ProvenIsGreatest(q, floor, incumbent);
      }
    }
    if AlwaysRight(o, scope) {
      forall u, held: Option<Lod>, level | u in scope && Reachable(o, u, level) && Higher(held, level)
        ensures Paid(UpgradeTo(o, u, held, level))
      {
        match held
        case Some(h) => FreeUpgradeMissed(o, scope, u, h, level);
        case None => FreeUnitMissed(o, scope, u, level);
      }
    }
  }

  /** Right for whatever units and cap, as long as nothing in scope is to be gained for nothing. */
  ghost predicate RightWhereverPriced(salience: map<Uid, real>, scope: seq<Uid>) {
    forall o: Offer | o.salience == salience && NoFreeGain(o, scope) :: AlwaysRight(o, scope)
  }

  lemma {:induction false} UnknownItems(o: Offer, s: Selection, scope: seq<Uid>)
    requires forall u | u in scope :: u !in o.units
    ensures Items(o, s, scope) == []
  {
    if scope != [] {
      UnknownItems(o, s, scope[1..]);
    }
  }

  /** The one unit there is lies outside the scope, and nothing comes to it. */
  lemma OutsideMissed(salience: map<Uid, real>, scope: seq<Uid>, u: Uid)
    requires RightWhereverPriced(salience, scope) && u !in scope
    ensures u in salience ==> salience[u] <= 0.0
  {
    var o := Offer(map[u := Unit(1, None, None, [])], salience, None);
    UnlinkedGist(o, scope, 1, u);
    UnknownItems(o, map[], scope);
    hide Achieved, CostOf, Legal, AlwaysRight;
    assert Headroom(o, map[], scope, 1) == 0.0;
    EndsAtOnce(Unlinked(o, scope, 1), map[]);
    assert NoFreeGain(o, scope);
    UseAlwaysRight(o, scope, 1, map[], map[u := 0]);
  }

  /** That is so exactly when only units of the scope are salient. */
  lemma ScopeExactly(salience: map<Uid, real>, scope: seq<Uid>)
    ensures RightWhereverPriced(salience, scope) <==> forall u | u in salience :: u in scope || salience[u] <= 0.0
  {
    hide AlwaysRight, NoFreeGain;
    if forall u | u in salience :: u in scope || salience[u] <= 0.0 {
      forall o: Offer | o.salience == salience && NoFreeGain(o, scope)
        ensures AlwaysRight(o, scope)
      {
        RightExactly(o, scope);
      }
    }
    if RightWhereverPriced(salience, scope) {
      forall u | u in salience
        ensures u in scope || salience[u] <= 0.0
      {
        if u !in scope {
          OutsideMissed(salience, scope, u);
        }
      }
    }
  }

  /** One unit whose body costs nothing, held by its gist on a budget that is spent. */
  function FreeBody(): Request {
    Request(Graph(map[1 := Unit(1, Some(0), None, [])], [], [], [], []), [1], map[1 := 1.0], None, 1, 1)
  }

  lemma FreeBodyLegal(level: Lod)
    requires level <= 1
    ensures var q, s := FreeBody(), map[1 := level];
            Legal(q, map[1 := 0], s) && CostOf(q.graph.units, s) == 1
    ensures Achieved(FreeBody().salience, map[1 := level]) == Gain(level)
  {
    var q, s: Selection := FreeBody(), map[1 := level];
    OfOne(q.graph.units, q.salience, 1, level);
    assert 0 in Available(q.graph.units[1]) && 1 in Available(q.graph.units[1]);
    assert Reachable(OfferOf(q), 1, level) by {
      assert Capped(None, level) == level;
    }
    assert Brings(Seen(q), 1, level) == [];
    hide Achieved, CostOf, Brings, Reachable;
    assert forall u | u in s :: u == 1;
  }

  /** What costs nothing is not looked at: the gist is proven best, and the body is worth more. */
  lemma FreeBodyMissed()
    ensures var q, held, full := FreeBody(), map[1 := 0], map[1 := 1];
            && Legal(q, held, held) && Legal(q, held, full)
            && Solved(q, held, held) == Exact(Found(held, 1, 1.0), 1, true)
            && Achieved(q.salience, full) == 1.6
  {
    FreeBodyLegal(0);
    FreeBodyLegal(1);
    hide Achieved, CostOf, Legal;
  }
}
