/**
  The supports of a request, which the search does not see, and exactly when its results keep them:
  when every support is brought by the other links as well.
 */
module PackSupports {
  import opened Bytes
  import opened PackModel
  import opened PackClosure
  import opened PackBound
  import opened PackSearch
  import opened PackBest

  function Supports(g: Graph, u: Uid): seq<Uid> {
    Known(g, Targets(g.supports, u))
  }

  /** Whatever has a support above its gist requires it by its other links as well. */
  ghost predicate SupportsBrought(q: Request) {
    forall u, level, v | Reachable(OfferOf(q), u, level) && level >= 1 && v in Supports(q.graph, u) ::
      v in Required(Seen(q), u, level)
  }

  lemma KnownAlike(g: Graph, h: Graph, us: seq<Uid>)
    requires g.units == h.units
    ensures Known(g, us) == Known(h, us)
  {
  }

  lemma BringsSupports(q: Request, u: Uid, level: Lod)
    ensures forall v :: v in Brings(q.graph, u, level)
                  <==> v in Brings(Seen(q), u, level) || (u in q.graph.units && level >= 1 && v in Supports(q.graph, u))
  {
    var g, h := q.graph, Seen(q);
    if u in g.units {
      KnownAlike(g, h, g.units[u].references);
      KnownAlike(g, h, Targets(g.warrants, u));
      KnownAlike(g, h, Sources(g.rebuttals, u));
      KnownAlike(g, h, Positions(g.contentions, u));
      assert Known(h, Targets(h.supports, u)) == [];
    }
    hide Known, Targets, Sources, Positions;
  }

  /** Every support of what `s` holds above its gist is held too. */
  ghost predicate Supported(q: Request, s: Selection) {
    forall u, v | u in s && u in q.graph.units && s[u] >= 1 && v in Supports(q.graph, u) :: v in s
  }

  /** What C8 adds to the other constraints. */
  lemma ClosedIsSupported(q: Request, s: Selection)
    ensures Closed(q.graph, s) <==> Closed(Seen(q), s) && Supported(q, s)
  {
    hide Brings, Supports;
    forall u | u in s
      ensures Bound(q.graph, s, u)
         <==> Bound(Seen(q), s, u)
              && (u in q.graph.units && s[u] >= 1 ==> forall v | v in Supports(q.graph, u) :: v in s)
    {
      BringsSupports(q, u, s[u]);
    }
  }

  /** A legal selection over a floor that has its supports has its own. */
  lemma LegalSupported(q: Request, floor: Selection, s: Selection)
    requires SupportsBrought(q) && Closed(q.graph, floor) && Legal(q, floor, s)
    ensures Closed(q.graph, s)
  {
    ClosedIsSupported(q, floor);
    ClosedIsSupported(q, s);
    hide Required, Closed, CostOf, Supports, Reachable;
    forall u, v | u in s && u in q.graph.units && s[u] >= 1 && v in Supports(q.graph, u)
      ensures v in s
    {
      if LevelIn(floor, u) == LevelIn(s, u) {
        assert v in floor;
      } else {
        assert Reachable(OfferOf(q), u, s[u]);
        RequiredIs(Seen(q), u, s[u]);
      }
    }
  }

  /** Every selection that the search takes for closed keeps its supports. */
  ghost predicate SelectionsKeep(q: Request) {
    forall s | Closed(Seen(q), s) && Levelled(q, map[], s) :: Closed(q.graph, s)
  }

  lemma RequiredLevelled(q: Request, u: Uid, level: Lod)
    requires Reachable(OfferOf(q), u, level)
    ensures Levelled(q, map[], Required(Seen(q), u, level))
  {
    var r := Required(Seen(q), u, level);
    RequiredIs(Seen(q), u, level);
    hide Required, Closed, Reachable;
    forall x | x in r
      ensures Reachable(OfferOf(q), x, r[x])
    {
      assert AtGistOr(Seen(q), Want(u, level), r, x);
      if x in q.graph.units {
        LevelsAre(q, x, 0);
      }
    }
  }

  /** They do exactly when every support is brought by the other links. */
  lemma SelectionsExactly(q: Request)
    ensures SelectionsKeep(q) <==> SupportsBrought(q)
  {
    hide Required, Closed, Levelled, Supports, Reachable;
    if SupportsBrought(q) {
      forall s | Closed(Seen(q), s) && Levelled(q, map[], s)
        ensures Closed(q.graph, s)
      {
        var q' := q.(budget := CostOf(q.graph.units, s));
        SameButBudget(q, q', s);
        LegalSupported(q', map[], s);
      }
    }
    if SelectionsKeep(q) {
      forall u, level, v | Reachable(OfferOf(q), u, level) && level >= 1 && v in Supports(q.graph, u)
        ensures v in Required(Seen(q), u, level)
      {
        var r := Required(Seen(q), u, level);
        RequiredIs(Seen(q), u, level);
        RequiredLevelled(q, u, level);
        ClosedIsSupported(q, r);
        ReachableKnown(q, u, level);
      }
    }
  }

  lemma ReachableKnown(q: Request, u: Uid, level: Lod)
    requires Reachable(OfferOf(q), u, level)
    ensures u in q.graph.units
  {
  }

  lemma SameButBudget(q: Request, r: Request, s: Selection)
    requires r == q.(budget := CostOf(q.graph.units, s)) && SupportsBrought(q)
    requires Closed(Seen(q), s) && Levelled(q, map[], s)
    ensures SupportsBrought(r) && Legal(r, map[], s) && Closed(r.graph, map[])
  {
    hide Required, CostOf, Supports, Reachable, Bound;
    assert Seen(r) == Seen(q) && OfferOf(r) == OfferOf(q);
    assert Levelled(r, map[], s) by {
      hide Closed;
    }
  }

  /** So what the search finds keeps its supports, if what it started with does. */
  lemma ResultSupported(q: Request, floor: Selection, incumbent: Selection)
    requires SupportsBrought(q) && Legal(q, floor, floor) && Closed(q.graph, floor) && Closed(q.graph, incumbent)
    ensures Closed(q.graph, Solved(q, floor, incumbent).found.selection)
  {
    SolvedSound(q, floor, incumbent);
    hide SupportsBrought, Legal, Closed, Solved, Achieved, CostOf;
    if Solved(q, floor, incumbent).found.selection != incumbent {
      LegalSupported(q, floor, Solved(q, floor, incumbent).found.selection);
    }
  }

  /** No level of any unit costs anything. */
  ghost predicate AllFree(q: Request) {
    forall u, level | Reachable(OfferOf(q), u, level) :: UnitCost(q.graph.units[u], level) == 0
  }

  /** The result keeps its supports, whatever is salient and in scope, whatever the budget and the limit. */
  ghost predicate AlwaysSupported(q: Request) {
    forall r: Request, floor, incumbent |
      r.graph == q.graph && r.cap == q.cap && Startable(r, floor, incumbent)
      && Closed(q.graph, floor) && Closed(q.graph, incumbent) ::
      Closed(q.graph, Solved(r, floor, incumbent).found.selection)
  }

  lemma {:induction false} NoFreeUpgrades(o: Offer, u: Uid, held: Option<Lod>, levels: seq<Lod>)
    requires u in o.units && forall l | l in levels :: UnitCost(o.units[u], Capped(o.cap, l)) == 0
    ensures Upgrades(o, u, held, levels) == []
  {
    hide UnitCost, Capped, Worth;
    if levels != [] {
      NoFreeUpgrades(o, u, held, levels[1..]);
    }
  }

  lemma {:induction false} FreeItems(q: Request, s: Selection, scope: seq<Uid>)
    requires AllFree(q)
    ensures Items(OfferOf(q), s, scope) == []
  {
    if scope != [] {
      FreeItems(q, s, scope[1..]);
      var o, u := OfferOf(q), scope[0];
      if u in o.units {
        forall l | l in Available(o.units[u])
          ensures UnitCost(o.units[u], Capped(o.cap, l)) == 0
        {
          assert Reachable(o, u, Capped(o.cap, l));
        }
        NoFreeUpgrades(o, u, LevelIn(s, u), Available(o.units[u]));
      }
    }
  }

  /** Where the bound sees nothing to gain, the search finds the incumbent or the floor. */
  lemma FindsFirstOrFloor(q: Request, floor: Selection, incumbent: Selection)
    requires Headroom(OfferOf(q), floor, q.scope, Remaining(q.budget, CostOf(q.graph.units, floor))) == 0.0
    ensures Solved(q, floor, incumbent).found.selection in {floor, incumbent}
  {
    hide Headroom, Achieved, CostOf;
    assert q.scope[0..] == q.scope;
  }

  /** At the limit nothing more is found. */
  lemma DescentAtLimit(q: Request, index: nat, s: Selection, used: nat, st: State)
    requires index <= |q.scope| && st.nodes >= q.limit
    ensures Descent(q, index, s, used, st).0.best == st.best
  {
    hide Achieved;
  }

  lemma {:induction false} AnchorsAtLimit(q: Request, index: nat, s: Selection, levels: seq<Lod>, st: State)
    requires index < |q.scope| && st.nodes >= q.limit
    ensures Anchors(q, index, s, levels, st).0.best == st.best && Anchors(q, index, s, levels, st).0.nodes >= st.nodes
    decreases |levels|
  {
    hide Anchored, CostOf, Achieved;
    if levels != [] {
      match Anchored(q, s, q.scope[index], levels[0])
      case None => AnchorsAtLimit(q, index, s, levels[1..], st);
      case Some(next) => AnchorsAtLimit(q, index, s, levels[1..], State(st.best, st.nodes + 1));
    }
  }

  /** With two nodes to visit, an anchor of the first unit that is worth more is what is found. */
  lemma FirstAnchorFound(q: Request, next: Selection)
    requires q.limit == 2 && q.scope != [] && q.scope[0] in q.graph.units && Achieved(q.salience, next) > 0.0
    requires Headroom(OfferOf(q), map[], q.scope, Remaining(q.budget, CostOf(q.graph.units, map[]))) > 0.0
    requires var levels := LevelsOf(q, q.scope[0]);
             levels != [] && Anchored(q, map[], q.scope[0], levels[0]) == Some(next)
    ensures Solved(q, map[], map[]).found.selection == next
  {
    hide Headroom, Achieved, CostOf, Anchored, LevelsOf, Legal;
    NothingIsLegal(q);
    var empty: Selection := map[];
    var used, u := CostOf(q.graph.units, empty), q.scope[0];
    var st := State(First(q, empty), 1);
    var levels := LevelsOf(q, u);
    assert q.scope[0..] == q.scope;
    NextFound(q, next, st);
    var cost := CostOf(q.graph.units, next);
    var st2 := Descent(q, 1, next, cost, st).0;
    AnchorsAtLimit(q, 0, empty, levels[1..], st2);
    var st3 := Anchors(q, 0, empty, levels, st).0;
    assert st3.best == st2.best && st3.nodes >= 2;
    DescentAtLimit(q, 1, empty, used, st3);
  }

  lemma NextFound(q: Request, next: Selection, st: State)
    requires q.limit == 2 && q.scope != [] && st.nodes == 1 && Achieved(q.salience, next) > st.best.value
    ensures var r := Descent(q, 1, next, CostOf(q.graph.units, next), st).0;
            r.best.selection == next && r.nodes >= 2
  {
    hide Achieved, CostOf, Pruned, LevelsOf, Anchored;
    var cost := CostOf(q.graph.units, next);
    var st' := Visit(q, next, cost, st);
    if |q.scope| > 1 && !Pruned(q, 1, next, cost, st'.best.value) {
      var u := q.scope[1];
      if u !in q.graph.units {
        DescentAtLimit(q, 2, next, cost, st');
        DescentOnward(q, 2, next, cost, st');
      } else {
        var r := Anchors(q, 1, next, LevelsOf(q, u), st').0;
        AnchorsAtLimit(q, 1, next, LevelsOf(q, u), st');
        DescentAtLimit(q, 2, next, cost, r);
        DescentOnward(q, 2, next, cost, r);
      }
    }
  }

  /** Where nothing is worth less than nothing, a selection is worth what any one unit of it is. */
  lemma WorthOfOne(salience: map<Uid, real>, s: Selection, u: Uid)
    requires u in s && forall x | x in salience :: salience[x] >= 0.0
    ensures Achieved(salience, s) >= Worth(salience, u, s[u])
  {
    WithoutOne(map[], salience, s, u);
    forall x | x in s - {u}
      ensures Worth(salience, x, (s - {u})[x]) >= 0.0
    {
      if x in salience {
        Scaled(0.0, salience[x], Gain(s[x]));
      }
    }
    SumsCompare(map[], Worths(salience, s - {u}));
  }

  /** Above the gist, how deep a unit is held makes no difference to what it brings. */
  lemma DeeperBringsNoMore(g: Graph, u: Uid, level: Lod, top: Lod)
    requires 1 <= level <= top
    ensures forall v | v in Required(g, u, top) :: v in Required(g, u, level)
  {
    var r := Required(g, u, level);
    RequiredIs(g, u, level);
    RequiredIs(g, u, top);
    assert Brings(g, u, level) == Brings(g, u, top);
    hide Required, Brings;
    var t := r[u := top];
    assert r[u] >= level && AtGistOr(g, Want(u, level), r, u);
    assert r[u] == level;
    forall x | x in t
      ensures Bound(g, t, x)
    {
      assert Bound(g, r, x);
    }
    assert Met(t, Want(u, top));
  }

  /** What the first anchor adds to nothing is all that the unit requires. */
  lemma AnchoredFromNothing(q: Request, u: Uid, level: Lod)
    requires CostOf(q.graph.units, Required(Seen(q), u, level)) <= q.budget
    ensures Anchored(q, map[], u, level) == Some(Required(Seen(q), u, level))
  {
    var need := Required(Seen(q), u, level);
    RequiredIs(Seen(q), u, level);
    hide Required, Closed, CostOf;
    assert Shortfall(need, map[]) == need && Raised(map[], need) == need;
    assert u in need;
  }

  /** Two units in scope, the budget for one with what it requires and for the other, and two nodes. */
  function TwoNodes(q: Request, u: Uid, w: Uid, budget: nat): Request {
    Request(q.graph, [u, w], map[u := 1.0, w := 1.0], q.cap, budget, 2)
  }

  lemma TwoNodesFind(q: Request, u: Uid, top: Lod, w: Uid, a: Lod, budget: nat)
    requires u in q.graph.units && LevelsOf(q, u) != [] && LevelsOf(q, u)[0] == top
    requires Reachable(OfferOf(q), w, a) && UnitCost(q.graph.units[w], a) > 0
    requires budget == CostOf(q.graph.units, Required(Seen(q), u, top)) + 1
    ensures Solved(TwoNodes(q, u, w, budget), map[], map[]).found.selection == Required(Seen(q), u, top)
  {
    hide Required, LevelsOf, Reachable, UnitCost, Headroom, Achieved, CostOf, Solved, Closed;
    var r := TwoNodes(q, u, w, budget);
    TwoNodesAre(q, u, top, w, a, budget);
    AnchoredFromNothing(r, u, top);
    hide Anchored;
    FirstAnchorFound(r, Required(Seen(q), u, top));
  }

  /** Such a request has something to gain at first, and the unit is worth something. */
  lemma TwoNodesAre(q: Request, u: Uid, top: Lod, w: Uid, a: Lod, budget: nat)
    requires u in q.graph.units && budget > 0 && Reachable(OfferOf(q), w, a) && UnitCost(q.graph.units[w], a) > 0
    ensures var r := TwoNodes(q, u, w, budget);
            && Seen(r) == Seen(q) && LevelsOf(r, u) == LevelsOf(q, u) && CostOf(r.graph.units, map[]) == 0
            && Achieved(r.salience, Required(Seen(q), u, top)) > 0.0
            && Headroom(OfferOf(r), map[], r.scope, budget) > 0.0
  {
    TwoNodesWorth(q, u, top, w, budget);
    TwoNodesHeadroom(q, u, w, a, budget);
    var r := TwoNodes(q, u, w, budget);
    assert Seen(r) == Seen(q) && LevelsOf(r, u) == LevelsOf(q, u);
    assert Costs(r.graph.units, map[]) == map[];
    hide Achieved, Headroom, LevelsOf, Required;
  }

  lemma TwoNodesWorth(q: Request, u: Uid, top: Lod, w: Uid, budget: nat)
    ensures Achieved(TwoNodes(q, u, w, budget).salience, Required(Seen(q), u, top)) > 0.0
  {
    hide Required, Closed, Achieved;
    RequiredIs(Seen(q), u, top);
    WorthOfOne(TwoNodes(q, u, w, budget).salience, Required(Seen(q), u, top), u);
  }

  lemma TwoNodesHeadroom(q: Request, u: Uid, w: Uid, a: Lod, budget: nat)
    requires budget > 0 && Reachable(OfferOf(q), w, a) && UnitCost(q.graph.units[w], a) > 0
    ensures var r := TwoNodes(q, u, w, budget); Headroom(OfferOf(r), map[], r.scope, budget) > 0.0
  {
    var r := TwoNodes(q, u, w, budget);
    assert Reachable(OfferOf(r), w, a);
    hide UnitCost, Headroom, Items, ItemOf, Reachable;
    PaidItem(OfferOf(r), map[], w, a);
    SomeItem(OfferOf(r), map[], r.scope, w);
    HeadroomSome(OfferOf(r), map[], r.scope, budget);
  }

  lemma UnsupportedFound(q: Request, u: Uid, level: Lod, v: Uid, w: Uid, a: Lod)
    requires Reachable(OfferOf(q), u, level) && level >= 1 && v in Supports(q.graph, u)
    requires v !in Required(Seen(q), u, level)
    requires Reachable(OfferOf(q), w, a) && UnitCost(q.graph.units[w], a) > 0
    ensures !AlwaysSupported(q)
  {
    hide Required, Reachable, Supports, UnitCost, Solved, CostOf, Closed, Achieved, Legal;
    ReachableKnown(q, u, level);
    LevelsAre(q, u, level);
    var levels := LevelsOf(q, u);
    hide LevelsOf;
    var top := levels[0];
    assert top >= level;
    var next := Required(Seen(q), u, top);
    var r := TwoNodes(q, u, w, CostOf(q.graph.units, next) + 1);
    TwoNodesFind(q, u, top, w, a, r.budget);
    DeeperBringsNoMore(Seen(q), u, level, top);
    RequiredIs(Seen(q), u, top);
    ClosedIsSupported(q, next);
    ClosedIsSupported(q, map[]);
    NothingIsLegal(r);
    assert !Supported(q, next);
    ClosedNothing(q.graph);
    assert Startable(r, map[], map[]);
    assert !Closed(q.graph, Solved(r, map[], map[]).found.selection);
  }

  lemma ClosedNothing(g: Graph)
    ensures Closed(g, map[])
  {
  }

  /**
    The search keeps supports, whatever it starts from and looks for, exactly when the other links
    bring every one of them, or nothing at all costs anything: then it never begins.
   */
  lemma SupportedExactly(q: Request)
    ensures AlwaysSupported(q) <==> SupportsBrought(q) || AllFree(q)
  {
    hide Required, Reachable, Supports, UnitCost, Solved, CostOf, Closed, Achieved, Legal, Headroom;
    if SupportsBrought(q) || AllFree(q) {
      forall r: Request, floor, incumbent |
        r.graph == q.graph && r.cap == q.cap && Startable(r, floor, incumbent)
        && Closed(q.graph, floor) && Closed(q.graph, incumbent)
        ensures Closed(q.graph, Solved(r, floor, incumbent).found.selection)
      {
        SameLinks(q, r);
        if SupportsBrought(q) {
          ResultSupported(r, floor, incumbent);
        } else {
          FreeItems(r, floor, r.scope);
          HeadroomSome(OfferOf(r), floor, r.scope, Remaining(r.budget, CostOf(r.graph.units, floor)));
          FindsFirstOrFloor(r, floor, incumbent);
        }
      }
    } else {
      var u, level, v :| Reachable(OfferOf(q), u, level) && level >= 1 && v in Supports(q.graph, u)
                         && v !in Required(Seen(q), u, level);
      var w, a := PaidLevel(q);
      UnsupportedFound(q, u, level, v, w, a);
    }
  }

  lemma PaidLevel(q: Request) returns (w: Uid, a: Lod)
    requires !AllFree(q)
    ensures Reachable(OfferOf(q), w, a) && UnitCost(q.graph.units[w], a) > 0
  {
    hide UnitCost;
    w, a :| Reachable(OfferOf(q), w, a) && UnitCost(q.graph.units[w], a) != 0;
  }

  lemma SameLinks(q: Request, r: Request)
    requires r.graph == q.graph && r.cap == q.cap
    ensures SupportsBrought(q) == SupportsBrought(r) && AllFree(q) == AllFree(r)
  {
    hide Required, Supports, UnitCost;
    assert Seen(q) == Seen(r);
    assert forall u, level: Lod :: Reachable(OfferOf(q), u, level) == Reachable(OfferOf(r), u, level);
  }

  /** A claim resting on another by a support link, and a budget for the claim alone. */
  function Resting(): Request {
    Request(Graph(map[1 := Unit(1, Some(1), None, []), 2 := Unit(1, None, None, [])], [], [], [], [Link(1, 2)]),
            [1], map[1 := 1.0], None, 2, 5)
  }

  lemma RestingLegal(level: Lod)
    requires level <= 1
    ensures Legal(Resting(), map[], map[1 := level])
    ensures Achieved(Resting().salience, map[1 := level]) == Gain(level)
  {
    var q, s: Selection := Resting(), map[1 := level];
    OfOne(q.graph.units, q.salience, 1, level);
    assert 0 in Available(q.graph.units[1]) && 1 in Available(q.graph.units[1]);
    assert Reachable(OfferOf(q), 1, level) by {
      assert Capped(None, level) == level;
    }
    assert Brings(Seen(q), 1, level) == [];
    hide Achieved, CostOf, Brings, Reachable;
    assert forall u | u in s :: u == 1;
  }

  lemma RestingBest(s: Selection)
    requires Levelled(Resting(), map[], s) && CostOf(Resting().graph.units, s) <= 2
    requires Achieved(Resting().salience, s) >= 1.6
    ensures s == map[1 := 1]
  {
    var q := Resting();
    RestingLevels(s);
    OfTwo(q.graph.units, q.salience, s, 1, 2);
    hide Levelled, Achieved, CostOf;
    assert LevelIn(s, 1) == Some(1);
    assert LevelIn(s, 2) == None;
  }

  lemma RestingLevels(s: Selection)
    requires Levelled(Resting(), map[], s)
    ensures forall u | u in s :: (u == 1 || u == 2) && (u == 1 ==> s[u] <= 1)
  {
    forall u | u in s
      ensures (u == 1 || u == 2) && (u == 1 ==> s[u] <= 1)
    {
      assert Reachable(OfferOf(Resting()), u, s[u]);
    }
  }

  lemma RestingPriceable()
    ensures Priceable(Resting()) && Resting().limit >= TreeSize(|Resting().scope|)
  {
    assert TreeSize(1) == 1 + 4 * TreeSize(0);
    PaidTexts(OfferOf(Resting()), Resting().scope);
    hide NoFreeGain;
  }

  lemma RestingOpen()
    ensures !Closed(Resting().graph, map[1 := 1])
  {
    var g, s: Selection := Resting().graph, map[1 := 1];
    assert 2 in Targets(g.supports, 1);
    assert 2 in Brings(g, 1, 1);
    assert Closed(g, s) ==> Bound(g, s, 1);
  }

  lemma GreatestOfResting(r: Exact)
    requires Sound(Resting(), map[], r.found)
    requires r.found.value >= Achieved(Resting().salience, map[1 := 1]) == Gain(1)
    ensures r.found.selection == map[1 := 1]
  {
    hide Achieved, CostOf, Levelled, Closed, Below;
    RestingBest(r.found.selection);
  }

  lemma RestingSolved()
    ensures var r := Solved(Resting(), map[], map[1 := 0]);
            r.proven && Sound(Resting(), map[], r.found) && r.found.value >= Achieved(Resting().salience, map[1 := 1])
  {
    hide *;
    var q := Resting();
    RestingLegal(0);
    RestingLegal(1);
    NothingIsLegal(q);
    RestingPriceable();
    SmallIsProven(q, map[], map[1 := 0]);
    ProvenIsGreatest(q, map[], map[1 := 0]);
  }

  /** The support is not seen: what is proven best is the claim without what it rests on. */
  lemma SupportMissed()
    ensures var q := Resting(); var r := Solved(q, map[], map[1 := 0]);
            && r.proven && r.found.selection == map[1 := 1] && !Closed(q.graph, r.found.selection)
  {
    hide *;
    RestingSolved();
    RestingLegal(1);
    GreatestOfResting(Solved(Resting(), map[], map[1 := 0]));
    RestingOpen();
  }
}
