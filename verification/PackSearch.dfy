/**
  Exact packing: a branch and bound over units in order, each at one of its levels or not at all,
  with everything that a level brings. When it ends by itself, and nothing is to be gained for nothing,
  nothing within the budget is better.
 */
module PackSearch {
  import opened Bytes
  import opened PackModel
  import opened PackClosure
  import opened PackBound
  import PackExact

  datatype Request = Request(graph: Graph, scope: seq<Uid>, salience: map<Uid, real>, cap: Option<Lod>,
                             budget: nat, limit: nat)

  /** A selection with what it costs and is worth. */
  datatype Found = Found(selection: Selection, used: nat, value: real)

  datatype State = State(best: Found, nodes: nat)

  datatype Exact = Exact(found: Found, nodes: nat, proven: bool)

  /** What the search closes over: it does not see the support links of the request. */
  function Seen(q: Request): Graph {
    q.graph.(supports := [])
  }

  function OfferOf(q: Request): Offer {
    Offer(q.graph.units, q.salience, q.cap)
  }

  // ---------------------------------------------------------------------------
  // The search as a function
  // ---------------------------------------------------------------------------

  function CappedLevels(cap: Option<Lod>, levels: seq<Lod>): (r: seq<Lod>)
    ensures forall l :: l in r <==> exists a :: a in levels && Capped(cap, a) == l
  {
    if levels == [] then [] else [Capped(cap, levels[0])] + CappedLevels(cap, levels[1..])
  }

  /** Each level that is there, once, the deepest first. */
  function DeepestFirst(levels: seq<Lod>): (r: seq<Lod>)
    ensures forall l :: l in r <==> l in levels
    ensures forall i, j :: 0 <= i < j < |r| ==> r[i] > r[j]
  {
    (if 2 in levels then [2] else []) + (if 1 in levels then [1] else []) + (if 0 in levels then [0] else [])
  }

  function LevelsOf(q: Request, u: Uid): seq<Lod>
    requires u in q.graph.units
  {
    DeepestFirst(CappedLevels(q.cap, Available(q.graph.units[u])))
  }

  /** The selection with a unit anchored at a level, unless that adds nothing or costs too much. */
  ghost function Anchored(q: Request, s: Selection, u: Uid, level: Lod): Option<Selection> {
    if Met(s, Want(u, level)) then None
    else
      var d := Shortfall(Required(Seen(q), u, level), s);
      if d == map[] then None
      else
        var next := Raised(s, d);
        if CostOf(q.graph.units, next) > q.budget then None else Some(next)
  }

  /** Whether the bound says that nothing better lies this way. */
  function Pruned(q: Request, index: nat, s: Selection, used: nat, best: real): bool
    requires index <= |q.scope|
  {
    var headroom := Headroom(OfferOf(q), s, q.scope[index..], Remaining(q.budget, used));
    Achieved(q.salience, s) + headroom <= best
  }

  /** The better of two, the first of two as good. */
  function Better(best: Found, f: Found): Found {
    if f.value > best.value then f else best
  }

  function Visit(q: Request, s: Selection, used: nat, st: State): State {
    State(Better(st.best, Found(s, used, Achieved(q.salience, s))), st.nodes + 1)
  }

  /** The search below a selection, from a unit of the scope on, and whether it hit the limit. */
  ghost function Descent(q: Request, index: nat, s: Selection, used: nat, st: State): (State, bool)
    requires index <= |q.scope|
    decreases |q.scope| - index, 1, 0
  {
    var st' := Visit(q, s, used, st);
    if st'.nodes > q.limit then (State(st.best, st'.nodes), true)
    else if index == |q.scope| || Pruned(q, index, s, used, st'.best.value) then (st', false)
    else
      var u := q.scope[index];
      if u !in q.graph.units then Descent(q, index + 1, s, used, st')
      else
        var (st2, limited2) := Anchors(q, index, s, LevelsOf(q, u), st');
        var (st3, limited3) := Descent(q, index + 1, s, used, st2);
        (st3, limited2 || limited3)
  }

  /** The branches that anchor a unit, one for each level. */
  ghost function Anchors(q: Request, index: nat, s: Selection, levels: seq<Lod>, st: State): (State, bool)
    requires index < |q.scope|
    decreases |q.scope| - index, 0, |levels|
  {
    if levels == [] then (st, false)
    else
      match Anchored(q, s, q.scope[index], levels[0])
      case None => Anchors(q, index, s, levels[1..], st)
      case Some(next) =>
        var (st2, limited2) := Descent(q, index + 1, next, CostOf(q.graph.units, next), st);
        var (st3, limited3) := Anchors(q, index, s, levels[1..], st2);
        (st3, limited2 || limited3)
  }

  ghost function Solved(q: Request, floor: Selection, incumbent: Selection): Exact {
    var first := Found(incumbent, CostOf(q.graph.units, incumbent), Achieved(q.salience, incumbent));
    var (st, limited) := Descent(q, 0, floor, CostOf(q.graph.units, floor), State(first, 0));
    Exact(st.best, st.nodes, !limited)
  }

  // ---------------------------------------------------------------------------
  // What the search never loses
  // ---------------------------------------------------------------------------

  /** It is limited exactly when it has counted past the limit, and never falls back. */
  ghost predicate Onward(q: Request, st: State, r: (State, bool)) {
    && r.0.best.value >= st.best.value && r.0.nodes >= st.nodes
    && (r.1 || st.nodes > q.limit <==> r.0.nodes > q.limit)
  }

  lemma {:induction false} DescentOnward(q: Request, index: nat, s: Selection, used: nat, st: State)
    requires index <= |q.scope|
    ensures Onward(q, st, Descent(q, index, s, used, st))
    decreases |q.scope| - index, 1, 0
  {
    hide Pruned, LevelsOf, Achieved;
    var st' := Visit(q, s, used, st);
    if st'.nodes <= q.limit && index < |q.scope| && !Pruned(q, index, s, used, st'.best.value) {
      var u := q.scope[index];
      if u !in q.graph.units {
        DescentOnward(q, index + 1, s, used, st');
      } else {
        AnchorsOnward(q, index, s, LevelsOf(q, u), st');
        DescentOnward(q, index + 1, s, used, Anchors(q, index, s, LevelsOf(q, u), st').0);
      }
    }
  }

  lemma {:induction false} AnchorsOnward(q: Request, index: nat, s: Selection, levels: seq<Lod>, st: State)
    requires index < |q.scope|
    ensures Onward(q, st, Anchors(q, index, s, levels, st))
    decreases |q.scope| - index, 0, |levels|
  {
    hide Anchored, CostOf;
    if levels != [] {
      match Anchored(q, s, q.scope[index], levels[0])
      case None => AnchorsOnward(q, index, s, levels[1..], st);
      case Some(next) =>
        var cost := CostOf(q.graph.units, next);
        DescentOnward(q, index + 1, next, cost, st);
        AnchorsOnward(q, index, s, levels[1..], Descent(q, index + 1, next, cost, st).0);
    }
  }

  // ---------------------------------------------------------------------------
  // What the search may return
  // ---------------------------------------------------------------------------

  /** Every unit at a level it can have, or as the floor has it. */
  ghost predicate Levelled(q: Request, floor: Selection, s: Selection) {
    forall u | u in s :: LevelIn(floor, u) == LevelIn(s, u) || Reachable(OfferOf(q), u, s[u])
  }

  /** Closed, above the floor, within the budget. */
  ghost predicate Legal(q: Request, floor: Selection, s: Selection) {
    && Closed(Seen(q), s) && Below(floor, s) && Levelled(q, floor, s) && CostOf(q.graph.units, s) <= q.budget
  }

  ghost predicate Sound(q: Request, floor: Selection, f: Found) {
    && Legal(q, floor, f.selection)
    && f.used == CostOf(q.graph.units, f.selection) && f.value == Achieved(q.salience, f.selection)
  }

  /** What the search started with, or something legal and better. */
  ghost predicate Improves(q: Request, floor: Selection, first: Found, f: Found) {
    f == first || (Sound(q, floor, f) && f.value > first.value)
  }

  /** What a legal selection keeps, link by link; the supports of the request apart. */
  lemma LegalKeeps(q: Request, floor: Selection, s: Selection)
    requires Legal(q, floor, s)
    ensures Keeps(Seen(q), s) && Opposed(q.graph, s) && Contested(q.graph, s)
    ensures forall u | u in s && u in q.graph.units && s[u] > 0 ::
              && (forall v | v in q.graph.units[u].references && v in q.graph.units :: v in s)
              && forall l | l in q.graph.warrants && l.from == u && l.to in q.graph.units :: l.to in s
  {
    ClosedExactly(Seen(q), s);
    hide Closed, CostOf, Levelled;
  }

  lemma LevelsAre(q: Request, u: Uid, level: Lod)
    requires u in q.graph.units
    ensures level in LevelsOf(q, u) <==> Reachable(OfferOf(q), u, level)
    ensures Reachable(OfferOf(q), u, 0)
  {
    assert 0 in Available(q.graph.units[u]) && Capped(q.cap, 0) == 0;
  }

  lemma AnchoredIs(q: Request, s: Selection, u: Uid, level: Lod)
    requires Anchored(q, s, u, level).Some?
    ensures Anchored(q, s, u, level).value == Raised(s, Shortfall(Required(Seen(q), u, level), s))
    ensures CostOf(q.graph.units, Anchored(q, s, u, level).value) <= q.budget
  {
    hide CostOf, Required, Raised, Shortfall;
  }

  /** An anchored selection is legal again. */
  lemma AnchoredLegal(q: Request, floor: Selection, s: Selection, u: Uid, level: Lod)
    requires Legal(q, floor, s) && Reachable(OfferOf(q), u, level) && Anchored(q, s, u, level).Some?
    ensures Legal(q, floor, Anchored(q, s, u, level).value)
  {
    var g := Seen(q);
    AnchoredIs(q, s, u, level);
    RequiredIs(g, u, level);
    hide Required, Closed, CostOf, Raised, Shortfall, Reachable, Anchored, Levelled;
    RaisedCloses(g, s, Required(g, u, level));
    RaisedHas(g, s, u, level);
    RaisedLevelled(q, floor, s, u, level, Anchored(q, s, u, level).value);
  }

  lemma RaisedLevelled(q: Request, floor: Selection, s: Selection, u: Uid, level: Lod, r: Selection)
    requires Levelled(q, floor, s) && Below(s, r) && Reachable(OfferOf(q), u, level)
    requires forall x | x in r :: LevelIn(r, x) == LevelIn(s, x) || AtGistOr(Seen(q), Want(u, level), r, x)
    ensures Levelled(q, floor, r)
  {
    hide Reachable;
    forall x | x in r
      ensures LevelIn(floor, x) == LevelIn(r, x) || Reachable(OfferOf(q), x, r[x])
    {
      if LevelIn(r, x) == LevelIn(s, x) {
        assert x in s;
      } else if x in q.graph.units {
        LevelsAre(q, x, 0);
      }
    }
  }

  /** Anchoring leads no further than any legal selection that has the unit at that level. */
  lemma AnchoredBelow(q: Request, s: Selection, u: Uid, level: Lod, t: Selection)
    requires Closed(Seen(q), t) && Below(s, t) && CostOf(q.graph.units, t) <= q.budget
    requires Met(t, Want(u, level)) && !Met(s, Want(u, level))
    ensures var a := Anchored(q, s, u, level); a.Some? && Below(a.value, t) && Met(a.value, Want(u, level))
  {
    var g := Seen(q);
    var d := Shortfall(Required(g, u, level), s);
    RaisedLeast(g, s, u, level, t);
    RaisedHas(g, s, u, level);
    BelowCosts(q.graph.units, Raised(s, d), t);
    assert d != map[] by {
      RequiredIs(g, u, level);
      hide Required, Closed;
      assert u in d;
    }
    hide Required, Closed, CostOf, Raised, Shortfall;
  }

  lemma {:induction false} DescentSound(q: Request, floor: Selection, first: Found, index: nat, s: Selection, st: State)
    requires index <= |q.scope| && Legal(q, floor, s) && Improves(q, floor, first, st.best)
    ensures Improves(q, floor, first, Descent(q, index, s, CostOf(q.graph.units, s), st).0.best)
    decreases |q.scope| - index, 1, 0
  {
    hide Pruned, LevelsOf, Achieved, CostOf, Legal;
    var used := CostOf(q.graph.units, s);
    var st' := Visit(q, s, used, st);
    if st'.nodes <= q.limit && index < |q.scope| && !Pruned(q, index, s, used, st'.best.value) {
      var u := q.scope[index];
      if u !in q.graph.units {
        DescentSound(q, floor, first, index + 1, s, st');
      } else {
        forall l | l in LevelsOf(q, u)
          ensures Reachable(OfferOf(q), u, l)
        {
          LevelsAre(q, u, l);
        }
        AnchorsSound(q, floor, first, index, s, LevelsOf(q, u), st');
        DescentSound(q, floor, first, index + 1, s, Anchors(q, index, s, LevelsOf(q, u), st').0);
      }
    }
  }

  lemma {:induction false} AnchorsSound(q: Request, floor: Selection, first: Found, index: nat, s: Selection,
                                        levels: seq<Lod>, st: State)
    requires index < |q.scope| && Legal(q, floor, s) && Improves(q, floor, first, st.best)
    requires forall l | l in levels :: Reachable(OfferOf(q), q.scope[index], l)
    ensures Improves(q, floor, first, Anchors(q, index, s, levels, st).0.best)
    decreases |q.scope| - index, 0, |levels|
  {
    hide Anchored, CostOf, Legal, Reachable, Improves;
    if levels != [] {
      match Anchored(q, s, q.scope[index], levels[0])
      case None => AnchorsSound(q, floor, first, index, s, levels[1..], st);
      case Some(next) =>
        AnchoredLegal(q, floor, s, q.scope[index], levels[0]);
        var cost := CostOf(q.graph.units, next);
        DescentSound(q, floor, first, index + 1, next, st);
        AnchorsSound(q, floor, first, index, s, levels[1..], Descent(q, index + 1, next, cost, st).0);
    }
  }

  /** The result is what the search started with, or a legal selection that is worth more. */
  lemma SolvedSound(q: Request, floor: Selection, incumbent: Selection)
    requires Legal(q, floor, floor)
    ensures var r := Solved(q, floor, incumbent);
            var first := Found(incumbent, CostOf(q.graph.units, incumbent), Achieved(q.salience, incumbent));
            && Improves(q, floor, first, r.found) && (r.proven <==> r.nodes <= q.limit)
  {
    var first := Found(incumbent, CostOf(q.graph.units, incumbent), Achieved(q.salience, incumbent));
    hide Descent, Legal, Achieved, CostOf;
    DescentSound(q, floor, first, 0, floor, State(first, 0));
    DescentOnward(q, 0, floor, CostOf(q.graph.units, floor), State(first, 0));
  }

  // ---------------------------------------------------------------------------
  // Nothing better is missed
  // ---------------------------------------------------------------------------

  /** On the units before `index` the two selections are decided alike. */
  ghost predicate Decided(q: Request, index: nat, s: Selection, t: Selection) {
    index <= |q.scope| && forall i | 0 <= i < index :: LevelIn(s, q.scope[i]) == LevelIn(t, q.scope[i])
  }

  /** On the way to `t`: above the floor, below it, and decided like it so far. */
  ghost predicate Towards(q: Request, floor: Selection, index: nat, s: Selection, t: Selection) {
    Legal(q, floor, t) && Below(floor, s) && Below(s, t) && Decided(q, index, s, t)
  }

  /** Units outside the scope are idle. */
  ghost predicate Local(o: Offer, scope: seq<Uid>) {
    forall u | u in o.units :: u in scope || Idle(o, u)
  }

  /** Nothing is to be gained outside the scope, nor inside it for nothing. */
  ghost predicate Priceable(q: Request) {
    Local(OfferOf(q), q.scope) && NoFreeGain(OfferOf(q), q.scope)
  }

  lemma TowardsRaises(q: Request, floor: Selection, index: nat, s: Selection, t: Selection)
    requires index <= |q.scope| && Priceable(q) && Towards(q, floor, index, s, t)
    ensures Raises(OfferOf(q), q.scope[index..], s, t) && NoFreeGain(OfferOf(q), q.scope[index..])
  {
    hide Closed, CostOf, Paid, UpgradeTo, Higher, Idle, Available;
    forall u | u in t && LevelIn(s, u) != LevelIn(t, u) && !Idle(OfferOf(q), u)
      ensures u in q.scope[index..] && Reachable(OfferOf(q), u, t[u])
    {
      assert Reachable(OfferOf(q), u, t[u]);
      assert u in q.scope;
      var i :| 0 <= i < |q.scope| && q.scope[i] == u;
      assert i >= index;
      assert q.scope[index..][i - index] == u;
    }
  }

  /** Where a selection is pruned, nothing that it could still lead to is better than the best. */
  lemma PrunedCovers(q: Request, floor: Selection, index: nat, s: Selection, t: Selection, best: real)
    requires Priceable(q) && Towards(q, floor, index, s, t)
    requires index <= |q.scope|
    requires if index == |q.scope| then Achieved(q.salience, s) <= best
             else Pruned(q, index, s, CostOf(q.graph.units, s), best)
    ensures Achieved(q.salience, t) <= best
  {
    TowardsRaises(q, floor, index, s, t);
    var o, rest := OfferOf(q), q.scope[index..];
    assert Affordable(o, t, q.budget);
    HeadroomCovers(o, rest, s, t, q.budget);
    hide Achieved, CostOf;
    if index == |q.scope| {
      assert Items(o, s, []) == [];
    }
  }

  lemma NextTowards(q: Request, floor: Selection, index: nat, s: Selection, t: Selection)
    requires index < |q.scope| && Towards(q, floor, index, s, t)
    ensures var u := q.scope[index];
            && (LevelIn(s, u) == LevelIn(t, u) ==> Towards(q, floor, index + 1, s, t))
            && (LevelIn(s, u) != LevelIn(t, u) ==>
                  && u in t && u in q.graph.units && t[u] in LevelsOf(q, u)
                  && var a := Anchored(q, s, u, t[u]); a.Some? && Towards(q, floor, index + 1, a.value, t))
  {
    hide Anchored, Closed, CostOf, LevelsOf, Reachable;
    var u := q.scope[index];
    if LevelIn(s, u) != LevelIn(t, u) {
      ReachableUnit(q, floor, u, s, t);
      LevelsAre(q, u, t[u]);
      AnchoredBelow(q, s, u, t[u], t);
      AnchoredAbove(q, s, u, t[u]);
      DecidedNext(q, index, s, Anchored(q, s, u, t[u]).value, t);
      hide Levelled, Decided;
    } else {
      DecidedNext(q, index, s, s, t);
      hide Legal;
    }
  }

  lemma ReachableUnit(q: Request, floor: Selection, u: Uid, s: Selection, t: Selection)
    requires Levelled(q, floor, t) && Below(floor, s) && Below(s, t) && LevelIn(s, u) != LevelIn(t, u)
    ensures u in t && Reachable(OfferOf(q), u, t[u]) && u in q.graph.units && !Met(s, Want(u, t[u]))
  {
  }

  lemma DecidedNext(q: Request, index: nat, s: Selection, a: Selection, t: Selection)
    requires index < |q.scope| && Decided(q, index, s, t) && Below(s, a) && Below(a, t)
    requires LevelIn(a, q.scope[index]) == LevelIn(t, q.scope[index])
    ensures Decided(q, index + 1, a, t)
  {
    forall i | 0 <= i < index + 1
      ensures LevelIn(a, q.scope[i]) == LevelIn(t, q.scope[i])
    {
      assert i < index ==> LevelIn(s, q.scope[i]) == LevelIn(t, q.scope[i]);
    }
  }

  lemma AnchoredAbove(q: Request, s: Selection, u: Uid, level: Lod)
    requires Anchored(q, s, u, level).Some?
    ensures Below(s, Anchored(q, s, u, level).value)
  {
    RaisedHas(Seen(q), s, u, level);
    hide Required, Raised, Shortfall;
  }

  lemma {:induction false} DescentCovers(q: Request, floor: Selection, index: nat, s: Selection, st: State, t: Selection)
    requires index <= |q.scope| && Priceable(q) && Towards(q, floor, index, s, t)
    ensures var r := Descent(q, index, s, CostOf(q.graph.units, s), st);
            !r.1 ==> Achieved(q.salience, t) <= r.0.best.value
    decreases |q.scope| - index, 1, 0
  {
    hide Pruned, LevelsOf, Achieved, CostOf, Priceable, Towards, Anchored;
    var used := CostOf(q.graph.units, s);
    var st' := Visit(q, s, used, st);
    if st'.nodes > q.limit {
    } else if index == |q.scope| || Pruned(q, index, s, used, st'.best.value) {
      PrunedCovers(q, floor, index, s, t, st'.best.value);
    } else {
      var u := q.scope[index];
      NextTowards(q, floor, index, s, t);
      if u !in q.graph.units {
        DescentCovers(q, floor, index + 1, s, st', t);
      } else {
        var r := Anchors(q, index, s, LevelsOf(q, u), st');
        if LevelIn(s, u) == LevelIn(t, u) {
          DescentCovers(q, floor, index + 1, s, r.0, t);
        } else {
          AnchorsCover(q, floor, index, s, LevelsOf(q, u), st', t);
          DescentOnward(q, index + 1, s, used, r.0);
        }
      }
    }
  }

  lemma {:induction false} AnchorsCover(q: Request, floor: Selection, index: nat, s: Selection, levels: seq<Lod>,
                                        st: State, t: Selection)
    requires index < |q.scope| && q.scope[index] in t && t[q.scope[index]] in levels && Priceable(q)
    requires var a := Anchored(q, s, q.scope[index], t[q.scope[index]]);
             a.Some? && Towards(q, floor, index + 1, a.value, t)
    ensures var r := Anchors(q, index, s, levels, st); !r.1 ==> Achieved(q.salience, t) <= r.0.best.value
    decreases |q.scope| - index, 0, |levels|
  {
    hide Achieved, CostOf, Priceable, Towards, Anchored;
    var u := q.scope[index];
    match Anchored(q, s, u, levels[0])
    case None => AnchorsCover(q, floor, index, s, levels[1..], st, t);
    case Some(next) =>
      var cost := CostOf(q.graph.units, next);
      var st2 := Descent(q, index + 1, next, cost, st).0;
      if levels[0] == t[u] {
        DescentCovers(q, floor, index + 1, next, st, t);
        AnchorsOnward(q, index, s, levels[1..], st2);
      } else {
        AnchorsCover(q, floor, index, s, levels[1..], st2, t);
      }
  }

  /**
    When the search ends by itself, no legal selection is worth more than what it found: none that is
    closed, holds the floor and fits the budget.
   */
  lemma ProvenIsBest(q: Request, floor: Selection, incumbent: Selection, t: Selection)
    requires Priceable(q) && Legal(q, floor, t)
    ensures var r := Solved(q, floor, incumbent); r.proven ==> Achieved(q.salience, t) <= r.found.value
  {
    var first := Found(incumbent, CostOf(q.graph.units, incumbent), Achieved(q.salience, incumbent));
    assert Towards(q, floor, 0, floor, t);
    hide Descent, Legal, Achieved, CostOf, Priceable;
    DescentCovers(q, floor, 0, floor, State(first, 0), t);
  }

  /** So a proven result is legal and the best of all, if what the search started with is legal. */
  lemma ProvenIsGreatest(q: Request, floor: Selection, incumbent: Selection)
    requires Priceable(q) && Legal(q, floor, floor) && Legal(q, floor, incumbent)
    ensures var r := Solved(q, floor, incumbent);
            && Sound(q, floor, r.found)
            && (r.proven ==> forall t | Legal(q, floor, t) :: Achieved(q.salience, t) <= r.found.value)
  {
    SolvedSound(q, floor, incumbent);
    hide Legal, Achieved, CostOf, Solved, Priceable;
    forall t | Legal(q, floor, t) && Solved(q, floor, incumbent).proven
      ensures Achieved(q.salience, t) <= Solved(q, floor, incumbent).found.value
    {
      ProvenIsBest(q, floor, incumbent, t);
    }
  }

  // ---------------------------------------------------------------------------
  // How far the search goes
  // ---------------------------------------------------------------------------

  /** The nodes of a tree with four branches at each of `n` units. */
  function TreeSize(n: nat): nat {
    if n == 0 then 1 else 1 + 4 * TreeSize(n - 1)
  }

  function Times(n: nat, size: nat): nat {
    n * size
  }

  lemma {:induction false} DescentSize(q: Request, index: nat, s: Selection, used: nat, st: State)
    requires index <= |q.scope|
    ensures Descent(q, index, s, used, st).0.nodes <= st.nodes + TreeSize(|q.scope| - index)
    decreases |q.scope| - index, 1, 0
  {
    var st' := Visit(q, s, used, st);
    hide Pruned, Achieved, Anchored, Anchors, Times, LevelsOf;
    if st'.nodes <= q.limit && index < |q.scope| && !Pruned(q, index, s, used, st'.best.value) {
      var u := q.scope[index];
      if u !in q.graph.units {
        DescentSize(q, index + 1, s, used, st');
      } else {
        ThreeLevels(q, u, TreeSize(|q.scope| - index - 1));
        AnchorsSize(q, index, s, LevelsOf(q, u), st');
        DescentSize(q, index + 1, s, used, Anchors(q, index, s, LevelsOf(q, u), st').0);
      }
    }
  }

  lemma ThreeLevels(q: Request, u: Uid, size: nat)
    requires u in q.graph.units
    ensures Times(|LevelsOf(q, u)|, size) <= 3 * size
  {
    assert |LevelsOf(q, u)| <= 3;
    hide LevelsOf;
  }

  lemma {:induction false} AnchorsSize(q: Request, index: nat, s: Selection, levels: seq<Lod>, st: State)
    requires index < |q.scope|
    ensures Anchors(q, index, s, levels, st).0.nodes <= st.nodes + Times(|levels|, TreeSize(|q.scope| - index - 1))
    decreases |q.scope| - index, 0, |levels|
  {
    hide Anchored, CostOf, TreeSize;
    if levels != [] {
      var size := TreeSize(|q.scope| - index - 1);
      assert Times(|levels|, size) == size + Times(|levels[1..]|, size);
      hide Times;
      match Anchored(q, s, q.scope[index], levels[0])
      case None => AnchorsSize(q, index, s, levels[1..], st);
      case Some(next) =>
        var cost := CostOf(q.graph.units, next);
        DescentSize(q, index + 1, next, cost, st);
        AnchorsSize(q, index, s, levels[1..], Descent(q, index + 1, next, cost, st).0);
    }
  }

  /** A limit of that many nodes is never reached. */
  lemma SmallIsProven(q: Request, floor: Selection, incumbent: Selection)
    requires q.limit >= TreeSize(|q.scope|)
    ensures Solved(q, floor, incumbent).proven
  {
    var first := Found(incumbent, CostOf(q.graph.units, incumbent), Achieved(q.salience, incumbent));
    hide Descent, Achieved, CostOf;
    DescentSize(q, 0, floor, CostOf(q.graph.units, floor), State(first, 0));
    DescentOnward(q, 0, floor, CostOf(q.graph.units, floor), State(first, 0));
  }

  // ---------------------------------------------------------------------------
  // Against the oracle
  // ---------------------------------------------------------------------------

  /** The request as the oracle has it: every level of every unit, the constraints, the same worth. */
  ghost function OracleOf(q: Request): PackExact.Problem {
    PackExact.Problem((s: Selection) => CostOf(q.graph.units, s), (s: Selection, used: nat) => Closed(q.graph, s),
                      (s: Selection) => Achieved(q.salience, s))
  }

  function StoreOf(q: Request): PackExact.Store {
    map u | u in q.graph.units :: Available(q.graph.units[u])
  }

  ghost predicate Unrestricted(q: Request) {
    q.cap == None && q.graph.supports == [] && forall u | u in q.graph.units :: u in q.scope
  }

  lemma LegalIsFeasible(q: Request, s: Selection)
    requires Unrestricted(q)
    ensures Legal(q, map[], s)
       <==> PackExact.IsSelection(StoreOf(q), q.scope, s) && PackExact.Feasible(OracleOf(q), q.budget, s)
  {
    hide Closed, CostOf, Achieved, Available;
    assert Seen(q) == q.graph;
    assert Levelled(q, map[], s) <==> PackExact.IsSelection(StoreOf(q), q.scope, s);
  }

  /** Where it is proven, the search and the enumeration of every assignment find the same value. */
  lemma MatchesOracle(q: Request, incumbent: Selection, best: real)
    requires Unrestricted(q) && Priceable(q) && Legal(q, map[], incumbent)
    requires PackExact.IsBest(OracleOf(q), StoreOf(q), q.scope, q.budget, best)
    ensures Solved(q, map[], incumbent).proven ==> Solved(q, map[], incumbent).found.value == best
  {
    var r := Solved(q, map[], incumbent);
    NothingIsLegal(q);
    ProvenIsGreatest(q, map[], incumbent);
    LegalIsFeasible(q, r.found.selection);
    hide Legal, Solved, Achieved, CostOf, Priceable, Unrestricted, StoreOf, PackExact.IsSelection;
    if r.proven && best > 0.0 {
      var s :| PackExact.IsSelection(StoreOf(q), q.scope, s) && PackExact.Feasible(OracleOf(q), q.budget, s)
               && OracleOf(q).worth(s) == best;
      LegalIsFeasible(q, s);
    }
  }

  lemma NothingIsLegal(q: Request)
    ensures Legal(q, map[], map[]) && Achieved(q.salience, map[]) == 0.0
  {
    assert Costs(q.graph.units, map[]) == map[];
    assert Worths(q.salience, map[]) == map[];
  }

  // ---------------------------------------------------------------------------
  // The code
  // ---------------------------------------------------------------------------

  method Anchor(q: Request, s: Selection, u: Uid, level: Lod) returns (next: Option<Selection>)
    ensures next == Anchored(q, s, u, level)
  {
    hide Required, Raised, Shortfall, CostOf;
    if u in s && s[u] >= level {
      return None;
    }
    var need := Require(Seen(q), u, level);
    var d := Shortfall(need, s);
    if d == map[] {
      return None;
    }
    var raised := Raised(s, d);
    if CostOf(q.graph.units, raised) > q.budget {
      return None;
    }
    return Some(raised);
  }

  class Search {
    const q: Request
    var best: Found
    var nodes: nat

    constructor (q: Request, first: Found)
      ensures this.q == q && best == first && nodes == 0
    {
      this.q, best, nodes := q, first, 0;
    }

    function Now(): State
      reads this
    {
      State(best, nodes)
    }

    method Descend(index: nat, s: Selection, used: nat) returns (limited: bool)
      requires index <= |q.scope|
      modifies this
      ensures (Now(), limited) == Descent(q, index, s, used, old(Now()))
      decreases |q.scope| - index
    {
      hide Achieved, Headroom, LevelsOf, CostOf, Anchored;
      nodes := nodes + 1;
      if nodes > q.limit {
        return true;
      }
      var value := Achieved(q.salience, s);
      if value > best.value {
        best := Found(s, used, value);
      }
      if index >= |q.scope| {
        return false;
      }
      var headroom := Fractional(OfferOf(q), s, q.scope[index..], Remaining(q.budget, used));
      if value + headroom <= best.value {
        return false;
      }
      var u := q.scope[index];
      if u !in q.graph.units {
        limited := Descend(index + 1, s, used);
        return;
      }
      ghost var visited := Now();
      var levels := LevelsOf(q, u);
      limited := false;
      assert levels[0..] == levels;
      for k := 0 to |levels|
        invariant var rest := Anchors(q, index, s, levels[k..], Now());
                  Anchors(q, index, s, levels, visited) == (rest.0, limited || rest.1)
      {
        assert levels[k..][0] == levels[k] && levels[k..][1..] == levels[k + 1..];
        var next := Anchor(q, s, u, levels[k]);
        if next.Some? {
          var below := Descend(index + 1, next.value, CostOf(q.graph.units, next.value));
          limited := limited || below;
        }
      }
      var last := Descend(index + 1, s, used);
      return limited || last;
    }
  }

  method Solve(q: Request, floor: Selection, incumbent: Selection) returns (r: Exact)
    ensures r == Solved(q, floor, incumbent)
  {
    hide Descent, CostOf, Achieved;
    var first := Found(incumbent, CostOf(q.graph.units, incumbent), Achieved(q.salience, incumbent));
    var search := new Search(q, first);
    var limited := search.Descend(0, floor, CostOf(q.graph.units, floor));
    return Exact(search.best, search.nodes, !limited);
  }
}
