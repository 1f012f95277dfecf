/**
  What selecting a unit brings with it: the least selection that holds it and that breaks none of
  the constraints C1 to C4, C6 and C8.
 */
module PackClosure {
  import opened Bytes
  import opened PackModel

  datatype Link = Link(from: Uid, to: Uid)

  /** An open contention: what it is over, and the positions taken. */
  datatype Contention = Contention(over: Uid, positions: seq<Uid>)

  datatype Graph = Graph(units: Units, warrants: seq<Link>, rebuttals: seq<Link>, contentions: seq<Contention>,
                         supports: seq<Link>)

  // ---------------------------------------------------------------------------
  // What a unit brings
  // ---------------------------------------------------------------------------

  function Targets(links: seq<Link>, u: Uid): seq<Uid> {
    if links == [] then []
    else (if links[0].from == u then [links[0].to] else []) + Targets(links[1..], u)
  }

  function Sources(links: seq<Link>, u: Uid): seq<Uid> {
    if links == [] then []
    else (if links[0].to == u then [links[0].from] else []) + Sources(links[1..], u)
  }

  predicate Pins(k: Contention, u: Uid) {
    k.over == u || u in k.positions
  }

  /** The positions of every contention that pins `u`. */
  function Positions(contentions: seq<Contention>, u: Uid): seq<Uid> {
    if contentions == [] then []
    else (if Pins(contentions[0], u) then contentions[0].positions else []) + Positions(contentions[1..], u)
  }

  function Known(g: Graph, us: seq<Uid>): (r: seq<Uid>)
    ensures forall u :: u in r <==> u in us && u in g.units
  {
    if us == [] then [] else (if us[0] in g.units then [us[0]] else []) + Known(g, us[1..])
  }

  /**
    What a unit at a level brings, each at the level of its gist: above that level of its own what it
    refers to, its warrants and its supports; at every level its rebuttals and, where it is
    contested, every position.
   */
  function Brings(g: Graph, u: Uid, level: Lod): (r: seq<Uid>)
    ensures forall v | v in r :: v in g.units
  {
    if u !in g.units then []
    else
      (if level >= 1 then
         Known(g, g.units[u].references) + Known(g, Targets(g.warrants, u)) + Known(g, Targets(g.supports, u))
       else [])
      + Known(g, Sources(g.rebuttals, u)) + Known(g, Positions(g.contentions, u))
  }

  /** Nothing that a selected unit brings is missing. */
  ghost predicate Closed(g: Graph, s: Selection) {
    forall u | u in s :: Bound(g, s, u)
  }

  ghost predicate Bound(g: Graph, s: Selection, u: Uid)
    requires u in s
  {
    forall v | v in Brings(g, u, s[u]) :: v in s
  }

  // ---------------------------------------------------------------------------
  // The constraints, link by link
  // ---------------------------------------------------------------------------

  lemma {:induction false} TargetsAre(links: seq<Link>, u: Uid, v: Uid)
    ensures v in Targets(links, u) <==> Link(u, v) in links
  {
    if links != [] {
      TargetsAre(links[1..], u, v);
      assert links == [links[0]] + links[1..];
    }
  }

  lemma {:induction false} SourcesAre(links: seq<Link>, u: Uid, v: Uid)
    ensures v in Sources(links, u) <==> Link(v, u) in links
  {
    if links != [] {
      SourcesAre(links[1..], u, v);
      assert links == [links[0]] + links[1..];
    }
  }

  lemma {:induction false} PositionsAre(contentions: seq<Contention>, u: Uid, v: Uid)
    ensures v in Positions(contentions, u)
       <==> exists k :: k in contentions && (k.over == u || u in k.positions) && v in k.positions
  {
    if contentions != [] {
      PositionsAre(contentions[1..], u, v);
      assert contentions == [contentions[0]] + contentions[1..];
      assert contentions[0] in contentions;
    }
  }

  /** C1, C2, C6 and C8: above its gist a unit has what it refers to, its warrants and its supports. */
  ghost predicate Grounded(g: Graph, s: Selection) {
    forall u | u in s && u in g.units && s[u] > 0 ::
      && (forall v | v in g.units[u].references && v in g.units :: v in s)
      && (forall l | l in g.warrants && l.from == u && l.to in g.units :: l.to in s)
      && (forall l | l in g.supports && l.from == u && l.to in g.units :: l.to in s)
  }

  /** C3: no unit is without one that rebuts it. */
  ghost predicate Opposed(g: Graph, s: Selection) {
    forall l | l in g.rebuttals && l.to in s && l.to in g.units && l.from in g.units :: l.from in s
  }

  /** C4: where one side of a contention, or what it is over, is held, every position is. */
  ghost predicate Contested(g: Graph, s: Selection) {
    forall k, u, v | k in g.contentions && u in s && u in g.units && (u == k.over || u in k.positions)
                     && v in k.positions && v in g.units :: v in s
  }

  /** The constraints together. */
  ghost predicate Keeps(g: Graph, s: Selection) {
    Grounded(g, s) && Opposed(g, s) && Contested(g, s)
  }

  lemma BringsAre(g: Graph, u: Uid, level: Lod, v: Uid)
    ensures v in Brings(g, u, level)
       <==> && u in g.units && v in g.units
            && (|| (level > 0 && (v in g.units[u].references || Link(u, v) in g.warrants || Link(u, v) in g.supports))
                || Link(v, u) in g.rebuttals
                || exists k :: k in g.contentions && (k.over == u || u in k.positions) && v in k.positions)
  {
    TargetsAre(g.warrants, u, v);
    TargetsAre(g.supports, u, v);
    SourcesAre(g.rebuttals, u, v);
    PositionsAre(g.contentions, u, v);
    hide Targets, Sources, Positions, Known;
  }

  /** A selection is closed exactly when it breaks none of them. */
  lemma ClosedExactly(g: Graph, s: Selection)
    ensures Closed(g, s) <==> Keeps(g, s)
  {
    hide Brings;
    if Closed(g, s) {
      ClosedKeeps(g, s);
    }
    if Grounded(g, s) && Opposed(g, s) && Contested(g, s) {
      forall u, v | u in s && v in Brings(g, u, s[u])
        ensures v in s
      {
        BringsAre(g, u, s[u], v);
        KeptBrings(g, s, u, v);
      }
      assert forall u | u in s :: Bound(g, s, u);
    }
  }

  lemma ClosedKeeps(g: Graph, s: Selection)
    requires Closed(g, s)
    ensures Grounded(g, s) && Opposed(g, s) && Contested(g, s)
  {
    hide Brings;
    forall u, v | u in s && v in Brings(g, u, s[u])
      ensures v in s
    {
      assert Bound(g, s, u);
    }
    forall u, v | u in s
      ensures v in Brings(g, u, s[u])
         <==> && u in g.units && v in g.units
              && (|| (s[u] > 0 && (v in g.units[u].references || Link(u, v) in g.warrants || Link(u, v) in g.supports))
                  || Link(v, u) in g.rebuttals
                  || exists k :: k in g.contentions && (k.over == u || u in k.positions) && v in k.positions)
    {
      BringsAre(g, u, s[u], v);
    }
    hide Closed;
    assert forall l: Link :: l == Link(l.from, l.to);
  }

  lemma KeptBrings(g: Graph, s: Selection, u: Uid, v: Uid)
    requires Grounded(g, s) && Opposed(g, s) && Contested(g, s) && u in s && u in g.units && v in g.units
    requires || (s[u] > 0 && (v in g.units[u].references || Link(u, v) in g.warrants || Link(u, v) in g.supports))
             || Link(v, u) in g.rebuttals
             || exists k :: k in g.contentions && (k.over == u || u in k.positions) && v in k.positions
    ensures v in s
  {
  }

  // ---------------------------------------------------------------------------
  // The worklist
  // ---------------------------------------------------------------------------

  datatype Want = Want(u: Uid, level: Lod)

  function AtGist(us: seq<Uid>): (r: seq<Want>)
    ensures |r| == |us| && forall i :: 0 <= i < |us| ==> r[i] == Want(us[i], 0)
  {
    if us == [] then [] else [Want(us[0], 0)] + AtGist(us[1..])
  }

  predicate Met(s: Selection, w: Want) {
    w.u in s && s[w.u] >= w.level
  }

  /** The wants over `universe` that are not met. */
  ghost function Unmet(universe: set<Uid>, s: Selection): set<Want> {
    set u, l: Lod | u in universe && l in {0, 1, 2} && !Met(s, Want(u, l)) :: Want(u, l)
  }

  lemma MeetingShrinks(universe: set<Uid>, s: Selection, w: Want)
    requires w.u in universe && !Met(s, w)
    ensures |Unmet(universe, s[w.u := w.level])| < |Unmet(universe, s)|
  {
    var before, after := Unmet(universe, s), Unmet(universe, s[w.u := w.level]);
    assert w in before && w !in after;
    assert after <= before - {w};
    SubsetSize(after, before - {w});
  }

  lemma {:induction false} SubsetSize<T>(a: set<T>, b: set<T>)
    requires a <= b
    ensures |a| <= |b|
  {
    if a != {} {
      var x :| x in a;
      SubsetSize(a - {x}, b - {x});
    }
  }

  ghost predicate Within(universe: set<Uid>, g: Graph, work: seq<Want>) {
    g.units.Keys <= universe && forall w | w in work :: w.u in universe
  }

  /** Works the stack down: a want that is not met is, and what it brings is put on the stack. */
  ghost function Walk(g: Graph, universe: set<Uid>, need: Selection, work: seq<Want>): Selection
    requires Within(universe, g, work)
    decreases |Unmet(universe, need)|, |work|
  {
    if work == [] then need
    else
      var w, rest := work[|work| - 1], work[..|work| - 1];
      if Met(need, w) then Walk(g, universe, need, rest)
      else
        MeetingShrinks(universe, need, w);
        Walk(g, universe, need[w.u := w.level], rest + AtGist(Brings(g, w.u, w.level)))
  }

  ghost function Required(g: Graph, u: Uid, level: Lod): Selection {
    Walk(g, g.units.Keys + {u}, map[], [Want(u, level)])
  }

  // ---------------------------------------------------------------------------
  // The least closed selection
  // ---------------------------------------------------------------------------

  /** All that the needs bring is among them or still wanted. */
  ghost predicate Pending(g: Graph, need: Selection, work: seq<Want>) {
    forall u, v | u in need && v in Brings(g, u, need[u]) :: v in need || Want(v, 0) in work
  }

  ghost predicate Meets(s: Selection, work: seq<Want>) {
    forall w | w in work :: Met(s, w)
  }

  lemma {:induction false} WalkCloses(g: Graph, universe: set<Uid>, need: Selection, work: seq<Want>)
    requires Within(universe, g, work) && Pending(g, need, work)
    ensures var r := Walk(g, universe, need, work); Closed(g, r) && Below(need, r) && Meets(r, work)
    decreases |Unmet(universe, need)|, |work|
  {
    hide Brings;
    if work != [] {
      var w, rest := work[|work| - 1], work[..|work| - 1];
      assert work == rest + [w];
      if Met(need, w) {
        WalkCloses(g, universe, need, rest);
      } else {
        MeetingShrinks(universe, need, w);
        var need', brought := need[w.u := w.level], Brings(g, w.u, w.level);
        var work' := rest + AtGist(brought);
        forall u, v | u in need' && v in Brings(g, u, need'[u])
          ensures v in need' || Want(v, 0) in work'
        {
          if u == w.u {
            var i :| 0 <= i < |brought| && brought[i] == v;
            assert AtGist(brought)[i] == Want(v, 0);
          }
        }
        WalkCloses(g, universe, need', work');
      }
    }
  }

  lemma {:induction false} WalkLeast(g: Graph, universe: set<Uid>, need: Selection, work: seq<Want>, s: Selection)
    requires Within(universe, g, work) && Closed(g, s) && Below(need, s) && Meets(s, work)
    ensures Below(Walk(g, universe, need, work), s)
    decreases |Unmet(universe, need)|, |work|
  {
    hide Brings;
    if work != [] {
      var w, rest := work[|work| - 1], work[..|work| - 1];
      assert w in work;
      if Met(need, w) {
        WalkLeast(g, universe, need, rest, s);
      } else {
        MeetingShrinks(universe, need, w);
        var brought := AtGist(Brings(g, w.u, w.level));
        BringsMore(g, w.u, w.level, s[w.u]);
        assert Bound(g, s, w.u);
        WalkLeast(g, universe, need[w.u := w.level], rest + brought, s);
      }
    }
  }

  lemma BringsMore(g: Graph, u: Uid, low: Lod, high: Lod)
    requires low <= high
    ensures forall v | v in Brings(g, u, low) :: v in Brings(g, u, high)
  {
  }

  /** Whatever is not the want itself is a known unit, by its gist. */
  ghost predicate AtGistBut(g: Graph, start: Want, s: Selection) {
    forall u | u in s :: AtGistOr(g, start, s, u)
  }

  ghost predicate AtGistOr(g: Graph, start: Want, s: Selection, u: Uid)
    requires u in s
  {
    Want(u, s[u]) == start || (s[u] == 0 && u in g.units)
  }

  lemma {:induction false} WalkAtGist(g: Graph, universe: set<Uid>, need: Selection, work: seq<Want>, start: Want)
    requires Within(universe, g, work) && AtGistBut(g, start, need)
    requires forall w | w in work :: w == start || (w.level == 0 && w.u in g.units)
    ensures AtGistBut(g, start, Walk(g, universe, need, work))
    decreases |Unmet(universe, need)|, |work|
  {
    hide Brings;
    if work != [] {
      var w, rest := work[|work| - 1], work[..|work| - 1];
      assert w in work;
      if Met(need, w) {
        WalkAtGist(g, universe, need, rest, start);
      } else {
        MeetingShrinks(universe, need, w);
        WalkAtGist(g, universe, need[w.u := w.level], rest + AtGist(Brings(g, w.u, w.level)), start);
      }
    }
  }

  /**
    What is required for a unit at a level is closed, holds the unit, and lies below every closed
    selection that holds it at that level: there is nothing in it that could be spared.
   */
  lemma RequiredIs(g: Graph, u: Uid, level: Lod)
    ensures var r := Required(g, u, level);
            && Closed(g, r) && Met(r, Want(u, level)) && AtGistBut(g, Want(u, level), r)
            && forall s | Closed(g, s) && Met(s, Want(u, level)) :: Below(r, s)
  {
    var universe := g.units.Keys + {u};
    WalkCloses(g, universe, map[], [Want(u, level)]);
    WalkAtGist(g, universe, map[], [Want(u, level)], Want(u, level));
    assert Want(u, level) in [Want(u, level)];
    forall s | Closed(g, s) && Met(s, Want(u, level))
      ensures Below(Required(g, u, level), s)
    {
      WalkLeast(g, universe, map[], [Want(u, level)], s);
    }
  }

  lemma WalkNext(g: Graph, universe: set<Uid>, need: Selection, work: seq<Want>)
    requires Within(universe, g, work) && work != []
    ensures var w, rest := work[|work| - 1], work[..|work| - 1];
            && Within(universe, g, rest)
            && (Met(need, w) ==> Walk(g, universe, need, work) == Walk(g, universe, need, rest))
            && (!Met(need, w) ==>
                  var work' := rest + AtGist(Brings(g, w.u, w.level));
                  && Within(universe, g, work')
                  && Walk(g, universe, need, work) == Walk(g, universe, need[w.u := w.level], work'))
  {
    hide Brings;
  }

  /** The least selection that breaks no constraint and holds the unit. */
  lemma RequiredKeeps(g: Graph, u: Uid, level: Lod)
    ensures var r := Required(g, u, level);
            && Keeps(g, r) && u in r && r[u] >= level
            && forall s | Keeps(g, s) && u in s && s[u] >= level :: Below(r, s)
  {
    RequiredIs(g, u, level);
    ClosedExactly(g, Required(g, u, level));
    hide Required, Closed, Keeps;
    forall s | Keeps(g, s) && u in s && s[u] >= level
      ensures Below(Required(g, u, level), s)
    {
      ClosedExactly(g, s);
    }
  }

  /** The worklist loop. It ends, because a need is only ever raised. */
  method Require(g: Graph, u: Uid, level: Lod) returns (need: Selection)
    ensures need == Required(g, u, level)
    ensures Keeps(g, need) && u in need && need[u] >= level
    ensures forall s | Keeps(g, s) && u in s && s[u] >= level :: Below(need, s)
  {
    RequiredKeeps(g, u, level);
    hide Keeps;
    need := map[];
    var work := [Want(u, level)];
    ghost var universe := g.units.Keys + {u};
    assert Walk(g, universe, need, work) == Required(g, u, level);
    hide Walk, Required, Within, Unmet;
    while work != []
      invariant Within(universe, g, work)
      invariant Walk(g, universe, need, work) == Required(g, u, level)
      decreases |Unmet(universe, need)|, |work|
    {
      WalkNext(g, universe, need, work);
      var w := work[|work| - 1];
      work := work[..|work| - 1];
      if !Met(need, w) {
        MeetingShrinks(universe, need, w);
        need := need[w.u := w.level];
        if w.u in g.units {
          work := work + AtGist(Brings(g, w.u, w.level));
        } else {
          assert work + AtGist([]) == work;
        }
      }
    }
  }

  // ---------------------------------------------------------------------------
  // Adding what is required
  // ---------------------------------------------------------------------------

  /** What a selection does not yet have of it. */
  function Shortfall(need: Selection, s: Selection): Selection {
    map u | u in need && !Met(s, Want(u, need[u])) :: need[u]
  }

  /** A selection with every unit of `d` raised to its level there. */
  function Raised(s: Selection, d: Selection): Selection {
    map u | u in s.Keys + d.Keys :: if u in d && !Met(s, Want(u, d[u])) then d[u] else s[u]
  }

  /** Raised by what it lacks, a closed selection is closed. */
  lemma RaisedCloses(g: Graph, s: Selection, need: Selection)
    requires Closed(g, s) && Closed(g, need)
    ensures Closed(g, Raised(s, Shortfall(need, s)))
  {
    hide Brings;
    var r := Raised(s, Shortfall(need, s));
    assert r.Keys == s.Keys + need.Keys;
    forall x | x in r
      ensures Bound(g, r, x)
    {
      if x in s && r[x] == s[x] {
        assert Bound(g, s, x);
      } else {
        assert Bound(g, need, x);
      }
    }
  }

  /** It has no more than it must. */
  lemma RaisedLeast(g: Graph, s: Selection, u: Uid, level: Lod, t: Selection)
    requires Closed(g, t) && Met(t, Want(u, level)) && Below(s, t)
    ensures Below(Raised(s, Shortfall(Required(g, u, level), s)), t)
  {
    RequiredIs(g, u, level);
    hide Required, Closed;
  }

  /** It has what it had and the unit at its level, and beyond that gists only. */
  lemma RaisedHas(g: Graph, s: Selection, u: Uid, level: Lod)
    ensures var r := Raised(s, Shortfall(Required(g, u, level), s));
            && Met(r, Want(u, level)) && Below(s, r)
            && forall x | x in r :: LevelIn(r, x) == LevelIn(s, x) || AtGistOr(g, Want(u, level), r, x)
  {
    RequiredIs(g, u, level);
    hide Required, Closed;
  }
}
