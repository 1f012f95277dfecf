/**
  Connected components of the same-as graph, each with its diameter in edges, by breadth-first
  search.
 */
module Components {
  import opened Propositions

  // ---------------------------------------------------------------------------
  // Reachability and distance
  // ---------------------------------------------------------------------------

  /** `v` can be reached from `s` in at most `k` steps. */
  ghost predicate Within(g: Graph, s: Uid, v: Uid, k: nat)
    decreases k
  {
    if k == 0 then v == s
    else Within(g, s, v, k - 1) || exists w :: w in g && v in g[w] && Within(g, s, w, k - 1)
  }

  ghost predicate Reaches(g: Graph, s: Uid, v: Uid) {
    exists k: nat :: Within(g, s, v, k)
  }

  /** The length of a shortest path. */
  ghost predicate IsDistance(g: Graph, s: Uid, v: Uid, d: nat) {
    Within(g, s, v, d) && (d > 0 ==> !Within(g, s, v, d - 1))
  }

  lemma {:induction false} WithinMonotone(g: Graph, s: Uid, v: Uid, k: nat, l: nat)
    requires Within(g, s, v, k) && k <= l
    ensures Within(g, s, v, l)
    decreases l
  {
    if k < l {
      WithinMonotone(g, s, v, k, l - 1);
    }
  }

  /** A set that holds `s` and every neighbour of its members holds all that `s` reaches. */
  lemma {:induction false} ClosedHoldsWithin(g: Graph, s: Uid, closed: set<Uid>, v: Uid, k: nat)
    requires s in closed && (forall u, w | u in closed && u in g && w in g[u] :: w in closed)
    requires Within(g, s, v, k)
    ensures v in closed
    decreases k
  {
    if k > 0 && !Within(g, s, v, k - 1) {
      var w :| w in g && v in g[w] && Within(g, s, w, k - 1);
      ClosedHoldsWithin(g, s, closed, w, k - 1);
    } else if k > 0 {
      ClosedHoldsWithin(g, s, closed, v, k - 1);
    }
  }

  /** From a neighbour of `s`, one step more. */
  lemma {:induction false} WithinFromNeighbour(g: Graph, s: Uid, t: Uid, v: Uid, k: nat)
    requires s in g && t in g[s] && Within(g, t, v, k)
    ensures Within(g, s, v, k + 1)
    decreases k
  {
    if k == 0 {
      assert Within(g, s, s, 0);
    } else if Within(g, t, v, k - 1) {
      WithinFromNeighbour(g, s, t, v, k - 1);
    } else {
      var w :| w in g && v in g[w] && Within(g, t, w, k - 1);
      WithinFromNeighbour(g, s, t, w, k - 1);
    }
  }

  lemma {:induction false} WithinSymmetric(g: Graph, s: Uid, v: Uid, k: nat)
    requires IsGraph(g) && Within(g, s, v, k)
    ensures Within(g, v, s, k)
    decreases k
  {
    if k > 0 {
      if Within(g, s, v, k - 1) {
        WithinSymmetric(g, s, v, k - 1);
      } else {
        var w :| w in g && v in g[w] && Within(g, s, w, k - 1);
        WithinSymmetric(g, s, w, k - 1);
        WithinFromNeighbour(g, v, w, s, k - 1);
      }
    }
  }

  lemma {:induction false} WithinTransitive(g: Graph, a: Uid, b: Uid, c: Uid, k: nat, l: nat)
    requires Within(g, a, b, k) && Within(g, b, c, l)
    ensures Within(g, a, c, k + l)
    decreases l
  {
    if l > 0 {
      if Within(g, b, c, l - 1) {
        WithinTransitive(g, a, b, c, k, l - 1);
      } else {
        var w :| w in g && c in g[w] && Within(g, b, w, l - 1);
        WithinTransitive(g, a, b, w, k, l - 1);
      }
    }
  }

  lemma ReachesEquivalence(g: Graph, a: Uid, b: Uid, c: Uid)
    requires IsGraph(g)
    ensures Reaches(g, a, a)
    ensures Reaches(g, a, b) ==> Reaches(g, b, a)
    ensures Reaches(g, a, b) && Reaches(g, b, c) ==> Reaches(g, a, c)
  {
    assert Within(g, a, a, 0);
    if Reaches(g, a, b) {
      var k: nat :| Within(g, a, b, k);
      WithinSymmetric(g, a, b, k);
      if Reaches(g, b, c) {
        var l: nat :| Within(g, b, c, l);
        WithinTransitive(g, a, b, c, k, l);
      }
    }
  }

  lemma StepReaches(g: Graph, s: Uid, u: Uid, v: Uid)
    requires Reaches(g, s, u) && u in g && v in g[u]
    ensures Reaches(g, s, v)
  {
    var k: nat :| Within(g, s, u, k);
    assert Within(g, s, v, k + 1);
  }

  // ---------------------------------------------------------------------------
  // Depths are distances
  // ---------------------------------------------------------------------------

  /** Depths are distances. */
  ghost predicate Known(g: Graph, s: Uid, depth: map<Uid, nat>) {
    s in depth && forall v | v in depth :: v in g && IsDistance(g, s, v, depth[v])
  }

  /** The queue runs upwards from one depth to at most the next. */
  ghost predicate Queued(depth: map<Uid, nat>, queue: seq<Uid>, level: nat) {
    && (forall i | 0 <= i < |queue| :: queue[i] in depth && level <= depth[queue[i]] <= level + 1)
    && (forall i, j | 0 <= i < j < |queue| :: depth[queue[i]] <= depth[queue[j]])
  }

  /** Everything within the depth being worked on has been met. */
  ghost predicate Complete(g: Graph, s: Uid, depth: map<Uid, nat>, level: nat) {
    forall v :: Within(g, s, v, level) ==> v in depth
  }

  /** Only the queue has neighbours that were not met, but for those of `u` in `rest`. */
  ghost predicate Explored(g: Graph, depth: map<Uid, nat>, queue: seq<Uid>, u: Uid, rest: set<Uid>) {
    forall v, w | v in depth && v !in queue && v in g && w in g[v] :: w in depth || (v == u && w in rest)
  }

  /** Breadth-first search under way. */
  ghost predicate Searching(g: Graph, s: Uid, depth: map<Uid, nat>, queue: seq<Uid>, level: nat, u: Uid, rest: set<Uid>) {
    Known(g, s, depth) && Queued(depth, queue, level) && Complete(g, s, depth, level) && Explored(g, depth, queue, u, rest)
  }

  lemma SearchStarts(g: Graph, s: Uid)
    requires s in g
    ensures Searching(g, s, map[s := 0], [s], 0, s, {})
  {
  }

  /** Once the queue has left a level, everything one step further has been met. */
  lemma LevelComplete(g: Graph, s: Uid, depth: map<Uid, nat>, queue: seq<Uid>, level: nat, x: Uid)
    requires queue != [] && Searching(g, s, depth, queue, level, x, {}) && depth[queue[0]] == level + 1
    ensures Complete(g, s, depth, level + 1)
  {
    assert forall w | w in queue :: depth[w] >= level + 1;
    forall v | Within(g, s, v, level + 1)
      ensures v in depth
    {
      if !Within(g, s, v, level) {
        var w :| w in g && v in g[w] && Within(g, s, w, level);
        DistanceAtMost(g, s, w, depth[w], level);
      }
    }
  }

  /** Taking the head of the queue may move the search on by one level. */
  lemma SearchPops(g: Graph, s: Uid, depth: map<Uid, nat>, queue: seq<Uid>, level: nat, x: Uid)
    requires queue != [] && Searching(g, s, depth, queue, level, x, {})
    ensures var u := queue[0]; u in depth && u in g && Searching(g, s, depth, queue[1..], depth[u], u, g[u])
  {
    var u := queue[0];
    if depth[u] == level + 1 {
      LevelComplete(g, s, depth, queue, level, x);
    }
    hide IsDistance, Complete;
    assert queue == [u] + queue[1..];
    forall i | 0 <= i < |queue[1..]|
      ensures queue[1..][i] == queue[i + 1] && depth[u] <= depth[queue[1..][i]]
    {
    }
  }

  lemma DistanceAtMost(g: Graph, s: Uid, v: Uid, d: nat, k: nat)
    requires IsDistance(g, s, v, d) && Within(g, s, v, k)
    ensures d <= k
  {
    if k < d {
      WithinMonotone(g, s, v, k, d - 1);
    }
  }

  lemma MetIsKnown(g: Graph, s: Uid, depth: map<Uid, nat>, u: Uid, n: Uid)
    requires Known(g, s, depth) && u in depth && n in g && n in g[u] && Complete(g, s, depth, depth[u]) && n !in depth
    ensures Known(g, s, depth[n := depth[u] + 1]) && Complete(g, s, depth[n := depth[u] + 1], depth[u])
  {
    assert u in g && IsDistance(g, s, u, depth[u]);
    assert Within(g, s, u, depth[u]) && n in g[u];
    assert IsDistance(g, s, n, depth[u] + 1);
  }

  lemma MetIsQueued(depth: map<Uid, nat>, queue: seq<Uid>, level: nat, n: Uid)
    requires Queued(depth, queue, level) && n !in depth
    ensures Queued(depth[n := level + 1], queue + [n], level)
  {
    var d, q := depth[n := level + 1], queue + [n];
    forall i | 0 <= i < |q|
      ensures q[i] in d && level <= d[q[i]] <= level + 1
    {
      if i < |queue| {
        assert queue[i] in depth;
      }
    }
  }

  lemma MetIsExplored(g: Graph, depth: map<Uid, nat>, queue: seq<Uid>, u: Uid, rest: set<Uid>, n: Uid, d: nat)
    requires Explored(g, depth, queue, u, rest) && n in rest && n !in depth
    ensures Explored(g, depth[n := d], queue + [n], u, rest - {n})
  {
    var more := queue + [n];
    assert more[|queue|] == n;
    forall v | v in queue
      ensures v in more
    {
      var i :| 0 <= i < |queue| && queue[i] == v;
      assert more[i] == v;
    }
  }

  /** A neighbour not met before lies one step further. */
  lemma SearchMeets(g: Graph, s: Uid, depth: map<Uid, nat>, queue: seq<Uid>, u: Uid, rest: set<Uid>, n: Uid)
    requires IsGraph(g) && u in depth && u in g && n in rest && rest <= g[u]
    requires Searching(g, s, depth, queue, depth[u], u, rest)
    ensures n !in depth ==> Searching(g, s, depth[n := depth[u] + 1], queue + [n], depth[u], u, rest - {n})
    ensures n in depth ==> Searching(g, s, depth, queue, depth[u], u, rest - {n})
    ensures n in g
  {
    hide Known, Queued, Complete;
    if n !in depth {
      MetIsKnown(g, s, depth, u, n);
      MetIsQueued(depth, queue, depth[u], n);
      MetIsExplored(g, depth, queue, u, rest, n, depth[u] + 1);
      hide Explored;
    }
  }

  lemma SearchEnds(g: Graph, s: Uid, depth: map<Uid, nat>, level: nat, u: Uid)
    requires Searching(g, s, depth, [], level, u, {})
    ensures forall v :: v in depth <==> Reaches(g, s, v)
    ensures forall v | v in depth :: IsDistance(g, s, v, depth[v])
  {
    forall v | Reaches(g, s, v)
      ensures v in depth
    {
      var k: nat :| Within(g, s, v, k);
      ClosedHoldsWithin(g, s, depth.Keys, v, k);
    }
  }

  /** The distance of everything that `s` reaches. */
  method Depths(g: Graph, s: Uid) returns (depth: map<Uid, nat>)
    requires IsGraph(g) && s in g
    ensures forall v :: v in depth <==> Reaches(g, s, v)
    ensures forall v | v in depth :: IsDistance(g, s, v, depth[v])
  {
    hide Searching, IsDistance, Reaches, IsGraph, Unmet;
    depth := map[s := 0];
    var queue := [s];
    ghost var level: nat := 0;
    ghost var x := s;
    SearchStarts(g, s);
    while queue != []
      invariant Searching(g, s, depth, queue, level, x, {})
      decreases Unmet(g, depth), |queue|
    {
      var u := queue[0];
      SearchPops(g, s, depth, queue, level, x);
      ghost var unmet, length := Unmet(g, depth), |queue|;
      queue := queue[1..];
      level, x := depth[u], u;
      var rest := g[u];
      while rest != {}
        invariant rest <= g[u] && u in depth && level == depth[u]
        invariant Searching(g, s, depth, queue, level, u, rest)
        invariant Unmet(g, depth) < unmet || (Unmet(g, depth) == unmet && |queue| < length)
        decreases |rest|
      {
        var n :| n in rest;
        SearchMeets(g, s, depth, queue, u, rest, n);
        if n !in depth {
          MeetingCounts(g, depth, n, depth[u] + 1);
          depth := depth[n := depth[u] + 1];
          queue := queue + [n];
        }
        rest := rest - {n};
      }
    }
    SearchEnds(g, s, depth, level, x);
  }

  ghost function Unmet(g: Graph, depth: map<Uid, nat>): nat {
    |g.Keys - depth.Keys|
  }

  lemma MeetingCounts(g: Graph, depth: map<Uid, nat>, n: Uid, d: nat)
    requires n in g && n !in depth
    ensures Unmet(g, depth[n := d]) < Unmet(g, depth)
  {
    OneFewer(g.Keys, depth.Keys, n);
    assert depth[n := d].Keys == depth.Keys + {n};
  }

  lemma OneFewer(all: set<Uid>, known: set<Uid>, n: Uid)
    requires n in all && n !in known
    ensures |all - (known + {n})| < |all - known|
  {
    assert all - known == (all - (known + {n})) + {n};
  }

  // ---------------------------------------------------------------------------
  // Diameters
  // ---------------------------------------------------------------------------

  /** One reachability class. */
  ghost predicate IsComponent(g: Graph, members: set<Uid>) {
    && members != {} && members <= g.Keys
    && forall u, v | u in members :: v in members <==> Reaches(g, u, v)
  }

  /** The greatest distance between two members. */
  ghost predicate IsDiameter(g: Graph, members: set<Uid>, d: nat) {
    && (exists u, v :: u in members && v in members && IsDistance(g, u, v, d))
    && (forall u, v | u in members && v in members :: Within(g, u, v, d))
  }

  function Greatest(values: set<nat>, default: nat): (r: nat)
    ensures (values == {} && r == default) || r in values || r == default
    ensures r >= default && forall v | v in values :: v <= r
    decreases |values|
  {
    if values == {} then default
    else
      GreatestExists(values);
      var v :| v in values && forall w | w in values :: w <= v;
      if v > default then v else default
  }

  lemma {:induction false} GreatestExists(values: set<nat>)
    requires values != {}
    ensures exists v :: v in values && forall w | w in values :: w <= v
    decreases |values|
  {
    var x :| x in values;
    if values != {x} {
      var rest := values - {x};
      assert values == rest + {x};
      GreatestExists(rest);
      var y :| y in rest && forall w | w in rest :: w <= y;
      assert x in values && y in values;
      if x <= y {
        assert forall w | w in values :: w <= y;
      } else {
        assert forall w | w in values :: w <= x;
      }
    }
  }

  ghost predicate Spanned(g: Graph, members: set<Uid>, rest: set<Uid>, worst: nat) {
    forall u, v | u in members && u !in rest && v in members :: Within(g, u, v, worst)
  }

  /** Every member met from `start` lies within the greatest depth. */
  lemma SpannedMore(g: Graph, members: set<Uid>, rest: set<Uid>, start: Uid, depth: map<Uid, nat>, before: nat, worst: nat)
    requires Spanned(g, members, rest, before) && before <= worst && start in members
    requires forall v | v in members :: v in depth && IsDistance(g, start, v, depth[v]) && depth[v] <= worst
    ensures Spanned(g, members, rest - {start}, worst)
  {
    forall u, v | u in members && u !in rest - {start} && v in members
      ensures Within(g, u, v, worst)
    {
      if u == start {
        WithinMonotone(g, u, v, depth[v], worst);
      } else {
        WithinMonotone(g, u, v, before, worst);
      }
    }
  }

  lemma AtItself(g: Graph, u: Uid)
    ensures IsDistance(g, u, u, 0)
  {
  }

  method Diameter(g: Graph, members: set<Uid>) returns (worst: nat)
    requires IsGraph(g) && IsComponent(g, members)
    ensures IsDiameter(g, members, worst)
  {
    hide IsGraph, IsDistance, Reaches;
    worst := 0;
    var rest := members;
    ghost var a :| a in members;
    ghost var b := a;
    AtItself(g, a);
    while rest != {}
      invariant rest <= members && Spanned(g, members, rest, worst)
      invariant a in members && b in members && IsDistance(g, a, b, worst)
      decreases |rest|
    {
      var start :| start in rest;
      var depth := Depths(g, start);
      var top := Greatest(depth.Values, 0);
      ghost var before := worst;
      forall v | v in members
        ensures v in depth && depth[v] in depth.Values
      {
        assert Reaches(g, start, v);
      }
      if top > worst {
        worst := top;
        ghost var far :| far in depth && depth[far] == top;
        a, b := start, far;
        assert Reaches(g, start, b);
      }
      SpannedMore(g, members, rest, start, depth, before, worst);
      rest := rest - {start};
    }
  }

  // ---------------------------------------------------------------------------
  // Components
  // ---------------------------------------------------------------------------

  /** A search under way: what it holds is reached, and only the queue has neighbours outside it. */
  ghost predicate Flooding(g: Graph, start: Uid, members: set<Uid>, queue: seq<Uid>) {
    && (start in members || start in queue) && members <= g.Keys
    && (forall v | v in members || v in queue :: v in g && Reaches(g, start, v))
    && (forall u, v | u in members && v in g[u] :: v in members || v in queue)
  }

  lemma FloodStarts(g: Graph, start: Uid)
    requires start in g
    ensures Flooding(g, start, {}, [start])
  {
    assert Within(g, start, start, 0);
  }

  lemma FloodSkips(g: Graph, start: Uid, members: set<Uid>, queue: seq<Uid>)
    requires Flooding(g, start, members, queue) && queue != [] && queue[0] in members
    ensures Flooding(g, start, members, queue[1..])
  {
    assert queue == [queue[0]] + queue[1..];
  }

  lemma FloodTakes(g: Graph, start: Uid, members: set<Uid>, queue: seq<Uid>, more: seq<Uid>)
    requires IsGraph(g) && Flooding(g, start, members, queue) && queue != [] && queue[0] in g
    requires forall n :: n in more <==> n in g[queue[0]] && n !in members + {queue[0]}
    ensures Flooding(g, start, members + {queue[0]}, queue[1..] + more)
  {
    var u, rest := queue[0], queue[1..];
    assert queue == [u] + rest;
    hide Reaches;
    forall v | v in members + {u} || v in rest + more
      ensures v in g && Reaches(g, start, v)
    {
      if v in more {
        StepReaches(g, start, u, v);
      }
    }
  }

  lemma FloodEnds(g: Graph, start: Uid, members: set<Uid>)
    requires IsGraph(g) && Flooding(g, start, members, [])
    ensures IsComponent(g, members) && start in members
    ensures forall v :: v in members <==> Reaches(g, start, v)
  {
    forall v | Reaches(g, start, v)
      ensures v in members
    {
      var k: nat :| Within(g, start, v, k);
      ClosedHoldsWithin(g, start, members, v, k);
    }
    hide Reaches;
    forall u, v | u in members
      ensures v in members <==> Reaches(g, u, v)
    {
      ReachesEquivalence(g, start, u, v);
      ReachesEquivalence(g, u, start, v);
    }
  }

  /** The elements of a set, in whatever order the runtime walks it. */
  method Listed(elements: set<Uid>) returns (l: seq<Uid>)
    ensures forall x :: x in l <==> x in elements
  {
    l := [];
    var rest := elements;
    while rest != {}
      invariant rest <= elements && forall x :: x in l <==> x in elements && x !in rest
      decreases |rest|
    {
      var x :| x in rest;
      l := l + [x];
      rest := rest - {x};
    }
  }

  method Flood(g: Graph, start: Uid) returns (members: set<Uid>)
    requires IsGraph(g) && start in g
    ensures IsComponent(g, members) && start in members
    ensures forall v :: v in members <==> Reaches(g, start, v)
  {
    hide Flooding, IsComponent, Reaches;
    members := {};
    var queue := [start];
    FloodStarts(g, start);
    while queue != []
      invariant Flooding(g, start, members, queue)
      decreases |g.Keys - members|, |queue|
    {
      var u := queue[0];
      HeadIsVertex(g, start, members, queue);
      if u in members {
        FloodSkips(g, start, members, queue);
        queue := queue[1..];
      } else {
        var more := Listed(g[u] - (members + {u}));
        FloodTakes(g, start, members, queue, more);
        OneFewer(g.Keys, members, u);
        members := members + {u};
        queue := queue[1..] + more;
      }
    }
    FloodEnds(g, start, members);
  }

  lemma HeadIsVertex(g: Graph, start: Uid, members: set<Uid>, queue: seq<Uid>)
    requires Flooding(g, start, members, queue) && queue != []
    ensures queue[0] in g
  {
  }

  datatype Component = Component(members: seq<Uid>, diameter: nat)

  /** A whole reachability class, in order, with its diameter. */
  ghost predicate Reported(g: Graph, c: Component) {
    && c.members != [] && Ascending(c.members)
    && IsComponent(g, Elements(c.members)) && IsDiameter(g, Elements(c.members), c.diameter)
  }

  /** One of the components holds `u`. */
  ghost predicate Covered(out: seq<Component>, u: Uid) {
    exists i :: 0 <= i < |out| && u in out[i].members
  }

  /** By smallest member. */
  ghost predicate InOrder(out: seq<Component>) {
    forall i, j | 0 <= i < j < |out| && out[i].members != [] && out[j].members != [] ::
      out[i].members[0] < out[j].members[0]
  }

  /** The components of the vertices that have an edge, each once, by smallest member. */
  ghost predicate AreComponents(g: Graph, out: seq<Component>) {
    && (forall c | c in out :: Reported(g, c))
    && (forall u :: u in Vertices(g) <==> Covered(out, u))
    && InOrder(out)
  }

  /** The components of the first `k` vertices. */
  ghost predicate Found(g: Graph, vertices: seq<Uid>, k: nat, seen: set<Uid>, out: seq<Component>) {
    && k <= |vertices|
    && (forall c | c in out :: Reported(g, c))
    && (forall u :: u in seen <==> Covered(out, u)) && seen <= Vertices(g)
    && (forall i | 0 <= i < k && vertices[i] in Vertices(g) :: vertices[i] in seen)
    && (forall c, j | c in out && c.members != [] && k <= j < |vertices| :: c.members[0] < vertices[j])
    && InOrder(out)
  }

  /** Whatever is reached by at least one step has an edge. */
  lemma {:induction false} ReachedHasEdge(g: Graph, s: Uid, v: Uid, k: nat)
    requires IsGraph(g) && Within(g, s, v, k) && v != s
    ensures v in Vertices(g)
    decreases k
  {
    if Within(g, s, v, k - 1) {
      ReachedHasEdge(g, s, v, k - 1);
    }
  }

  lemma FoundSkips(g: Graph, vertices: seq<Uid>, k: nat, seen: set<Uid>, out: seq<Component>)
    requires Found(g, vertices, k, seen, out) && k < |vertices|
    requires vertices[k] in seen || vertices[k] !in Vertices(g)
    ensures Found(g, vertices, k + 1, seen, out)
  {
    hide Reported, Covered, InOrder;
  }

  lemma CoveredMore(out: seq<Component>, c: Component, u: Uid)
    ensures Covered(out + [c], u) <==> Covered(out, u) || u in c.members
  {
    var r := out + [c];
    if i :| 0 <= i < |r| && u in r[i].members {
      assert i < |out| ==> u in out[i].members;
    }
    if i :| 0 <= i < |out| && u in out[i].members {
      assert u in r[i].members;
    }
    assert r[|out|] == c;
  }

  /** The vertex that opened the search is the smallest of its component, if no smaller one is left. */
  lemma OpensAtSmallest(g: Graph, vertices: seq<Uid>, k: nat, seen: set<Uid>, out: seq<Component>, c: Component)
    requires IsGraph(g) && Ascending(vertices) && (forall u :: u in vertices <==> u in g)
    requires Found(g, vertices, k, seen, out) && k < |vertices| && vertices[k] !in seen && vertices[k] in Vertices(g)
    requires Reported(g, c) && vertices[k] in c.members
    ensures c.members[0] == vertices[k] && forall u | u in c.members :: u in Vertices(g) && u !in seen
  {
    forall u | u in c.members
      ensures u in Vertices(g) && u !in seen
    {
      hide Reported, Covered, IsGraph, Ascending, Reaches, Vertices, InOrder, IsComponent, IsDiameter, Elements, Within;
      SharesComponent(g, c, vertices[k], u);
      if u in seen {
        SeenTogether(g, out, vertices[k], u);
      }
    }
    hide Covered, IsGraph, Ascending, Reaches, Vertices, InOrder, IsComponent, IsDiameter, Elements, Within;
    SmallestIs(g, vertices, k, seen, c.members);
  }

  lemma SharesComponent(g: Graph, c: Component, start: Uid, u: Uid)
    requires IsGraph(g) && Reported(g, c) && start in c.members && u in c.members && start in Vertices(g)
    ensures Reaches(g, start, u) && Reaches(g, u, start) && u in Vertices(g)
  {
    hide IsDiameter, Ascending, IsGraph;
    assert u in Elements(c.members) && start in Elements(c.members);
    var n: nat :| Within(g, start, u, n);
    if u != start {
      ReachedHasEdge(g, start, u, n);
    }
  }

  lemma SeenTogether(g: Graph, out: seq<Component>, start: Uid, u: Uid)
    requires (forall c | c in out :: Reported(g, c)) && Covered(out, u) && Reaches(g, u, start)
    ensures Covered(out, start)
  {
    hide IsDiameter, Ascending, Reaches;
    var i :| 0 <= i < |out| && u in out[i].members;
    assert out[i] in out && u in Elements(out[i].members);
    assert start in Elements(out[i].members);
  }

  lemma SmallestIs(g: Graph, vertices: seq<Uid>, k: nat, seen: set<Uid>, members: seq<Uid>)
    requires Ascending(vertices) && (forall u :: u in vertices <==> u in g) && k < |vertices|
    requires forall i | 0 <= i < k && vertices[i] in Vertices(g) :: vertices[i] in seen
    requires Ascending(members) && vertices[k] in members && forall u | u in members :: u in Vertices(g) && u !in seen
    ensures members[0] == vertices[k]
  {
    assert members[0] in members;
    var i :| 0 <= i < |vertices| && vertices[i] == members[0];
    var j :| 0 <= j < |members| && members[j] == vertices[k];
  }

  lemma FoundGrows(g: Graph, vertices: seq<Uid>, k: nat, seen: set<Uid>, out: seq<Component>, c: Component)
    requires IsGraph(g) && Ascending(vertices) && (forall u :: u in vertices <==> u in g)
    requires Found(g, vertices, k, seen, out) && k < |vertices| && vertices[k] !in seen && vertices[k] in Vertices(g)
    requires Reported(g, c) && vertices[k] in c.members
    ensures Found(g, vertices, k + 1, seen + Elements(c.members), out + [c])
  {
    OpensAtSmallest(g, vertices, k, seen, out, c);
    assert c.members != [];
    hide Reported, Covered, IsGraph, Ascending, Reaches, Vertices, InOrder, IsComponent, IsDiameter, Elements, Within;
    OrderGrows(out, c);
    SeenGrows(g, vertices, k, seen, c.members);
    LaterIsGreater(vertices, k, out, c);
    CoverageGrows(g, seen, out, c);
  }

  lemma CoverageGrows(g: Graph, seen: set<Uid>, out: seq<Component>, c: Component)
    requires (forall u :: u in seen <==> Covered(out, u)) && seen <= Vertices(g)
    requires (forall x | x in out :: Reported(g, x)) && Reported(g, c) && forall u | u in c.members :: u in Vertices(g)
    ensures (forall u :: u in seen + Elements(c.members) <==> Covered(out + [c], u))
    ensures seen + Elements(c.members) <= Vertices(g)
    ensures forall x | x in out + [c] :: Reported(g, x)
  {
    hide Covered, Reported, Vertices;
    forall u
      ensures u in seen + Elements(c.members) <==> Covered(out + [c], u)
    {
      CoveredMore(out, c, u);
    }
  }

  lemma OrderGrows(out: seq<Component>, c: Component)
    requires InOrder(out) && c.members != []
    requires forall x | x in out && x.members != [] :: x.members[0] < c.members[0]
    ensures InOrder(out + [c])
  {
    assert forall i | 0 <= i < |out| :: out[i] in out;
  }

  lemma SeenGrows(g: Graph, vertices: seq<Uid>, k: nat, seen: set<Uid>, members: seq<Uid>)
    requires k < |vertices| && vertices[k] in members
    requires forall i | 0 <= i < k && vertices[i] in Vertices(g) :: vertices[i] in seen
    ensures forall i | 0 <= i < k + 1 && vertices[i] in Vertices(g) :: vertices[i] in seen + Elements(members)
  {
  }

  lemma LaterIsGreater(vertices: seq<Uid>, k: nat, out: seq<Component>, c: Component)
    requires Ascending(vertices) && k < |vertices| && c.members != [] && c.members[0] == vertices[k]
    requires forall x, j | x in out && x.members != [] && k <= j < |vertices| :: x.members[0] < vertices[j]
    ensures forall x, j | x in out + [c] && x.members != [] && k + 1 <= j < |vertices| :: x.members[0] < vertices[j]
  {
    assert forall x | x in out + [c] :: x in out || x == c;
  }

  lemma FoundAll(g: Graph, vertices: seq<Uid>, seen: set<Uid>, out: seq<Component>)
    requires Found(g, vertices, |vertices|, seen, out) && forall u :: u in vertices <==> u in g
    ensures AreComponents(g, out)
  {
    hide Reported, Covered, InOrder;
    forall u | u in Vertices(g)
      ensures u in seen
    {
      assert u in vertices;
      var i :| 0 <= i < |vertices| && vertices[i] == u;
    }
  }

  /** Every component that has an edge, with its diameter. */
  method Components(g: Graph) returns (out: seq<Component>)
    requires IsGraph(g)
    ensures AreComponents(g, out)
  {
    hide IsGraph, Found, IsComponent, IsDiameter, Reaches;
    var vertices := Sorted(g.Keys);
    var seen: set<Uid> := {};
    out := [];
    NoneFound(g, vertices);
    var k := 0;
    while k < |vertices|
      invariant 0 <= k <= |vertices| && Found(g, vertices, k, seen, out)
    {
      var start := vertices[k];
      assert start in vertices;
      if start in seen || g[start] == {} {
        FoundSkips(g, vertices, k, seen, out);
      } else {
        var members := Flood(g, start);
        var sorted := Sorted(members);
        assert Elements(sorted) == members;
        var worst := Diameter(g, members);
        FoundGrows(g, vertices, k, seen, out, Component(sorted, worst));
        seen := seen + members;
        out := out + [Component(sorted, worst)];
      }
      k := k + 1;
    }
    FoundAll(g, vertices, seen, out);
  }

  lemma NoneFound(g: Graph, vertices: seq<Uid>)
    ensures Found(g, vertices, 0, {}, [])
  {
  }

  // ---------------------------------------------------------------------------
  // There is one answer, and the normative classes refine it
  // ---------------------------------------------------------------------------

  lemma DiameterUnique(g: Graph, members: set<Uid>, d: nat, e: nat)
    requires IsDiameter(g, members, d) && IsDiameter(g, members, e)
    ensures d == e
  {
    var u, v :| u in members && v in members && IsDistance(g, u, v, d);
    var x, y :| x in members && y in members && IsDistance(g, x, y, e);
    DistanceAtMost(g, u, v, d, e);
    DistanceAtMost(g, x, y, e, d);
  }

  /** Two reports of a component that share a member are the same. */
  lemma SharedIsSame(g: Graph, a: Component, b: Component, u: Uid)
    requires Reported(g, a) && Reported(g, b) && u in a.members && u in b.members
    ensures a == b
  {
    var x, y := Elements(a.members), Elements(b.members);
    assert u in x && u in y;
    hide Reaches, IsDiameter;
    assert x == y;
    AscendingUnique(a.members, b.members) by {
      forall v
        ensures v in a.members <==> v in b.members
      {
        assert v in x <==> v in y;
      }
    }
    DiameterUnique(g, x, a.diameter, b.diameter);
  }

  lemma MemberOfOther(g: Graph, p: seq<Component>, q: seq<Component>, c: Component)
    requires AreComponents(g, p) && AreComponents(g, q) && c in p
    ensures c in q && c.members != []
  {
    assert Reported(g, c);
    assert c.members != [];
    hide Reported, InOrder, Vertices;
    var u := c.members[0];
    var i :| 0 <= i < |p| && p[i] == c;
    assert u in p[i].members;
    assert Covered(q, u);
    var j :| 0 <= j < |q| && u in q[j].members;
    SharedIsSame(g, c, q[j], u);
  }

  /** The components, their members and their diameters are decided by the graph. */
  lemma ComponentsUnique(g: Graph, p: seq<Component>, q: seq<Component>)
    requires AreComponents(g, p) && AreComponents(g, q)
    ensures p == q
  {
    forall c
      ensures c in p <==> c in q
      ensures c in p ==> c.members != []
    {
      if c in p {
        MemberOfOther(g, p, q, c);
      }
      if c in q {
        MemberOfOther(g, q, p, c);
      }
    }
    hide Reported, Covered, InOrder, Vertices;
    InOrderUnique(p, q);
  }

  lemma {:induction false} InOrderUnique(p: seq<Component>, q: seq<Component>)
    requires InOrder(p) && InOrder(q) && (forall c | c in p :: c.members != []) && forall c :: c in p <==> c in q
    ensures p == q
  {
    assert p != [] ==> p[0] in q;
    assert q != [] ==> q[0] in p;
    if p != [] {
      SameFirst(p, q);
      TailInOrder(p);
      TailInOrder(q);
      hide InOrder;
      forall c
        ensures c in p[1..] <==> c in q[1..]
      {
        LaterOnes(p, c);
        LaterOnes(q, c);
      }
      InOrderUnique(p[1..], q[1..]);
      assert p == [p[0]] + p[1..] && q == [q[0]] + q[1..];
    }
  }

  lemma SameFirst(p: seq<Component>, q: seq<Component>)
    requires InOrder(p) && InOrder(q) && p != [] && q != [] && p[0] in q && q[0] in p
    requires p[0].members != [] && q[0].members != []
    ensures p[0] == q[0]
  {
    var i :| 0 <= i < |q| && q[i] == p[0];
    var j :| 0 <= j < |p| && p[j] == q[0];
  }

  lemma TailInOrder(p: seq<Component>)
    requires InOrder(p) && p != []
    ensures InOrder(p[1..]) && forall c | c in p[1..] :: c in p
  {
  }

  lemma LaterOnes(p: seq<Component>, c: Component)
    requires InOrder(p) && p != [] && forall c | c in p :: c.members != []
    ensures c in p[1..] <==> c in p && c != p[0]
  {
    assert p == [p[0]] + p[1..];
  }

  /** Every normative class lies inside one component, and two of its members are one step apart. */
  lemma ClassInsideComponent(g: Graph, classes: Classes, out: seq<Component>, k: nat)
    requires IsStrict(g, classes) && AreComponents(g, out) && k < |classes|
    ensures exists i :: 0 <= i < |out| && forall u | u in classes[k] :: u in out[i].members
    ensures forall u, v | u in classes[k] && v in classes[k] :: Within(g, u, v, 1)
  {
    var first := classes[k][0];
    forall u, v | u in classes[k] && v in classes[k]
      ensures Within(g, u, v, 1)
    {
      assert Within(g, u, u, 0);
      assert u != v ==> u in g && v in g[u];
    }
    assert first in classes[k];
    assert first in Vertices(g);
    assert Covered(out, first);
    var i :| 0 <= i < |out| && first in out[i].members;
    assert out[i] in out && first in Elements(out[i].members);
    forall u | u in classes[k]
      ensures u in out[i].members
    {
      assert Within(g, first, u, 1);
      assert Reaches(g, first, u);
      assert u in Elements(out[i].members);
    }
  }
}
