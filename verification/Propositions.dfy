/**
  Proposition classes: the undirected graph of live same-as edges, the normative partition of its
  vertices into cliques, and the tool-level components with their diameters.

  A uid is taken as the number that its 32 bytes are, most significant byte first, so that the
  order of uids is the order of numbers.
 */
module Propositions {
  type Uid = nat
  type Graph = map<Uid, set<Uid>>

  /** Every neighbour is a vertex, neighbourhood goes both ways, and nothing is next to itself. */
  ghost predicate IsGraph(g: Graph) {
    forall u, v | u in g && v in g[u] :: v != u && v in g && u in g[v]
  }

  /** The vertices that have an edge. */
  function Vertices(g: Graph): set<Uid> {
    set u | u in g && g[u] != {}
  }

  // ---------------------------------------------------------------------------
  // Which edges count
  // ---------------------------------------------------------------------------

  /** A same-as relation: its own id and its two ends. */
  datatype Edge = Edge(rid: Uid, from: Uid, to: Uid)

  /** What a store says: its units, withdrawn relations, and who attests each relation. */
  datatype Store = Store(units: set<Uid>, withdrawn: set<Uid>, agents: map<Uid, set<string>>)

  predicate Live(s: Store, needed: nat, e: Edge) {
    && e.from != e.to
    && e.from in s.units && e.to in s.units && e.rid !in s.withdrawn
    && (needed > 0 ==> |if e.rid in s.agents then s.agents[e.rid] else {}| >= needed)
  }

  /** One of the edges joins `u` and `v`. */
  ghost predicate Joins(s: Store, needed: nat, edges: seq<Edge>, u: Uid, v: Uid) {
    exists e | e in edges :: Live(s, needed, e) && ((e.from == u && e.to == v) || (e.from == v && e.to == u))
  }

  ghost predicate IsAdjacency(s: Store, needed: nat, edges: seq<Edge>, g: Graph) {
    && (forall u, v :: u in g && v in g[u] <==> Joins(s, needed, edges, u, v))
    && (forall u | u in g :: g[u] != {})
  }

  function Linked(g: Graph, u: Uid, v: Uid): Graph {
    g[u := (if u in g then g[u] else {}) + {v}]
  }

  /**
    An edge that counts for two units: both known and not one, the relation not withdrawn, and as many
    different agents behind it as are asked for, none if none are.
   */
  ghost predicate Counts(s: Store, needed: nat, e: Edge, u: Uid, v: Uid) {
    && ((e.from, e.to) == (u, v) || (e.from, e.to) == (v, u))
    && u != v && {u, v} <= s.units && !(e.rid in s.withdrawn)
    && (needed == 0 || (e.rid in s.agents && needed <= |s.agents[e.rid]|))
  }

  ghost predicate Attested(s: Store, needed: nat, edges: seq<Edge>, u: Uid, v: Uid) {
    exists e :: e in edges && Counts(s, needed, e, u, v)
  }

  lemma JoinsExactly(s: Store, needed: nat, edges: seq<Edge>, u: Uid, v: Uid)
    ensures Joins(s, needed, edges, u, v) <==> Attested(s, needed, edges, u, v)
  {
  }

  method Adjacency(s: Store, edges: seq<Edge>, needed: nat) returns (g: Graph)
    ensures IsAdjacency(s, needed, edges, g) && IsGraph(g)
    ensures forall u, v :: u in g && v in g[u] <==> Attested(s, needed, edges, u, v)
  {
    g := map[];
    var k := 0;
    while k < |edges|
      invariant 0 <= k <= |edges| && IsAdjacency(s, needed, edges[..k], g)
    {
      var e := edges[k];
      assert edges[..k + 1] == edges[..k] + [e];
      AdjacencyGrows(s, needed, edges[..k], e, g);
      if Live(s, needed, e) {
        g := Linked(g, e.from, e.to);
        g := Linked(g, e.to, e.from);
      }
      k := k + 1;
    }
    assert edges[..|edges|] == edges;
    hide Joins, Live, Counts, Attested;
    AdjacencyIsGraph(s, needed, edges, g);
    AdjacencyCounts(s, needed, edges, g);
  }

  lemma AdjacencyIsGraph(s: Store, needed: nat, edges: seq<Edge>, g: Graph)
    requires IsAdjacency(s, needed, edges, g)
    ensures IsGraph(g)
  {
    forall u, v | u in g && v in g[u]
      ensures v != u && v in g && u in g[v]
    {
      assert Joins(s, needed, edges, u, v);
      assert Joins(s, needed, edges, v, u);
    }
  }

  lemma AdjacencyCounts(s: Store, needed: nat, edges: seq<Edge>, g: Graph)
    requires IsAdjacency(s, needed, edges, g)
    ensures forall u, v :: u in g && v in g[u] <==> Attested(s, needed, edges, u, v)
  {
    hide Joins, Counts, Attested;
    forall u, v
      ensures u in g && v in g[u] <==> Attested(s, needed, edges, u, v)
    {
      JoinsExactly(s, needed, edges, u, v);
    }
  }

  lemma BothLinked(g: Graph, a: Uid, b: Uid, u: Uid, v: Uid)
    ensures var h := Linked(Linked(g, a, b), b, a);
            u in h && v in h[u] <==> (u in g && v in g[u]) || (u == a && v == b) || (u == b && v == a)
  {
  }

  lemma AdjacencyGrows(s: Store, needed: nat, edges: seq<Edge>, e: Edge, g: Graph)
    requires IsAdjacency(s, needed, edges, g)
    ensures IsAdjacency(s, needed, edges + [e],
                        if Live(s, needed, e) then Linked(Linked(g, e.from, e.to), e.to, e.from) else g)
  {
    hide Joins, Live;
    var h := if Live(s, needed, e) then Linked(Linked(g, e.from, e.to), e.to, e.from) else g;
    forall u, v
      ensures u in h && v in h[u] <==> Joins(s, needed, edges + [e], u, v)
    {
      assert u in g && v in g[u] <==> Joins(s, needed, edges, u, v);
      BothLinked(g, e.from, e.to, u, v);
      JoinsMore(s, needed, edges, e, u, v);
    }
  }

  lemma JoinsMore(s: Store, needed: nat, edges: seq<Edge>, e: Edge, u: Uid, v: Uid)
    ensures Joins(s, needed, edges + [e], u, v)
       <==> || Joins(s, needed, edges, u, v)
            || (Live(s, needed, e) && ((e.from == u && e.to == v) || (e.from == v && e.to == u)))
  {
    assert e in edges + [e];
    if x :| x in edges + [e] && Live(s, needed, x) && ((x.from == u && x.to == v) || (x.from == v && x.to == u)) {
      assert x in edges || x == e;
    }
    if x :| x in edges && Live(s, needed, x) && ((x.from == u && x.to == v) || (x.from == v && x.to == u)) {
      assert x in edges + [e];
    }
  }

  /** Neither the order of the edges nor their repetition shows in the graph. */
  lemma EdgeOrderDoesNotMatter(s: Store, needed: nat, a: seq<Edge>, b: seq<Edge>, g: Graph, h: Graph)
    requires IsAdjacency(s, needed, a, g) && IsAdjacency(s, needed, b, h)
    requires forall e :: e in a <==> e in b
    ensures g == h
  {
    forall u, v
      ensures u in g && v in g[u] <==> u in h && v in h[u]
    {
      assert Joins(s, needed, a, u, v) <==> Joins(s, needed, b, u, v);
    }
    forall u
      ensures u in g <==> u in h
    {
      if u in g {
        var v :| v in g[u];
        assert u in h && v in h[u];
      }
      if u in h {
        var v :| v in h[u];
        assert u in g && v in g[u];
      }
    }
    forall u | u in g
      ensures g[u] == h[u]
    {
      forall v
        ensures v in g[u] <==> v in h[u]
      {
        assert u in g && v in g[u] <==> u in h && v in h[u];
      }
    }
  }

  // ---------------------------------------------------------------------------
  // Sorted lists
  // ---------------------------------------------------------------------------

  ghost predicate Ascending(s: seq<Uid>) {
    forall i, j :: 0 <= i < j < |s| ==> s[i] < s[j]
  }

  lemma {:induction false} AscendingUnique(a: seq<Uid>, b: seq<Uid>)
    requires Ascending(a) && Ascending(b) && forall x :: x in a <==> x in b
    ensures a == b
  {
    assert a != [] ==> a[0] in b;
    assert b != [] ==> b[0] in a;
    if a != [] {
      assert a[0] == b[0] by {
        var i :| 0 <= i < |b| && b[i] == a[0];
        var j :| 0 <= j < |a| && a[j] == b[0];
      }
      forall x
        ensures x in a[1..] <==> x in b[1..]
      {
        RestOf(a, x);
        RestOf(b, x);
      }
      AscendingUnique(a[1..], b[1..]);
      assert a == [a[0]] + a[1..] && b == [b[0]] + b[1..];
    }
  }

  lemma RestOf(a: seq<Uid>, x: Uid)
    requires Ascending(a) && a != []
    ensures x in a[1..] <==> x in a && x != a[0]
  {
    assert a == [a[0]] + a[1..];
  }

  function InsertUid(x: Uid, s: seq<Uid>): seq<Uid> {
    if s == [] || x <= s[0] then [x] + s else [s[0]] + InsertUid(x, s[1..])
  }

  lemma {:induction false} InsertUidSpec(x: Uid, s: seq<Uid>)
    requires Ascending(s) && x !in s
    ensures Ascending(InsertUid(x, s)) && forall y :: y in InsertUid(x, s) <==> y == x || y in s
  {
    if s != [] && x > s[0] {
      assert s == [s[0]] + s[1..];
      InsertUidSpec(x, s[1..]);
      var r := InsertUid(x, s[1..]);
      forall i | 0 <= i < |r|
        ensures s[0] < r[i]
      {
        assert r[i] in r;
      }
    }
  }

  /** The elements of a set, ascending, whatever order the runtime walks the set in. */
  method Sorted(elements: set<Uid>) returns (s: seq<Uid>)
    ensures Ascending(s) && forall x :: x in s <==> x in elements
  {
    s := [];
    var rest := elements;
    while rest != {}
      invariant rest <= elements && Ascending(s) && forall x :: x in s <==> x in elements && x !in rest
      decreases |rest|
    {
      var x :| x in rest;
      InsertUidSpec(x, s);
      s := InsertUid(x, s);
      rest := rest - {x};
    }
  }

  // ---------------------------------------------------------------------------
  // The normative partition
  // ---------------------------------------------------------------------------

  type Classes = seq<seq<Uid>>

  /** Each vertex in one class, and nothing else in any. */
  ghost predicate IsPartition(vertices: set<Uid>, classes: Classes) {
    && (forall i | 0 <= i < |classes| :: classes[i] != [] && Ascending(classes[i]))
    && (forall u :: u in vertices <==> exists i :: 0 <= i < |classes| && u in classes[i])
    && (forall i, j, u | 0 <= i < |classes| && 0 <= j < |classes| && u in classes[i] && u in classes[j] :: i == j)
  }

  ghost predicate Cliques(g: Graph, classes: Classes) {
    forall i, u, v | 0 <= i < |classes| && u in classes[i] && v in classes[i] && u != v :: u in g && v in g[u]
  }

  /** A vertex smaller than `u` in class `c` that is not next to it: why `u` could not join. */
  ghost predicate Blocked(g: Graph, c: seq<Uid>, u: Uid) {
    exists v | v in c :: v < u && (u in g ==> v !in g[u])
  }

  /** Each member of a later class was kept out of every earlier one. */
  ghost predicate EarliestFit(g: Graph, classes: Classes) {
    forall i, j, u | 0 <= i < j < |classes| && u in classes[j] :: Blocked(g, classes[i], u)
  }

  ghost predicate StrictOn(g: Graph, vertices: set<Uid>, classes: Classes) {
    IsPartition(vertices, classes) && Cliques(g, classes) && EarliestFit(g, classes)
  }

  ghost predicate IsStrict(g: Graph, classes: Classes) {
    StrictOn(g, Vertices(g), classes)
  }

  /** The class of a vertex is the same in every partition of this kind. */
  lemma {:induction false} SameClass(g: Graph, p: Classes, q: Classes, u: Uid, i: nat, j: nat)
    requires IsStrict(g, p) && IsStrict(g, q)
    requires i < |p| && j < |q| && u in p[i] && u in q[j]
    ensures i == j
    decreases u
  {
    if i < j {
      BlockedApart(g, p, q, u, i);
    } else if j < i {
      BlockedApart(g, q, p, u, j);
    }
  }

  /** Nothing blocks a member of class `i` from class `i` of another partition. */
  lemma {:induction false} BlockedApart(g: Graph, p: Classes, q: Classes, u: Uid, i: nat)
    requires IsStrict(g, p) && IsStrict(g, q) && i < |p| && i < |q| && u in p[i]
    ensures !Blocked(g, q[i], u)
    decreases u, 0
  {
    assert u in Vertices(g);
    if v :| v in q[i] && v < u && (u in g ==> v !in g[u]) {
      assert v in Vertices(g);
      var k :| 0 <= k < |p| && v in p[k];
      SameClass(g, p, q, v, k, i);
      assert false;
    }
  }

  /**
    There is only one such partition: the cliques, their order and their members are decided by the
    graph.
   */
  lemma StrictUnique(g: Graph, p: Classes, q: Classes)
    requires IsStrict(g, p) && IsStrict(g, q)
    ensures p == q
  {
    forall i, u | 0 <= i < |p| && u in p[i]
      ensures i < |q| && u in q[i]
    {
      Corresponds(g, p, q, u, i);
    }
    forall i, u | 0 <= i < |q| && u in q[i]
      ensures i < |p| && u in p[i]
    {
      Corresponds(g, q, p, u, i);
    }
    assert |p| == |q| by {
      if |p| > 0 {
        assert p[|p| - 1][0] in p[|p| - 1];
      }
      if |q| > 0 {
        assert q[|q| - 1][0] in q[|q| - 1];
      }
    }
    forall i | 0 <= i < |p|
      ensures p[i] == q[i]
    {
      AscendingUnique(p[i], q[i]);
    }
  }

  lemma Corresponds(g: Graph, p: Classes, q: Classes, u: Uid, i: nat)
    requires IsStrict(g, p) && IsStrict(g, q) && i < |p| && u in p[i]
    ensures i < |q| && u in q[i]
  {
    assert u in Vertices(g);
    var j :| 0 <= j < |q| && u in q[j];
    SameClass(g, p, q, u, i, j);
  }

  // ---------------------------------------------------------------------------
  // First fit, vertex by vertex
  // ---------------------------------------------------------------------------

  predicate Fits(g: Graph, c: seq<Uid>, u: Uid) {
    u in g && forall m | m in c :: m in g[u]
  }

  /** `u` joins the first class it fits, or opens one. */
  function Place(g: Graph, classes: Classes, u: Uid): Classes {
    if classes == [] then [[u]]
    else if Fits(g, classes[0], u) then [classes[0] + [u]] + classes[1..]
    else [classes[0]] + Place(g, classes[1..], u)
  }

  function FirstFit(g: Graph, vertices: seq<Uid>): Classes {
    if vertices == [] then []
    else
      var n := |vertices| - 1;
      Place(g, FirstFit(g, vertices[..n]), vertices[n])
  }

  /** Class `k` grew by `u`, or was added at the end; `u` fits it and none before it. */
  ghost predicate PlacedAt(g: Graph, classes: Classes, r: Classes, u: Uid, k: nat) {
    && k <= |classes| && |r| == (if k == |classes| then |classes| + 1 else |classes|)
    && r[k] == (if k == |classes| then [u] else classes[k] + [u])
    && (k < |classes| ==> Fits(g, classes[k], u))
    && (forall i :: 0 <= i < |classes| && i != k ==> r[i] == classes[i])
    && (forall i :: 0 <= i < k ==> !Fits(g, classes[i], u))
  }

  lemma {:induction false} PlaceSpec(g: Graph, classes: Classes, u: Uid) returns (k: nat)
    ensures PlacedAt(g, classes, Place(g, classes, u), u, k)
  {
    var r := Place(g, classes, u);
    if classes == [] || Fits(g, classes[0], u) {
      k := 0;
    } else {
      var j := PlaceSpec(g, classes[1..], u);
      k := j + 1;
      var rest := Place(g, classes[1..], u);
      forall i | 0 <= i < |classes|
        ensures (i != k ==> r[i] == classes[i]) && (i < k ==> !Fits(g, classes[i], u))
      {
        if i > 0 {
          assert r[i] == rest[i - 1] && classes[i] == classes[1..][i - 1];
        }
      }
    }
  }

  lemma PlaceKeeps(g: Graph, vertices: set<Uid>, classes: Classes, u: Uid)
    requires IsGraph(g) && StrictOn(g, vertices, classes)
    requires u in Vertices(g) && forall v | v in vertices :: v < u
    ensures StrictOn(g, vertices + {u}, Place(g, classes, u))
  {
    var k := PlaceSpec(g, classes, u);
    var r := Place(g, classes, u);
    hide Place;
    forall i, v | 0 <= i < |r|
      ensures v in r[i] <==> (i < |classes| && v in classes[i]) || (i == k && v == u)
    {
    }
    PlacedPartition(vertices, classes, r, u, k);
    PlacedCliques(g, vertices, classes, r, u, k);
    PlacedEarliest(g, vertices, classes, r, u, k);
  }

  ghost predicate Grows(classes: Classes, r: Classes, u: Uid, k: nat) {
    && k <= |classes| && |r| == (if k == |classes| then |classes| + 1 else |classes|)
    && (forall i, v :: 0 <= i < |r| ==> (v in r[i] <==> (i < |classes| && v in classes[i]) || (i == k && v == u)))
  }

  lemma PlacedPartition(vertices: set<Uid>, classes: Classes, r: Classes, u: Uid, k: nat)
    requires IsPartition(vertices, classes) && Grows(classes, r, u, k) && forall v | v in vertices :: v < u
    requires forall i :: 0 <= i < |classes| && i != k ==> r[i] == classes[i]
    requires r[k] == if k == |classes| then [u] else classes[k] + [u]
    ensures IsPartition(vertices + {u}, r)
  {
    forall i | 0 <= i < |r|
      ensures r[i] != [] && Ascending(r[i])
    {
      if i == k && k < |classes| {
        forall j | 0 <= j < |classes[k]|
          ensures classes[k][j] < u
        {
          assert classes[k][j] in classes[k];
          assert classes[k][j] in vertices;
        }
      }
    }
    forall v
      ensures v in vertices + {u} <==> exists i :: 0 <= i < |r| && v in r[i]
    {
      if v in vertices {
        var i :| 0 <= i < |classes| && v in classes[i];
        assert v in r[i];
      }
      if v == u {
        assert v in r[k];
      }
      if i :| 0 <= i < |r| && v in r[i] {
        assert v == u || (i < |classes| && v in classes[i]);
      }
    }
    forall i, j, v | 0 <= i < |r| && 0 <= j < |r| && v in r[i] && v in r[j]
      ensures i == j
    {
      if v == u {
        assert u !in vertices;
      }
    }
  }

  lemma PlacedCliques(g: Graph, vertices: set<Uid>, classes: Classes, r: Classes, u: Uid, k: nat)
    requires IsGraph(g) && StrictOn(g, vertices, classes) && Grows(classes, r, u, k) && u in g
    requires k < |classes| ==> Fits(g, classes[k], u)
    ensures Cliques(g, r)
  {
    forall i, v, w | 0 <= i < |r| && v in r[i] && w in r[i] && v != w
      ensures v in g && w in g[v]
    {
      if v == u && i == k {
        assert w in classes[k];
      } else if w == u && i == k {
        assert v in classes[k] && v in g[u];
      }
    }
  }

  lemma PlacedEarliest(g: Graph, vertices: set<Uid>, classes: Classes, r: Classes, u: Uid, k: nat)
    requires StrictOn(g, vertices, classes) && Grows(classes, r, u, k) && u in g && forall v | v in vertices :: v < u
    requires forall i :: 0 <= i < k ==> !Fits(g, classes[i], u)
    ensures EarliestFit(g, r)
  {
    forall i, j, w | 0 <= i < j < |r| && w in r[j]
      ensures Blocked(g, r[i], w)
    {
      if w == u && j == k {
        var m :| m in classes[i] && m !in g[u];
        assert m in vertices;
        assert m in r[i];
      } else {
        assert Blocked(g, classes[i], w);
        var v :| v in classes[i] && v < w && (w in g ==> v !in g[w]);
        assert v in r[i];
      }
    }
  }

  function Elements(s: seq<Uid>): set<Uid> {
    set u | u in s
  }

  lemma {:induction false} FirstFitStrict(g: Graph, vertices: seq<Uid>)
    requires IsGraph(g) && Ascending(vertices) && forall u | u in vertices :: u in Vertices(g)
    ensures StrictOn(g, Elements(vertices), FirstFit(g, vertices))
  {
    if vertices != [] {
      var n := |vertices| - 1;
      hide StrictOn, IsGraph, Place, Vertices;
      FirstFitStrict(g, vertices[..n]);
      assert vertices == vertices[..n] + [vertices[n]];
      var before := Elements(vertices[..n]);
      assert Elements(vertices) == before + {vertices[n]};
      forall v | v in before
        ensures v < vertices[n]
      {
        var i :| 0 <= i < n && vertices[i] == v;
      }
      PlaceKeeps(g, before, FirstFit(g, vertices[..n]), vertices[n]);
    }
  }

  /** Class by class or vertex by vertex: any strict partition is what first fit gives. */
  lemma StrictIsFirstFit(g: Graph, vertices: seq<Uid>, classes: Classes)
    requires IsGraph(g) && Ascending(vertices) && (forall u :: u in vertices <==> u in Vertices(g))
    ensures IsStrict(g, classes) <==> classes == FirstFit(g, vertices)
  {
    FirstFitStrict(g, vertices);
    assert Elements(vertices) == Vertices(g);
    if IsStrict(g, classes) {
      StrictUnique(g, classes, FirstFit(g, vertices));
    }
  }

  // ---------------------------------------------------------------------------
  // The partition, class by class
  // ---------------------------------------------------------------------------

  /** The classes so far, and every vertex outside them kept out of each of them. */
  ghost predicate StrictSoFar(g: Graph, classes: Classes, taken: set<Uid>) {
    && taken <= Vertices(g) && StrictOn(g, taken, classes)
    && forall i, u | 0 <= i < |classes| && u in Vertices(g) && u !in taken :: Blocked(g, classes[i], u)
  }

  /** A class being collected from `seed` on, after the candidates before position `c`. */
  ghost predicate Collecting(g: Graph, vertices: seq<Uid>, seed: Uid, members: seq<Uid>, before: set<Uid>, c: nat) {
    && c <= |vertices| && members != [] && members[0] == seed && Ascending(members)
    && (forall m | m in members :: m in Vertices(g) && m !in before)
    && (forall u, v | u in members && v in members && u != v :: u in g && v in g[u])
    && (forall m, j | m in members && c <= j < |vertices| && vertices[j] > seed :: m < vertices[j])
    && (forall j | 0 <= j < c && vertices[j] !in before && vertices[j] > seed && vertices[j] !in members ::
          Blocked(g, members, vertices[j]))
  }

  lemma CollectingJoins(g: Graph, vertices: seq<Uid>, seed: Uid, members: seq<Uid>, before: set<Uid>, c: nat)
    requires IsGraph(g) && Ascending(vertices) && forall u :: u in vertices <==> u in Vertices(g)
    requires Collecting(g, vertices, seed, members, before, c) && c < |vertices|
    requires vertices[c] > seed && vertices[c] !in before && Fits(g, members, vertices[c])
    ensures Collecting(g, vertices, seed, members + [vertices[c]], before, c + 1)
  {
    var u := vertices[c];
    assert u in vertices;
    forall j | 0 <= j < |members|
      ensures members[j] < u
    {
      assert members[j] in members;
    }
    forall j | 0 <= j < c + 1 && vertices[j] !in before && vertices[j] > seed && vertices[j] !in members + [u]
      ensures Blocked(g, members + [u], vertices[j])
    {
      assert Blocked(g, members, vertices[j]);
      var v :| v in members && v < vertices[j] && (vertices[j] in g ==> v !in g[vertices[j]]);
      assert v in members + [u];
    }
  }

  lemma CollectingSkips(g: Graph, vertices: seq<Uid>, seed: Uid, members: seq<Uid>, before: set<Uid>, c: nat)
    requires Collecting(g, vertices, seed, members, before, c) && c < |vertices| && vertices[c] in g
    requires vertices[c] <= seed || vertices[c] in before || !Fits(g, members, vertices[c])
    ensures Collecting(g, vertices, seed, members, before, c + 1)
  {
    if vertices[c] > seed && vertices[c] !in before {
      var m :| m in members && m !in g[vertices[c]];
      assert m < vertices[c];
    }
  }

  lemma ClassClosed(g: Graph, vertices: seq<Uid>, seed: Uid, members: seq<Uid>, before: set<Uid>, classes: Classes)
    requires Ascending(vertices) && forall u :: u in vertices <==> u in Vertices(g)
    requires StrictSoFar(g, classes, before) && Collecting(g, vertices, seed, members, before, |vertices|)
    requires forall u | u in Vertices(g) && u < seed :: u in before
    ensures StrictSoFar(g, classes + [members], before + Elements(members))
  {
    var r, taken := classes + [members], before + Elements(members);
    forall u
      ensures u in taken <==> exists i :: 0 <= i < |r| && u in r[i]
    {
      if u in before {
        var i :| 0 <= i < |classes| && u in classes[i];
        assert u in r[i];
      }
      if u in members {
        assert u in r[|classes|];
      }
      if i :| 0 <= i < |r| && u in r[i] {
        assert i < |classes| ==> u in classes[i];
      }
    }
    forall i, j, u | 0 <= i < |r| && 0 <= j < |r| && u in r[i] && u in r[j]
      ensures i == j
    {
      assert i < |classes| ==> u in classes[i];
      assert j < |classes| ==> u in classes[j];
    }
    forall i, u | 0 <= i < |r| && u in Vertices(g) && u !in taken
      ensures Blocked(g, r[i], u)
    {
      if i == |classes| {
        var j :| 0 <= j < |vertices| && vertices[j] == u;
        assert u != seed;
      }
    }
  }

  /** The smallest unassigned vertex opens a class; later ones join if next to every member. */
  method Strict(g: Graph) returns (classes: Classes)
    requires IsGraph(g)
    ensures IsStrict(g, classes)
  {
    hide StrictSoFar, Collecting;
    var vertices := Sorted(Vertices(g));
    var taken: set<Uid> := {};
    classes := [];
    NothingYet(g);
    var k := 0;
    while k < |vertices|
      invariant 0 <= k <= |vertices| && StrictSoFar(g, classes, taken)
      invariant forall j :: 0 <= j < k ==> vertices[j] in taken
    {
      var seed := vertices[k];
      if seed !in taken {
        assert seed in vertices;
        var members := [seed];
        ghost var before := taken;
        SeedOpens(g, vertices, k, before);
        taken := taken + {seed};
        var c := 0;
        while c < |vertices|
          invariant 0 <= c <= |vertices| && Collecting(g, vertices, seed, members, before, c)
          invariant taken == before + Elements(members) && seed in members
        {
          var candidate := vertices[c];
          assert candidate in vertices;
          if candidate <= seed || candidate in taken {
            AlreadyIn(g, vertices, seed, members, before, c);
          } else if Fits(g, members, candidate) {
            CollectingJoins(g, vertices, seed, members, before, c);
            members := members + [candidate];
            taken := taken + {candidate};
          } else {
            CollectingSkips(g, vertices, seed, members, before, c);
          }
          c := c + 1;
        }
        SmallerAssigned(g, vertices, k, before);
        ClassClosed(g, vertices, seed, members, before, classes);
        classes := classes + [members];
      }
      k := k + 1;
    }
    AllAssigned(g, vertices, classes, taken);
  }

  lemma NothingYet(g: Graph)
    ensures StrictSoFar(g, [], {})
  {
  }

  lemma SeedOpens(g: Graph, vertices: seq<Uid>, k: nat, before: set<Uid>)
    requires Ascending(vertices) && (forall u :: u in vertices <==> u in Vertices(g)) && k < |vertices|
    requires vertices[k] !in before
    ensures Collecting(g, vertices, vertices[k], [vertices[k]], before, 0)
  {
    assert vertices[k] in vertices;
  }

  lemma AlreadyIn(g: Graph, vertices: seq<Uid>, seed: Uid, members: seq<Uid>, before: set<Uid>, c: nat)
    requires Ascending(vertices) && Collecting(g, vertices, seed, members, before, c) && c < |vertices|
    requires vertices[c] <= seed || vertices[c] in before + Elements(members)
    ensures Collecting(g, vertices, seed, members, before, c + 1)
  {
  }

  lemma SmallerAssigned(g: Graph, vertices: seq<Uid>, k: nat, before: set<Uid>)
    requires Ascending(vertices) && (forall u :: u in vertices <==> u in Vertices(g)) && k < |vertices|
    requires forall j :: 0 <= j < k ==> vertices[j] in before
    ensures forall u | u in Vertices(g) && u < vertices[k] :: u in before
  {
    forall u | u in Vertices(g) && u < vertices[k]
      ensures u in before
    {
      assert u in vertices;
      var j :| 0 <= j < |vertices| && vertices[j] == u;
    }
  }

  lemma AllAssigned(g: Graph, vertices: seq<Uid>, classes: Classes, taken: set<Uid>)
    requires StrictSoFar(g, classes, taken) && forall u :: u in vertices <==> u in Vertices(g)
    requires forall j :: 0 <= j < |vertices| ==> vertices[j] in taken
    ensures IsStrict(g, classes)
  {
    forall u | u in Vertices(g)
      ensures u in taken
    {
      assert u in vertices;
      var j :| 0 <= j < |vertices| && vertices[j] == u;
    }
    assert taken == Vertices(g);
  }
}
