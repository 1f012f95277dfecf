/**
  The oracle that exact packing is held against: every level assignment, one after another, and the
  best of those within the budget that break no constraint.
 */
module PackExact {
  import opened Bytes
  import opened Numbers
  import opened PackModel

  /** The units of a store with the levels each can be packed at. */
  type Store = map<Uid, seq<Lod>>

  /** What packing asks of a selection: its cost, whether it breaks no constraint, what it is worth. */
  datatype Problem = Problem(cost: Selection -> nat, legal: (Selection, nat) -> bool, worth: Selection -> real)

  const ENUMERATION_LIMIT: nat := 4096
  const U64_MAX: nat := 0xffff_ffff_ffff_ffff

  // ---------------------------------------------------------------------------
  // The size of the space
  // ---------------------------------------------------------------------------

  function Levels(store: Store, u: Uid): seq<Lod> {
    if u in store then store[u] else []
  }

  /** Left out, or at one of its levels. */
  function Choices(store: Store, u: Uid): (r: seq<Option<Lod>>)
    ensures |r| == |Levels(store, u)| + 1
  {
    [None] + seq(|Levels(store, u)|, i requires 0 <= i < |Levels(store, u)| => Some(Levels(store, u)[i]))
  }

  function Sizes(store: Store, scope: seq<Uid>): (r: seq<nat>)
    ensures |r| == |scope| && forall i :: 0 <= i < |r| ==> r[i] == |Choices(store, scope[i])|
  {
    seq(|scope|, i requires 0 <= i < |scope| => |Choices(store, scope[i])|)
  }

  function Product(sizes: seq<nat>): nat {
    if sizes == [] then 1 else sizes[0] * Product(sizes[1..])
  }

  /** Multiplied up from `sofar` in 64 bits, or nothing on overflow. */
  function CheckedProduct(sofar: nat, sizes: seq<nat>): Option<nat>
    decreases |sizes|
  {
    if sizes == [] then Some(sofar)
    else if sofar * sizes[0] > U64_MAX then None
    else CheckedProduct(sofar * sizes[0], sizes[1..])
  }

  predicate Positive(sizes: seq<nat>) {
    forall i :: 0 <= i < |sizes| ==> sizes[i] >= 1
  }

  lemma {:induction false} ProductPositive(sizes: seq<nat>)
    requires Positive(sizes)
    ensures Product(sizes) >= 1
  {
    if sizes != [] {
      ProductPositive(sizes[1..]);
    }
  }

  /** Overflow on the way is overflow of the whole: the factors are at least one. */
  lemma {:induction false} CheckedProductIs(sofar: nat, sizes: seq<nat>)
    requires sofar <= U64_MAX && Positive(sizes)
    ensures CheckedProduct(sofar, sizes)
         == if sofar * Product(sizes) <= U64_MAX then Some(sofar * Product(sizes)) else None
    decreases |sizes|
  {
    if sizes != [] {
      var x, rest := sizes[0], sizes[1..];
      ProductPositive(rest);
      MulAssociates(sofar, x, Product(rest));
      if sofar * x <= U64_MAX {
        CheckedProductIs(sofar * x, rest);
      } else {
        NotSmaller(sofar * x, Product(rest));
      }
    }
  }

  lemma NotSmaller(a: nat, b: nat)
    requires b >= 1
    ensures a * b >= a
  {
  }

  /** The factors of the units that the store has, the others being skipped. */
  function KnownSizes(store: Store, scope: seq<Uid>): seq<nat> {
    if scope == [] then []
    else (if scope[0] in store then [|store[scope[0]]| + 1] else []) + KnownSizes(store, scope[1..])
  }

  function SearchSpace(store: Store, scope: seq<Uid>): nat {
    match CheckedProduct(1, KnownSizes(store, scope))
    case Some(n) => n
    case None => U64_MAX
  }

  lemma {:induction false} KnownProduct(store: Store, scope: seq<Uid>)
    ensures Product(KnownSizes(store, scope)) == Product(Sizes(store, scope))
    ensures Positive(KnownSizes(store, scope))
  {
    if scope != [] {
      KnownProduct(store, scope[1..]);
      assert Sizes(store, scope)[1..] == Sizes(store, scope[1..]);
      var rest := KnownSizes(store, scope[1..]);
      if scope[0] in store {
        assert ([|store[scope[0]]| + 1] + rest)[1..] == rest;
      } else {
        assert [] + rest == rest;
      }
    }
  }

  /** The size of the space as far as 64 bits can tell. */
  lemma SearchSpaceIs(store: Store, scope: seq<Uid>)
    ensures var total := Product(Sizes(store, scope));
            SearchSpace(store, scope) == if total < 0x1_0000_0000_0000_0000 then total else 0xffff_ffff_ffff_ffff
  {
    KnownProduct(store, scope);
    CheckedProductIs(1, KnownSizes(store, scope));
  }

  // ---------------------------------------------------------------------------
  // Numbers as assignments
  // ---------------------------------------------------------------------------

  /** One option for each unit. */
  predicate IsAssignment(sizes: seq<nat>, picks: seq<nat>) {
    |picks| == |sizes| && forall i :: 0 <= i < |picks| ==> picks[i] < sizes[i]
  }

  /** The number `n` divided down by each size in turn. */
  function Picks(sizes: seq<nat>, n: nat): (picks: seq<nat>)
    requires Positive(sizes)
    ensures |picks| == |sizes|
  {
    if sizes == [] then []
    else
      [n % sizes[0]] + Picks(sizes[1..], n / sizes[0])
  }

  /** The number that is divided down to these picks. */
  function Counter(sizes: seq<nat>, picks: seq<nat>): nat
    requires |picks| == |sizes|
  {
    if sizes == [] then 0 else picks[0] + sizes[0] * Counter(sizes[1..], picks[1..])
  }

  lemma DivMod(n: nat, d: nat)
    requires d >= 1
    ensures n == n % d + d * (n / d) && n % d < d
  {
  }

  lemma Quotients(n: nat, d: nat, p: nat)
    requires d >= 1 && n < d * p
    ensures n / d < p
  {
    DivMod(n, d);
    if n / d >= p {
      MulMonotone(d, p, n / d);
    }
  }

  lemma MulMonotone(d: nat, a: nat, b: nat)
    requires a <= b
    ensures d * a <= d * b
  {
  }

  lemma Composed(r: nat, d: nat, q: nat)
    requires r < d
    ensures (r + d * q) / d == q && (r + d * q) % d == r
  {
    QuotientIs(r + d * q, d, q);
  }

  /** Every number below the product is an assignment, and can be told from it. */
  lemma {:induction false} PicksOfNumber(sizes: seq<nat>, n: nat)
    requires Positive(sizes) && n < Product(sizes)
    ensures IsAssignment(sizes, Picks(sizes, n)) && Counter(sizes, Picks(sizes, n)) == n
  {
    if sizes != [] {
      var d, rest := sizes[0], sizes[1..];
      DivMod(n, d);
      Quotients(n, d, Product(rest));
      PicksOfNumber(rest, n / d);
      var picks := Picks(sizes, n);
      assert picks[1..] == Picks(rest, n / d);
      forall i | 0 <= i < |picks|
        ensures picks[i] < sizes[i]
      {
        if i > 0 {
          assert picks[i] == picks[1..][i - 1] && sizes[i] == rest[i - 1];
        }
      }
    }
  }

  /** Every assignment is such a number. */
  lemma {:induction false} NumberOfPicks(sizes: seq<nat>, picks: seq<nat>)
    requires Positive(sizes) && IsAssignment(sizes, picks)
    ensures Counter(sizes, picks) < Product(sizes) && Picks(sizes, Counter(sizes, picks)) == picks
  {
    if sizes != [] {
      NumberOfPicks(sizes[1..], picks[1..]);
      var q := Counter(sizes[1..], picks[1..]);
      Composed(picks[0], sizes[0], q);
      BelowProduct(picks[0], sizes[0], q, Product(sizes[1..]));
      assert Counter(sizes, picks) == picks[0] + sizes[0] * q;
      assert Product(sizes) == sizes[0] * Product(sizes[1..]);
      hide Counter, Picks, Product;
      PicksStep(sizes, picks[0] + sizes[0] * q, picks[0], q);
      assert picks == [picks[0]] + picks[1..];
    }
  }

  lemma PicksStep(sizes: seq<nat>, n: nat, first: nat, q: nat)
    requires Positive(sizes) && sizes != [] && n % sizes[0] == first && n / sizes[0] == q
    ensures Picks(sizes, n) == [first] + Picks(sizes[1..], q)
  {
  }

  lemma BelowProduct(r: nat, d: nat, q: nat, p: nat)
    requires r < d && q < p
    ensures r + d * q < d * p
  {
    MulMonotone(d, q + 1, p);
    assert d * (q + 1) == d * q + d;
  }

  // ---------------------------------------------------------------------------
  // Assignments as selections
  // ---------------------------------------------------------------------------

  /** One more unit: at a level, or left out. */
  function With(s: Selection, u: Uid, choice: Option<Lod>): Selection {
    match choice
    case Some(level) => s[u := level]
    case None => s
  }

  /** What the first `k` picks select. */
  function Chosen(store: Store, scope: seq<Uid>, picks: seq<nat>, k: nat): Selection
    requires IsAssignment(Sizes(store, scope), picks) && k <= |scope|
  {
    if k == 0 then map[]
    else With(Chosen(store, scope, picks, k - 1), scope[k - 1], Choices(store, scope[k - 1])[picks[k - 1]])
  }

  /** Units of the scope, each at one of its levels. */
  ghost predicate IsSelection(store: Store, scope: seq<Uid>, s: Selection) {
    forall u | u in s :: u in scope && u in store && s[u] in store[u]
  }

  lemma {:induction false} ChosenIsSelection(store: Store, scope: seq<Uid>, picks: seq<nat>, k: nat)
    requires IsAssignment(Sizes(store, scope), picks) && k <= |scope|
    ensures IsSelection(store, scope, Chosen(store, scope, picks, k))
  {
    if k > 0 {
      ChosenIsSelection(store, scope, picks, k - 1);
      assert scope[k - 1] in scope;
    }
  }

  /** Where a level stands among the levels, from `i` on. */
  function LevelIndex(levels: seq<Lod>, level: Lod): (i: nat)
    requires level in levels
    ensures i < |levels| && levels[i] == level
  {
    if levels[0] == level then 0 else LevelIndex(levels[1..], level) + 1
  }

  function PickOf(store: Store, s: Selection, u: Uid): (p: nat)
    requires u in s ==> s[u] in Levels(store, u)
    ensures p < |Choices(store, u)|
    ensures Choices(store, u)[p] == if u in s then Some(s[u]) else None
  {
    if u in s then LevelIndex(Levels(store, u), s[u]) + 1 else 0
  }

  /** The picks that select `s`. */
  function PicksFor(store: Store, scope: seq<Uid>, s: Selection): (picks: seq<nat>)
    requires forall u | u in s :: s[u] in Levels(store, u)
    ensures IsAssignment(Sizes(store, scope), picks)
    ensures forall i :: 0 <= i < |scope| ==> picks[i] == PickOf(store, s, scope[i])
  {
    seq(|scope|, i requires 0 <= i < |scope| => PickOf(store, s, scope[i]))
  }

  /** `c` is `s`, as far as the first `k` units of the scope go. */
  ghost predicate Agrees(scope: seq<Uid>, s: Selection, k: nat, c: Selection) {
    && k <= |scope|
    && (forall u :: u in c <==> u in s && u in scope[..k])
    && (forall u | u in c && u in s :: c[u] == s[u])
  }

  lemma AgreesMore(scope: seq<Uid>, s: Selection, k: nat, c: Selection, choice: Option<Lod>)
    requires Agrees(scope, s, k, c) && k < |scope|
    requires choice == if scope[k] in s then Some(s[scope[k]]) else None
    ensures Agrees(scope, s, k + 1, With(c, scope[k], choice))
  {
    assert scope[..k + 1] == scope[..k] + [scope[k]];
  }

  lemma {:induction false} ChosenFor(store: Store, scope: seq<Uid>, s: Selection, k: nat)
    requires (forall u | u in s :: s[u] in Levels(store, u)) && k <= |scope|
    ensures Agrees(scope, s, k, Chosen(store, scope, PicksFor(store, scope, s), k))
  {
    hide PicksFor, PickOf, Choices, Levels, Sizes;
    if k > 0 {
      hide Agrees, With;
      ChosenFor(store, scope, s, k - 1);
      AgreesMore(scope, s, k - 1, Chosen(store, scope, PicksFor(store, scope, s), k - 1),
                 Choices(store, scope[k - 1])[PickOf(store, s, scope[k - 1])]);
    }
  }

  lemma AgreesWholly(scope: seq<Uid>, s: Selection, c: Selection)
    requires Agrees(scope, s, |scope|, c) && forall u | u in s :: u in scope
    ensures c == s
  {
    assert scope[..|scope|] == scope;
  }

  /** Every selection is what some number below the product selects. */
  lemma EverySelection(store: Store, scope: seq<Uid>, s: Selection) returns (n: nat)
    requires IsSelection(store, scope, s)
    ensures var sizes := Sizes(store, scope);
            && n < Product(sizes) && IsAssignment(sizes, Picks(sizes, n))
            && Chosen(store, scope, Picks(sizes, n), |scope|) == s
  {
    var sizes, picks := Sizes(store, scope), PicksFor(store, scope, s);
    n := Counter(sizes, picks);
    NumberOfPicks(sizes, picks);
    ChosenFor(store, scope, s, |scope|);
    hide Chosen, Counter, Product, Picks, PicksFor, Agrees, Sizes, IsAssignment, Levels;
    AgreesWholly(scope, s, Chosen(store, scope, picks, |scope|));
  }

  ghost predicate Distinct<T>(s: seq<T>) {
    forall i, j :: 0 <= i < j < |s| ==> s[i] != s[j]
  }

  /** No unit twice in the scope, and no level twice on a unit. */
  ghost predicate NothingTwice(store: Store, scope: seq<Uid>) {
    Distinct(scope) && forall u :: Distinct(Levels(store, u))
  }

  /** The pick of each unit shows in what was selected. */
  lemma {:induction false} PickShows(store: Store, scope: seq<Uid>, picks: seq<nat>, k: nat, i: nat)
    requires Distinct(scope) && IsAssignment(Sizes(store, scope), picks) && i < k <= |scope|
    ensures var c := Chosen(store, scope, picks, k);
            Choices(store, scope[i])[picks[i]] == if scope[i] in c then Some(c[scope[i]]) else None
  {
    hide Sizes, Choices;
    if i < k - 1 {
      PickShows(store, scope, picks, k - 1, i);
    } else {
      NotYetChosen(store, scope, picks, i);
    }
  }

  lemma {:induction false} NotYetChosen(store: Store, scope: seq<Uid>, picks: seq<nat>, i: nat)
    requires Distinct(scope) && IsAssignment(Sizes(store, scope), picks) && i < |scope|
    ensures scope[i] !in Chosen(store, scope, picks, i)
  {
    ChosenBefore(store, scope, picks, i);
    var c := Chosen(store, scope, picks, i);
    hide Chosen, Sizes;
    assert scope[i] !in scope[..i];
  }

  lemma {:induction false} ChosenBefore(store: Store, scope: seq<Uid>, picks: seq<nat>, k: nat)
    requires IsAssignment(Sizes(store, scope), picks) && k <= |scope|
    ensures forall u | u in Chosen(store, scope, picks, k) :: u in scope[..k]
  {
    hide Sizes, Choices;
    if k > 0 {
      ChosenBefore(store, scope, picks, k - 1);
      assert scope[..k] == scope[..k - 1] + [scope[k - 1]];
    }
  }

  /** No selection is met twice: different numbers select differently. */
  lemma SelectedOnce(store: Store, scope: seq<Uid>, n: nat, m: nat)
    requires NothingTwice(store, scope) && n < m < Product(Sizes(store, scope))
    ensures var sizes := Sizes(store, scope);
            && IsAssignment(sizes, Picks(sizes, n)) && IsAssignment(sizes, Picks(sizes, m))
            && Chosen(store, scope, Picks(sizes, n), |scope|) != Chosen(store, scope, Picks(sizes, m), |scope|)
  {
    var sizes := Sizes(store, scope);
    PicksOfNumber(sizes, n);
    PicksOfNumber(sizes, m);
    var p, q := Picks(sizes, n), Picks(sizes, m);
    hide Picks, Counter, Product, Chosen;
    assert p != q;
    var i :| 0 <= i < |scope| && p[i] != q[i];
    PickShows(store, scope, p, |scope|, i);
    PickShows(store, scope, q, |scope|, i);
    ChoicesDiffer(store, scope[i], p[i], q[i]);
  }

  lemma ChoicesDiffer(store: Store, u: Uid, p: nat, q: nat)
    requires Distinct(Levels(store, u)) && p < |Choices(store, u)| && q < |Choices(store, u)| && p != q
    ensures Choices(store, u)[p] != Choices(store, u)[q]
  {
  }

  // ---------------------------------------------------------------------------
  // The search
  // ---------------------------------------------------------------------------

  /** Within the budget, and no constraint broken. */
  predicate Feasible(p: Problem, budget: nat, s: Selection) {
    p.cost(s) <= budget && p.legal(s, p.cost(s))
  }

  /** The most that a feasible selection is worth, or zero if none is worth anything. */
  ghost predicate IsBest(p: Problem, store: Store, scope: seq<Uid>, budget: nat, best: real) {
    && (forall s | IsSelection(store, scope, s) && Feasible(p, budget, s) :: p.worth(s) <= best)
    && best >= 0.0
    && (best > 0.0 ==> exists s :: IsSelection(store, scope, s) && Feasible(p, budget, s) && p.worth(s) == best)
  }

  function SelectionAt(store: Store, scope: seq<Uid>, n: nat): Selection
    requires n < Product(Sizes(store, scope))
  {
    PicksOfNumber(Sizes(store, scope), n);
    Chosen(store, scope, Picks(Sizes(store, scope), n), |scope|)
  }

  /** The best among the first `n` assignments. */
  ghost predicate BestSoFar(p: Problem, store: Store, scope: seq<Uid>, budget: nat, n: nat, best: real) {
    && n <= Product(Sizes(store, scope))
    && (forall m | 0 <= m < n && Feasible(p, budget, SelectionAt(store, scope, m)) ::
          p.worth(SelectionAt(store, scope, m)) <= best)
    && best >= 0.0
    && (best > 0.0 ==>
          exists m :: 0 <= m < n && Feasible(p, budget, SelectionAt(store, scope, m))
                      && p.worth(SelectionAt(store, scope, m)) == best)
  }

  lemma BestOfAll(p: Problem, store: Store, scope: seq<Uid>, budget: nat, best: real)
    requires BestSoFar(p, store, scope, budget, Product(Sizes(store, scope)), best)
    ensures IsBest(p, store, scope, budget, best)
  {
    hide Feasible, Product, SelectionAt, IsSelection, Sizes;
    forall s | IsSelection(store, scope, s) && Feasible(p, budget, s)
      ensures p.worth(s) <= best
    {
      var m := NumberOfSelection(store, scope, s);
    }
    if best > 0.0 {
      var m :| 0 <= m < Product(Sizes(store, scope)) && Feasible(p, budget, SelectionAt(store, scope, m))
               && p.worth(SelectionAt(store, scope, m)) == best;
      SelectionAtIs(store, scope, m);
    }
  }

  lemma NumberOfSelection(store: Store, scope: seq<Uid>, s: Selection) returns (m: nat)
    requires IsSelection(store, scope, s)
    ensures m < Product(Sizes(store, scope)) && SelectionAt(store, scope, m) == s
  {
    m := EverySelection(store, scope, s);
    hide Product, Sizes, Picks, Chosen;
  }

  lemma SelectionAtIs(store: Store, scope: seq<Uid>, m: nat)
    requires m < Product(Sizes(store, scope))
    ensures IsSelection(store, scope, SelectionAt(store, scope, m))
  {
    PicksOfNumber(Sizes(store, scope), m);
    ChosenIsSelection(store, scope, Picks(Sizes(store, scope), m), |scope|);
    hide Product, Sizes, Picks, Chosen, IsSelection;
  }

  /** The assignment of a number, divided down in place. */
  method Select(store: Store, scope: seq<Uid>, n: nat) returns (selection: Selection)
    requires n < Product(Sizes(store, scope))
    ensures selection == SelectionAt(store, scope, n)
  {
    hide Chosen, Picks, Product, Choices, Counter, IsAssignment, Levels, With;
    var rest: nat := n;
    selection := map[];
    ghost var sizes := Sizes(store, scope);
    PicksOfNumber(sizes, n);
    NothingChosen(store, scope, Picks(sizes, n));
    var i := 0;
    while i < |scope|
      invariant 0 <= i <= |scope|
      invariant Picks(sizes, n)[i..] == Picks(sizes[i..], rest)
      invariant selection == Chosen(store, scope, Picks(sizes, n), i)
    {
      var options := Choices(store, scope[i]);
      PicksUnfold(sizes, n, i, rest);
      ChosenStep(store, scope, Picks(sizes, n), i);
      var pick := rest % |options|;
      rest := rest / |options|;
      match options[pick] {
        case Some(level) => selection := selection[scope[i] := level];
        case None =>
      }
      i := i + 1;
    }
  }

  lemma NothingChosen(store: Store, scope: seq<Uid>, picks: seq<nat>)
    requires IsAssignment(Sizes(store, scope), picks)
    ensures Chosen(store, scope, picks, 0) == map[]
  {
  }

  lemma ChosenStep(store: Store, scope: seq<Uid>, picks: seq<nat>, i: nat)
    requires IsAssignment(Sizes(store, scope), picks) && i < |scope|
    ensures picks[i] < |Choices(store, scope[i])|
    ensures Chosen(store, scope, picks, i + 1)
         == match Choices(store, scope[i])[picks[i]]
            case Some(level) => Chosen(store, scope, picks, i)[scope[i] := level]
            case None => Chosen(store, scope, picks, i)
  {
  }

  lemma PicksUnfold(sizes: seq<nat>, n: nat, i: nat, rest: nat)
    requires Positive(sizes) && i < |sizes| && Picks(sizes, n)[i..] == Picks(sizes[i..], rest)
    ensures Picks(sizes, n)[i] == rest % sizes[i] && Picks(sizes, n)[i + 1..] == Picks(sizes[i + 1..], rest / sizes[i])
  {
    assert sizes[i..][0] == sizes[i] && sizes[i..][1..] == sizes[i + 1..];
    var p := Picks(sizes, n);
    assert p[i..][0] == p[i] && p[i..][1..] == p[i + 1..];
  }

  /**
    The best value of any feasible selection, found by looking at all of them; nothing when there
    are too many.
   */
  method BruteForce(p: Problem, store: Store, scope: seq<Uid>, budget: nat) returns (r: Option<real>)
    ensures r.None? <==> Product(Sizes(store, scope)) > 4096
    ensures r.Some? ==> IsBest(p, store, scope, budget, r.value)
  {
    hide BestSoFar, IsBest, SelectionAt, Product;
    ghost var sizes := Sizes(store, scope);
    CheckedProductIs(1, sizes);
    match CheckedProduct(1, Sizes(store, scope))
    case None =>
      r := None;
    case Some(total) =>
      if total > ENUMERATION_LIMIT {
        return None;
      }
      var best := 0.0;
      NoneYet(p, store, scope, budget);
      for n := 0 to total
        invariant BestSoFar(p, store, scope, budget, n, best)
      {
        var selection := Select(store, scope, n);
        OneMore(p, store, scope, budget, n, best);
        var used := p.cost(selection);
        if used <= budget && p.legal(selection, used) {
          var v := p.worth(selection);
          if v > best {
            best := v;
          }
        }
      }
      BestOfAll(p, store, scope, budget, best);
      r := Some(best);
  }

  lemma NoneYet(p: Problem, store: Store, scope: seq<Uid>, budget: nat)
    ensures BestSoFar(p, store, scope, budget, 0, 0.0)
  {
  }

  lemma OneMore(p: Problem, store: Store, scope: seq<Uid>, budget: nat, n: nat, best: real)
    requires BestSoFar(p, store, scope, budget, n, best) && n < Product(Sizes(store, scope))
    ensures var s := SelectionAt(store, scope, n);
            BestSoFar(p, store, scope, budget, n + 1,
                      if Feasible(p, budget, s) && p.worth(s) > best then p.worth(s) else best)
  {
    hide Feasible, SelectionAt, Product, Sizes;
  }
}
