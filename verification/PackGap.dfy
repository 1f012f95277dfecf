/**
  The gap that is reported with a result, and exactly when a gap of zero means that the result is the
  best: when it is proven, or budget is left over and the bound has nothing to gain.
 */
module PackGap {
  import opened Bytes
  import opened PackModel
  import opened PackClosure
  import opened PackBound
  import opened PackSearch
  import opened PackBest

  /** To the nearest multiple of 1/1024, halves away from zero. */
  function Quantised(x: real): real {
    if x >= 0.0 then (1024.0 * x + 0.5).Floor as real / 1024.0 else -((0.5 - 1024.0 * x).Floor as real / 1024.0)
  }

  /** A multiple of 1/1024 no further from `x` than half of one, and on a half the one away from zero. */
  lemma QuantisedExactly(x: real)
    ensures var k := 1024.0 * Quantised(x); k.Floor as real == k
    ensures x >= 0.0 ==> x - 1.0 / 2048.0 < Quantised(x) <= x + 1.0 / 2048.0
    ensures x < 0.0 ==> x - 1.0 / 2048.0 <= Quantised(x) < x + 1.0 / 2048.0
  {
    var n := if x >= 0.0 then (1024.0 * x + 0.5).Floor else -(0.5 - 1024.0 * x).Floor;
    assert 1024.0 * Quantised(x) == n as real;
  }

  /** The part of the ceiling that is not reached. */
  function Gap(achieved: real, headroom: real): real {
    if achieved + headroom <= 0.0 then 0.0 else Quantised(headroom / (achieved + headroom))
  }

  lemma RatioBelow(a: real, b: real, k: real)
    requires b > 0.0
    ensures a / b < k <==> a < k * b
  {
    var x := a / b;
    assert x * b == a;
    if x < k {
      assert (k - x) * b > 0.0;
    } else {
      assert (x - k) * b >= 0.0;
    }
  }

  /** It is given as zero when nothing could be gained, and when that is less than half a step. */
  lemma GapZero(achieved: real, headroom: real)
    requires headroom >= 0.0
    ensures Gap(achieved, headroom) == 0.0 <==> achieved + headroom <= 0.0 || 2047.0 * headroom < achieved
  {
    var ceiling := achieved + headroom;
    if ceiling > 0.0 {
      RatioBelow(headroom, ceiling, 1.0 / 2048.0);
      RatioBelow(headroom, ceiling, 0.0);
    }
  }

  function HeadroomOf(q: Request, found: Found): real {
    Headroom(OfferOf(q), found.selection, q.scope, Remaining(q.budget, found.used))
  }

  /** The gap that is reported with a result. */
  function Reported(q: Request, r: Exact): real {
    Gap(r.found.value, if r.proven then 0.0 else HeadroomOf(q, r.found))
  }

  /** Nothing for what is proven, otherwise what is left of the ceiling to the nearest 1/1024. */
  lemma ReportedExactly(q: Request, r: Exact)
    ensures r.proven ==> Reported(q, r) == 0.0
    ensures var h := HeadroomOf(q, r.found); var v := r.found.value;
            !r.proven && v + h > 0.0 && h >= 0.0 ==>
              h / (v + h) - 1.0 / 2048.0 < Reported(q, r) <= h / (v + h) + 1.0 / 2048.0
  {
    var h, v := HeadroomOf(q, r.found), r.found.value;
    hide HeadroomOf, Quantised;
    if v > 0.0 {
      assert 0.0 / (v + 0.0) == 0.0;
      QuantisedZero();
    }
    if v + h > 0.0 && h >= 0.0 {
      Proportion(h, v + h);
      QuantisedExactly(h / (v + h));
    }
  }

  lemma QuantisedZero()
    ensures Quantised(0.0) == 0.0
  {
  }

  lemma Proportion(h: real, ceiling: real)
    requires ceiling > 0.0 && h >= 0.0
    ensures h / ceiling >= 0.0
  {
  }

  predicate NoHarm(salience: map<Uid, real>) {
    forall u | u in salience :: salience[u] >= 0.0
  }

  ghost predicate Ready(q: Request, floor: Selection, incumbent: Selection) {
    Startable(q, floor, incumbent) && Priceable(q) && NoHarm(q.salience)
  }

  lemma NoItemsEach(o: Offer, s: Selection, scope: seq<Uid>)
    requires Items(o, s, scope) == []
    ensures forall u | u in scope :: ItemOf(o, s, u) == []
  {
    hide ItemOf;
    forall u | u in scope
      ensures ItemOf(o, s, u) == []
    {
      if ItemOf(o, s, u) != [] {
        SomeItem(o, s, scope, u);
      }
    }
  }

  lemma HigherWorth(salience: map<Uid, real>, u: Uid, low: Lod, high: Lod)
    requires NoHarm(salience) && low <= high
    ensures Worth(salience, u, low) <= Worth(salience, u, high)
  {
    if u in salience {
      Scaled(Gain(low), Gain(high), salience[u]);
    }
  }

  /** Where no unit has an upgrade left, none is worth more elsewhere. */
  lemma UnitNoBetter(q: Request, floor: Selection, s: Selection, t: Selection, u: Uid)
    requires Priceable(q) && NoHarm(q.salience) && Items(OfferOf(q), s, q.scope) == []
    requires Below(floor, s) && Levelled(q, floor, t) && u in t
    ensures Worth(q.salience, u, t[u]) <= WorthAt(q.salience, u, LevelIn(s, u))
  {
    hide Worth, Idle, UnitCost, NoHarm, Items, Available, Capped;
    var o, held := OfferOf(q), LevelIn(s, u);
    if Higher(held, t[u]) {
      assert Reachable(o, u, t[u]);
      if Idle(o, u) {
        IdleGains(o, u, held, t[u]);
      } else {
        assert Paid(UpgradeTo(o, u, held, t[u]));
        NoItemsEach(o, s, q.scope);
        if UpgradeTo(o, u, held, t[u]).gain > 0.0 {
          GainfulItem(o, s, u, t[u]);
        }
      }
    } else {
      HigherWorth(q.salience, u, t[u], s[u]);
    }
  }

  lemma NoBetterInSum(salience: map<Uid, real>, t: Selection, s: Selection)
    requires NoHarm(salience)
    requires forall u | u in t :: Worth(salience, u, t[u]) <= WorthAt(salience, u, LevelIn(s, u))
    ensures Achieved(salience, t) <= Achieved(salience, s)
  {
    var v, w := Worths(salience, t), Worths(salience, s);
    var both: map<Uid, real> := map u | u in t.Keys + s.Keys :: At(w, u);
    forall u | u in s
      ensures w[u] >= 0.0
    {
      if u in salience {
        Scaled(0.0, salience[u], Gain(s[u]));
      }
    }
    hide Worth, Sum;
    assert v.Keys <= both.Keys && w.Keys <= both.Keys;
    SumsCompare(v, both);
    SumsCompare(w, both);
  }

  /** With budget left over and nothing to gain by the bound, a result is the best, proven or not. */
  lemma SatedIsBest(q: Request, floor: Selection, incumbent: Selection)
    requires Ready(q, floor, incumbent)
    requires var f := Solved(q, floor, incumbent).found; Remaining(q.budget, f.used) > 0 && HeadroomOf(q, f) == 0.0
    ensures IsBest(q, floor, Solved(q, floor, incumbent).found)
  {
    SolvedSound(q, floor, incumbent);
    var f := Solved(q, floor, incumbent).found;
    hide Solved, Priceable, Achieved, CostOf, Closed, Levelled, Headroom, Items;
    HeadroomSome(OfferOf(q), f.selection, q.scope, Remaining(q.budget, f.used));
    forall t | Legal(q, floor, t)
      ensures Achieved(q.salience, t) <= f.value
    {
      forall u | u in t
        ensures Worth(q.salience, u, t[u]) <= WorthAt(q.salience, u, LevelIn(f.selection, u))
      {
        UnitNoBetter(q, floor, f.selection, t, u);
      }
      NoBetterInSum(q.salience, t, f.selection);
    }
  }

  /** The results of one kind: with budget left over or without, with something to gain by the bound or not. */
  ghost predicate OfKind(q: Request, r: Exact, left: bool, gain: bool) {
    && (Remaining(q.budget, r.found.used) > 0 <==> left)
    && (HeadroomOf(q, r.found) > 0.0 <==> gain)
  }

  /** Every result of that kind that is not proven, and has a gap of zero, is the best. */
  ghost predicate ZeroMeansBest(left: bool, gain: bool) {
    forall q, floor, incumbent | Ready(q, floor, incumbent) && OfKind(q, Solved(q, floor, incumbent), left, gain) ::
      ZeroIsBest(q, floor, Solved(q, floor, incumbent))
  }

  ghost predicate ZeroIsBest(q: Request, floor: Selection, r: Exact) {
    !r.proven && Reported(q, r) == 0.0 ==> IsBest(q, floor, r.found)
  }

  /** A request for units that are gists of one token, none linked, with no node to visit. */
  function Gists(salience: map<Uid, real>, scope: seq<Uid>, budget: nat): Request {
    Request(Graph(map u | u in salience :: Unit(1, None, None, []), [], [], [], []), scope, salience, None, budget, 0)
  }

  lemma GistsLegal(salience: map<Uid, real>, scope: seq<Uid>, budget: nat, s: Selection)
    requires forall u | u in s :: u in salience && s[u] == 0
    requires CostOf(Gists(salience, scope, budget).graph.units, s) <= budget
    ensures Legal(Gists(salience, scope, budget), map[], s)
  {
    hide CostOf, Reachable;
    var q := Gists(salience, scope, budget);
    forall u | u in s
      ensures Bound(Seen(q), s, u) && Reachable(OfferOf(q), u, s[u])
    {
      LevelsAre(q, u, 0);
      assert Brings(Seen(q), u, 0) == [];
    }
  }

  /** What the search starts with is what it ends with. */
  lemma GistsReady(salience: map<Uid, real>, scope: seq<Uid>, budget: nat, s: Selection)
    requires NoHarm(salience) && forall u | u in salience :: u in scope
    requires forall u | u in s :: u in salience && s[u] == 0
    requires CostOf(Gists(salience, scope, budget).graph.units, s) <= budget
    ensures var q := Gists(salience, scope, budget);
            Ready(q, map[], s) && Solved(q, map[], s) == Exact(First(q, s), 1, false)
  {
    var q := Gists(salience, scope, budget);
    GistsLegal(salience, scope, budget, s);
    NothingIsLegal(q);
    PaidTexts(OfferOf(q), scope);
    hide Legal, CostOf, Achieved, NoFreeGain;
  }

  /** One such request with something better than what it holds refutes its kind. */
  lemma HeldIsNotBest(salience: map<Uid, real>, scope: seq<Uid>, budget: nat, held: Selection, better: Selection)
    requires NoHarm(salience) && forall u | u in salience :: u in scope
    requires forall u | u in held :: u in salience && held[u] == 0
    requires forall u | u in better :: u in salience && better[u] == 0
    requires var units := Gists(salience, scope, budget).graph.units;
             CostOf(units, held) <= budget && CostOf(units, better) <= budget
    requires Achieved(salience, better) > Achieved(salience, held)
    requires var q := Gists(salience, scope, budget); Gap(Achieved(salience, held), HeadroomOf(q, First(q, held))) == 0.0
    ensures var q := Gists(salience, scope, budget);
            var f := First(q, held);
            !ZeroMeansBest(Remaining(budget, f.used) > 0, HeadroomOf(q, f) > 0.0)
  {
    var q := Gists(salience, scope, budget);
    GistsReady(salience, scope, budget, held);
    GistsLegal(salience, scope, budget, better);
    hide Achieved, CostOf, Headroom, Gap, Gists, Ready, Legal;
    assert !IsBest(q, map[], First(q, held));
    var r := Solved(q, map[], held);
    assert OfKind(q, r, Remaining(budget, First(q, held).used) > 0, HeadroomOf(q, First(q, held)) > 0.0);
    assert !ZeroIsBest(q, map[], r);
  }

  /** Two gists, the budget for one, and the lesser of them held. */
  lemma SpentIsNotBest()
    ensures !ZeroMeansBest(false, false)
  {
    var salience: map<Uid, real> := map[1 := 0.5, 2 := 1.0];
    var q := Gists(salience, [1, 2], 1);
    OfOne(q.graph.units, salience, 1, 0);
    OfOne(q.graph.units, salience, 2, 0);
    hide Achieved, CostOf, Headroom, Gap;
    HeadroomSome(OfferOf(q), map[1 := 0], q.scope, 0);
    GapZero(0.5, 0.0);
    HeldIsNotBest(salience, [1, 2], 1, map[1 := 0], map[2 := 0]);
  }

  predicate IsGist(o: Offer, u: Uid) {
    u in o.units && o.units[u] == Unit(1, None, None, []) && o.cap == None && u in o.salience && o.salience[u] > 0.0
  }

  lemma GistUpgrades(o: Offer, u: Uid, held: Option<Lod>)
    requires IsGist(o, u) && (held.Some? ==> held.value == 0)
    ensures Upgrades(o, u, held, Available(o.units[u])) == if held.Some? then [] else [Upgrade(1, o.salience[u])]
  {
    assert Available(o.units[u]) == [0] && [0][1..] == [];
    assert Upgrades(o, u, held, []) == [];
    var up := UpgradeTo(o, u, held, 0);
    assert held.None? ==> up == Upgrade(1, o.salience[u]);
  }

  /** A gist that is held offers nothing; one that is not offers its worth for one token. */
  lemma GistItem(o: Offer, s: Selection, u: Uid)
    requires IsGist(o, u) && (u in s ==> s[u] == 0)
    ensures ItemOf(o, s, u) == if u in s then [] else [Relaxed(1, o.salience[u])]
  {
    GistUpgrades(o, u, LevelIn(s, u));
    hide Available, Upgrades;
    var up := Upgrade(1, o.salience[u]);
    assert [up][1..] == [];
    assert BestDensity([]) == 0.0 && Capacity([]) == 0;
    assert BestDensity([up]) == GainDensity(up) == o.salience[u];
    assert Capacity([up]) == 1;
  }

  function Faint(): map<Uid, real> {
    map[1 := 1.0, 2 := 1.0, 3 := 1.0 / 1024.0]
  }

  lemma FaintHeadroom()
    ensures var q := Gists(Faint(), [1, 2, 3], 3);
            Headroom(OfferOf(q), FaintTwo(), [1, 2, 3], 1) == 1.0 / 1024.0
  {
    var o, s := OfferOf(Gists(Faint(), [1, 2, 3], 3)), FaintTwo();
    GistItem(o, s, 1);
    GistItem(o, s, 2);
    GistItem(o, s, 3);
    var x := Relaxed(1, 1.0 / 1024.0);
    hide ItemOf;
    assert [1, 2, 3][1..] == [2, 3] && [2, 3][1..] == [3] && [3][1..] == [];
    assert Items(o, s, [3]) == [x];
    assert Items(o, s, [2, 3]) == [x];
    assert Items(o, s, [1, 2, 3]) == [x];
    assert ByDensity([x]) == Insert(x, ByDensity([])) == [x];
    assert Fill([x], 1) == x.value + Fill([], 0);
  }

  /** Two of three gists held, budget for the third, and that one too faint to show in the gap. */
  lemma FaintIsNotBest()
    ensures !ZeroMeansBest(true, true)
  {
    FaintAre();
    FaintGap();
    hide *;
    HeldIsNotBest(Faint(), [1, 2, 3], 3, FaintTwo(), FaintThree());
  }

  function FaintTwo(): Selection {
    map[1 := 0, 2 := 0]
  }

  function FaintThree(): Selection {
    map[1 := 0, 2 := 0, 3 := 0]
  }

  lemma FaintAre()
    ensures NoHarm(Faint()) && Faint().Keys == {1, 2, 3}
    ensures forall u | u in Faint() :: u in [1, 2, 3]
    ensures forall u | u in FaintTwo() :: u in Faint() && FaintTwo()[u] == 0
    ensures forall u | u in FaintThree() :: u in Faint() && FaintThree()[u] == 0
  {
  }

  lemma FaintGap()
    ensures var q := Gists(Faint(), [1, 2, 3], 3);
            var f := First(q, FaintTwo());
            && f.used <= 3 && CostOf(q.graph.units, FaintThree()) <= 3
            && Achieved(Faint(), FaintThree()) > Achieved(Faint(), FaintTwo())
            && Gap(Achieved(Faint(), FaintTwo()), HeadroomOf(q, f)) == 0.0
            && Remaining(3, f.used) > 0 && HeadroomOf(q, f) > 0.0
            && CostOf(q.graph.units, FaintTwo()) <= 3
  {
    FaintHeld();
    FaintAll();
    FaintHeadroom();
    hide Achieved, CostOf, Headroom, Gap, Faint;
    GapZero(2.0, 1.0 / 1024.0);
  }

  lemma FaintHeld()
    ensures CostOf(Gists(Faint(), [1, 2, 3], 3).graph.units, FaintTwo()) == 2 && Achieved(Faint(), FaintTwo()) == 2.0
  {
    OfTwo(Gists(Faint(), [1, 2, 3], 3).graph.units, Faint(), FaintTwo(), 1, 2);
    hide Achieved, CostOf;
  }

  lemma FaintAll()
    ensures CostOf(Gists(Faint(), [1, 2, 3], 3).graph.units, FaintThree()) == 3 && Achieved(Faint(), FaintThree()) > 2.0
  {
    hide Achieved, CostOf;
    FaintHeld();
    WithoutOne(Gists(Faint(), [1, 2, 3], 3).graph.units, Faint(), FaintThree(), 3);
    assert FaintThree() - {3} == FaintTwo();
  }

  /**
    A gap of zero that was not proven means that the result is the best exactly where budget is left
    over and the bound has nothing to gain: not on a spent budget, where the bound does not look, and
    not where rounding hides what it sees.
   */
  lemma ZeroGapExactly(left: bool, gain: bool)
    requires gain ==> left
    ensures ZeroMeansBest(left, gain) <==> left && !gain
  {
    hide Ready, Solved, IsBest, HeadroomOf, Reported;
    if left && !gain {
      forall q, floor, incumbent | Ready(q, floor, incumbent) && OfKind(q, Solved(q, floor, incumbent), left, gain)
        ensures ZeroIsBest(q, floor, Solved(q, floor, incumbent))
      {
        var f := Solved(q, floor, incumbent).found;
        BoundNotNegative(q, f);
        SatedIsBest(q, floor, incumbent);
      }
    } else if left {
      FaintIsNotBest();
    } else {
      SpentIsNotBest();
    }
  }

  lemma BoundNotNegative(q: Request, f: Found)
    ensures HeadroomOf(q, f) >= 0.0 && (HeadroomOf(q, f) > 0.0 ==> Remaining(q.budget, f.used) > 0)
  {
    HeadroomSome(OfferOf(q), f.selection, q.scope, Remaining(q.budget, f.used));
    hide Headroom;
  }
}
