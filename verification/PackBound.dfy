/**
  The fractional bound: what a selection could still gain, with what units bring ignored and units
  taken in part. It is a ceiling exactly when nothing is to be gained for nothing.
 */
module PackBound {
  import opened Bytes
  import opened PackModel

  /** The units, how salient they are, and the cap on their levels. */
  datatype Offer = Offer(units: Units, salience: map<Uid, real>, cap: Option<Lod>)

  /** One unit, as a purchase that can be made in part. */
  datatype Relaxed = Relaxed(cost: nat, value: real)

  datatype Upgrade = Upgrade(cost: nat, gain: real)

  // ---------------------------------------------------------------------------
  // Prices
  // ---------------------------------------------------------------------------

  /** What `cost` comes to at a price. */
  function Priced(rate: real, cost: int): real {
    rate * cost as real
  }

  lemma PricedGrows(rate: real, a: int, b: int)
    requires rate >= 0.0 && a <= b
    ensures Priced(rate, a) <= Priced(rate, b) && Priced(rate, 0) == 0.0
  {
    Scaled(a as real, b as real, rate);
  }

  lemma PricedAdds(rate: real, a: int, b: int)
    ensures Priced(rate, a + b) == Priced(rate, a) + Priced(rate, b)
  {
  }

  lemma DearerRate(a: real, b: real, cost: nat)
    requires a <= b
    ensures Priced(a, cost) <= Priced(b, cost)
  {
    Scaled(a, b, cost as real);
  }

  lemma Scaled(a: real, b: real, x: real)
    requires a <= b && x >= 0.0
    ensures a * x <= b * x
  {
  }

  // ---------------------------------------------------------------------------
  // Upgrades of one unit
  // ---------------------------------------------------------------------------

  function UpgradeTo(o: Offer, u: Uid, held: Option<Lod>, level: Lod): Upgrade
    requires u in o.units
  {
    Upgrade(UpgradeCost(o.units[u], held, level), Worth(o.salience, u, level) - WorthAt(o.salience, u, held))
  }

  predicate Higher(held: Option<Lod>, level: Lod) {
    held.Some? ==> held.value < level
  }

  /** The upgrades to higher levels that cost and gain something. */
  function Upgrades(o: Offer, u: Uid, held: Option<Lod>, levels: seq<Lod>): seq<Upgrade>
    requires u in o.units
  {
    if levels == [] then []
    else
      var level := Capped(o.cap, levels[0]);
      var up := UpgradeTo(o, u, held, level);
      (if Higher(held, level) && up.cost > 0 && up.gain > 0.0 then [up] else []) + Upgrades(o, u, held, levels[1..])
  }

  function GainDensity(up: Upgrade): real {
    if up.cost > 0 then up.gain / up.cost as real else 0.0
  }

  function BestDensity(ups: seq<Upgrade>): real {
    if ups == [] then 0.0
    else
      var rest := BestDensity(ups[1..]);
      if GainDensity(ups[0]) > rest then GainDensity(ups[0]) else rest
  }

  /** No upgrade gains more than the best density gives it for its cost. */
  lemma {:induction false} BestDensityIs(ups: seq<Upgrade>, up: Upgrade)
    requires up in ups && up.cost > 0
    ensures up.gain <= Priced(BestDensity(ups), up.cost)
  {
    hide Priced, GainDensity;
    if up == ups[0] {
      GainDensityIs(up);
      DearerRate(GainDensity(up), BestDensity(ups), up.cost);
    } else {
      BestDensityIs(ups[1..], up);
      DearerRate(BestDensity(ups[1..]), BestDensity(ups), up.cost);
    }
  }

  lemma GainDensityIs(up: Upgrade)
    requires up.cost > 0
    ensures up.gain == Priced(GainDensity(up), up.cost)
  {
  }

  function Capacity(ups: seq<Upgrade>): (c: nat)
    ensures forall up | up in ups :: up.cost <= c
  {
    if ups == [] then 0
    else
      var rest := Capacity(ups[1..]);
      if ups[0].cost > rest then ups[0].cost else rest
  }

  function Whole(capacity: nat, density: real): Relaxed {
    Relaxed(capacity, capacity as real * density)
  }

  /** The whole of a unit at its best density: as much as its dearest upgrade costs. */
  function Item(o: Offer, u: Uid, held: Option<Lod>): (r: Option<Relaxed>)
    requires u in o.units
    ensures r.Some? ==> Proper(r.value)
  {
    var ups := Upgrades(o, u, held, Available(o.units[u]));
    UpgradesCost(o, u, held, Available(o.units[u]));
    var best, capacity := BestDensity(ups), Capacity(ups);
    if ups == [] || capacity == 0 || best <= 0.0 then None
    else
      ProductPositive(capacity as real, best);
      Some(Whole(capacity, best))
  }

  lemma {:induction false} UpgradesCost(o: Offer, u: Uid, held: Option<Lod>, levels: seq<Lod>)
    requires u in o.units
    ensures forall up | up in Upgrades(o, u, held, levels) :: up.cost > 0 && up.gain > 0.0
  {
    if levels != [] {
      UpgradesCost(o, u, held, levels[1..]);
    }
  }

  lemma ProductPositive(a: real, b: real)
    requires a > 0.0 && b > 0.0
    ensures a * b > 0.0
  {
  }

  /** What a unit offers, if it is known and has an upgrade left. */
  function ItemOf(o: Offer, s: Selection, u: Uid): (r: seq<Relaxed>)
    ensures forall x | x in r :: Proper(x)
  {
    var item := if u in o.units then Item(o, u, LevelIn(s, u)) else None;
    if item.Some? then [item.value] else []
  }

  function Items(o: Offer, s: Selection, scope: seq<Uid>): (r: seq<Relaxed>)
    ensures forall x | x in r :: Proper(x)
  {
    if scope == [] then [] else ItemOf(o, s, scope[0]) + Items(o, s, scope[1..])
  }

  // ---------------------------------------------------------------------------
  // Filling a budget by density
  // ---------------------------------------------------------------------------

  predicate Proper(x: Relaxed) {
    x.cost > 0 && x.value > 0.0
  }

  function Density(x: Relaxed): real
    requires Proper(x)
  {
    x.value / x.cost as real
  }

  /** The denser first; of two as dense, the cheaper. */
  predicate Sooner(x: Relaxed, y: Relaxed)
    requires Proper(x) && Proper(y)
  {
    Density(x) > Density(y) || (Density(x) == Density(y) && x.cost < y.cost)
  }

  predicate AllProper(items: seq<Relaxed>) {
    forall x | x in items :: Proper(x)
  }

  function Insert(x: Relaxed, items: seq<Relaxed>): (r: seq<Relaxed>)
    requires Proper(x) && AllProper(items)
    ensures AllProper(r)
  {
    if items == [] || !Sooner(items[0], x) then [x] + items else [items[0]] + Insert(x, items[1..])
  }

  function ByDensity(items: seq<Relaxed>): (r: seq<Relaxed>)
    requires AllProper(items)
    ensures AllProper(r)
  {
    if items == [] then [] else Insert(items[0], ByDensity(items[1..]))
  }

  /** Items one after another while they fit, and the fraction that fits of the first that does not. */
  function Fill(items: seq<Relaxed>, left: nat): real
    requires AllProper(items)
  {
    if items == [] || left == 0 then 0.0
    else if items[0].cost <= left then items[0].value + Fill(items[1..], left - items[0].cost)
    else items[0].value * (left as real / items[0].cost as real)
  }

  function Headroom(o: Offer, s: Selection, scope: seq<Uid>, remaining: nat): real {
    if remaining == 0 then 0.0 else Fill(ByDensity(Items(o, s, scope)), remaining)
  }

  // ---------------------------------------------------------------------------
  // Surpluses
  // ---------------------------------------------------------------------------

  /** What an item is worth beyond its cost at a price of `rate` for each unit of cost. */
  function Surplus(x: Relaxed, rate: real): real {
    var beyond := x.value - rate * x.cost as real;
    if beyond > 0.0 then beyond else 0.0
  }

  function Surpluses(items: seq<Relaxed>, rate: real): real {
    if items == [] then 0.0 else Surplus(items[0], rate) + Surpluses(items[1..], rate)
  }

  lemma {:induction false} InsertSurplus(x: Relaxed, items: seq<Relaxed>, rate: real)
    requires Proper(x) && AllProper(items)
    ensures Surpluses(Insert(x, items), rate) == Surplus(x, rate) + Surpluses(items, rate)
  {
    hide Surplus, Sooner;
    if items == [] || !Sooner(items[0], x) {
      assert ([x] + items)[1..] == items;
    } else {
      InsertSurplus(x, items[1..], rate);
      assert Insert(x, items)[1..] == Insert(x, items[1..]);
    }
  }

  lemma {:induction false} SortedSurplus(items: seq<Relaxed>, rate: real)
    requires AllProper(items)
    ensures Surpluses(ByDensity(items), rate) == Surpluses(items, rate)
  {
    hide Surplus, Insert;
    if items != [] {
      SortedSurplus(items[1..], rate);
      InsertSurplus(items[0], ByDensity(items[1..]), rate);
    }
  }

  predicate Descending(items: seq<Relaxed>)
    requires AllProper(items)
  {
    |items| > 1 ==> Density(items[0]) >= Density(items[1]) && Descending(items[1..])
  }

  lemma {:induction false} InsertDescends(x: Relaxed, items: seq<Relaxed>)
    requires Proper(x) && AllProper(items) && Descending(items)
    ensures Descending(Insert(x, items))
  {
    hide Density;
    if items == [] || !Sooner(items[0], x) {
      assert ([x] + items)[1..] == items;
    } else {
      InsertDescends(x, items[1..]);
      assert Insert(x, items)[1..] == Insert(x, items[1..]);
    }
  }

  lemma {:induction false} SortDescends(items: seq<Relaxed>)
    requires AllProper(items)
    ensures Descending(ByDensity(items))
  {
    if items != [] {
      SortDescends(items[1..]);
      InsertDescends(items[0], ByDensity(items[1..]));
    }
  }

  /** Nothing is worth more than its cost at the highest density of all. */
  lemma {:induction false} NoSurplus(items: seq<Relaxed>, rate: real)
    requires AllProper(items) && Descending(items) && (items != [] ==> Density(items[0]) <= rate)
    ensures Surpluses(items, rate) == 0.0
  {
    if items != [] {
      NoSurplus(items[1..], rate);
      DensityIs(items[0]);
      Scaled(Density(items[0]), rate, items[0].cost as real);
    }
  }

  lemma DensityIs(x: Relaxed)
    requires Proper(x)
    ensures x.value == Density(x) * x.cost as real && Density(x) > 0.0
  {
  }

  /** Something is filled in exactly when there is an item and something left. */
  lemma {:induction false} FillSome(items: seq<Relaxed>, left: nat)
    requires AllProper(items)
    ensures Fill(items, left) >= 0.0 && (Fill(items, left) > 0.0 <==> items != [] && left > 0)
  {
    if items != [] && left > 0 {
      assert Proper(items[0]);
      if items[0].cost <= left {
        FillSome(items[1..], left - items[0].cost);
      } else {
        DensityIs(items[0]);
        PartOf(items[0], left);
        ProductPositive(Density(items[0]), left as real);
      }
    }
  }

  lemma SortSome(items: seq<Relaxed>)
    requires AllProper(items)
    ensures ByDensity(items) == [] <==> items == []
  {
    hide Sooner;
  }

  lemma HeadroomSome(o: Offer, s: Selection, scope: seq<Uid>, remaining: nat)
    ensures Headroom(o, s, scope, remaining) >= 0.0
    ensures Headroom(o, s, scope, remaining) > 0.0 <==> remaining > 0 && Items(o, s, scope) != []
  {
    hide Items, ByDensity, Fill;
    SortSome(Items(o, s, scope));
    FillSome(ByDensity(Items(o, s, scope)), remaining);
  }

  lemma PartOf(x: Relaxed, left: nat)
    requires Proper(x)
    ensures x.value * (left as real / x.cost as real) == Density(x) * left as real
  {
  }

  /** There is a price at which the budget and all surpluses together come to no more than the filling. */
  lemma {:induction false} FillPrice(items: seq<Relaxed>, left: nat) returns (rate: real)
    requires AllProper(items) && Descending(items)
    ensures rate >= 0.0 && if items == [] then rate == 0.0 else rate <= Density(items[0])
    ensures Priced(rate, left) + Surpluses(items, rate) <= Fill(items, left)
  {
    if items == [] {
      rate := 0.0;
    } else {
      DensityIs(items[0]);
      hide Density, Surplus;
      if 0 < items[0].cost <= left {
        rate := FillPrice(items[1..], left - items[0].cost);
        PriceWhole(items[0], left, rate);
      } else {
        rate := Density(items[0]);
        NoSurplus(items, rate);
        PartOf(items[0], left);
      }
    }
  }

  lemma PriceWhole(x: Relaxed, left: nat, rate: real)
    requires Proper(x) && x.cost <= left && rate <= Density(x)
    ensures Priced(rate, left) + Surplus(x, rate) == x.value + Priced(rate, left - x.cost)
  {
    DensityIs(x);
    Scaled(rate, Density(x), x.cost as real);
    hide Density;
    assert rate * left as real == rate * x.cost as real + rate * (left - x.cost) as real;
  }

  // ---------------------------------------------------------------------------
  // The bound is a ceiling
  // ---------------------------------------------------------------------------

  /** A level that the unit was written at, or what the cap makes of one. */
  ghost predicate Reachable(o: Offer, u: Uid, level: Lod) {
    u in o.units && exists a :: a in Available(o.units[u]) && Capped(o.cap, a) == level
  }

  /** By the texts: the gist always, the body and the detail where they are written and not capped away. */
  lemma ReachableExactly(o: Offer, u: Uid, level: Lod)
    ensures Reachable(o, u, level)
       <==> && u in o.units
            && (|| level == 0
                || (level == 1 && o.units[u].body.Some? && o.cap != Some(0))
                || (level == 1 && o.units[u].detail.Some? && o.cap == Some(1))
                || (level == 2 && o.units[u].detail.Some? && (o.cap == None || o.cap == Some(2))))
  {
    if u in o.units {
      var levels := Available(o.units[u]);
      assert 0 in levels && (1 in levels <==> o.units[u].body.Some?) && (2 in levels <==> o.units[u].detail.Some?);
      assert Capped(o.cap, 0) == 0;
      hide Available;
      if level == 1 {
        assert Capped(o.cap, 1) == 1 <==> o.cap != Some(0);
        assert Capped(o.cap, 2) == 1 <==> o.cap == Some(1);
      } else if level == 2 {
        assert Capped(o.cap, 2) == 2 <==> o.cap == None || o.cap == Some(2);
      }
    }
  }

  /** No unit of the scope gains anything from an upgrade that costs nothing. */
  ghost predicate NoFreeGain(o: Offer, scope: seq<Uid>) {
    forall u, held, level | u in scope && Reachable(o, u, level) && Higher(held, level) ::
      Paid(UpgradeTo(o, u, held, level))
  }

  predicate Paid(up: Upgrade) {
    up.gain > 0.0 ==> up.cost > 0
  }

  lemma {:induction false} UpgradeListed(o: Offer, u: Uid, held: Option<Lod>, levels: seq<Lod>, a: Lod)
    requires u in o.units && a in levels
    ensures var up := UpgradeTo(o, u, held, Capped(o.cap, a));
            Higher(held, Capped(o.cap, a)) && up.cost > 0 && up.gain > 0.0 ==> up in Upgrades(o, u, held, levels)
  {
    hide UpgradeTo, Capped;
    if levels[0] != a {
      UpgradeListed(o, u, held, levels[1..], a);
    }
  }

  /** A level that the unit can still be raised to, at a cost and for a gain. */
  ghost predicate Worthwhile(o: Offer, u: Uid, held: Option<Lod>, level: Lod) {
    && Reachable(o, u, level) && Higher(held, level)
    && UpgradeTo(o, u, held, level).cost > 0 && UpgradeTo(o, u, held, level).gain > 0.0
  }

  lemma {:induction false} UpgradesAre(o: Offer, u: Uid, held: Option<Lod>, levels: seq<Lod>, up: Upgrade)
    requires u in o.units && up in Upgrades(o, u, held, levels)
    ensures exists a :: a in levels && up == UpgradeTo(o, u, held, Capped(o.cap, a)) && Higher(held, Capped(o.cap, a))
  {
    hide UpgradeTo, Capped, Higher;
    if levels != [] {
      assert levels[0] in levels;
      if up in Upgrades(o, u, held, levels[1..]) {
        UpgradesAre(o, u, held, levels[1..], up);
      }
    }
  }

  lemma WorthwhileOf(o: Offer, u: Uid, held: Option<Lod>, up: Upgrade) returns (level: Lod)
    requires u in o.units && up in Upgrades(o, u, held, Available(o.units[u]))
    ensures Worthwhile(o, u, held, level) && up == UpgradeTo(o, u, held, level)
  {
    var levels := Available(o.units[u]);
    UpgradesAre(o, u, held, levels, up);
    UpgradesCost(o, u, held, levels);
    var a :| a in levels && up == UpgradeTo(o, u, held, Capped(o.cap, a)) && Higher(held, Capped(o.cap, a));
    hide Available, UpgradeTo, Upgrades;
    level := Capped(o.cap, a);
  }

  lemma OfWorthwhile(o: Offer, u: Uid, held: Option<Lod>, level: Lod)
    requires Worthwhile(o, u, held, level)
    ensures UpgradeTo(o, u, held, level) in Upgrades(o, u, held, Available(o.units[u]))
  {
    var levels := Available(o.units[u]);
    var a :| a in levels && Capped(o.cap, a) == level;
    UpgradeListed(o, u, held, levels, a);
  }

  lemma {:induction false} CapacityReached(ups: seq<Upgrade>)
    requires ups != []
    ensures exists up :: up in ups && up.cost == Capacity(ups)
  {
    assert ups[0] in ups;
    if |ups| > 1 {
      CapacityReached(ups[1..]);
    } else {
      assert Capacity(ups[1..]) == 0;
    }
  }

  lemma {:induction false} DensityReached(ups: seq<Upgrade>)
    requires BestDensity(ups) > 0.0
    ensures exists up :: up in ups && GainDensity(up) == BestDensity(ups)
  {
    hide GainDensity;
    if GainDensity(ups[0]) > BestDensity(ups[1..]) {
      assert ups[0] in ups;
    } else {
      DensityReached(ups[1..]);
    }
  }

  lemma CrossMultiplied(up: Upgrade, density: real, capacity: nat, best: real)
    requires up.gain == Priced(density, up.cost) && density <= best
    ensures NoDenser(up, Whole(capacity, best)) && (density == best ==> AsDense(up, Whole(capacity, best)))
  {
    var c, k := up.cost as real, capacity as real;
    assert density * c * k == density * (c * k) && k * best * c == best * (c * k);
    Scaled(density, best, c * k);
  }

  /**
    What a unit offers: nothing when no upgrade is worthwhile; otherwise as much as the dearest of
    them costs, at the density of the densest.
   */
  lemma ItemExactly(o: Offer, u: Uid, held: Option<Lod>)
    requires u in o.units
    ensures Item(o, u, held).None? <==> forall level :: !Worthwhile(o, u, held, level)
    ensures Item(o, u, held).Some? ==>
              var x := Item(o, u, held).value;
              && (exists level :: Worthwhile(o, u, held, level) && UpgradeTo(o, u, held, level).cost == x.cost)
              && (exists level :: Worthwhile(o, u, held, level) && AsDense(UpgradeTo(o, u, held, level), x))
              && forall level | Worthwhile(o, u, held, level) ::
                   UpgradeTo(o, u, held, level).cost <= x.cost && NoDenser(UpgradeTo(o, u, held, level), x)
  {
    var ups := Upgrades(o, u, held, Available(o.units[u]));
    if ups == [] {
      forall level
        ensures !Worthwhile(o, u, held, level)
      {
        if Worthwhile(o, u, held, level) {
          OfWorthwhile(o, u, held, level);
        }
      }
    } else {
      ItemOfSome(o, u, held, ups);
      var up := CapacityUpgrade(ups);
      var one := WorthwhileOf(o, u, held, up);
      var dense := DensestUpgrade(o, u, held, ups);
      var two := WorthwhileOf(o, u, held, dense);
      forall level | Worthwhile(o, u, held, level)
        ensures UpgradeTo(o, u, held, level).cost <= Capacity(ups)
        ensures NoDenser(UpgradeTo(o, u, held, level), Whole(Capacity(ups), BestDensity(ups)))
      {
        OfWorthwhile(o, u, held, level);
        NoneDenser(ups, UpgradeTo(o, u, held, level));
      }
      hide *;
    }
  }

  /** Gain for cost as `x` has value for cost. */
  ghost predicate AsDense(up: Upgrade, x: Relaxed) {
    up.gain * x.cost as real == x.value * up.cost as real
  }

  ghost predicate NoDenser(up: Upgrade, x: Relaxed) {
    up.gain * x.cost as real <= x.value * up.cost as real
  }

  lemma NoneDenser(ups: seq<Upgrade>, up: Upgrade)
    requires up in ups && up.cost > 0
    ensures NoDenser(up, Whole(Capacity(ups), BestDensity(ups)))
  {
    hide *;
    GainDensityIs(up);
    DensestOf(ups, up);
    CrossMultiplied(up, GainDensity(up), Capacity(ups), BestDensity(ups));
  }

  lemma {:induction false} DensestOf(ups: seq<Upgrade>, up: Upgrade)
    requires up in ups
    ensures GainDensity(up) <= BestDensity(ups)
  {
    hide GainDensity;
    if up != ups[0] {
      DensestOf(ups[1..], up);
    }
  }

  lemma CapacityUpgrade(ups: seq<Upgrade>) returns (up: Upgrade)
    requires ups != []
    ensures up in ups && up.cost == Capacity(ups)
  {
    CapacityReached(ups);
    up :| up in ups && up.cost == Capacity(ups);
  }

  lemma DensestUpgrade(o: Offer, u: Uid, held: Option<Lod>, ups: seq<Upgrade>) returns (up: Upgrade)
    requires u in o.units && ups == Upgrades(o, u, held, Available(o.units[u])) && ups != []
    ensures up in ups && AsDense(up, Whole(Capacity(ups), BestDensity(ups)))
  {
    hide *;
    UpgradesCost(o, u, held, Available(o.units[u]));
    BestPositive(ups);
    DensityReached(ups);
    up :| up in ups && GainDensity(up) == BestDensity(ups);
    GainDensityIs(up);
    CrossMultiplied(up, GainDensity(up), Capacity(ups), BestDensity(ups));
  }

  lemma BestPositive(ups: seq<Upgrade>)
    requires ups != [] && ups[0].cost > 0 && ups[0].gain > 0.0
    ensures BestDensity(ups) > 0.0
  {
    var cost := ups[0].cost as real;
    BestDensityIs(ups, ups[0]);
    if BestDensity(ups) <= 0.0 {
      Scaled(BestDensity(ups), 0.0, cost);
    }
  }

  lemma ItemOfSome(o: Offer, u: Uid, held: Option<Lod>, ups: seq<Upgrade>)
    requires u in o.units && ups == Upgrades(o, u, held, Available(o.units[u])) && ups != []
    ensures Item(o, u, held) == Some(Whole(Capacity(ups), BestDensity(ups)))
  {
    UpgradesCost(o, u, held, Available(o.units[u]));
    BestPositive(ups);
    hide Upgrades, Available, BestDensity, Whole;
  }

  /** What the bound has for a unit at a price. */
  function ItemSurplus(o: Offer, u: Uid, held: Option<Lod>, rate: real): (r: real)
    ensures r >= 0.0
  {
    if u !in o.units then 0.0
    else
      match Item(o, u, held)
      case None => 0.0
      case Some(x) => Surplus(x, rate)
  }

  /** At any price, no upgrade is worth more beyond its cost than the whole of its unit. */
  lemma UpgradeCovered(o: Offer, u: Uid, held: Option<Lod>, level: Lod, rate: real)
    requires Reachable(o, u, level) && Higher(held, level) && rate >= 0.0
    requires Paid(UpgradeTo(o, u, held, level))
    ensures var up := UpgradeTo(o, u, held, level); up.gain - Priced(rate, up.cost) <= ItemSurplus(o, u, held, rate)
  {
    var up := UpgradeTo(o, u, held, level);
    PricedGrows(rate, 0, up.cost);
    if up.gain > 0.0 {
      var levels := Available(o.units[u]);
      var a :| a in levels && Capped(o.cap, a) == level;
      UpgradeListed(o, u, held, levels, a);
      UpgradesCost(o, u, held, levels);
      ListedCovered(o, u, held, up, rate);
      hide *;
    }
  }

  lemma ListedCovered(o: Offer, u: Uid, held: Option<Lod>, up: Upgrade, rate: real)
    requires u in o.units && up in Upgrades(o, u, held, Available(o.units[u])) && rate >= 0.0
    requires up.cost > 0 && up.gain > 0.0
    ensures up.gain - Priced(rate, up.cost) <= ItemSurplus(o, u, held, rate)
  {
    var ups := Upgrades(o, u, held, Available(o.units[u]));
    UpgradesCost(o, u, held, Available(o.units[u]));
    var best, capacity := BestDensity(ups), Capacity(ups);
    BestDensityIs(ups, up);
    PriceCovered(up, best, capacity, rate);
    hide Available, Upgrades, BestDensity, Capacity, Surplus, Priced, Whole;
    assert Item(o, u, held) == Some(Whole(capacity, best));
  }

  lemma PriceCovered(up: Upgrade, best: real, capacity: nat, rate: real)
    requires up.gain <= Priced(best, up.cost) && up.cost <= capacity
    ensures up.gain - Priced(rate, up.cost) <= Surplus(Whole(capacity, best), rate)
    ensures up.gain > 0.0 ==> best > 0.0
  {
    if best <= 0.0 {
      Scaled(best, 0.0, up.cost as real);
    }
    var c, d := up.cost as real, best - rate;
    assert best * c - rate * c == d * c;
    if d <= 0.0 {
      Scaled(d, 0.0, c);
    } else {
      Scaled(c, capacity as real, d);
      assert capacity as real * best - rate * capacity as real == d * capacity as real;
    }
  }

  /** No more of the unit is worth more. */
  predicate Idle(o: Offer, u: Uid) {
    u in o.salience ==> o.salience[u] <= 0.0
  }

  lemma IdleGains(o: Offer, u: Uid, held: Option<Lod>, level: Lod)
    requires Idle(o, u) && (held.Some? ==> held.value <= level)
    ensures Worth(o.salience, u, level) <= WorthAt(o.salience, u, held)
  {
    if u in o.salience {
      Scaled(if held.Some? then Gain(held.value) else 0.0, Gain(level), -o.salience[u]);
    }
  }

  lemma {:induction false} SomeItem(o: Offer, s: Selection, scope: seq<Uid>, w: Uid)
    requires w in scope && ItemOf(o, s, w) != []
    ensures Items(o, s, scope) != []
  {
    hide ItemOf;
    if scope[0] != w {
      SomeItem(o, s, scope[1..], w);
    }
  }

  /** A unit that can be raised at a cost and for a gain is an item. */
  lemma GainfulItem(o: Offer, s: Selection, u: Uid, level: Lod)
    requires Reachable(o, u, level) && Higher(LevelIn(s, u), level)
    requires var up := UpgradeTo(o, u, LevelIn(s, u), level); up.cost > 0 && up.gain > 0.0
    ensures ItemOf(o, s, u) != []
  {
    var levels, held := Available(o.units[u]), LevelIn(s, u);
    var a :| a in levels && Capped(o.cap, a) == level;
    UpgradeListed(o, u, held, levels, a);
    hide Available, UpgradeTo;
    ListedItem(o, u, held, UpgradeTo(o, u, held, level));
  }

  /** So is one that is not held, salient, at a level that costs something. */
  lemma PaidItem(o: Offer, s: Selection, w: Uid, level: Lod)
    requires Reachable(o, w, level) && w !in s && !Idle(o, w) && UnitCost(o.units[w], level) > 0
    ensures ItemOf(o, s, w) != []
  {
    ProductPositive(o.salience[w], Gain(level));
    hide Available, UnitCost, ItemOf;
    GainfulItem(o, s, w, level);
  }

  lemma ListedItem(o: Offer, u: Uid, held: Option<Lod>, up: Upgrade)
    requires u in o.units && up in Upgrades(o, u, held, Available(o.units[u])) && up.cost > 0 && up.gain > 0.0
    ensures Item(o, u, held).Some?
  {
    var ups := Upgrades(o, u, held, Available(o.units[u]));
    BestDensityIs(ups, up);
    PriceCovered(up, BestDensity(ups), Capacity(ups), 0.0);
    hide Available, Upgrades, BestDensity, Priced, Surplus, Whole;
  }

  /** `s` has all of `t`; where it has more, it is reachable and in scope, or idle. */
  ghost predicate Raises(o: Offer, scope: seq<Uid>, t: Selection, s: Selection) {
    && Below(t, s)
    && forall u | u in s && LevelIn(t, u) != LevelIn(s, u) ::
         Idle(o, u) || (u in scope && Reachable(o, u, s[u]))
  }

  /** One unit as `t` has it, the rest as in `s`. */
  function Restored(t: Selection, s: Selection, u: Uid): Selection {
    if u in t then s[u := t[u]] else s - {u}
  }

  lemma RestoredRaises(o: Offer, scope: seq<Uid>, t: Selection, s: Selection)
    requires scope != [] && Raises(o, scope, t, s)
    ensures var r := Restored(t, s, scope[0]);
            && Raises(o, scope[1..], t, r) && r - {scope[0]} == s - {scope[0]}
            && LevelIn(r, scope[0]) == LevelIn(t, scope[0])
  {
    var u, r := scope[0], Restored(t, s, scope[0]);
    assert scope == [u] + scope[1..];
    assert r - {u} == s - {u};
    forall v | v in r && LevelIn(t, v) != LevelIn(r, v)
      ensures Idle(o, v) || (v in scope[1..] && Reachable(o, v, r[v]))
    {
      assert v != u && LevelIn(r, v) == LevelIn(s, v);
    }
  }

  /** At any price, what is gained over `t` is covered by what is spent and the surpluses. */
  lemma {:induction false} GainCovered(o: Offer, scope: seq<Uid>, t: Selection, s: Selection, rate: real)
    requires NoFreeGain(o, scope) && Raises(o, scope, t, s) && rate >= 0.0
    ensures Achieved(o.salience, s) <= Achieved(o.salience, t)
                                       + Priced(rate, CostOf(o.units, s) - CostOf(o.units, t))
                                       + Surpluses(Items(o, t, scope), rate)
    decreases |scope|
  {
    if scope == [] {
      NoWorthMore(o, t, s);
      BelowCosts(o.units, t, s);
      PricedGrows(rate, 0, CostOf(o.units, s) - CostOf(o.units, t));
      hide Achieved, CostOf, Priced;
    } else {
      var u, r := scope[0], Restored(t, s, scope[0]);
      RestoredRaises(o, scope, t, s);
      assert NoFreeGain(o, scope[1..]);
      hide *;
      DifferInOne(o.units, o.salience, s, r, u);
      GainCovered(o, scope[1..], t, r, rate);
      OneCovered(o, scope, t, s, rate);
      ItemsNext(o, t, scope, rate);
      PricedAdds(rate, CostOf(o.units, s) - CostOf(o.units, r), CostOf(o.units, r) - CostOf(o.units, t));
    }
  }

  lemma NoWorthMore(o: Offer, t: Selection, s: Selection)
    requires Raises(o, [], t, s)
    ensures Achieved(o.salience, s) <= Achieved(o.salience, t)
  {
    hide Sum, Worth;
    var v, w := Worths(o.salience, t), Worths(o.salience, s);
    forall u | u in w
      ensures At(v, u) >= w[u]
    {
      if LevelIn(t, u) != LevelIn(s, u) {
        IdleGains(o, u, LevelIn(t, u), s[u]);
      }
    }
    SumsCompare(v, w);
  }

  lemma ItemsNext(o: Offer, t: Selection, scope: seq<Uid>, rate: real)
    requires scope != []
    ensures Surpluses(Items(o, t, scope), rate)
         == ItemSurplus(o, scope[0], LevelIn(t, scope[0]), rate) + Surpluses(Items(o, t, scope[1..]), rate)
  {
    hide Item, Surplus;
    var first, rest := ItemOf(o, t, scope[0]), Items(o, t, scope[1..]);
    if first == [] {
      assert first + rest == rest;
    } else {
      assert (first + rest)[1..] == rest;
    }
  }

  lemma OneCovered(o: Offer, scope: seq<Uid>, t: Selection, s: Selection, rate: real)
    requires scope != [] && NoFreeGain(o, scope) && Raises(o, scope, t, s) && rate >= 0.0
    ensures var u := scope[0];
            WorthAt(o.salience, u, LevelIn(s, u)) - WorthAt(o.salience, u, LevelIn(t, u))
            - Priced(rate, CostAt(o.units, u, LevelIn(s, u)) - CostAt(o.units, u, LevelIn(t, u)))
            <= ItemSurplus(o, u, LevelIn(t, u), rate)
  {
    var u := scope[0];
    var held, level := LevelIn(t, u), LevelIn(s, u);
    var c := CostAt(o.units, u, level) - CostAt(o.units, u, held);
    assert c >= 0;
    PricedGrows(rate, 0, c);
    hide Priced, ItemSurplus, Worth, Capped, Available;
    if held != level {
      assert u in s;
      if Idle(o, u) {
        IdleGains(o, u, held, s[u]);
      } else {
        assert Paid(UpgradeTo(o, u, held, s[u]));
        hide NoFreeGain, Paid;
        UpgradeCovered(o, u, held, s[u], rate);
      }
    }
  }

  ghost predicate Affordable(o: Offer, s: Selection, budget: nat) {
    CostOf(o.units, s) <= budget
  }

  function Remaining(budget: nat, used: nat): nat {
    if budget >= used then budget - used else 0
  }

  /** Whatever more can be had within the budget is worth no more than the bound says. */
  lemma HeadroomCovers(o: Offer, scope: seq<Uid>, t: Selection, s: Selection, budget: nat)
    requires NoFreeGain(o, scope) && Raises(o, scope, t, s) && Affordable(o, s, budget)
    ensures Achieved(o.salience, s)
         <= Achieved(o.salience, t) + Headroom(o, t, scope, Remaining(budget, CostOf(o.units, t)))
  {
    var items, left := Items(o, t, scope), Remaining(budget, CostOf(o.units, t));
    SortDescends(items);
    BelowCosts(o.units, t, s);
    assert Headroom(o, t, scope, left) == Fill(ByDensity(items), left);
    assert CostOf(o.units, s) - CostOf(o.units, t) <= left;
    hide *;
    var rate := FillPrice(ByDensity(items), left);
    SortedSurplus(items, rate);
    GainCovered(o, scope, t, s, rate);
    PricedGrows(rate, CostOf(o.units, s) - CostOf(o.units, t), left);
  }

  /** The bound is a ceiling for every selection, everything that raises it, and every budget. */
  ghost predicate IsCeiling(o: Offer, scope: seq<Uid>) {
    forall t, s, budget | Raises(o, scope, t, s) && Affordable(o, s, budget) ::
      Achieved(o.salience, s)
      <= Achieved(o.salience, t) + Headroom(o, t, scope, Remaining(budget, CostOf(o.units, t)))
  }

  /** It is one exactly when nothing is to be gained for nothing. */
  lemma CeilingExactly(o: Offer, scope: seq<Uid>)
    ensures IsCeiling(o, scope) <==> NoFreeGain(o, scope)
  {
    if NoFreeGain(o, scope) {
      forall t, s, budget | Raises(o, scope, t, s) && Affordable(o, s, budget)
        ensures Achieved(o.salience, s)
             <= Achieved(o.salience, t) + Headroom(o, t, scope, Remaining(budget, CostOf(o.units, t)))
      {
        HeadroomCovers(o, scope, t, s, budget);
      }
    }
    if IsCeiling(o, scope) {
      forall u, held, level | u in scope && Reachable(o, u, level) && Higher(held, level)
        ensures Paid(UpgradeTo(o, u, held, level))
      {
        FreeGainShows(o, scope, u, held, level);
      }
    }
  }

  lemma FreeGainShows(o: Offer, scope: seq<Uid>, u: Uid, held: Option<Lod>, level: Lod)
    requires IsCeiling(o, scope) && u in scope && Reachable(o, u, level) && Higher(held, level)
    ensures Paid(UpgradeTo(o, u, held, level))
  {
    hide Achieved, CostOf, Fill, ByDensity, Items;
    var s: Selection := map[u := level];
    var t: Selection := if held.Some? then map[u := held.value] else map[];
    assert s - {u} == t - {u};
    DifferInOne(o.units, o.salience, s, t, u);
    assert LevelIn(s, u) == Some(level) && LevelIn(t, u) == held;
    assert Raises(o, scope, t, s);
    assert Affordable(o, s, CostOf(o.units, s));
  }

  /** So it is one when every text costs something and no detail comes without a body. */
  lemma PaidTexts(o: Offer, scope: seq<Uid>)
    requires forall u | u in scope && u in o.units ::
               var unit := o.units[u];
               && unit.gist > 0 && unit.body != Some(0) && unit.detail != Some(0)
               && (unit.detail.Some? ==> unit.body.Some?)
    ensures NoFreeGain(o, scope)
  {
  }

  // ---------------------------------------------------------------------------
  // The code
  // ---------------------------------------------------------------------------

  lemma {:induction false} ItemsAppend(o: Offer, s: Selection, us: seq<Uid>, u: Uid)
    ensures Items(o, s, us + [u]) == Items(o, s, us) + ItemOf(o, s, u)
  {
    hide ItemOf;
    if us == [] {
      assert us + [u] == [u];
    } else {
      assert (us + [u])[1..] == us[1..] + [u];
      ItemsAppend(o, s, us[1..], u);
    }
  }

  /** The items, in the order of the scope. */
  method Relax(o: Offer, s: Selection, scope: seq<Uid>) returns (items: seq<Relaxed>)
    ensures items == Items(o, s, scope)
  {
    items := [];
    hide Item;
    for i := 0 to |scope|
      invariant items == Items(o, s, scope[..i])
    {
      ItemsAppend(o, s, scope[..i], scope[i]);
      assert scope[..i + 1] == scope[..i] + [scope[i]];
      hide Items;
      if scope[i] in o.units {
        var item := Item(o, scope[i], LevelIn(s, scope[i]));
        if item.Some? {
          items := items + [item.value];
        }
      }
    }
    assert scope[..|scope|] == scope;
  }

  method Fractional(o: Offer, s: Selection, scope: seq<Uid>, remaining: nat) returns (total: real)
    ensures total == Headroom(o, s, scope, remaining)
  {
    hide Items, ByDensity, Proper;
    if remaining == 0 {
      return 0.0;
    }
    var items := Relax(o, s, scope);
    var sorted := ByDensity(items);
    var left: nat := remaining;
    total := 0.0;
    var k := 0;
    assert sorted[0..] == sorted;
    while k < |sorted| && left > 0
      invariant 0 <= k <= |sorted| && AllProper(sorted[k..])
      invariant total + Fill(sorted[k..], left) == Fill(sorted, remaining)
    {
      assert sorted[k..][0] == sorted[k] && sorted[k..][1..] == sorted[k + 1..];
      assert sorted[k] in sorted[k..];
      if sorted[k].cost <= left {
        total := total + sorted[k].value;
        left := left - sorted[k].cost;
      } else {
        assert Proper(sorted[k]);
        total := total + sorted[k].value * (left as real / sorted[k].cost as real);
        return;
      }
      k := k + 1;
    }
  }
}
