/**
 * One order-book snapshot and the walk of a market order down one of its
 * ladders (calculate.py, `compute_slippage_row`). Prices and sizes are reals;
 * a cell that cannot be read is `None`.
 */
module Book {
  import opened Wrappers

  /** The number of (price, size) column pairs per side: `ask_px_00` .. `ask_px_09`. */
  const Depth: nat := 10

  /** One rung of a ladder: its price cell and its size cell. */
  datatype Level = Level(price: Option<real>, size: Option<real>)

  /** A level takes part in the walk only when both of its cells can be read. */
  predicate Readable(l: Level) {
    l.price.Some? && l.size.Some?
  }

  /** A ladder has one level per column pair, best rank first, in column order. */
  type Ladder = s: seq<Level> | |s| == Depth
    witness seq(Depth, _ => Level(None, None))

  /**
   * A snapshot row. The best bid and best ask are the level-0 price cells
   * of the two ladders (`bid_px_00`, `ask_px_00`).
   */
  datatype Snapshot = Snapshot(asks: Ladder, bids: Ladder)

  function BestBid(snap: Snapshot): Option<real> {
    snap.bids[0].price
  }

  function BestAsk(snap: Snapshot): Option<real> {
    snap.asks[0].price
  }

  datatype Side = Buy | Sell

  /** A buy takes liquidity from the ask ladder, a sell from the bid ladder. */
  function LadderFor(snap: Snapshot, side: Side): Ladder {
    if side == Buy then snap.asks else snap.bids
  }

  /** The walker's state: shares still needed and cost accumulated so far. */
  datatype Fill = Fill(remaining: real, cost: real)

  function Min(a: real, b: real): real {
    if b < a then b else a
  }

  function Max(a: real, b: real): real {
    if a < b then b else a
  }

  /**
   * One iteration of the inner loop: an unreadable level is skipped; once
   * nothing is needed the walk stops; otherwise `min(needed, available)`
   * is bought at the level's price.
   */
  function Step(st: Fill, l: Level): Fill {
    if !Readable(l) || st.remaining <= 0.0 then st
    else
      var filled := Min(st.remaining, l.size.value);
      Fill(st.remaining - filled, st.cost + filled * l.price.value)
  }

  /** The state after walking `levels` in the given order, starting from `size` shares needed. */
  function Walk(levels: seq<Level>, size: real): Fill
    decreases |levels|
  {
    if levels == [] then Fill(size, 0.0)
    else Step(Walk(levels[..|levels| - 1], size), levels[|levels| - 1])
  }

  // ---------------------------------------------------------------------
  // A reference description of the walk: the greedy fill, level by level.

  /** Displayed size over the readable levels; unreadable levels add nothing. */
  function Liquidity(levels: seq<Level>): real
    decreases |levels|
  {
    if levels == [] then 0.0
    else
      var last := levels[|levels| - 1];
      Liquidity(levels[..|levels| - 1]) + (if Readable(last) then last.size.value else 0.0)
  }

  predicate NonNegativeSizes(levels: seq<Level>) {
    forall i :: 0 <= i < |levels| && Readable(levels[i]) ==> levels[i].size.value >= 0.0
  }

  /** What level `l` contributes to an order for `size` after the levels `before`: what it holds, up to what they left open. */
  function Take(before: seq<Level>, l: Level, size: real): real {
    if !Readable(l) then 0.0
    else Min(l.size.value, Max(0.0, size - Liquidity(before)))
  }

  /** The price a level charges for what the greedy fill takes from it (nothing is taken from an unreadable level). */
  function PriceOrZero(l: Level): real {
    if Readable(l) then l.price.value else 0.0
  }

  /** Shares the greedy fill buys on `levels`. */
  function Bought(levels: seq<Level>, size: real): real
    decreases |levels|
  {
    if levels == [] then 0.0
    else
      var n := |levels| - 1;
      Bought(levels[..n], size) + Take(levels[..n], levels[n], size)
  }

  /** What those shares cost. */
  function Spent(levels: seq<Level>, size: real): real
    decreases |levels|
  {
    if levels == [] then 0.0
    else
      var n := |levels| - 1;
      Spent(levels[..n], size) + Take(levels[..n], levels[n], size) * PriceOrZero(levels[n])
  }

  // ---------------------------------------------------------------------
  // Properties of the walk.

  /** Starting from a non-negative need, the need never drops below zero, whatever the ladder holds. */
  lemma {:induction false} RemainingNonNegative(levels: seq<Level>, size: real)
    requires size >= 0.0
    ensures Walk(levels, size).remaining >= 0.0
    decreases |levels|
  {
    if levels != [] {
      RemainingNonNegative(levels[..|levels| - 1], size);
    }
  }

  /** Once the order is filled by the first `k` levels, the levels after them change nothing. */
  lemma {:induction false} FilledPrefixDecides(levels: seq<Level>, k: nat, size: real)
    requires k <= |levels|
    requires Walk(levels[..k], size).remaining <= 0.0
    ensures Walk(levels, size) == Walk(levels[..k], size)
    decreases |levels|
  {
    if k < |levels| {
      var init := levels[..|levels| - 1];
      assert init[..k] == levels[..k];
      FilledPrefixDecides(init, k, size);
    } else {
      assert levels[..k] == levels;
    }
  }

  /** A level whose cells cannot be read is skipped: taking it out of the ladder changes nothing. */
  lemma {:induction false} UnreadableLevelIgnored(a: seq<Level>, u: Level, b: seq<Level>, size: real)
    requires !Readable(u)
    ensures Walk(a + [u] + b, size) == Walk(a + b, size)
    decreases |b|
  {
    if b == [] {
      assert a + [u] + b == a + [u];
      assert (a + [u])[..|a|] == a;
      assert a + b == a;
    } else {
      var init, last := b[..|b| - 1], b[|b| - 1];
      UnreadableLevelIgnored(a, u, init, size);
      assert (a + [u] + b)[..|a + [u] + b| - 1] == a + [u] + init;
      assert (a + b)[..|a + b| - 1] == a + init;
    }
  }

  /** Two ladders that agree up to the level that completes the order give the same walk. */
  lemma LaterLevelsIrrelevant(a: seq<Level>, b: seq<Level>, k: nat, size: real)
    requires k <= |a| && k <= |b| && a[..k] == b[..k]
    requires Walk(a[..k], size).remaining <= 0.0
    ensures Walk(a, size) == Walk(b, size)
  {
    FilledPrefixDecides(a, k, size);
    FilledPrefixDecides(b, k, size);
  }

  /** One level of the greedy fill: what is bought stays the order size or the liquidity seen, whichever is smaller. */
  lemma CapStep(size: real, bought: real, liquidity: real, l: Level, g: real)
    requires size >= 0.0 && (Readable(l) ==> l.size.value >= 0.0)
    requires bought == Min(size, liquidity)
    requires g == if Readable(l) then Min(l.size.value, Max(0.0, size - liquidity)) else 0.0
    ensures bought + g == Min(size, liquidity + (if Readable(l) then l.size.value else 0.0))
  {
  }

  /** One level of the walk, need side: the walker buys what the greedy fill takes. */
  lemma NeedStep(st: Fill, l: Level, size: real, bought: real, liquidity: real, g: real)
    requires size >= 0.0 && (Readable(l) ==> l.size.value >= 0.0)
    requires bought == Min(size, liquidity) && st.remaining == size - bought
    requires g == if Readable(l) then Min(l.size.value, Max(0.0, size - liquidity)) else 0.0
    ensures Step(st, l).remaining == size - (bought + g)
  {
  }

  /** One level of the walk, cost side: the walker pays the greedy fill times the level's price. */
  lemma CostStep(st: Fill, l: Level, size: real, bought: real, liquidity: real, g: real, p: real)
    requires size >= 0.0 && (Readable(l) ==> l.size.value >= 0.0)
    requires bought == Min(size, liquidity) && st.remaining == size - bought
    requires g == if Readable(l) then Min(l.size.value, Max(0.0, size - liquidity)) else 0.0
    requires p == PriceOrZero(l)
    ensures Step(st, l).cost == st.cost + g * p
  {
  }

  /** For non-negative level sizes the greedy fill buys the order size or all the readable liquidity, whichever is smaller. */
  lemma {:induction false} BoughtIsCapped(levels: seq<Level>, size: real)
    requires size >= 0.0 && NonNegativeSizes(levels)
    ensures Bought(levels, size) == Min(size, Liquidity(levels))
    decreases |levels|
  {
    if levels != [] {
      var pre, l := levels[..|levels| - 1], levels[|levels| - 1];
      assert NonNegativeSizes(pre);
      BoughtIsCapped(pre, size);
      CapStep(size, Bought(pre, size), Liquidity(pre), l, Take(pre, l, size));
    }
  }

  /** After the walk the need is the order size minus what the greedy fill bought. */
  lemma {:induction false} WalkNeed(levels: seq<Level>, size: real)
    requires size >= 0.0 && NonNegativeSizes(levels)
    ensures Walk(levels, size).remaining == size - Bought(levels, size)
    decreases |levels|
  {
    if levels != [] {
      var pre, l := levels[..|levels| - 1], levels[|levels| - 1];
      assert NonNegativeSizes(pre);
      WalkNeed(pre, size);
      BoughtIsCapped(pre, size);
      NeedStep(Walk(pre, size), l, size, Bought(pre, size), Liquidity(pre), Take(pre, l, size));
    }
  }

  /** After the walk the cost is the greedy fill's cost. */
  lemma {:induction false} WalkCost(levels: seq<Level>, size: real)
    requires size >= 0.0 && NonNegativeSizes(levels)
    ensures Walk(levels, size).cost == Spent(levels, size)
    decreases |levels|
  {
    if levels != [] {
      var pre, l := levels[..|levels| - 1], levels[|levels| - 1];
      assert NonNegativeSizes(pre);
      WalkCost(pre, size);
      WalkNeed(pre, size);
      BoughtIsCapped(pre, size);
      CostStep(Walk(pre, size), l, size, Bought(pre, size), Liquidity(pre), Take(pre, l, size), PriceOrZero(l));
    }
  }

  /**
   * The walk is the greedy fill, for non-negative level sizes: the need left
   * is the order size minus what the greedy fill bought, the cost is what it
   * spent, and what it bought is the order size or all the readable
   * liquidity, whichever is smaller.
   */
  lemma WalkIsGreedy(levels: seq<Level>, size: real)
    requires size >= 0.0 && NonNegativeSizes(levels)
    ensures Walk(levels, size) == Fill(size - Bought(levels, size), Spent(levels, size))
    ensures Bought(levels, size) == Min(size, Liquidity(levels))
  {
    WalkNeed(levels, size);
    WalkCost(levels, size);
    BoughtIsCapped(levels, size);
  }

  /** The walk leaves shares unbought exactly when the readable levels hold less than the order. */
  lemma ShortIffIlliquid(levels: seq<Level>, size: real)
    requires size >= 0.0 && NonNegativeSizes(levels)
    ensures Walk(levels, size).remaining > 0.0 <==> Liquidity(levels) < size
    ensures 0.0 <= Walk(levels, size).remaining <= size
  {
    WalkIsGreedy(levels, size);
  }

  /** Buying `f >= 0` shares at a price at least `p` costs at least `f * p`. */
  lemma ScaleLe(f: real, x: real, y: real)
    requires f >= 0.0 && x <= y
    ensures f * x <= f * y
  {
    assert f * y - f * x == f * (y - x);
  }

  /** Buying `f >= 0` more shares at a price of at least `p` keeps `cost >= p * bought`. */
  lemma LowerBoundStep(cost: real, size: real, remaining: real, f: real, price: real, p: real)
    requires cost >= p * (size - remaining) && f >= 0.0 && price >= p
    ensures cost + f * price >= p * (size - (remaining - f))
  {
    ScaleLe(f, p, price);
    assert p * (size - (remaining - f)) == p * (size - remaining) + f * p;
  }

  /** Buying `f >= 0` more shares at a price of at most `p` keeps `cost <= p * bought`. */
  lemma UpperBoundStep(cost: real, size: real, remaining: real, f: real, price: real, p: real)
    requires cost <= p * (size - remaining) && f >= 0.0 && price <= p
    ensures cost + f * price <= p * (size - (remaining - f))
  {
    ScaleLe(f, price, p);
    assert p * (size - (remaining - f)) == p * (size - remaining) + f * p;
  }

  /** One step keeps `cost >= p * bought` when the level's price is at least `p`. */
  lemma StepLowerBound(st: Fill, l: Level, size: real, p: real)
    requires st.remaining >= 0.0 && st.cost >= p * (size - st.remaining)
    requires Readable(l) ==> l.size.value >= 0.0 && l.price.value >= p
    ensures Step(st, l).cost >= p * (size - Step(st, l).remaining)
  {
    if Readable(l) && st.remaining > 0.0 {
      var f := Min(st.remaining, l.size.value);
      assert Step(st, l) == Fill(st.remaining - f, st.cost + f * l.price.value);
      LowerBoundStep(st.cost, size, st.remaining, f, l.price.value, p);
    } else {
      assert Step(st, l) == st;
    }
  }

  /** One step keeps `cost <= p * bought` when the level's price is at most `p`. */
  lemma StepUpperBound(st: Fill, l: Level, size: real, p: real)
    requires st.remaining >= 0.0 && st.cost <= p * (size - st.remaining)
    requires Readable(l) ==> l.size.value >= 0.0 && l.price.value <= p
    ensures Step(st, l).cost <= p * (size - Step(st, l).remaining)
  {
    if Readable(l) && st.remaining > 0.0 {
      var f := Min(st.remaining, l.size.value);
      assert Step(st, l) == Fill(st.remaining - f, st.cost + f * l.price.value);
      UpperBoundStep(st.cost, size, st.remaining, f, l.price.value, p);
    } else {
      assert Step(st, l) == st;
    }
  }

  /**
   * A lower bound on every readable price bounds the cost from below by
   * that price times the shares bought.
   */
  lemma {:induction false} CostAtLeast(levels: seq<Level>, size: real, p: real)
    requires size >= 0.0 && NonNegativeSizes(levels)
    requires forall i :: 0 <= i < |levels| && Readable(levels[i]) ==> levels[i].price.value >= p
    ensures Walk(levels, size).cost >= p * (size - Walk(levels, size).remaining)
    decreases |levels|
  {
    if levels != [] {
      var init := levels[..|levels| - 1];
      CostAtLeast(init, size, p);
      RemainingNonNegative(init, size);
      StepLowerBound(Walk(init, size), levels[|levels| - 1], size, p);
    }
  }

  /** An upper bound on every readable price bounds the cost from above likewise. */
  lemma {:induction false} CostAtMost(levels: seq<Level>, size: real, p: real)
    requires size >= 0.0 && NonNegativeSizes(levels)
    requires forall i :: 0 <= i < |levels| && Readable(levels[i]) ==> levels[i].price.value <= p
    ensures Walk(levels, size).cost <= p * (size - Walk(levels, size).remaining)
    decreases |levels|
  {
    if levels != [] {
      var init := levels[..|levels| - 1];
      CostAtMost(init, size, p);
      RemainingNonNegative(init, size);
      StepUpperBound(Walk(init, size), levels[|levels| - 1], size, p);
    }
  }

  // ---------------------------------------------------------------------
  // Larger orders pay a worse average price in a book that widens with depth.

  /**
   * Readable prices get no better with depth: ask prices never fall from
   * one readable level to a deeper one (`Buy`), bid prices never rise (`Sell`).
   */
  predicate Widening(levels: seq<Level>, side: Side) {
    forall i, j :: 0 <= i < j < |levels| && Readable(levels[i]) && Readable(levels[j]) ==>
      if side == Buy then levels[i].price.value <= levels[j].price.value
      else levels[i].price.value >= levels[j].price.value
  }

  /** What a walk has paid above `p` for each share it has bought so far. */
  function Excess(st: Fill, size: real, p: real): real {
    st.cost - p * (size - st.remaining)
  }

  /**
   * While the smaller order `a` is still short, the larger order `b` has
   * bought the same shares at the same cost and needs `b - a` more.
   */
  lemma {:induction false} ShortWalksAgree(levels: seq<Level>, a: real, b: real)
    requires a <= b && Walk(levels, a).remaining > 0.0
    ensures Walk(levels, b).remaining == Walk(levels, a).remaining + (b - a)
    ensures Walk(levels, b).cost == Walk(levels, a).cost
    decreases |levels|
  {
    if levels != [] {
      var init := levels[..|levels| - 1];
      assert Walk(levels, a) == Step(Walk(init, a), levels[|levels| - 1]);
      ShortWalksAgree(init, a, b);
      ShortStep(Walk(init, a), Walk(init, b), levels[|levels| - 1], a, b);
    }
  }

  /** One level on which the smaller order stays short: both orders buy all it shows. */
  lemma ShortStep(wa: Fill, wb: Fill, l: Level, a: real, b: real)
    requires a <= b && wb.remaining == wa.remaining + (b - a) && wb.cost == wa.cost
    requires Step(wa, l).remaining > 0.0
    ensures Step(wb, l).remaining == Step(wa, l).remaining + (b - a)
    ensures Step(wb, l).cost == Step(wa, l).cost
  {
    if Readable(l) {
      var v := l.size.value;
      assert Min(wa.remaining, v) == v;
      assert Min(wb.remaining, v) == v;
    }
  }

  /** A walk that fills the order has a first prefix that fills it. */
  lemma {:induction false} FirstFill(levels: seq<Level>, size: real) returns (k: nat)
    requires size > 0.0 && Walk(levels, size).remaining <= 0.0
    ensures 1 <= k <= |levels|
    ensures Walk(levels[..k], size).remaining <= 0.0
    ensures Walk(levels[..k - 1], size).remaining > 0.0
    decreases |levels|
  {
    var init := levels[..|levels| - 1];
    if Walk(init, size).remaining <= 0.0 {
      k := FirstFill(init, size);
      assert init[..k] == levels[..k];
      assert init[..k - 1] == levels[..k - 1];
    } else {
      k := |levels|;
      assert levels[..k] == levels;
    }
  }

  /** Buying `f` more at `price` changes the excess over `p` by `f * (price - p)`. */
  lemma ExcessOfStep(cost: real, remaining: real, f: real, price: real, size: real, p: real)
    ensures (cost + f * price) - p * (size - (remaining - f)) == (cost - p * (size - remaining)) + f * (price - p)
  {
  }

  /** A step at a price of at least `p` never lowers the excess over `p`. */
  lemma ExcessStepUp(st: Fill, l: Level, size: real, p: real)
    requires st.remaining >= 0.0
    requires Readable(l) ==> l.size.value >= 0.0 && l.price.value >= p
    ensures Excess(Step(st, l), size, p) >= Excess(st, size, p)
  {
    if Readable(l) && st.remaining > 0.0 {
      var f := Min(st.remaining, l.size.value);
      assert Step(st, l) == Fill(st.remaining - f, st.cost + f * l.price.value);
      ExcessOfStep(st.cost, st.remaining, f, l.price.value, size, p);
      ScaleLe(f, 0.0, l.price.value - p);
    }
  }

  /** A step at a price of at most `p` never raises the excess over `p`. */
  lemma ExcessStepDown(st: Fill, l: Level, size: real, p: real)
    requires st.remaining >= 0.0
    requires Readable(l) ==> l.size.value >= 0.0 && l.price.value <= p
    ensures Excess(Step(st, l), size, p) <= Excess(st, size, p)
  {
    if Readable(l) && st.remaining > 0.0 {
      var f := Min(st.remaining, l.size.value);
      assert Step(st, l) == Fill(st.remaining - f, st.cost + f * l.price.value);
      ExcessOfStep(st.cost, st.remaining, f, l.price.value, size, p);
      ScaleLe(f, l.price.value - p, 0.0);
    }
  }

  /** Past level `k`, levels priced at `p` or above only add to the excess over `p`. */
  lemma {:induction false} ExcessGrows(levels: seq<Level>, size: real, k: nat, p: real)
    requires k <= |levels| && size >= 0.0 && NonNegativeSizes(levels)
    requires forall i :: k <= i < |levels| && Readable(levels[i]) ==> levels[i].price.value >= p
    ensures Excess(Walk(levels, size), size, p) >= Excess(Walk(levels[..k], size), size, p)
    decreases |levels|
  {
    if k == |levels| {
      assert levels[..k] == levels;
    } else {
      var init := levels[..|levels| - 1];
      assert init[..k] == levels[..k];
      ExcessGrows(init, size, k, p);
      RemainingNonNegative(init, size);
      ExcessStepUp(Walk(init, size), levels[|levels| - 1], size, p);
    }
  }

  /** Past level `k`, levels priced at `p` or below only take from the excess over `p`. */
  lemma {:induction false} ExcessShrinks(levels: seq<Level>, size: real, k: nat, p: real)
    requires k <= |levels| && size >= 0.0 && NonNegativeSizes(levels)
    requires forall i :: k <= i < |levels| && Readable(levels[i]) ==> levels[i].price.value <= p
    ensures Excess(Walk(levels, size), size, p) <= Excess(Walk(levels[..k], size), size, p)
    decreases |levels|
  {
    if k == |levels| {
      assert levels[..k] == levels;
    } else {
      var init := levels[..|levels| - 1];
      assert init[..k] == levels[..k];
      ExcessShrinks(init, size, k, p);
      RemainingNonNegative(init, size);
      ExcessStepDown(Walk(init, size), levels[|levels| - 1], size, p);
    }
  }

  /** Buying `ra` at `p` with `a` wanted, or `t` at `p` with `b - a` more wanted, leaves the same excess over `p`. */
  lemma SameExcess(c: real, ra: real, t: real, p: real, a: real, b: real)
    ensures (c + t * p) - p * (b - (ra + (b - a) - t)) == (c + ra * p) - p * (a - 0.0)
  {
    assert p * (b - (ra + (b - a) - t)) == p * (a - ra) + t * p;
    assert p * (a - 0.0) == p * (a - ra) + ra * p;
  }

  /**
   * At the level where the smaller order `a` fills, at price `p`, both
   * orders have paid the same excess over `p`: `wa` and `wb` are the two
   * walks' states before that level.
   */
  lemma FillingStep(wa: Fill, wb: Fill, l: Level, a: real, b: real)
    requires wa.remaining > 0.0 && wb.remaining == wa.remaining + (b - a) && wb.cost == wa.cost && a <= b
    requires Step(wa, l).remaining <= 0.0
    ensures Readable(l)
    ensures Step(wa, l).remaining == 0.0
    ensures Excess(Step(wb, l), b, l.price.value) == Excess(Step(wa, l), a, l.price.value)
  {
    var ra, c, p, v := wa.remaining, wa.cost, l.price.value, l.size.value;
    var t := Min(ra + (b - a), v);
    assert Min(ra, v) == ra;
    assert Step(wa, l).cost == c + ra * p;
    assert Step(wb, l).remaining == ra + (b - a) - t && Step(wb, l).cost == c + t * p;
    SameExcess(c, ra, t, p, a, b);
  }

  /** `u / a <= v / b` for positive `a`, `b` when `u * b <= v * a`. */
  lemma QuotientLe(u: real, v: real, a: real, b: real)
    requires a > 0.0 && b > 0.0 && u * b <= v * a
    ensures u / a <= v / b
  {
    var x, y := u / a, v / b;
    assert u == x * a && v == y * b;
    assert (y - x) * (a * b) == v * a - u * b;
    PositiveFactor(y - x, a * b);
  }

  /** A product with a positive factor is non-negative only when the other factor is. */
  lemma PositiveFactor(x: real, y: real)
    requires y > 0.0 && x * y >= 0.0
    ensures x >= 0.0
  {
    if x < 0.0 {
      ScaleLe(y, x, 0.0);
    }
  }

  /** Paying at most `p` a share for `a`, and no less excess over `p` for `b >= a`, averages no lower on `b`. */
  lemma AverageRises(ca: real, cb: real, a: real, b: real, p: real)
    requires 0.0 < a <= b && ca <= p * a && cb - p * b >= ca - p * a
    ensures ca / a <= cb / b
  {
    ScaleLe(b - a, ca, p * a);
    ScaleLe(a, ca + p * (b - a), cb);
    assert a * cb >= a * ca + (b - a) * (p * a);
    assert ca * b <= cb * a;
    QuotientLe(ca, cb, a, b);
  }

  /** Paying at least `p` a share for `a`, and no more excess over `p` for `b >= a`, averages no higher on `b`. */
  lemma AverageFalls(ca: real, cb: real, a: real, b: real, p: real)
    requires 0.0 < a <= b && ca >= p * a && cb - p * b <= ca - p * a
    ensures ca / a >= cb / b
  {
    ScaleLe(b - a, p * a, ca);
    ScaleLe(a, cb, ca + p * (b - a));
    assert a * cb <= a * ca + (b - a) * (p * a);
    assert cb * a <= ca * b;
    QuotientLe(cb, ca, b, a);
  }

  /**
   * If `b` fills, so does a smaller order `a`, at a first level `k - 1` that
   * is readable; the rest of the ladder leaves `a` unchanged, and there both
   * orders have paid the same excess over that level's price.
   */
  lemma FillPoint(levels: seq<Level>, a: real, b: real) returns (k: nat)
    requires 0.0 < a <= b && Walk(levels, b).remaining <= 0.0
    ensures 1 <= k <= |levels| && Readable(levels[k - 1])
    ensures Walk(levels, a) == Walk(levels[..k], a)
    ensures Walk(levels[..k], a).remaining == 0.0
    ensures Excess(Walk(levels[..k], b), b, levels[k - 1].price.value)
         == Excess(Walk(levels[..k], a), a, levels[k - 1].price.value)
  {
    if Walk(levels, a).remaining > 0.0 {
      ShortWalksAgree(levels, a, b);
      assert false;
    }
    k := FirstFill(levels, a);
    var pre := levels[..k - 1];
    assert levels[..k][..k - 1] == pre;
    ShortWalksAgree(pre, a, b);
    FillingStep(Walk(pre, a), Walk(pre, b), levels[k - 1], a, b);
    FilledPrefixDecides(levels, k, a);
  }

  /**
   * In a widening ladder the prices before the level at `k - 1` are no
   * worse than its price, and the prices after it are no better.
   */
  lemma WideningSplit(levels: seq<Level>, side: Side, k: nat)
    requires Widening(levels, side) && 1 <= k <= |levels| && Readable(levels[k - 1])
    ensures var p, prefix := levels[k - 1].price.value, levels[..k];
      side == Buy ==>
        && (forall i :: 0 <= i < |prefix| && Readable(prefix[i]) ==> prefix[i].price.value <= p)
        && (forall i :: k <= i < |levels| && Readable(levels[i]) ==> levels[i].price.value >= p)
    ensures var p, prefix := levels[k - 1].price.value, levels[..k];
      side == Sell ==>
        && (forall i :: 0 <= i < |prefix| && Readable(prefix[i]) ==> prefix[i].price.value >= p)
        && (forall i :: k <= i < |levels| && Readable(levels[i]) ==> levels[i].price.value <= p)
  {
    var prefix := levels[..k];
    forall i | 0 <= i < |prefix|
      ensures prefix[i] == levels[i]
    {
    }
  }

  /** A filled walk's excess over `p` is its cost less `p` for every share of the order. */
  lemma ExcessOfFilled(w: Fill, size: real, p: real)
    requires w.remaining == 0.0
    ensures Excess(w, size, p) == w.cost - p * size
  {
  }

  /**
   * In a widening ladder, an order `b` that is filled fills every smaller
   * order `a`, and the larger order's average price is no better: higher
   * on the ask side, lower on the bid side.
   */
  lemma AveragePriceWorsens(levels: seq<Level>, side: Side, a: real, b: real)
    requires 0.0 < a <= b && NonNegativeSizes(levels) && Widening(levels, side)
    requires Walk(levels, b).remaining <= 0.0
    ensures Walk(levels, a).remaining <= 0.0
    ensures side == Buy ==> Walk(levels, a).cost / a <= Walk(levels, b).cost / b
    ensures side == Sell ==> Walk(levels, a).cost / a >= Walk(levels, b).cost / b
  {
    var k := FillPoint(levels, a, b);
    RemainingNonNegative(levels, b);
    WideningSplit(levels, side, k);
    if side == Buy {
      AskAverage(levels, a, b, k);
    } else {
      BidAverage(levels, a, b, k);
    }
  }

  /**
   * The arithmetic of the ask side: `a` filled at `wa` paying at most `p` a
   * share, and `b` gained no less excess over `p` from `wbk` to its filled
   * end `wb` than `a` had, so `b` averages no lower.
   */
  lemma AskArithmetic(wa: Fill, wbk: Fill, wb: Fill, a: real, b: real, p: real)
    requires 0.0 < a <= b && wa.remaining == 0.0 && wb.remaining == 0.0
    requires wa.cost <= p * (a - wa.remaining)
    requires Excess(wb, b, p) >= Excess(wbk, b, p) == Excess(wa, a, p)
    ensures wa.cost / a <= wb.cost / b
  {
    ExcessOfFilled(wa, a, p);
    ExcessOfFilled(wb, b, p);
    AverageRises(wa.cost, wb.cost, a, b, p);
  }

  /** The arithmetic of the bid side, with the inequalities reversed. */
  lemma BidArithmetic(wa: Fill, wbk: Fill, wb: Fill, a: real, b: real, p: real)
    requires 0.0 < a <= b && wa.remaining == 0.0 && wb.remaining == 0.0
    requires wa.cost >= p * (a - wa.remaining)
    requires Excess(wb, b, p) <= Excess(wbk, b, p) == Excess(wa, a, p)
    ensures wa.cost / a >= wb.cost / b
  {
    ExcessOfFilled(wa, a, p);
    ExcessOfFilled(wb, b, p);
    AverageFalls(wa.cost, wb.cost, a, b, p);
  }

  /** The ask side of `AveragePriceWorsens`, once the level `k - 1` where `a` fills is known. */
  lemma AskAverage(levels: seq<Level>, a: real, b: real, k: nat)
    requires 0.0 < a <= b && NonNegativeSizes(levels) && 1 <= k <= |levels| && Readable(levels[k - 1])
    requires var p, prefix := levels[k - 1].price.value, levels[..k];
      && (forall i :: 0 <= i < |prefix| && Readable(prefix[i]) ==> prefix[i].price.value <= p)
      && (forall i :: k <= i < |levels| && Readable(levels[i]) ==> levels[i].price.value >= p)
    requires Walk(levels, a).cost == Walk(levels[..k], a).cost && Walk(levels[..k], a).remaining == 0.0
    requires Walk(levels, b).remaining == 0.0
    requires var p := levels[k - 1].price.value;
      Excess(Walk(levels[..k], b), b, p) == Excess(Walk(levels[..k], a), a, p)
    ensures Walk(levels, a).cost / a <= Walk(levels, b).cost / b
  {
    var p, prefix := levels[k - 1].price.value, levels[..k];
    assert NonNegativeSizes(prefix);
    CostAtMost(prefix, a, p);
    ExcessGrows(levels, b, k, p);
    AskArithmetic(Walk(prefix, a), Walk(prefix, b), Walk(levels, b), a, b, p);
  }

  /** The bid side of `AveragePriceWorsens`, once the level `k - 1` where `a` fills is known. */
  lemma BidAverage(levels: seq<Level>, a: real, b: real, k: nat)
    requires 0.0 < a <= b && NonNegativeSizes(levels) && 1 <= k <= |levels| && Readable(levels[k - 1])
    requires var p, prefix := levels[k - 1].price.value, levels[..k];
      && (forall i :: 0 <= i < |prefix| && Readable(prefix[i]) ==> prefix[i].price.value >= p)
      && (forall i :: k <= i < |levels| && Readable(levels[i]) ==> levels[i].price.value <= p)
    requires Walk(levels, a).cost == Walk(levels[..k], a).cost && Walk(levels[..k], a).remaining == 0.0
    requires Walk(levels, b).remaining == 0.0
    requires var p := levels[k - 1].price.value;
      Excess(Walk(levels[..k], b), b, p) == Excess(Walk(levels[..k], a), a, p)
    ensures Walk(levels, a).cost / a >= Walk(levels, b).cost / b
  {
    var p, prefix := levels[k - 1].price.value, levels[..k];
    assert NonNegativeSizes(prefix);
    CostAtLeast(prefix, a, p);
    ExcessShrinks(levels, b, k, p);
    BidArithmetic(Walk(prefix, a), Walk(prefix, b), Walk(levels, b), a, b, p);
  }
}
