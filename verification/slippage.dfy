/**
 * `compute_slippage_row` (calculate.py): for every configured order size,
 * walk the ladder of the order's side and report the slippage of the
 * average fill price against the mid-price, or a missing value.
 */
module Slippage {
  import opened Wrappers
  import opened Text
  import opened Book

  /** An order size in shares; sizes are positive, as the average price divides by them. */
  type OrderSize = n: nat | n > 0 witness 100

  /** `order_sizes = np.arange(100, 2001, 100)`: 100, 200, ..., 2000. */
  function OrderSizes(): seq<OrderSize> {
    seq(20, i requires 0 <= i < 20 => 100 * (i + 1))
  }

  /** The column that holds the slippage of one order size, `f"Slippage_{size}"`. */
  function SizeKey(size: nat): string {
    "Slippage_" + Decimal(size)
  }

  /** A side other than "buy" or "sell" raises `ValueError` with this message. */
  const InvalidSideMessage: string := "Invalid side. Use 'buy' or 'sell'."

  /** The error a row computation can raise: a side name it does not accept, with its message. */
  datatype SideError = InvalidSide(message: string)

  function Mid(bid: real, ask: real): real {
    (bid + ask) / 2.0
  }

  /**
   * The slippage of one order: missing when a best quote is missing or when
   * the walk leaves shares unbought; otherwise the average fill price less
   * the mid for a buy, the mid less the average fill price for a sell.
   */
  function SlippageAt(snap: Snapshot, side: Side, size: OrderSize): Option<real> {
    if BestBid(snap).None? || BestAsk(snap).None? then None
    else
      var mid := Mid(BestBid(snap).value, BestAsk(snap).value);
      var w := Walk(LadderFor(snap, side), size as real);
      if w.remaining > 0.0 then None
      else
        var avg := w.cost / (size as real);
        Some(if side == Buy then avg - mid else mid - avg)
  }

  /** The row's slippage columns, entered size by size in the order of `sizes`. */
  function SlippageTable(snap: Snapshot, side: Side, sizes: seq<OrderSize>): map<string, Option<real>>
    decreases |sizes|
  {
    if sizes == [] then map[]
    else
      var last := sizes[|sizes| - 1];
      SlippageTable(snap, side, sizes[..|sizes| - 1])[SizeKey(last) := SlippageAt(snap, side, last)]
  }

  // ---------------------------------------------------------------------
  // The two loops of `compute_slippage_row`.

  /**
   * The inner loop: walk `levels` in order for an order of `size` shares,
   * skipping levels whose cells cannot be read and stopping once the order
   * is filled. Returns the shares still needed and the cost paid.
   */
  method WalkLadder(levels: seq<Level>, size: real) returns (remaining: real, cost: real)
    ensures Fill(remaining, cost) == Walk(levels, size)
  {
    remaining, cost := size, 0.0;
    assert levels[..|levels|] == levels;
    for i := 0 to |levels|
      invariant Fill(remaining, cost) == Walk(levels[..i], size)
    {
      assert levels[..i + 1][..i] == levels[..i];
      var level := levels[i];
      assert Walk(levels[..i + 1], size) == Step(Fill(remaining, cost), level);
      if level.price.None? || level.size.None? {
        continue;
      }
      if remaining <= 0.0 {
        FilledPrefixDecides(levels, i, size);
        break;
      }
      var filled := Min(remaining, level.size.value);
      cost := cost + filled * level.price.value;
      remaining := remaining - filled;
    }
  }

  /** Entering the column of one more size extends the table by that column. */
  lemma TableStep(snap: Snapshot, side: Side, sizes: seq<OrderSize>, i: nat)
    requires i < |sizes|
    ensures SlippageTable(snap, side, sizes[..i + 1])
         == SlippageTable(snap, side, sizes[..i])[SizeKey(sizes[i]) := SlippageAt(snap, side, sizes[i])]
  {
    assert sizes[..i + 1][..i] == sizes[..i];
  }

  /**
   * One snapshot row: a `"Slippage_<size>"` entry for every configured size,
   * or an `InvalidSide` error carrying `InvalidSideMessage` when `side` is
   * neither "buy" nor "sell".
   */
  method ComputeSlippageRow(snap: Snapshot, side: string) returns (r: Result<map<string, Option<real>>, SideError>)
    ensures side == "buy" ==> r == Success(SlippageTable(snap, Buy, OrderSizes()))
    ensures side == "sell" ==> r == Success(SlippageTable(snap, Sell, OrderSizes()))
    ensures side != "buy" && side != "sell" ==> r == Failure(InvalidSide(InvalidSideMessage))
  {
    var s: Side;
    if side == "buy" {
      s := Buy;
    } else if side == "sell" {
      s := Sell;
    } else {
      return Failure(InvalidSide(InvalidSideMessage));
    }
    var levels := LadderFor(snap, s);
    var bestBid, bestAsk := BestBid(snap), BestAsk(snap);
    var table: map<string, Option<real>> := map[];
    assert OrderSizes()[..|OrderSizes()|] == OrderSizes();
    if bestBid.None? || bestAsk.None? {
      for i := 0 to |OrderSizes()|
        invariant table == SlippageTable(snap, s, OrderSizes()[..i])
      {
        TableStep(snap, s, OrderSizes(), i);
        table := table[SizeKey(OrderSizes()[i]) := None];
      }
      return Success(table);
    }
    var mid := Mid(bestBid.value, bestAsk.value);
    for i := 0 to |OrderSizes()|
      invariant table == SlippageTable(snap, s, OrderSizes()[..i])
    {
      var size := OrderSizes()[i];
      var remaining, cost := WalkLadder(levels, size as real);
      var slippage: Option<real>;
      if remaining > 0.0 {
        slippage := None;
      } else {
        var avg := cost / (size as real);
        slippage := Some(if s == Buy then avg - mid else mid - avg);
      }
      assert slippage == SlippageAt(snap, s, size);
      TableStep(snap, s, OrderSizes(), i);
      table := table[SizeKey(size) := slippage];
    }
    r := Success(table);
  }

  // ---------------------------------------------------------------------
  // What the row holds.

  /** Different sizes have different column names. */
  lemma SizeKeyInjective(m: nat, n: nat)
    requires SizeKey(m) == SizeKey(n)
    ensures m == n
  {
    var p := "Slippage_";
    assert SizeKey(m)[|p|..] == Decimal(m);
    assert SizeKey(n)[|p|..] == Decimal(n);
    DecimalInjective(m, n);
  }

  /**
   * The table has exactly one column per size and no other, and the column
   * of each size holds that size's slippage.
   */
  lemma {:induction false} TableColumns(snap: Snapshot, side: Side, sizes: seq<OrderSize>)
    ensures SlippageTable(snap, side, sizes).Keys == set s | s in sizes :: SizeKey(s)
    ensures forall s :: s in sizes ==> SlippageTable(snap, side, sizes)[SizeKey(s)] == SlippageAt(snap, side, s)
    decreases |sizes|
  {
    if sizes != [] {
      var init, last := sizes[..|sizes| - 1], sizes[|sizes| - 1];
      TableColumns(snap, side, init);
      assert sizes == init + [last];
      forall s | s in sizes
        ensures SlippageTable(snap, side, sizes)[SizeKey(s)] == SlippageAt(snap, side, s)
      {
        if SizeKey(s) == SizeKey(last) {
          SizeKeyInjective(s, last);
        }
      }
    }
  }

  /** Distinct sizes give a table with as many columns as sizes. */
  lemma {:induction false} TableWidth(snap: Snapshot, side: Side, sizes: seq<OrderSize>)
    requires forall i, j :: 0 <= i < j < |sizes| ==> sizes[i] != sizes[j]
    ensures |SlippageTable(snap, side, sizes)| == |sizes|
    decreases |sizes|
  {
    if sizes != [] {
      var init, last := sizes[..|sizes| - 1], sizes[|sizes| - 1];
      TableWidth(snap, side, init);
      TableColumns(snap, side, init);
      if SizeKey(last) in SlippageTable(snap, side, init) {
        var s :| s in init && SizeKey(s) == SizeKey(last);
        SizeKeyInjective(s, last);
        assert false;
      }
    }
  }

  /** The configured sizes are 100, 200, ..., 2000, all distinct. */
  lemma ConfiguredSizes()
    ensures |OrderSizes()| == 20
    ensures forall k :: 0 <= k < 20 ==> OrderSizes()[k] == 100 * (k + 1)
    ensures forall i, j :: 0 <= i < j < |OrderSizes()| ==> OrderSizes()[i] != OrderSizes()[j]
  {
  }

  /**
   * The configured row has exactly 20 columns: `Slippage_100` .. `Slippage_2000`,
   * each holding its size's slippage, and no other.
   */
  lemma ConfiguredColumns(snap: Snapshot, side: Side)
    ensures |SlippageTable(snap, side, OrderSizes())| == 20
    ensures forall k :: 0 <= k < 20 ==>
      && SizeKey(OrderSizes()[k]) in SlippageTable(snap, side, OrderSizes())
      && SlippageTable(snap, side, OrderSizes())[SizeKey(OrderSizes()[k])] == SlippageAt(snap, side, OrderSizes()[k])
    ensures forall key :: key in SlippageTable(snap, side, OrderSizes()) ==>
      exists k :: 0 <= k < 20 && key == SizeKey(OrderSizes()[k])
  {
    ConfiguredSizes();
    TableWidth(snap, side, OrderSizes());
    TableColumns(snap, side, OrderSizes());
    var t := SlippageTable(snap, side, OrderSizes());
    forall key | key in t
      ensures exists k :: 0 <= k < 20 && key == SizeKey(OrderSizes()[k])
    {
      var s :| s in OrderSizes() && key == SizeKey(s);
      var k :| 0 <= k < 20 && OrderSizes()[k] == s;
    }
  }

  // ---------------------------------------------------------------------
  // What one column holds.

  /** With a best quote missing, every column of the row is missing. */
  lemma MissingQuoteAllMissing(snap: Snapshot, side: Side, sizes: seq<OrderSize>)
    requires BestBid(snap).None? || BestAsk(snap).None?
    ensures forall key :: key in SlippageTable(snap, side, sizes) ==> SlippageTable(snap, side, sizes)[key] == None
  {
    TableColumns(snap, side, sizes);
  }

  /**
   * With both best quotes present and no negative level size, a column is
   * missing exactly when the readable levels of the walked ladder hold
   * fewer shares than the order: never a clipped partial fill.
   */
  lemma MissingIffIlliquid(snap: Snapshot, side: Side, size: OrderSize)
    requires BestBid(snap).Some? && BestAsk(snap).Some?
    requires NonNegativeSizes(LadderFor(snap, side))
    ensures SlippageAt(snap, side, size).None? <==> Liquidity(LadderFor(snap, side)) < size as real
  {
    ShortIffIlliquid(LadderFor(snap, side), size as real);
  }

  /**
   * A filled order: the average price is the greedy fill's cost over the
   * order size; a buy reports it less the mid, a sell the mid less it.
   */
  lemma FilledSlippage(snap: Snapshot, side: Side, size: OrderSize)
    requires BestBid(snap).Some? && BestAsk(snap).Some?
    requires NonNegativeSizes(LadderFor(snap, side))
    requires Liquidity(LadderFor(snap, side)) >= size as real
    ensures var ladder := LadderFor(snap, side);
            var mid := Mid(BestBid(snap).value, BestAsk(snap).value);
            var avg := Spent(ladder, size as real) / (size as real);
            SlippageAt(snap, side, size) == Some(if side == Buy then avg - mid else mid - avg)
  {
    var ladder := LadderFor(snap, side);
    WalkIsGreedy(ladder, size as real);
    ShortIffIlliquid(ladder, size as real);
  }

  /**
   * Once the first `k` levels of the walked ladder fill the order, the levels
   * after them do not affect the column: two snapshots with the same best
   * quotes and the same first `k` levels report the same value.
   */
  lemma LaterLevelsDoNotMatter(a: Snapshot, b: Snapshot, side: Side, size: OrderSize, k: nat)
    requires BestBid(a) == BestBid(b) && BestAsk(a) == BestAsk(b)
    requires k <= Depth && LadderFor(a, side)[..k] == LadderFor(b, side)[..k]
    requires Walk(LadderFor(a, side)[..k], size as real).remaining <= 0.0
    ensures SlippageAt(a, side, size) == SlippageAt(b, side, size)
  {
    LaterLevelsIrrelevant(LadderFor(a, side), LadderFor(b, side), k, size as real);
  }

  /** `size * p / size == p` for a positive size. */
  lemma AverageOfOnePrice(size: real, p: real)
    requires size > 0.0
    ensures (size * p) / size == p
  {
  }

  /**
   * An order exactly the size of the best level is filled there alone: its
   * slippage is that level's price against the mid, whatever lies deeper.
   */
  lemma FirstLevelExact(snap: Snapshot, side: Side, size: OrderSize)
    requires BestBid(snap).Some? && BestAsk(snap).Some?
    requires Readable(LadderFor(snap, side)[0]) && LadderFor(snap, side)[0].size.value == size as real
    ensures var p := LadderFor(snap, side)[0].price.value;
            var mid := Mid(BestBid(snap).value, BestAsk(snap).value);
            SlippageAt(snap, side, size) == Some(if side == Buy then p - mid else mid - p)
  {
    var ladder := LadderFor(snap, side);
    var p := ladder[0].price.value;
    assert ladder[..1][..0] == [];
    assert Walk(ladder[..1], size as real) == Fill(0.0, (size as real) * p);
    FilledPrefixDecides(ladder, 1, size as real);
    AverageOfOnePrice(size as real, p);
    assert Walk(ladder, size as real).cost / (size as real) == p;
  }

  /** A cost of at least `p` per share averages to at least `p`. */
  lemma AverageAtLeast(cost: real, size: real, p: real)
    requires size > 0.0 && cost >= p * size
    ensures cost / size >= p
  {
    assert cost / size - p == (cost - p * size) / size;
  }

  /** A cost of at most `p` per share averages to at most `p`. */
  lemma AverageAtMost(cost: real, size: real, p: real)
    requires size > 0.0 && cost <= p * size
    ensures cost / size <= p
  {
    assert p - cost / size == (p * size - cost) / size;
  }

  /**
   * In an uncrossed book whose deeper levels are no better than the best
   * quote, a reported slippage is never negative, for a buy and for a sell.
   */
  lemma SlippageNonNegative(snap: Snapshot, side: Side, size: OrderSize)
    requires BestBid(snap).Some? && BestAsk(snap).Some? && BestBid(snap).value <= BestAsk(snap).value
    requires NonNegativeSizes(LadderFor(snap, side))
    requires side == Buy ==>
      forall i :: 0 <= i < Depth && Readable(snap.asks[i]) ==> snap.asks[i].price.value >= BestAsk(snap).value
    requires side == Sell ==>
      forall i :: 0 <= i < Depth && Readable(snap.bids[i]) ==> snap.bids[i].price.value <= BestBid(snap).value
    ensures SlippageAt(snap, side, size).Some? ==> SlippageAt(snap, side, size).value >= 0.0
  {
    var ladder := LadderFor(snap, side);
    var sz := size as real;
    var w := Walk(ladder, sz);
    RemainingNonNegative(ladder, sz);
    if w.remaining <= 0.0 {
      if side == Buy {
        CostAtLeast(ladder, sz, BestAsk(snap).value);
        AverageAtLeast(w.cost, sz, BestAsk(snap).value);
      } else {
        CostAtMost(ladder, sz, BestBid(snap).value);
        AverageAtMost(w.cost, sz, BestBid(snap).value);
      }
    }
  }

  /**
   * In a book that widens with depth (ask prices rising, bid prices falling
   * from one readable level to the next), a filled order means every smaller
   * order is filled too, and the larger order's slippage is at least the
   * smaller one's, on both sides.
   */
  lemma SlippageMonotone(snap: Snapshot, side: Side, s1: OrderSize, s2: OrderSize)
    requires s1 <= s2
    requires NonNegativeSizes(LadderFor(snap, side)) && Widening(LadderFor(snap, side), side)
    requires SlippageAt(snap, side, s2).Some?
    ensures SlippageAt(snap, side, s1).Some?
    ensures SlippageAt(snap, side, s1).value <= SlippageAt(snap, side, s2).value
  {
    AveragePriceWorsens(LadderFor(snap, side), side, s1 as real, s2 as real);
  }

  /** A level whose cells are both missing. */
  const Unreadable: Level := Level(None, None)

  /** A book with best bid 99, best ask 101 and a single ask level of 500 shares at 101. */
  const ExampleBook: Snapshot :=
    Snapshot([Level(Some(101.0), Some(500.0))] + seq(9, _ => Unreadable),
             [Level(Some(99.0), None)] + seq(9, _ => Unreadable))

  /** Buying 500 shares in that book costs 1.0 over the mid of 100. */
  lemma ExampleFilled()
    ensures SizeKey(500) in SlippageTable(ExampleBook, Buy, OrderSizes())
    ensures SlippageTable(ExampleBook, Buy, OrderSizes())[SizeKey(500)] == Some(1.0)
  {
    ConfiguredColumns(ExampleBook, Buy);
    assert OrderSizes()[4] == 500;
    FirstLevelExact(ExampleBook, Buy, 500);
  }

  /** Buying 600 shares in that book leaves 100 unbought: the column is missing. */
  lemma ExampleShort()
    ensures SizeKey(600) in SlippageTable(ExampleBook, Buy, OrderSizes())
    ensures SlippageTable(ExampleBook, Buy, OrderSizes())[SizeKey(600)] == None
  {
    ConfiguredColumns(ExampleBook, Buy);
    assert OrderSizes()[5] == 600;
    var asks := ExampleBook.asks;
    assert NonNegativeSizes(asks);
    LiquidityOfUnreadableTail(asks, Depth, 500.0);
    assert asks[..Depth] == asks;
    MissingIffIlliquid(ExampleBook, Buy, 600);
  }

  /** Unreadable levels after the first add no liquidity. */
  lemma {:induction false} LiquidityOfUnreadableTail(levels: seq<Level>, n: nat, q: real)
    requires 1 <= n <= |levels| && Readable(levels[0]) && levels[0].size.value == q
    requires forall i :: 1 <= i < |levels| ==> !Readable(levels[i])
    ensures Liquidity(levels[..n]) == q
  {
    if n == 1 {
      assert levels[..1][..0] == [];
    } else {
      LiquidityOfUnreadableTail(levels, n - 1, q);
      assert levels[..n][..n - 1] == levels[..n - 1];
    }
  }
}
