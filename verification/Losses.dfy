/** Where the splits do lose solutions: exactly when, and with an example of each. */
module Losses {
  import opened Outcomes
  import opened Bounds
  import opened Intervals
  import opened Backward
  import opened Splits
  import opened Orders
  import opened History
  import opened Keeping
  import opened Propagation
  import opened Precision
  import Products
  import SelfOperands

  // ----- infinite bounds

  lemma StairAlive(side: Side, w: World, a: nat, b: nat, d: Int64)
    requires a < |w.at| && b < |w.at|
    ensures Correct(side, w, a, b, d).Alive?
  {
    if Correctable(d) {
      CorrectStep(side, w, a, b, d);
      BoundsAlive(side, w.at, a, b, d, Pick(w.answers, d + 1));
    }
  }

  lemma BoundsAlive(side: Side, at: seq<Interval>, a: nat, b: nat, d: Int64, i: Int32)
    requires a < |at| && b < |at| && Correctable(d) && 0 <= i <= d
    ensures Stair(side, at, a, b, d, i).Alive?
  {
  }

  lemma GapsShared(k: Kind, r: Interval, u: Interval, v: Interval, z: int)
    requires k.Forward(u, v).Alive? && r.Has(z) && !k.Forward(u, v).value.IsBottom()
    ensures Gaps(k, r, u, v).Alive? <==> !SharesInfinity(r, k.Forward(u, v).value)
  {
  }

  /** Splitting a sum or a difference of inhabited nodes cancels, whatever is answered, exactly when the
      result and the forward result share an infinity: the program then subtracts it from itself. */
  lemma SplitCancels(k: Kind, w: World, r: nat, a: nat, b: nat, x: int, y: int, z: int)
    requires r < |w.at| && a < |w.at| && b < |w.at|
    requires w.at[a].Has(x) && w.at[b].Has(y) && w.at[r].Has(z)
    ensures k.Forward(w.at[a], w.at[b]).Alive?
    ensures k.Split(w, r, a, b).Cancelled? <==> SharesInfinity(w.at[r], k.Forward(w.at[a], w.at[b]).value)
  {
    PlusSound(w.at[a], w.at[b], x, y);
    MinusSound(w.at[a], w.at[b], x, y);
    SplitForm(k, w, r, a, b);
    GapsShared(k, w.at[r], w.at[a], w.at[b], z);
    hide Gaps, Correct, SharesInfinity;
    if Gaps(k, w.at[r], w.at[a], w.at[b]).Alive? {
      var (low, high) := Gaps(k, w.at[r], w.at[a], w.at[b]).value;
      StairAlive(k.Low(), w, a, b, low);
      StairAlive(k.High(), Correct(k.Low(), w, a, b, low).value, a, b, high);
    }
  }

  /** The whole of `bop_add` or `bop_sub` on operands with a solution is cancelled exactly when the result and
      the forward result share an infinity. */
  lemma SumCancels(k: Kind, w: World, r: nat, a: nat, b: nat, x: int, y: int)
    requires r < |w.at| && a < |w.at| && b < |w.at| && r != a && r != b && a != b
    requires Solution(k, w.at[r], w.at[a], w.at[b], x, y)
    ensures k.Forward(w.at[a], w.at[b]).Alive?
    ensures Back(OpOf(k), w, r, a, b).Cancelled? <==> SharesInfinity(w.at[r], k.Forward(w.at[a], w.at[b]).value)
  {
    hide Narrow, SharesInfinity, Plus, Minus;
    var at1 := NarrowKeeps(k, w.at, r, a, b, x, y);
    var w1 := w.(at := Narrow(k, w.at, r, a, b).value);
    SplitCancels(k, w1, r, a, b, x, y, k.Result(x, y));
    NarrowThenSplit(k, w, r, a, b);
  }

  /** The nodes of `any + 1 > 5`, before and after the comparison is assumed and taken back to the sum. */
  function Example(): seq<Shape> {
    [Leaf, Leaf, Binary(Add, 0, 1), Leaf, Binary(Sgt, 2, 3)]
  }

  function ExampleAt(x: Interval, sum: Interval, cmp: Interval): seq<Interval> {
    [x, Constant(1), sum, Constant(5), cmp]
  }

  lemma ExampleGreater(answers: seq<nat>)
    ensures Back(Sgt, World(ExampleAt(TOP, TOP, Constant(1)), answers), 4, 2, 3)
         == Alive(World(ExampleAt(TOP, Interval(6, MAX), Constant(1)), answers))
  {
    var at1, at2 := ExampleAt(TOP, TOP, Constant(1)), ExampleAt(TOP, Interval(6, MAX), Constant(1));
    var raised := at1[2 := Interval(5, MAX)];
    assert raised[2 := Interval(6, MAX)] == at2 && at2[3 := Constant(5)] == at2;
    assert Exclude(raised, 2, 5) == Alive(at2);
    assert MeetHigh(at2, 3, MAX) == at2;
    assert Exclude(at2, 3, MAX) == Alive(at2);
  }

  lemma ExampleSum(answers: seq<nat>)
    ensures Back(Add, World(ExampleAt(TOP, Interval(6, MAX), Constant(1)), answers), 2, 0, 1) == Cancelled
  {
    var at2 := ExampleAt(TOP, Interval(6, MAX), Constant(1));
    var at3 := ExampleAt(Interval(5, MAX), Interval(6, MAX), Constant(1));
    assert at2[0 := Interval(5, MAX)] == at3 && at3[1 := Constant(1)] == at3;
    assert Intersect(at2, 0, Minus(at2[2], at2[1]).value) == Alive(at3);
    assert Intersect(at3, 1, Minus(at3[2], at3[0]).value) == Alive(at3);
    SplitCancels(Sum, World(at3, answers), 2, 0, 1, 7, 1, 8);
  }

  /** So nothing survives `any + 1 > 5`: the sum of an unbounded value is unbounded above. */
  lemma UnboundedSumLost(answers: seq<nat>)
    ensures var (g, at) := (Example(), ExampleAt(TOP, TOP, Interval(0, 1)));
            Execution(g, [7, 1, 8, 5, 1]) && Forward(Add, TOP, Constant(1)) == Alive(TOP) &&
            (forall n :: 0 <= n < 5 ==> at[n].Has([7, 1, 8, 5, 1][n])) &&
            Assume(g, World(at, answers), 4, true) == Cancelled
  {
    hide Back;
    assert ExampleAt(TOP, TOP, Interval(0, 1))[4 := Constant(1)] == ExampleAt(TOP, TOP, Constant(1));
    ExampleGreater(answers);
    ExampleSum(answers);
  }

  /** Bounds next to an infinity that are not shared lose solutions as well: here every script leaves a branch, but the
      correction of the second operand saturates, and none holds 0 + (MAX - 1). */
  lemma UnsharedSumLost()
    ensures var at := [Interval(MAX - 9, MAX - 1), Interval(-100, 5), Interval(MAX - 50, MAX)];
            && Holds(at, 1, 2, 0, MAX - 1) && at[0].Has(0 + (MAX - 1))
            && !SharesInfinity(at[0], Plus(at[1], at[2]).value) && !Survives(Add, at, 0, 1, 2, 0, MAX - 1)
  {
    var at := [Interval(MAX - 9, MAX - 1), Interval(-100, 5), Interval(MAX - 50, MAX)];
    var at1 := [Interval(MAX - 9, MAX - 1), Interval(-100, 5), Interval(MAX - 14, MAX)];
    SumSurvives(Sum, at, 0, 1, 2, 0, MAX - 1);
    assert at[1 := at[1]] == at && at[2 := at1[2]] == at1;
    assert Minus(at[0], at[2]) == Alive(Interval(MIN, 49)) && Minus(at[0], at[1]) == Alive(Interval(MAX - 14, MAX));
    assert Narrow(Sum, at, 0, 1, 2) == Alive(at1);
    assert Gaps(Sum, at[0], at1[1], at1[2]) == Alive((105, MAX));
  }

  // ----- coinciding operands, equal values, saturation

  /** `x + x >= 3` with `x` in 0..3 loses `x == 2`. */
  lemma SelfSumLost()
    ensures var at := [Interval(0, 3), Interval(3, 6)];
            at[0].Has(2) && at[1].Has(2 + 2) && !Survives(Add, at, 1, 0, 0, 2, 2)
  {
    var at := [Interval(0, 3), Interval(3, 6)];
    SelfOperands.AddExact(at, 1, 0, 2);
    assert at[0 := Interval(0, 3)] == at;
    assert NarrowSum(at, 1, 0, 0) == Alive(at);
  }

  /** An equality that holds loses its greatest solution: `x == y` with both in 0..1 loses 1. */
  lemma EqualityLost()
    ensures var at := [Interval(0, 1), Interval(0, 1)];
            Holds(at, 0, 1, 1, 1) && !EqualSurvives(at, 0, 1, 1, 1)
  {
    EqualExact([Interval(0, 1), Interval(0, 1)], 0, 1, 1, 1);
  }

  /** `badd_` by itself loses every pair when a correction starts from a bound next to infinity; the intersections
      of `bop_add` come first and leave no such bound, so that the whole operation loses nothing there. */
  lemma SaturatedSplitLost()
    ensures var at := [Interval(MAX - 201, MAX - 1), Interval(-300, 0), Interval(MAX - 1, MAX - 1)];
            Holds(at, 1, 2, -200, MAX - 1) && at[0].Has(-200 + (MAX - 1)) &&
            !SplitSurvives(Sum, at, 0, 1, 2, -200, MAX - 1) && Survives(Add, at, 0, 1, 2, -200, MAX - 1)
  {
    var at := [Interval(MAX - 201, MAX - 1), Interval(-300, 0), Interval(MAX - 1, MAX - 1)];
    SplitLosesNothing(Sum, at, 0, 1, 2, -200, MAX - 1);
    var p, at' := SumKeeps(Sum, Add, at, 0, 1, 2, -200, MAX - 1);
    assert Back(Add, World(at, p + []), 0, 1, 2) == Alive(World(at', []));
  }

  // ----- counts of starts

  function ManyProducts(): Interval {
    Interval(0x2_0000_0000, 0x4_0000_0000)
  }

  /** With 2^32 + 1 starts the 32-bit count is 1, and the only start that is chosen is too high for this solution. */
  lemma CountTruncated()
    ensures var r, u, v := ManyProducts(), Interval(0x1_FFFF_FFFF, 0x2_0000_0000), Interval(1, 0x1_0000_0000);
            var at := [r, u, v];
            Holds(at, 1, 2, 0x1_FFFF_FFFF, 2) && at[0].Has(0x1_FFFF_FFFF * 2) &&
            !Survives(Mul, at, 0, 1, 2, 0x1_FFFF_FFFF, 2)
  {
    var r, u, v := ManyProducts(), Interval(0x1_FFFF_FFFF, 0x2_0000_0000), Interval(1, 0x1_0000_0000);
    var at := [r, u, v];
    var v1 := Interval(1, 2);
    assert Over(r, u) == Alive(v1);
    assert Meet(v, v1) == v1;
    Precision.ProductLostExactly(at, 0, 1, 2, 0x1_FFFF_FFFF, 2);
    assert Products.LastStart(r, v1) == 0x2_0000_0000 && Products.FirstStart(r, v1) == 0x1_0000_0000;
  }

  // ----- zero, infinite and negative factors

  /** The division before the split ends every branch when zero is among the values of the left factor. */
  lemma ZeroFactorLost(at: seq<Interval>, r: nat, a: nat, b: nat, x: int, y: int)
    requires r < |at| && a < |at| && b < |at| && at[a].IsOrdinary() && at[b].IsOrdinary() && at[a].Has(0)
    ensures !Survives(Mul, at, r, a, b, x, y)
  {
    assert Over(at[r], at[a]) == Cancelled;
  }

  /** It ends every branch as well when the product and the right factor both reach an infinity. */
  lemma UnboundedProductLost(at: seq<Interval>, r: nat, a: nat, b: nat, x: int, y: int)
    requires r < |at| && a < |at| && b < |at| && !at[r].IsFinite() && (at[b].low == MIN || at[b].high == MAX)
    ensures !Survives(Mul, at, r, a, b, x, y)
  {
    assert Over(at[r], at[b]) == Cancelled;
  }

  /** Rounding up adds one to a quotient that is already truncated toward zero: with a negative factor the
      corrections of the two operands exclude each other, and -2 * 4 is lost with every other solution. */
  lemma NegativeFactorLost(answers: seq<nat>)
    ensures var at := [Interval(-9, -8), Interval(-3, -1), Constant(4)];
            Holds(at, 1, 2, -2, 4) && at[0].Has(-2 * 4) && Back(Mul, World(at, answers), 0, 1, 2) == Cancelled
  {
    var w := World([Interval(-9, -8), Interval(-3, -1), Constant(4)], answers);
    assert Over(w.at[0], w.at[1]) == Alive(Interval(2, 9));
    assert w.at[2 := Constant(4)] == w.at;
    assert Times(w.at[1], w.at[2]) == Interval(-12, -4);
    NegativeCeiling(w);
  }

  lemma NegativeCeiling(w: World)
    requires w.at == [Interval(-9, -8), Interval(-3, -1), Constant(4)]
    ensures ProductLow(w, 0, 1, 2) == Cancelled
  {
    assert DivUp(-9, 4) == Alive(-1);
    assert DivUp(-9, -1) == Alive(9);
  }

  // ----- comparisons of wide intervals

  /** With 2^63 + 1 shared values their number is negative as a 64-bit bound and 1 as a 32-bit count: the one cut
      that is chosen is at the bottom and loses all other pairs in order. */
  lemma WideOrderLost()
    ensures var i := Interval(-0x4000_0000_0000_0000, 0x4000_0000_0000_0000);
            Holds([i, i], 0, 1, 1, 0) && Above(false, 1, 0) && !GreaterSurvives([i, i], 0, 1, false, 1, 0)
  {
    var i := Interval(-0x4000_0000_0000_0000, 0x4000_0000_0000_0000);
    var at := [i, i];
    assert at[0 := i][1 := i] == at;
    OrderBoundsForm(at, 0, 1, false);
    forall answers: seq<nat>
      ensures var o := BackGreater(World(at, answers), 0, 1, false);
              o.Alive? ==> o.value.at[1] == Constant(-0x4000_0000_0000_0000)
    {
      var w := World(at, answers);
      assert Meet(i, i) == i && i.Size() == 0x8000_0000_0000_0001;
      assert ToInt32(i.Size()) == 1 && Pick(answers, 1) == 0;
      assert OrderBounds(at, 0, 1, false) == Alive(at);
      assert Choose(w, 1) == Alive((0, World(at, Rest(answers))));
    }
  }
}
