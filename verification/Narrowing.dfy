/**
 Assumptions only narrow: whatever the answers and the sharing of nodes, no node gains a value. The one way
 to gain is to exclude an infinity from an interval that starts or ends on its wrong side, which wraps around.
 */
module Narrowing {
  import opened Outcomes
  import opened Bounds
  import opened Intervals
  import opened Backward
  import opened History
  import opened Splits
  import Keeping

  lemma ShrinksOn(at: seq<Interval>, at1: seq<Interval>, at2: seq<Interval>)
    requires Shrinks(at, at1) && Shrinks(at1, at2)
    ensures Shrinks(at, at2)
  {
    forall k | 0 <= k < |at|
      ensures at2[k].Within(at[k])
    {
      assert at1[k].Within(at[k]);
    }
  }

  lemma LowShrinks(at: seq<Interval>, a: nat, b: Int64)
    requires a < |at|
    ensures Shrinks(at, MeetLow(at, a, b))
  {
  }

  lemma HighShrinks(at: seq<Interval>, a: nat, b: Int64)
    requires a < |at|
    ensures Shrinks(at, MeetHigh(at, a, b))
  {
  }

  lemma IntersectShrinks(at: seq<Interval>, a: nat, i: Interval)
    requires a < |at| && Intersect(at, a, i).Alive?
    ensures Shrinks(at, Intersect(at, a, i).value)
  {
  }

  /** Excluding a value narrows, except for an infinity where it is the bound that then wraps around. */
  lemma ExcludeNarrows(at: seq<Interval>, a: nat, b: Int64)
    requires a < |at| && Exclude(at, a, b).Alive?
    ensures Shrinks(at, Exclude(at, a, b).value) <==> !(at[a].low == b == MAX) && !(at[a].high == b == MIN)
    ensures forall k | 0 <= k < |at| && k != a :: Exclude(at, a, b).value[k] == at[k]
  {
    var at' := Exclude(at, a, b).value;
    assert Shrinks(at, at') ==> at'[a].Within(at[a]);
  }

  // ----- sums and differences

  lemma StairShrinks(side: Side, at: seq<Interval>, a: nat, b: nat, d: Int64, i: Int32)
    requires a < |at| && b < |at| && Stair(side, at, a, b, d, i).Alive?
    ensures Shrinks(at, Stair(side, at, a, b, d, i).value)
  {
  }

  lemma CorrectShrinks(side: Side, w: World, a: nat, b: nat, d: Int64)
    requires a < |w.at| && b < |w.at| && Correct(side, w, a, b, d).Alive?
    ensures Shrinks(w.at, Correct(side, w, a, b, d).value.at)
  {
    if Correctable(d) {
      var (i, w1) := Choose(w, ToInt32(d + 1)).value;
      StairShrinks(side, w.at, a, b, d, i);
    }
  }

  lemma CorrectBothShrinks(result: Interval, low: Side, high: Side, w: World, r: nat, a: nat, b: nat)
    requires r < |w.at| && a < |w.at| && b < |w.at| && CorrectBoth(result, low, high, w, r, a, b).Alive?
    ensures Shrinks(w.at, CorrectBoth(result, low, high, w, r, a, b).value.at)
  {
    if Equal(result, w.at[r]) != True {
      var dLow, dHigh := Bounds.Sub(w.at[r].low, result.low).value, Bounds.Sub(result.high, w.at[r].high).value;
      CorrectShrinks(low, w, a, b, dLow);
      var w1 := Correct(low, w, a, b, dLow).value;
      CorrectShrinks(high, w1, a, b, dHigh);
      ShrinksOn(w.at, w1.at, Correct(high, w1, a, b, dHigh).value.at);
    }
  }

  lemma AddShrinks(w: World, r: nat, a: nat, b: nat)
    requires r < |w.at| && a < |w.at| && b < |w.at| && BackAdd(w, r, a, b).Alive?
    ensures Shrinks(w.at, BackAdd(w, r, a, b).value.at)
  {
    var i := Minus(w.at[r], w.at[b]).value;
    IntersectShrinks(w.at, a, i);
    var at1 := Intersect(w.at, a, i).value;
    var j := Minus(at1[r], at1[a]).value;
    IntersectShrinks(at1, b, j);
    var at2 := Intersect(at1, b, j).value;
    ShrinksOn(w.at, at1, at2);
    CorrectBothShrinks(Plus(at2[a], at2[b]).value, SumLow, SumHigh, w.(at := at2), r, a, b);
    ShrinksOn(w.at, at2, BackAdd(w, r, a, b).value.at);
  }

  lemma SubShrinks(w: World, r: nat, a: nat, b: nat)
    requires r < |w.at| && a < |w.at| && b < |w.at| && BackSub(w, r, a, b).Alive?
    ensures Shrinks(w.at, BackSub(w, r, a, b).value.at)
  {
    var i := Plus(w.at[r], w.at[b]).value;
    IntersectShrinks(w.at, a, i);
    var at1 := Intersect(w.at, a, i).value;
    var j := Minus(at1[a], at1[r]).value;
    IntersectShrinks(at1, b, j);
    var at2 := Intersect(at1, b, j).value;
    ShrinksOn(w.at, at1, at2);
    CorrectBothShrinks(Minus(at2[a], at2[b]).value, DifferenceLow, DifferenceHigh, w.(at := at2), r, a, b);
    ShrinksOn(w.at, at2, BackSub(w, r, a, b).value.at);
  }

  // ----- products

  lemma FromShrinks(at: seq<Interval>, r: nat, a: nat, b: nat, t: Int64)
    requires r < |at| && a < |at| && b < |at| && ProductFrom(at, r, a, b, t).Alive?
    ensures Shrinks(at, ProductFrom(at, r, a, b, t).value)
  {
    hide DivUp;
    LowShrinks(at, a, t);
    LowShrinks(MeetLow(at, a, t), b, DivUp(MeetLow(at, a, t)[r].low, t).value);
    ShrinksOn(at, MeetLow(at, a, t), ProductFrom(at, r, a, b, t).value);
  }

  lemma UpToShrinks(at: seq<Interval>, r: nat, a: nat, b: nat, t: Int64)
    requires r < |at| && a < |at| && b < |at| && ProductUpTo(at, r, a, b, t).Alive?
    ensures Shrinks(at, ProductUpTo(at, r, a, b, t).value)
  {
    hide Div;
    HighShrinks(at, a, t);
    HighShrinks(MeetHigh(at, a, t), b, Div(MeetHigh(at, a, t)[r].high, t).value);
    ShrinksOn(at, MeetHigh(at, a, t), ProductUpTo(at, r, a, b, t).value);
  }

  lemma ProductLowShrinks(w: World, r: nat, a: nat, b: nat)
    requires r < |w.at| && a < |w.at| && b < |w.at| && ProductLow(w, r, a, b).Alive?
    ensures Shrinks(w.at, ProductLow(w, r, a, b).value.at)
  {
    hide DivUp, ChooseDown, ProductFrom, MeetLow;
    var newHigh, newLow := DivUp(w.at[r].low, w.at[b].low).value, DivUp(w.at[r].low, w.at[b].high).value;
    LowShrinks(w.at, a, newLow);
    var w1 := w.(at := MeetLow(w.at, a, newLow));
    var (t, w2) := ChooseDown(w1, newLow, newHigh).value;
    FromShrinks(w2.at, r, a, b, t);
    ShrinksOn(w.at, w1.at, ProductLow(w, r, a, b).value.at);
  }

  lemma ProductHighShrinks(w: World, r: nat, a: nat, b: nat)
    requires r < |w.at| && a < |w.at| && b < |w.at| && ProductHigh(w, r, a, b).Alive?
    ensures Shrinks(w.at, ProductHigh(w, r, a, b).value.at)
  {
    hide Div, ChooseUp, ProductUpTo;
    var newLow := Max(Div(w.at[r].high, w.at[b].high).value, w.at[a].low);
    var (t, w1) := ChooseUp(w, newLow, w.at[a].high).value;
    UpToShrinks(w.at, r, a, b, t);
  }

  lemma SplitProductShrinks(w: World, r: nat, a: nat, b: nat)
    requires r < |w.at| && a < |w.at| && b < |w.at| && SplitProduct(w, r, a, b).Alive?
    ensures Shrinks(w.at, SplitProduct(w, r, a, b).value.at)
  {
    hide ProductLow, ProductHigh, Times;
    var product := Times(w.at[a], w.at[b]);
    if !w.at[r].IncludesAll(product) {
      var dLow, dHigh := Bounds.Sub(w.at[r].low, product.low).value, Bounds.Sub(product.high, w.at[r].high).value;
      var w1 := w;
      if Correctable(dLow) {
        ProductLowShrinks(w, r, a, b);
        w1 := ProductLow(w, r, a, b).value;
      }
      if Correctable(dHigh) {
        ProductHighShrinks(w1, r, a, b);
        ShrinksOn(w.at, w1.at, ProductHigh(w1, r, a, b).value.at);
      }
    }
  }

  lemma MulShrinks(w: World, r: nat, a: nat, b: nat)
    requires r < |w.at| && a < |w.at| && b < |w.at| && BackMul(w, r, a, b).Alive?
    ensures Shrinks(w.at, BackMul(w, r, a, b).value.at)
  {
    hide Over, SplitProduct, Intersect;
    if w.at[a].low == MIN || w.at[a].high == MAX || w.at[b].low == MIN || w.at[b].high == MAX {
      IntersectShrinks(w.at, a, Over(w.at[r], w.at[b]).value);
    } else {
      var i := Over(w.at[r], w.at[a]).value;
      IntersectShrinks(w.at, b, i);
      var w1 := w.(at := Intersect(w.at, b, i).value);
      SplitProductShrinks(w1, r, a, b);
      ShrinksOn(w.at, w1.at, SplitProduct(w1, r, a, b).value.at);
    }
  }

  // ----- comparisons

  /** A strict order of `u` above `v` excludes an infinity on its wrong side: `u` ends at the bottom, and `v`
      starts there, or at the top without both being the whole of what they then become. */
  predicate Wraps(u: Interval, v: Interval) {
    u.high == MIN && (v.low == MIN || (v.low == MAX && !(u.low == MIN && v.high == MAX)))
  }

  /** No node's interval got wider, and only those of `a` and `b` changed. */
  ghost predicate ShrinksOnly(at: seq<Interval>, at': seq<Interval>, a: nat, b: nat) {
    Shrinks(at, at') && forall k | 0 <= k < |at| && k != a && k != b :: at'[k] == at[k]
  }

  lemma OnlyOn(at: seq<Interval>, at1: seq<Interval>, at2: seq<Interval>, a: nat, b: nat)
    requires ShrinksOnly(at, at1, a, b) && ShrinksOnly(at1, at2, a, b)
    ensures ShrinksOnly(at, at2, a, b)
  {
    ShrinksOn(at, at1, at2);
  }

  /** Moving the bounds narrows, unless it wraps around; then it does not. */
  lemma BoundsExact(at: seq<Interval>, a: nat, b: nat, strict: bool)
    requires a < |at| && b < |at| && a != b && OrderBounds(at, a, b, strict).Alive?
    ensures !(strict && Wraps(at[a], at[b])) ==> ShrinksOnly(at, OrderBounds(at, a, b, strict).value, a, b)
    ensures strict && Wraps(at[a], at[b]) ==> Widened(at, OrderBounds(at, a, b, strict).value, a, b)
  {
  }

  /** The top of `a` rose to infinity, or `a` and `b` are single infinities that did not narrow them both. */
  predicate Widened(at: seq<Interval>, at': seq<Interval>, a: nat, b: nat)
    requires a < |at| == |at'| && b < |at|
  {
    (at'[a].high == MAX && at[a].high == MIN && !at'[a].IsBottom()) ||
    (at'[a] == Constant(MIN) && at'[b] == Constant(MAX) && (at[a].low != MIN || at[b].high != MAX))
  }

  lemma TwoIntersections(at: seq<Interval>, a: nat, i: Interval, b: nat, j: Interval)
    requires a < |at| && b < |at| && Intersect(at, a, i).Alive? && Intersect(Intersect(at, a, i).value, b, j).Alive?
    ensures ShrinksOnly(at, Intersect(Intersect(at, a, i).value, b, j).value, a, b)
  {
    hide Meet;
    var at1 := Intersect(at, a, i).value;
    IntersectShrinks(at, a, i);
    IntersectShrinks(at1, b, j);
    ShrinksOn(at, at1, Intersect(at1, b, j).value);
  }

  lemma CutShrinks(w: World, a: nat, b: nat, strict: bool)
    requires a < |w.at| && b < |w.at| && OrderCut(w, a, b, strict).Alive?
    ensures ShrinksOnly(w.at, OrderCut(w, a, b, strict).value.at, a, b)
  {
    hide Intersect, Pick, Rest;
    var common := Meet(w.at[a], w.at[b]);
    if !common.IsBottom() && ToInt64(common.Size()) <= CHOOSE_BOUND {
      var i := Choose(w, ToInt32(if strict then common.Size() + 1 else common.Size())).value.0;
      var delim := Bounds.Add(i, common.low).value;
      var j := Interval(delim, w.at[a].high);
      var at1 := Intersect(w.at, a, j).value;
      TwoIntersections(w.at, a, j, b, Interval(at1[b].low, if strict then Bounds.Sub(delim, 1).value else delim));
    }
  }

  lemma WidenedStays(w: World, at: seq<Interval>, a: nat, b: nat, strict: bool)
    requires a < |at| == |w.at| && b < |at| && a != b && Widened(at, w.at, a, b) && OrderCut(w, a, b, strict).Alive?
    ensures !Shrinks(at, OrderCut(w, a, b, strict).value.at)
  {
    var at' := OrderCut(w, a, b, strict).value.at;
    assert Shrinks(at, at') ==> at'[a].Within(at[a]) && at'[b].Within(at[b]);
    var common := Meet(w.at[a], w.at[b]);
    if !common.IsBottom() && ToInt64(common.Size()) <= CHOOSE_BOUND {
      var i := Choose(w, ToInt32(if strict then common.Size() + 1 else common.Size())).value.0;
      TopStays(w.at, a, b, strict, Bounds.Add(i, common.low).value);
    }
  }

  lemma TopStays(at: seq<Interval>, a: nat, b: nat, strict: bool, delim: Int64)
    requires a < |at| && b < |at| && a != b && CutAt(at, a, b, strict, delim).Alive? && !at[a].IsBottom()
    ensures CutAt(at, a, b, strict, delim).value[a].high == at[a].high
  {
  }

  /** `bgt_` on different nodes narrows if and only if it does not wrap around. */
  lemma GreaterNarrows(w: World, a: nat, b: nat, strict: bool)
    requires a < |w.at| && b < |w.at| && a != b && BackGreater(w, a, b, strict).Alive?
    ensures Shrinks(w.at, BackGreater(w, a, b, strict).value.at) <==> !(strict && Wraps(w.at[a], w.at[b]))
    ensures !(strict && Wraps(w.at[a], w.at[b])) ==> ShrinksOnly(w.at, BackGreater(w, a, b, strict).value.at, a, b)
  {
    hide OrderBounds, OrderCut, Wraps, Widened;
    BoundsExact(w.at, a, b, strict);
    var w1 := w.(at := OrderBounds(w.at, a, b, strict).value);
    CutShrinks(w1, a, b, strict);
    if strict && Wraps(w.at[a], w.at[b]) {
      WidenedStays(w1, w.at, a, b, strict);
    } else {
      OnlyOn(w.at, w1.at, OrderCut(w1, a, b, strict).value.at, a, b);
    }
  }

  lemma GreaterLeaves(w: World, a: nat, b: nat, strict: bool, k: nat)
    requires a < |w.at| && b < |w.at| && k < |w.at| && k != a && k != b && BackGreater(w, a, b, strict).Alive?
    ensures BackGreater(w, a, b, strict).value.at[k] == w.at[k]
  {
    hide OrderCut;
    CutShrinks(w.(at := OrderBounds(w.at, a, b, strict).value), a, b, strict);
  }

  /** A strict order of a value at the bottom above one that starts there leaves everything above the bottom. */
  lemma OrderWidens(answers: seq<nat>)
    ensures BackGreater(World([Constant(MIN), Interval(MIN, MIN + 1000)], answers), 0, 1, true)
         == Alive(World([Interval(MIN + 1, MAX), Interval(MIN, MIN + 1000)], answers))
  {
    var at, at' := [Constant(MIN), Interval(MIN, MIN + 1000)], [Interval(MIN + 1, MAX), Interval(MIN, MIN + 1000)];
    assert at[0 := Constant(MIN)] == at && at[0 := Interval(MIN + 1, MAX)] == at';
    assert at'[1 := Interval(MIN, MIN + 1000)] == at';
    assert OrderBounds(at, 0, 1, true) == Alive(at');
    var shared := Interval(MIN + 1, MIN + 1000);
    assert Meet(at'[0], at'[1]) == shared && ToInt64(shared.Size()) > CHOOSE_BOUND;
  }

  /** Two nodes that are the same infinity have no value; assumed different, one of them has every value. */
  lemma DifferentWidens(answers: seq<nat>)
    ensures BackDifferent(World([Constant(MAX), Constant(MAX)], answers), 0, 1)
         == Alive(World([Constant(MAX), Interval(MIN, MAX - 1)], answers))
    ensures forall x :: !Constant(MAX).Has(x) && (-MAX < x < MAX ==> Interval(MIN, MAX - 1).Has(x))
  {
    var at := [Constant(MAX), Constant(MAX)];
    assert at[1 := Interval(MIN, MAX - 1)] == [Constant(MAX), Interval(MIN, MAX - 1)];
    assert Exclude(at, 1, MAX) == Alive([Constant(MAX), Interval(MIN, MAX - 1)]);
  }

  lemma EqualShrinks(w: World, a: nat, b: nat)
    requires a < |w.at| && b < |w.at| && BackEqual(w, a, b).Alive?
    ensures ShrinksOnly(w.at, BackEqual(w, a, b).value.at, a, b)
  {
    hide Intersect, Pick, Rest;
    var at1 := Intersect(w.at, a, w.at[b]).value;
    TwoIntersections(w.at, a, w.at[b], b, at1[a]);
    var at2 := MeetBoth(w.at, a, b).value;
    var size := Bounds.Sub(at2[a].high, at2[a].low).value;
    if Correctable(size) {
      var i := Choose(w.(at := at2), ToInt32(size)).value.0;
      var c := Constant(Bounds.Add(at2[a].low, i).value);
      var at3 := Intersect(at2, a, c).value;
      TwoIntersections(at2, a, c, b, Constant(Bounds.Add(at3[b].low, i).value));
      OnlyOn(w.at, at2, BothConstant(at2, a, b, i).value, a, b);
    }
  }

  predicate SameInfinity(u: Interval, v: Interval) {
    u == v && (u == Constant(MAX) || u == Constant(MIN))
  }

  /** `bne_impl` on different nodes narrows if and only if they are not the same infinity. */
  lemma DifferentNarrows(w: World, a: nat, b: nat)
    requires a < |w.at| && b < |w.at| && a != b && BackDifferent(w, a, b).Alive?
    ensures Shrinks(w.at, BackDifferent(w, a, b).value.at) <==> !SameInfinity(w.at[a], w.at[b])
    ensures !SameInfinity(w.at[a], w.at[b]) ==> ShrinksOnly(w.at, BackDifferent(w, a, b).value.at, a, b)
  {
    hide Exclude, BackGreater, Pick, Rest;
    var i, j := w.at[a], w.at[b];
    if Meet(i, j).IsBottom() {
    } else if i.IsConstant() && (i.low == j.low || i.low == j.high) {
      ExcludeNarrows(w.at, b, i.low);
    } else if j.IsConstant() && (j.low == i.low || j.low == i.high) {
      ExcludeNarrows(w.at, a, j.low);
    } else {
      var w1 := w.(answers := Rest(w.answers));
      if Pick(w.answers, 2) != 0 {
        GreaterNarrows(w1, a, b, true);
      } else {
        GreaterNarrows(w1, b, a, true);
      }
    }
  }

  lemma EqualityNarrows(w: World, r: nat, a: nat, b: nat, negated: bool)
    requires r < |w.at| && a < |w.at| && b < |w.at| && BackEquality(w, r, a, b, negated).Alive?
    requires r != a && r != b && a != b
    ensures Shrinks(w.at, BackEquality(w, r, a, b, negated).value.at)
       <==> !(Known(w.at[r], negated) && SameInfinity(w.at[a], w.at[b]))
  {
    hide BackEqual, BackDifferent, SameInfinity;
    Keeping.KnownForm(w.at[r], true);
    Keeping.KnownForm(w.at[r], false);
    if Known(w.at[r], !negated) {
      EqualShrinks(w, a, b);
    } else if Known(w.at[r], negated) {
      DifferentNarrows(w, a, b);
    }
  }

  lemma OrderNarrows(w: World, r: nat, a: nat, b: nat, negated: bool)
    requires r < |w.at| && a < |w.at| && b < |w.at| && BackOrder(w, r, a, b, negated).Alive?
    requires r != a && r != b && a != b
    ensures Shrinks(w.at, BackOrder(w, r, a, b, negated).value.at)
       <==> !(Known(w.at[r], !negated) && Wraps(w.at[a], w.at[b]))
  {
    hide BackGreater, Wraps;
    Keeping.KnownForm(w.at[r], true);
    Keeping.KnownForm(w.at[r], false);
    if Known(w.at[r], !negated) {
      GreaterNarrows(w, a, b, true);
      GreaterLeaves(w, a, b, true, r);
    } else if Known(w.at[r], negated) {
      GreaterNarrows(w, b, a, false);
    }
  }

  // ----- propagation

  predicate Arithmetic(op: Op) {
    op.Add? || op.Sub? || op.Mul?
  }

  /** The comparison of `a` and `b` is settled in a way that excludes an infinity on its wrong side. */
  predicate Wrapping(op: Op, at: seq<Interval>, r: nat, a: nat, b: nat)
    requires r < |at| && a < |at| && b < |at|
  {
    match op
    case Eq => Known(at[r], false) && SameInfinity(at[a], at[b])
    case Ne => Known(at[r], true) && SameInfinity(at[a], at[b])
    case Slt => Known(at[r], true) && Wraps(at[b], at[a])
    case Sgt => Known(at[r], true) && Wraps(at[a], at[b])
    case Sle => Known(at[r], false) && Wraps(at[a], at[b])
    case Sge => Known(at[r], false) && Wraps(at[b], at[a])
    case _ => false
  }

  /** An arithmetic operation never widens a node, even when result and operands are the same nodes; a comparison of
      different nodes does so if and only if it wraps around. */
  lemma BackShrinks(op: Op, w: World, r: nat, a: nat, b: nat)
    requires r < |w.at| && a < |w.at| && b < |w.at| && Back(op, w, r, a, b).Alive?
    requires Arithmetic(op) || (r != a && r != b && a != b)
    ensures Shrinks(w.at, Back(op, w, r, a, b).value.at) <==> !Wrapping(op, w.at, r, a, b)
  {
    hide BackAdd, BackSub, BackMul, BackEquality, BackOrder, SameInfinity, Wraps;
    match op
    case Add => AddShrinks(w, r, a, b);
    case Sub => SubShrinks(w, r, a, b);
    case Mul => MulShrinks(w, r, a, b);
    case Eq =>
      EqualityNarrows(w, r, a, b, false);
    case Ne => EqualityNarrows(w, r, a, b, true);
    case Slt =>
      SameEitherWay(w.at[a], w.at[b]);
      OrderNarrows(w, r, b, a, false);
    case Sgt => OrderNarrows(w, r, a, b, false);
    case Sle => OrderNarrows(w, r, a, b, true);
    case Sge => OrderNarrows(w, r, b, a, true);
  }

  lemma SameEitherWay(u: Interval, v: Interval)
    ensures SameInfinity(u, v) <==> SameInfinity(v, u)
  {
  }

  /** No comparison met on the way, in the state it is met in, wraps around or compares a node with itself. */
  predicate Unwrapped(g: seq<Shape>, w: World, n: nat)
    requires WellFormed(g) && |w.at| == |g| && n < |g|
    decreases n
  {
    match g[n]
    case Leaf => true
    case Binary(op, left, right) =>
      (Arithmetic(op) || (left != right && !Wrapping(op, w.at, n, left, right))) &&
      match Back(op, w, n, left, right)
      case Cancelled => true
      case Alive(w1) =>
        Unwrapped(g, w1, left) &&
        match Propagate(g, w1, left)
        case Cancelled => true
        case Alive(w2) => Unwrapped(g, w2, right)
  }

  predicate ArithmeticUpTo(g: seq<Shape>, n: nat) {
    forall k | 0 <= k <= n && k < |g| :: g[k].Binary? ==> Arithmetic(g[k].op)
  }

  /** Arithmetic meets no comparison. */
  lemma {:induction false} ArithmeticUnwrapped(g: seq<Shape>, w: World, n: nat)
    requires WellFormed(g) && |w.at| == |g| && n < |g| && ArithmeticUpTo(g, n)
    ensures Unwrapped(g, w, n)
    decreases n
  {
    hide Back, Propagate, Wrapping;
    match g[n]
    case Leaf =>
    case Binary(op, left, right) =>
      if Back(op, w, n, left, right).Alive? {
        var w1 := Back(op, w, n, left, right).value;
        ArithmeticUnwrapped(g, w1, left);
        if Propagate(g, w1, left).Alive? {
          ArithmeticUnwrapped(g, Propagate(g, w1, left).value, right);
        }
      }
  }

  /** Nor does a whole propagation, over any shared history, that meets no comparison which wraps around. */
  lemma {:induction false} PropagateShrinks(g: seq<Shape>, w: World, n: nat)
    requires WellFormed(g) && |w.at| == |g| && n < |g| && Propagate(g, w, n).Alive? && Unwrapped(g, w, n)
    ensures Shrinks(w.at, Propagate(g, w, n).value.at)
    decreases n
  {
    hide Back, Wrapping;
    match g[n]
    case Leaf =>
    case Binary(op, left, right) =>
      BackShrinks(op, w, n, left, right);
      if Arithmetic(op) {
        NeverWrapping(op, w.at, n, left, right);
      }
      var w1 := Back(op, w, n, left, right).value;
      PropagateShrinks(g, w1, left);
      var w2 := Propagate(g, w1, left).value;
      ShrinksOn(w.at, w1.at, w2.at);
      PropagateShrinks(g, w2, right);
      ShrinksOn(w.at, w2.at, Propagate(g, w2, right).value.at);
  }

  lemma NeverWrapping(op: Op, at: seq<Interval>, r: nat, a: nat, b: nat)
    requires r < |at| && a < |at| && b < |at| && Arithmetic(op)
    ensures !Wrapping(op, at, r, a, b)
  {
  }

  /** After an assumption that meets no comparison which wraps around, the assumed node can have only the assumed
      value, and no node any value it could not have before. */
  lemma AssumeShrinks(g: seq<Shape>, w: World, n: nat, expected: bool, k: nat, x: int)
    requires WellFormed(g) && |w.at| == |g| && n < |g| && k < |g| && Assume(g, w, n, expected).Alive?
    requires Unwrapped(g, w.(at := w.at[n := Meet(w.at[n], Constant(BoolValue(expected)))]), n)
    ensures var at' := Assume(g, w, n, expected).value.at;
            && (at'[k].Has(x) ==> w.at[k].Has(x))
            && (at'[n].Has(x) ==> x == BoolValue(expected))
  {
    hide Propagate, Unwrapped;
    var i := Constant(BoolValue(expected));
    IntersectShrinks(w.at, n, i);
    var at1 := Intersect(w.at, n, i).value;
    PropagateShrinks(g, w.(at := at1), n);
    var at' := Assume(g, w, n, expected).value.at;
    ShrinksOn(w.at, at1, at');
    assert at'[n].Within(at1[n]) && at'[k].Within(w.at[k]);
  }
}
