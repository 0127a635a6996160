/**
 Backward operations of the interval domain.  Each narrows the operands of an operation from its
 result and, where the shape left over is not a box, splits it by asking the environment to choose.
 A world is what the operations change: one interval per node, and the choices still to come.
 Nodes are named by position, so that two operands may be the same node, as they may in the program.
 */
module Backward {
  import opened Outcomes
  import opened Bounds
  import opened Intervals

  const CHOOSE_BOUND: Int64 := 200

  type Int32 = x: int | -0x8000_0000 <= x < 0x8000_0000

  datatype World = World(at: seq<Interval>, answers: seq<nat>)

  /** Conversion to a 32-bit `int`. */
  function ToInt32(x: int): Int32 {
    (x + 0x8000_0000) % 0x1_0000_0000 - 0x8000_0000
  }

  /** Conversion of an unsigned 64-bit size to a signed bound. */
  function ToInt64(x: nat): Int64
    requires x < 0x1_0000_0000_0000_0000
  {
    if x <= MAX then x else x - 0x1_0000_0000_0000_0000
  }

  /** The environment's next answer to a choice among `n`; an exhausted script answers 0. */
  function Pick(answers: seq<nat>, n: int): (i: nat)
    requires n > 0
    ensures i < n
  {
    if answers == [] then 0 else answers[0] % n
  }

  function Rest(answers: seq<nat>): seq<nat> {
    if answers == [] then [] else answers[1..]
  }

  /** A choice among fewer than one alternative never yields a usable branch. */
  function Choose(w: World, n: Int32): Outcome<(Int32, World)> {
    if n < 1 then Cancelled else Alive((Pick(w.answers, n), w.(answers := Rest(w.answers))))
  }

  // ----- in-place narrowing of one node

  function MeetLow(at: seq<Interval>, a: nat, b: Int64): seq<Interval>
    requires a < |at|
  {
    at[a := at[a].(low := Max(at[a].low, b))]
  }

  function MeetHigh(at: seq<Interval>, a: nat, b: Int64): seq<Interval>
    requires a < |at|
  {
    at[a := at[a].(high := Min(at[a].high, b))]
  }

  /** Meet with an interval; an empty result cancels. */
  function Intersect(at: seq<Interval>, a: nat, i: Interval): (o: Outcome<seq<Interval>>)
    requires a < |at|
    ensures o.Alive? ==> |o.value| == |at|
  {
    if Meet(at[a], i).IsBottom() then Cancelled else Alive(at[a := Meet(at[a], i)])
  }

  /** Drop one value if it is a bound. */
  function Exclude(at: seq<Interval>, a: nat, b: Int64): (o: Outcome<seq<Interval>>)
    requires a < |at|
    ensures o.Alive? ==> |o.value| == |at|
  {
    var i := at[a];
    var i := if i.low == b then i.(low := Increment(b)) else i;
    var i := if i.high == b then i.(high := Decrement(b)) else i;
    if i.IsBottom() then Cancelled else Alive(at[a := i])
  }

  // ----- addition and subtraction: the staircase split

  datatype Side = SumLow | SumHigh | DifferenceLow | DifferenceHigh

  /** The corrections that start from the low bound of `a`. */
  predicate FromLow(side: Side) {
    side.SumLow? || side.DifferenceLow?
  }

  /** The corrections that raise the low bound of `b`. */
  predicate RaisesB(side: Side) {
    side.SumLow? || side.DifferenceHigh?
  }

  /** The bound of a low end that takes `i`, and of one that takes what `i` leaves of `d`. */
  function RaisedBy(low: Int64, i: Int32): Outcome<Int64> {
    Add(low, i)
  }

  function RaisedByRest(low: Int64, d: Int64, i: Int32): Outcome<Int64> {
    var b :- Add(low, d);
    Sub(b, i)
  }

  function LoweredBy(high: Int64, i: Int32): Outcome<Int64> {
    Sub(high, i)
  }

  function LoweredByRest(high: Int64, d: Int64, i: Int32): Outcome<Int64> {
    var b :- Sub(high, d);
    Add(b, i)
  }

  /** One stair of a correction by `d`: `a` takes `i` of it and `b` takes the rest. */
  function Stair(side: Side, at: seq<Interval>, a: nat, b: nat, d: Int64, i: Int32): (o: Outcome<seq<Interval>>)
    requires a < |at| && b < |at|
    ensures o.Alive? ==> |o.value| == |at|
  {
    var boundA :- if FromLow(side) then RaisedBy(at[a].low, i) else LoweredBy(at[a].high, i);
    var at := if FromLow(side) then MeetLow(at, a, boundA) else MeetHigh(at, a, boundA);
    var boundB :- if RaisesB(side) then RaisedByRest(at[b].low, d, i) else LoweredByRest(at[b].high, d, i);
    Alive(if RaisesB(side) then MeetLow(at, b, boundB) else MeetHigh(at, b, boundB))
  }

  predicate Correctable(d: Int64) {
    0 < d <= CHOOSE_BOUND
  }

  /** One correction: choose a stair, unless there is nothing to correct or too much. */
  function Correct(side: Side, w: World, a: nat, b: nat, d: Int64): (o: Outcome<World>)
    requires a < |w.at| && b < |w.at|
    ensures o.Alive? ==> |o.value.at| == |w.at|
  {
    if !Correctable(d) then Alive(w)
    else
      var n :- Add(d, 1);
      var (i, w) :- Choose(w, ToInt32(n));
      var at :- Stair(side, w.at, a, b, d, i);
      Alive(w.(at := at))
  }

  /** `badd_` and `bsub_`, after the forward result is known. */
  function CorrectBoth(result: Interval, low: Side, high: Side, w: World, r: nat, a: nat, b: nat): (o: Outcome<World>)
    requires r < |w.at| && a < |w.at| && b < |w.at|
    ensures o.Alive? ==> |o.value.at| == |w.at|
  {
    if Equal(result, w.at[r]) == True then Alive(w)
    else
      var dLow :- Sub(w.at[r].low, result.low);
      var dHigh :- Sub(result.high, w.at[r].high);
      var w :- Correct(low, w, a, b, dLow);
      Correct(high, w, a, b, dHigh)
  }

  function SplitSum(w: World, r: nat, a: nat, b: nat): (o: Outcome<World>)
    requires r < |w.at| && a < |w.at| && b < |w.at|
    ensures o.Alive? ==> |o.value.at| == |w.at|
  {
    var sum :- Plus(w.at[a], w.at[b]);
    CorrectBoth(sum, SumLow, SumHigh, w, r, a, b)
  }

  function SplitDifference(w: World, r: nat, a: nat, b: nat): (o: Outcome<World>)
    requires r < |w.at| && a < |w.at| && b < |w.at|
    ensures o.Alive? ==> |o.value.at| == |w.at|
  {
    var difference :- Minus(w.at[a], w.at[b]);
    CorrectBoth(difference, DifferenceLow, DifferenceHigh, w, r, a, b)
  }

  /** Narrow the operands of a sum by what the result leaves the other one. */
  function NarrowSum(at: seq<Interval>, r: nat, a: nat, b: nat): (o: Outcome<seq<Interval>>)
    requires r < |at| && a < |at| && b < |at|
    ensures o.Alive? ==> |o.value| == |at|
  {
    var i :- Minus(at[r], at[b]);
    var at :- Intersect(at, a, i);
    var i :- Minus(at[r], at[a]);
    Intersect(at, b, i)
  }

  function NarrowDifference(at: seq<Interval>, r: nat, a: nat, b: nat): (o: Outcome<seq<Interval>>)
    requires r < |at| && a < |at| && b < |at|
    ensures o.Alive? ==> |o.value| == |at|
  {
    var i :- Plus(at[r], at[b]);
    var at :- Intersect(at, a, i);
    var i :- Minus(at[a], at[r]);
    Intersect(at, b, i)
  }

  function BackAdd(w: World, r: nat, a: nat, b: nat): (o: Outcome<World>)
    requires r < |w.at| && a < |w.at| && b < |w.at|
    ensures o.Alive? ==> |o.value.at| == |w.at|
  {
    var at :- NarrowSum(w.at, r, a, b);
    SplitSum(w.(at := at), r, a, b)
  }

  function BackSub(w: World, r: nat, a: nat, b: nat): (o: Outcome<World>)
    requires r < |w.at| && a < |w.at| && b < |w.at|
    ensures o.Alive? ==> |o.value.at| == |w.at|
  {
    var at :- NarrowDifference(w.at, r, a, b);
    SplitDifference(w.(at := at), r, a, b)
  }

  // ----- multiplication: the hyperbola split

  /** Division that rounds up. */
  function DivUp(a: Int64, b: Int64): Outcome<Int64>
    requires b != 0
  {
    var q :- Div(a, b);
    Add(q, if Rem(a, b) != 0 then 1 else 0)
  }

  /** A box left empty ends the branch. */
  function EndIfEmpty(at: seq<Interval>, a: nat, b: nat): (o: Outcome<seq<Interval>>)
    requires a < |at| && b < |at|
    ensures o.Alive? ==> o.value == at
  {
    if at[a].IsBottom() || at[b].IsBottom() then Cancelled else Alive(at)
  }

  /** `a` starts at `t`, and `b` where the product with `t` reaches the low bound that `r` then has. */
  function ProductFrom(at: seq<Interval>, r: nat, a: nat, b: nat, t: Int64): (o: Outcome<seq<Interval>>)
    requires r < |at| && a < |at| && b < |at|
    ensures o.Alive? ==> |o.value| == |at|
  {
    if t == 0 then Cancelled
    else
      var at := MeetLow(at, a, t);
      var lowB :- DivUp(at[r].low, t);
      EndIfEmpty(MeetLow(at, b, lowB), a, b)
  }

  /** `a` ends at `t`, and `b` where the product with `t` still is within the high bound that `r` then has. */
  function ProductUpTo(at: seq<Interval>, r: nat, a: nat, b: nat, t: Int64): (o: Outcome<seq<Interval>>)
    requires r < |at| && a < |at| && b < |at|
    ensures o.Alive? ==> |o.value| == |at|
  {
    if t == 0 then Cancelled
    else
      var at := MeetHigh(at, a, t);
      var highB :- Div(at[r].high, t);
      EndIfEmpty(MeetHigh(at, b, highB), a, b)
  }

  /** How many values there are from `low` to `high`, as a 32-bit `int`. */
  function CountOf(low: Int64, high: Int64): Outcome<Int32> {
    var width :- Sub(high, low);
    var count :- Add(width, 1);
    Alive(ToInt32(count))
  }

  /** Choose a value between `low` and `high`, counting down from `high`. */
  function ChooseDown(w: World, low: Int64, high: Int64): (o: Outcome<(Int64, World)>)
    ensures o.Alive? ==> o.value.1.at == w.at
  {
    var n :- CountOf(low, high);
    var (i, w) :- Choose(w, n);
    var t :- Sub(high, i);
    Alive((t, w))
  }

  /** Choose a value between `low` and `high`, counting up from `low`. */
  function ChooseUp(w: World, low: Int64, high: Int64): (o: Outcome<(Int64, World)>)
    ensures o.Alive? ==> o.value.1.at == w.at
  {
    var n :- CountOf(low, high);
    var (i, w) :- Choose(w, n);
    var t :- Add(low, i);
    Alive((t, w))
  }

  /** The lower correction of a product.  Dividing by zero is a machine fault and ends the branch. */
  function ProductLow(w: World, r: nat, a: nat, b: nat): (o: Outcome<World>)
    requires r < |w.at| && a < |w.at| && b < |w.at|
    ensures o.Alive? ==> |o.value.at| == |w.at|
  {
    if w.at[b].low == 0 || w.at[b].high == 0 then Cancelled
    else
      var rLow := w.at[r].low;
      var newHigh :- DivUp(rLow, w.at[b].low);
      var newLow :- DivUp(rLow, w.at[b].high);
      var w := w.(at := MeetLow(w.at, a, newLow));
      var (t, w) :- ChooseDown(w, newLow, newHigh);
      var at :- ProductFrom(w.at, r, a, b, t);
      Alive(w.(at := at))
  }

  /** The upper correction of a product. */
  function ProductHigh(w: World, r: nat, a: nat, b: nat): (o: Outcome<World>)
    requires r < |w.at| && a < |w.at| && b < |w.at|
    ensures o.Alive? ==> |o.value.at| == |w.at|
  {
    if w.at[b].high == 0 then Cancelled
    else
      var q :- Div(w.at[r].high, w.at[b].high);
      var newLow := Max(q, w.at[a].low);
      var (t, w) :- ChooseUp(w, newLow, w.at[a].high);
      var at :- ProductUpTo(w.at, r, a, b, t);
      Alive(w.(at := at))
  }

  function SplitProduct(w: World, r: nat, a: nat, b: nat): (o: Outcome<World>)
    requires r < |w.at| && a < |w.at| && b < |w.at|
    ensures o.Alive? ==> |o.value.at| == |w.at|
  {
    var product := Times(w.at[a], w.at[b]);
    if w.at[r].IncludesAll(product) then Alive(w)
    else
      var dLow :- Sub(w.at[r].low, product.low);
      var dHigh :- Sub(product.high, w.at[r].high);
      var w :- if Correctable(dLow) then ProductLow(w, r, a, b) else Alive(w);
      if Correctable(dHigh) then ProductHigh(w, r, a, b) else Alive(w)
  }

  /** In the program the statement after the bare `return` is what it returns: an infinite operand
      narrows `a` and ends, a finite one never narrows `a` by division. */
  function BackMul(w: World, r: nat, a: nat, b: nat): (o: Outcome<World>)
    requires r < |w.at| && a < |w.at| && b < |w.at|
    ensures o.Alive? ==> |o.value.at| == |w.at|
  {
    if w.at[a].low == MIN || w.at[a].high == MAX || w.at[b].low == MIN || w.at[b].high == MAX then
      var i :- Over(w.at[r], w.at[b]);
      var at :- Intersect(w.at, a, i);
      Alive(w.(at := at))
    else
      var i :- Over(w.at[r], w.at[a]);
      var at :- Intersect(w.at, b, i);
      SplitProduct(w.(at := at), r, a, b)
  }

  // ----- comparisons: the order split

  /** Move the facing bounds of `a` and `b` past each other. */
  function OrderBounds(at: seq<Interval>, a: nat, b: nat, strict: bool): (o: Outcome<seq<Interval>>)
    requires a < |at| && b < |at|
    ensures o.Alive? ==> |o.value| == |at|
  {
    var at := MeetLow(at, a, at[b].low);
    var at :- if strict then Exclude(at, a, at[b].low) else Alive(at);
    var at := MeetHigh(at, b, at[a].high);
    if strict then Exclude(at, b, at[a].high) else Alive(at)
  }

  /** `a` keeps what is at or above `delim`, `b` what is below (or at it). */
  function CutAt(at: seq<Interval>, a: nat, b: nat, strict: bool, delim: Int64): (o: Outcome<seq<Interval>>)
    requires a < |at| && b < |at|
    ensures o.Alive? ==> |o.value| == |at|
  {
    var at :- Intersect(at, a, Interval(delim, at[a].high));
    var last :- if strict then Sub(delim, 1) else Alive(delim);
    Intersect(at, b, Interval(at[b].low, last))
  }

  /** Cut the part that `a` and `b` still share at a chosen place. */
  function OrderCut(w: World, a: nat, b: nat, strict: bool): (o: Outcome<World>)
    requires a < |w.at| && b < |w.at|
    ensures o.Alive? ==> |o.value.at| == |w.at|
  {
    var common := Meet(w.at[a], w.at[b]);
    if common.IsBottom() || CHOOSE_BOUND < ToInt64(common.Size()) then Alive(w)
    else
      var (i, w) :- Choose(w, ToInt32(if strict then common.Size() + 1 else common.Size()));
      var delim :- Add(i, common.low);
      var at :- CutAt(w.at, a, b, strict, delim);
      Alive(w.(at := at))
  }

  /** `a > b`, or `a >= b` when not strict. */
  function BackGreater(w: World, a: nat, b: nat, strict: bool): (o: Outcome<World>)
    requires a < |w.at| && b < |w.at|
    ensures o.Alive? ==> |o.value.at| == |w.at|
  {
    var at :- OrderBounds(w.at, a, b, strict);
    OrderCut(w.(at := at), a, b, strict)
  }

  /** Both operands reduced to what they share. */
  function MeetBoth(at: seq<Interval>, a: nat, b: nat): (o: Outcome<seq<Interval>>)
    requires a < |at| && b < |at|
    ensures o.Alive? ==> |o.value| == |at|
  {
    var at :- Intersect(at, a, at[b]);
    Intersect(at, b, at[a])
  }

  /** Both operands reduced to their `i`-th value. */
  function BothConstant(at: seq<Interval>, a: nat, b: nat, i: Int32): (o: Outcome<seq<Interval>>)
    requires a < |at| && b < |at|
    ensures o.Alive? ==> |o.value| == |at|
  {
    var c :- Add(at[a].low, i);
    var at :- Intersect(at, a, Constant(c));
    var d :- Add(at[b].low, i);
    Intersect(at, b, Constant(d))
  }

  /** Choose one of the values of two equal operands, unless there are too many. */
  function PickConstant(w: World, a: nat, b: nat): (o: Outcome<World>)
    requires a < |w.at| && b < |w.at|
    ensures o.Alive? ==> |o.value.at| == |w.at|
  {
    var size :- Sub(w.at[a].high, w.at[a].low);
    if !Correctable(size) then Alive(w)
    else
      var (i, w) :- Choose(w, ToInt32(size));
      var at :- BothConstant(w.at, a, b, i);
      Alive(w.(at := at))
  }

  function BackEqual(w: World, a: nat, b: nat): (o: Outcome<World>)
    requires a < |w.at| && b < |w.at|
    ensures o.Alive? ==> |o.value.at| == |w.at|
  {
    var at :- MeetBoth(w.at, a, b);
    PickConstant(w.(at := at), a, b)
  }

  /** Choose which of two different nodes is the greater. */
  function EitherOrder(w: World, a: nat, b: nat): (o: Outcome<World>)
    requires a < |w.at| && b < |w.at|
    ensures o.Alive? ==> |o.value.at| == |w.at|
  {
    var first, w := Pick(w.answers, 2) != 0, w.(answers := Rest(w.answers));
    if first then BackGreater(w, a, b, true) else BackGreater(w, b, a, true)
  }

  function BackDifferent(w: World, a: nat, b: nat): (o: Outcome<World>)
    requires a < |w.at| && b < |w.at|
    ensures o.Alive? ==> |o.value.at| == |w.at|
  {
    var i, j := w.at[a], w.at[b];
    if Meet(i, j).IsBottom() then Alive(w)
    else if i.IsConstant() && (i.low == j.low || i.low == j.high) then
      var at :- Exclude(w.at, b, i.low);
      Alive(w.(at := at))
    else if j.IsConstant() && (j.low == i.low || j.low == i.high) then
      var at :- Exclude(w.at, a, j.low);
      Alive(w.(at := at))
    else
      EitherOrder(w, a, b)
  }

  /** The result of a comparison is known when its interval is that constant. */
  predicate Known(i: Interval, b: bool) {
    Equal(i, Constant(BoolValue(b))) == True
  }

  function BackEquality(w: World, r: nat, a: nat, b: nat, negated: bool): (o: Outcome<World>)
    requires r < |w.at| && a < |w.at| && b < |w.at|
    ensures o.Alive? ==> |o.value.at| == |w.at|
  {
    var w :- if Known(w.at[r], !negated) then BackEqual(w, a, b) else Alive(w);
    if Known(w.at[r], negated) then BackDifferent(w, a, b) else Alive(w)
  }

  function BackOrder(w: World, r: nat, a: nat, b: nat, negated: bool): (o: Outcome<World>)
    requires r < |w.at| && a < |w.at| && b < |w.at|
    ensures o.Alive? ==> |o.value.at| == |w.at|
  {
    var w :- if Known(w.at[r], !negated) then BackGreater(w, a, b, true) else Alive(w);
    if Known(w.at[r], negated) then BackGreater(w, b, a, false) else Alive(w)
  }
}
