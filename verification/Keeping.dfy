/**
 One backward operation.  For each of them there is an exact condition under which it keeps a pair of operand values
 that explains the value of its result; where it holds, some answers lead to a narrowing that keeps the pair.
 */
module Keeping {
  import opened Outcomes
  import opened Bounds
  import opened Intervals
  import opened Backward
  import opened Splits
  import opened Orders
  import opened History
  import SignedProducts

  /** `at'` is a further narrowing of `r`'s operands after some answers `p`, whatever follows them. */
  ghost predicate BackLeads(op: Op, at: seq<Interval>, r: nat, a: nat, b: nat, p: seq<nat>, at': seq<Interval>)
    requires r < |at| && a < |at| && b < |at|
  {
    forall rest: seq<nat> :: Back(op, World(at, p + rest), r, a, b) == Alive(World(at', rest))
  }

  // ----- sums and differences

  lemma IntersectKeeps(at: seq<Interval>, a: nat, i: Interval, x: int)
    requires a < |at| && at[a].Has(x) && i.Has(x)
    ensures Intersect(at, a, i) == Alive(at[a := Meet(at[a], i)])
    ensures Meet(at[a], i).Has(x) && Meet(at[a], i).Within(at[a])
  {
  }

  /** The result and the forward result reach the same infinity. */
  predicate SharesInfinity(r: Interval, forward: Interval) {
    (r.low == MIN && forward.low <= MIN + 1) || (r.high == MAX && forward.high == MAX)
  }

  lemma SumBounds(r: Interval, u: Interval, v: Interval, u1: Interval, v1: Interval, x: int, y: int)
    requires u.Has(x) && v.Has(y) && r.Has(x + y) && u1.Has(x) && v1.Has(y)
    requires Minus(r, v).Alive? && u1 == Meet(u, Minus(r, v).value)
    requires Minus(r, u1).Alive? && v1 == Meet(v, Minus(r, u1).value)
    ensures r.low == MIN ==> u1.low == u.low && v1.low == v.low
    ensures r.high == MAX ==> u1.high == u.high && v1.high == v.high
  {
  }

  lemma SumInfinity(r: Interval, u: Interval, v: Interval, u1: Interval, v1: Interval, x: int, y: int)
    requires u.Has(x) && v.Has(y) && r.Has(x + y) && u1.Has(x) && v1.Has(y)
    requires Minus(r, v).Alive? && u1 == Meet(u, Minus(r, v).value)
    requires Minus(r, u1).Alive? && v1 == Meet(v, Minus(r, u1).value)
    ensures Plus(u, v).Alive? && Plus(u1, v1).Alive?
    ensures SharesInfinity(r, Plus(u1, v1).value) <==> SharesInfinity(r, Plus(u, v).value)
  {
    hide Meet, Minus;
    SumBounds(r, u, v, u1, v1, x, y);
    PlusSound(u, v, x, y);
    PlusSound(u1, v1, x, y);
  }

  lemma DifferenceBounds(r: Interval, u: Interval, v: Interval, u1: Interval, v1: Interval, x: int, y: int)
    requires u.Has(x) && v.Has(y) && r.Has(x - y) && u1.Has(x) && v1.Has(y)
    requires Plus(r, v).Alive? && u1 == Meet(u, Plus(r, v).value)
    requires Minus(u1, r).Alive? && v1 == Meet(v, Minus(u1, r).value)
    ensures r.low == MIN ==> u1.low == u.low && v1.high == v.high
    ensures r.high == MAX ==> u1.high == u.high && v.low <= v1.low && (v1.low == v.low || v1.low == Clamp(u1.low - MAX))
  {
  }

  lemma DifferenceInfinity(r: Interval, u: Interval, v: Interval, u1: Interval, v1: Interval, x: int, y: int)
    requires u.Has(x) && v.Has(y) && r.Has(x - y) && u1.Has(x) && v1.Has(y)
    requires Plus(r, v).Alive? && u1 == Meet(u, Plus(r, v).value)
    requires Minus(u1, r).Alive? && v1 == Meet(v, Minus(u1, r).value)
    ensures Minus(u, v).Alive? && Minus(u1, v1).Alive?
    ensures SharesInfinity(r, Minus(u1, v1).value) <==> SharesInfinity(r, Minus(u, v).value)
  {
    hide Meet, Plus;
    DifferenceBounds(r, u, v, u1, v1, x, y);
    MinusSound(u, v, x, y);
    MinusSound(u1, v1, x, y);
  }

  /** The two intersections, for a sum or a difference. */
  function Narrow(k: Kind, at: seq<Interval>, r: nat, a: nat, b: nat): (o: Outcome<seq<Interval>>)
    requires r < |at| && a < |at| && b < |at|
    ensures o.Alive? ==> |o.value| == |at|
  {
    match k case Sum => NarrowSum(at, r, a, b) case Difference => NarrowDifference(at, r, a, b)
  }

  /** What the first operand is intersected with, and then the second one. */
  function LeftPart(k: Kind, r: Interval, v: Interval): Outcome<Interval> {
    if k.Sum? then Minus(r, v) else Plus(r, v)
  }

  function RightPart(k: Kind, r: Interval, u: Interval): Outcome<Interval> {
    if k.Sum? then Minus(r, u) else Minus(u, r)
  }

  lemma PartsHold(k: Kind, r: Interval, u: Interval, v: Interval, x: int, y: int)
    requires u.Has(x) && v.Has(y) && r.Has(k.Result(x, y))
    ensures LeftPart(k, r, v).Alive? && LeftPart(k, r, v).value.Has(x)
    ensures RightPart(k, r, u).Alive? && RightPart(k, r, u).value.Has(y)
  {
    MinusSound(r, v, k.Result(x, y), y);
    PlusSound(r, v, k.Result(x, y), y);
    MinusSound(r, u, k.Result(x, y), x);
    MinusSound(u, r, x, k.Result(x, y));
  }

  /** The intersections keep every solution, and the infinities that the result shares with the forward result. */
  lemma NarrowKeeps(k: Kind, at: seq<Interval>, r: nat, a: nat, b: nat, x: int, y: int) returns (at': seq<Interval>)
    requires Trio(at, r, a, b) && Holds(at, a, b, x, y) && at[r].Has(k.Result(x, y))
    ensures Narrow(k, at, r, a, b) == Alive(at')
    ensures Holds(at', a, b, x, y) && NarrowsTo(at, at', a, b)
    ensures LeftPart(k, at[r], at[b]).Alive? && at'[a] == Meet(at[a], LeftPart(k, at[r], at[b]).value)
    ensures k.Forward(at[a], at[b]).Alive? && k.Forward(at'[a], at'[b]).Alive?
    ensures SharesInfinity(at[r], k.Forward(at'[a], at'[b]).value)
       <==> SharesInfinity(at[r], k.Forward(at[a], at[b]).value)
  {
    hide SharesInfinity, Meet, Plus, Minus;
    var r', u, v := at[r], at[a], at[b];
    PartsHold(k, r', u, v, x, y);
    IntersectKeeps(at, a, LeftPart(k, r', v).value, x);
    var u1 := Meet(u, LeftPart(k, r', v).value);
    PartsHold(k, r', u1, v, x, y);
    IntersectKeeps(at[a := u1], b, RightPart(k, r', u1).value, y);
    var v1 := Meet(v, RightPart(k, r', u1).value);
    at' := at[a := u1][b := v1];
    if k.Sum? {
      SumInfinity(r', u, v, u1, v1, x, y);
    } else {
      DifferenceInfinity(r', u, v, u1, v1, x, y);
    }
  }

  /** What the whole of `bop_add` or `bop_sub` needs for its solutions: what the intersections leave can be split. */
  predicate SumFits(k: Kind, at: seq<Interval>, r: nat, a: nat, b: nat)
    requires Trio(at, r, a, b)
  {
    var o := Narrow(k, at, r, a, b);
    o.Alive? && SplitFits(k, at[r], o.value[a], o.value[b])
  }

  /** A condition on the bounds alone for that: result and forward result share no infinity, and the bounds from
      which the second operand is corrected are finite, or too far from infinity. */
  predicate Addable(k: Kind, r: Interval, u: Interval, v: Interval) {
    && k.Forward(u, v).Alive? && !SharesInfinity(r, k.Forward(u, v).value)
    && (if k.Sum? then
          (v.high < MAX || r.high - u.low < MAX) && (-MAX < v.low || MIN < r.low - u.high)
        else
          (-MAX < v.low || MIN < u.low - r.high) && (v.high < MAX || u.high - r.low < MAX))
  }

  /** The bounds that narrowing leaves of the first operand, against those of the result and the second operand. */
  lemma LeftBounds(k: Kind, r: Interval, u: Interval, v: Interval, u1: Interval, x: int, y: int)
    requires u.Has(x) && v.Has(y) && r.Has(k.Result(x, y)) && u1.Has(x)
    requires LeftPart(k, r, v).Alive? && u1 == Meet(u, LeftPart(k, r, v).value)
    ensures u1.Within(u)
    ensures k.Sum? && v.high < MAX && Finite(u1.low) ==> r.low - u1.low < MAX
    ensures k.Sum? && -MAX < v.low && Finite(u1.high) ==> MIN < r.high - u1.high
    ensures k.Difference? && -MAX < v.low && Finite(u1.low) ==> MIN < u1.low - r.low
    ensures k.Difference? && v.high < MAX && Finite(u1.high) ==> u1.high - r.high < MAX
  {
  }

  /** The first operand, once narrowed, keeps the corrections of the second one from saturating. */
  lemma NarrowedFits(k: Kind, r: Interval, u: Interval, v: Interval, u1: Interval, v1: Interval, x: int, y: int)
    requires u.Has(x) && v.Has(y) && r.Has(k.Result(x, y)) && Addable(k, r, u, v)
    requires LeftPart(k, r, v).Alive? && u1 == Meet(u, LeftPart(k, r, v).value)
    requires u1.Has(x) && v1.Has(y) && Gaps(k, r, u1, v1).Alive?
    ensures SplitFits(k, r, u1, v1)
  {
    GapsStart(k, r, u1, v1);
    LeftBounds(k, r, u, v, u1, x, y);
    hide Gaps, Meet, Plus, Minus, SharesInfinity;
  }

  lemma GapsAlive(k: Kind, r: Interval, u: Interval, v: Interval, x: int, y: int)
    requires u.Has(x) && v.Has(y) && r.Has(k.Result(x, y)) && k.Forward(u, v).Alive?
    ensures Gaps(k, r, u, v).Alive? <==> !SharesInfinity(r, k.Forward(u, v).value)
  {
  }

  lemma AddableFits(k: Kind, at: seq<Interval>, r: nat, a: nat, b: nat, x: int, y: int)
    requires Trio(at, r, a, b) && Holds(at, a, b, x, y) && at[r].Has(k.Result(x, y))
    requires Addable(k, at[r], at[a], at[b])
    ensures SumFits(k, at, r, a, b)
  {
    hide SharesInfinity, SplitFits, Gaps, Meet, Narrow;
    var at1 := NarrowKeeps(k, at, r, a, b, x, y);
    GapsAlive(k, at[r], at1[a], at1[b], x, y);
    NarrowedFits(k, at[r], at[a], at[b], at1[a], at1[b], x, y);
  }

  /** Narrower intervals are still addable. */
  lemma AddableNarrowed(k: Kind, r: Interval, u: Interval, v: Interval, r': Interval, u': Interval, v': Interval,
                        x: int, y: int)
    requires Addable(k, r, u, v) && r'.Within(r) && u'.Within(u) && v'.Within(v) && u'.Has(x) && v'.Has(y)
    ensures Addable(k, r', u', v')
  {
    SumMonotone(u', v', u, v, x, y);
    hide Bounds.Add;
  }

  /** `bop_add` and `bop_sub` keep every pair that agrees with the result, where what the intersections leave fits. */
  lemma SumKeeps(k: Kind, op: Op, at: seq<Interval>, r: nat, a: nat, b: nat, x: int, y: int)
    returns (p: seq<nat>, at': seq<Interval>)
    requires (k.Sum? && op.Add?) || (k.Difference? && op.Sub?)
    requires Trio(at, r, a, b) && Holds(at, a, b, x, y) && at[r].Has(k.Result(x, y)) && SumFits(k, at, r, a, b)
    ensures BackLeads(op, at, r, a, b, p, at')
    ensures Holds(at', a, b, x, y) && NarrowsTo(at, at', a, b)
  {
    hide SplitFits, Meet;
    var at1 := NarrowKeeps(k, at, r, a, b, x, y);
    p, at' := SplitKeeps(k, at1, r, a, b, x, y);
    NarrowsTrans(at, at1, at', a, b);
    forall rest: seq<nat> ensures Back(op, World(at, p + rest), r, a, b) == Alive(World(at', rest)) {
      assert k.Split(World(at1, p + rest), r, a, b) == Alive(World(at', rest));
    }
  }

  // ----- products

  /** Dividing a product by one factor gives the other. */
  lemma ExactQuotient(x: int, y: int)
    requires x != 0
    ensures TruncDiv(x * y, x) == y
  {
    var m, n := if x > 0 then x else -x, if y >= 0 then y else -y;
    assert m * n == if (x > 0) == (y >= 0) then x * y else -(x * y);
    ProductSign(m, n);
    assert (n + 1) * m == n * m + m;
    DivUnique(m * n, m, n);
    TruncDivNegate(x * y, m);
    TruncDivSign(x * y, m);
  }

  /** What the whole of `bop_mul` needs for a solution.  An infinite operand only narrows the left one, by division;
      finite ones narrow the right one by division and are then split. */
  ghost predicate MulFits(r: Interval, u: Interval, v: Interval, x: int, y: int) {
    if u.IsFinite() && v.IsFinite() then
      !u.Includes(0) && Over(r, u).Alive? && SignedProducts.Kept(r, u, Meet(v, Over(r, u).value), x, y)
    else
      !v.Includes(0) && (r.IsFinite() || v.IsFinite())
  }

  lemma QuotientKeeps(r: Interval, u: Interval, v: Interval, x: int, y: int)
    requires u.Has(x) && v.Has(y) && r.Has(x * y) && !u.Includes(0) && (r.IsFinite() || u.IsFinite())
    ensures Over(r, u).Alive? && Over(r, u).value.Has(y)
    ensures Meet(v, Over(r, u).value).Has(y) && Meet(v, Over(r, u).value).Within(v)
  {
    hide Over;
    OverSound(r, u, x * y, x);
    ExactQuotient(x, y);
  }

  /** `bop_mul` keeps every pair with its product in the result, where it fits. */
  lemma MulKeeps(at: seq<Interval>, r: nat, a: nat, b: nat, x: int, y: int)
    returns (p: seq<nat>, at': seq<Interval>)
    requires Trio(at, r, a, b) && Holds(at, a, b, x, y) && at[r].Has(x * y) && MulFits(at[r], at[a], at[b], x, y)
    ensures BackLeads(Mul, at, r, a, b, p, at')
    ensures Holds(at', a, b, x, y) && NarrowsTo(at, at', a, b)
  {
    hide Over, SplitProduct, SignedProducts.Kept;
    var res, u, v := at[r], at[a], at[b];
    if u.IsFinite() && v.IsFinite() {
      QuotientKeeps(res, u, v, x, y);
      var i := Over(res, u).value;
      IntersectKeeps(at, b, i, y);
      var at1 := at[b := Meet(v, i)];
      p, at' := SignedProducts.SplitKeeps(at1, r, a, b, x, y);
      NarrowsTrans(at, at1, at', a, b);
      forall rest: seq<nat> ensures Back(Mul, World(at, p + rest), r, a, b) == Alive(World(at', rest)) {
        assert SplitProduct(World(at1, p + rest), r, a, b) == Alive(World(at', rest));
      }
    } else {
      assert x * y == y * x;
      QuotientKeeps(res, v, u, y, x);
      IntersectKeeps(at, a, Over(res, v).value, x);
      p, at' := [], at[a := Meet(u, Over(res, v).value)];
      assert forall rest: seq<nat> :: [] + rest == rest;
    }
  }

  // ----- comparisons

  lemma KnownForm(i: Interval, b: bool)
    ensures Known(i, b) <==> i == Constant(BoolValue(b))
  {
  }

  /** A result and two different operands, whose ends may be infinite. */
  predicate Compared(at: seq<Interval>, r: nat, a: nat, b: nat) {
    r < |at| && r != a && r != b && Twin(at, a, b)
  }

  /** Two nodes of which `a` is known to be the greater, or not the lesser one. */
  function InOrder(at: seq<Interval>, a: nat, b: nat, strict: bool): (at': seq<Interval>)
    requires a < |at| && b < |at|
    ensures |at'| == |at|
  {
    if Twin(at, a, b) then Parts(at, a, b, strict) else at
  }

  /** Two nodes known to be equal. */
  function Alike(at: seq<Interval>, a: nat, b: nat): (at': seq<Interval>)
    requires a < |at| && b < |at|
    ensures |at'| == |at|
  {
    at[a := Meet(at[a], at[b])][b := Meet(at[a], at[b])]
  }

  /** What a comparison with a known outcome leaves of its operands, before anything is split. */
  function Settle(op: Op, at: seq<Interval>, a: nat, b: nat, outcome: bool): (at': seq<Interval>)
    requires a < |at| && b < |at|
    ensures |at'| == |at|
  {
    match op
    case Slt => if outcome then InOrder(at, b, a, true) else InOrder(at, a, b, false)
    case Sgt => if outcome then InOrder(at, a, b, true) else InOrder(at, b, a, false)
    case Sle => if outcome then InOrder(at, b, a, false) else InOrder(at, a, b, true)
    case Sge => if outcome then InOrder(at, a, b, false) else InOrder(at, b, a, true)
    case Eq => if outcome then Alike(at, a, b) else at
    case Ne => if outcome then at else Alike(at, a, b)
    case _ => at
  }

  lemma InOrderMonotone(at: seq<Interval>, ranges: seq<Interval>, a: nat, b: nat, strict: bool, x: int, y: int)
    requires Shrinks(ranges, at) && Holds(at, a, b, x, y)
    ensures Shrinks(InOrder(ranges, a, b, strict), InOrder(at, a, b, strict))
  {
    assert at[a].Within(ranges[a]) && at[b].Within(ranges[b]);
  }

  lemma AlikeMonotone(at: seq<Interval>, ranges: seq<Interval>, a: nat, b: nat, x: int, y: int)
    requires Shrinks(ranges, at) && Holds(at, a, b, x, y)
    ensures Shrinks(Alike(ranges, a, b), Alike(at, a, b))
  {
    assert at[a].Within(ranges[a]) && at[b].Within(ranges[b]);
  }

  /** Narrower operands are settled more narrowly. */
  lemma SettleMonotone(op: Op, at: seq<Interval>, ranges: seq<Interval>, a: nat, b: nat, outcome: bool, x: int, y: int)
    requires Shrinks(ranges, at) && Holds(at, a, b, x, y)
    ensures Shrinks(Settle(op, ranges, a, b, outcome), Settle(op, at, a, b, outcome))
  {
    hide InOrder, Alike;
    InOrderMonotone(at, ranges, a, b, true, x, y);
    InOrderMonotone(at, ranges, a, b, false, x, y);
    InOrderMonotone(at, ranges, b, a, true, y, x);
    InOrderMonotone(at, ranges, b, a, false, y, x);
    AlikeMonotone(at, ranges, a, b, x, y);
  }

  // ----- any operation

  predicate Compares(op: Op) {
    !op.Add? && !op.Sub? && !op.Mul?
  }

  /** What an order of two operands needs when it is known. */
  predicate OrderFits(at: seq<Interval>, r: nat, a: nat, b: nat, negated: bool, x: int, y: int)
    requires Compared(at, r, a, b)
  {
    && (Known(at[r], !negated) ==> GreaterLeft(at, a, b, true, x, y))
    && (Known(at[r], negated) ==> GreaterLeft(at, b, a, false, y, x))
  }

  predicate EqualityFits(at: seq<Interval>, r: nat, a: nat, b: nat, negated: bool, x: int, y: int)
    requires Compared(at, r, a, b)
  {
    && (Known(at[r], !negated) ==> EqualKept(Meet(at[a], at[b]), x, y))
    && (Known(at[r], negated) ==> DifferentLeft(at, a, b, x, y))
  }

  lemma OrderKeeps(at: seq<Interval>, r: nat, a: nat, b: nat, negated: bool, x: int, y: int)
    returns (p: seq<nat>, at': seq<Interval>)
    requires Compared(at, r, a, b) && Holds(at, a, b, x, y) && OrderFits(at, r, a, b, negated, x, y)
    ensures forall rest: seq<nat> :: BackOrder(World(at, p + rest), r, a, b, negated) == Alive(World(at', rest))
    ensures Holds(at', a, b, x, y) && NarrowsTo(at, at', a, b)
    ensures at[r] == Constant(BoolValue(!negated)) ==> NarrowsTo(InOrder(at, a, b, true), at', a, b)
    ensures at[r] == Constant(BoolValue(negated)) ==> NarrowsTo(InOrder(at, b, a, false), at', b, a)
  {
    hide GreaterLeft, BackGreater;
    KnownForm(at[r], true);
    KnownForm(at[r], false);
    if Known(at[r], !negated) {
      p, at' := GreaterKeeps(at, a, b, true, x, y);
    } else if Known(at[r], negated) {
      p, at' := GreaterKeeps(at, b, a, false, y, x);
    } else {
      p, at' := [], at;
      assert forall rest: seq<nat> :: [] + rest == rest;
    }
  }

  lemma EqualityKeeps(at: seq<Interval>, r: nat, a: nat, b: nat, negated: bool, x: int, y: int)
    returns (p: seq<nat>, at': seq<Interval>)
    requires Compared(at, r, a, b) && Holds(at, a, b, x, y) && EqualityFits(at, r, a, b, negated, x, y)
    ensures forall rest: seq<nat> :: BackEquality(World(at, p + rest), r, a, b, negated) == Alive(World(at', rest))
    ensures Holds(at', a, b, x, y) && NarrowsTo(at, at', a, b)
    ensures at[r] == Constant(BoolValue(!negated)) ==> NarrowsTo(Alike(at, a, b), at', a, b)
  {
    hide DifferentLeft, BackDifferent, BackEqual;
    KnownForm(at[r], true);
    KnownForm(at[r], false);
    if Known(at[r], !negated) {
      p, at' := EqualKeeps(at, a, b, x, y);
    } else if Known(at[r], negated) {
      p, at' := DifferentKeeps(at, a, b, x, y);
    } else {
      p, at' := [], at;
      assert forall rest: seq<nat> :: [] + rest == rest;
    }
  }

  /** What a backward operation needs to keep a pair of operand values. */
  ghost predicate Fits(op: Op, at: seq<Interval>, r: nat, a: nat, b: nat, x: int, y: int)
    requires Compared(at, r, a, b)
  {
    match op
    case Add => SumFits(Sum, at, r, a, b)
    case Sub => SumFits(Difference, at, r, a, b)
    case Mul => MulFits(at[r], at[a], at[b], x, y)
    case Eq => EqualityFits(at, r, a, b, false, x, y)
    case Ne => EqualityFits(at, r, a, b, true, x, y)
    case Slt => OrderFits(at, r, b, a, false, y, x)
    case Sgt => OrderFits(at, r, a, b, false, x, y)
    case Sle => OrderFits(at, r, a, b, true, x, y)
    case Sge => OrderFits(at, r, b, a, true, y, x)
  }

  /** Operand values that explain the result's value survive some answers of its backward operation, where it fits. */
  lemma BackKeeps(op: Op, at: seq<Interval>, r: nat, a: nat, b: nat, x: int, y: int)
    returns (p: seq<nat>, at': seq<Interval>)
    requires Compared(at, r, a, b) && Holds(at, a, b, x, y) && at[r].Has(Eval(op, x, y)) && Fits(op, at, r, a, b, x, y)
    ensures BackLeads(op, at, r, a, b, p, at')
    ensures Holds(at', a, b, x, y) && NarrowsTo(at, at', a, b)
    ensures forall outcome :: at[r] == Constant(BoolValue(outcome)) ==> Shrinks(Settle(op, at, a, b, outcome), at')
  {
    hide SumFits, MulFits, OrderFits, EqualityFits, InOrder, Alike;
    match op
    case Add => p, at' := SumKeeps(Sum, op, at, r, a, b, x, y);
    case Sub => p, at' := SumKeeps(Difference, op, at, r, a, b, x, y);
    case Mul => p, at' := MulKeeps(at, r, a, b, x, y);
    case Eq => p, at' := EqualityKeeps(at, r, a, b, false, x, y);
    case Ne => p, at' := EqualityKeeps(at, r, a, b, true, x, y);
    case Slt => p, at' := OrderKeeps(at, r, b, a, false, y, x);
    case Sgt => p, at' := OrderKeeps(at, r, a, b, false, x, y);
    case Sle => p, at' := OrderKeeps(at, r, a, b, true, x, y);
    case Sge => p, at' := OrderKeeps(at, r, b, a, true, y, x);
  }
}
