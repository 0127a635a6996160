/** Assumptions pushed down a history lose no solution. */
module Propagation {
  import opened Outcomes
  import opened Bounds
  import opened Intervals
  import opened Backward
  import opened Splits
  import opened Orders
  import opened Products
  import opened History
  import opened Keeping
  import SignedProducts

  /** Below this a left factor has fewer than 2^31 starts when a correction is small enough to be split. */
  const FACTOR_LIMIT := 0x8000_0000 - CHOOSE_BOUND

  // ----- conditions on the bounds alone

  /** Fewer than 2^63 values are shared, and not both intervals are unbounded below. */
  predicate FewShared(u: Interval, v: Interval) {
    MIN < Max(u.low, v.low) && Min(u.high, v.high) - Max(u.low, v.low) + 1 <= MAX
  }

  /** Positive factors with a finite product, and few starts: the left factor is below the limit, or the right one is
      a constant. */
  predicate Multipliable(r: Interval, u: Interval, v: Interval) {
    0 < r.low && r.high < MAX && 0 < u.low && 0 < v.low && (u.high < FACTOR_LIMIT || v.IsConstant())
  }

  lemma {:induction false} FewStarts(r: Interval, u: Interval, v: Interval, x: int, y: int)
    requires Positive(r) && Positive(u) && Positive(v) && u.Has(x) && v.Has(y) && x * y >= r.low
    requires u.high < FACTOR_LIMIT
    ensures DeepEnough(r, u, v, x)
  {
    if SmallDefect(r, u, v) {
      var c := u.low + CHOOSE_BOUND;
      MulMonoRight(CHOOSE_BOUND, 1, v.low);
      assert c * v.low == u.low * v.low + CHOOSE_BOUND * v.low;
      CeilLeast(r.low, v.low, c);
      CountReaches(r, u, v, x, y);
    }
  }

  /** With positive factors the starts reach far enough, or no start is needed. */
  lemma PositiveKept(r: Interval, u: Interval, v: Interval, x: int, y: int)
    requires Positive(r) && Positive(u) && Positive(v) && u.Has(x) && v.Has(y) && r.Has(x * y)
    ensures DeepEnough(r, u, v, x) <==> SignedProducts.Kept(r, u, v, x, y)
  {
    hide DeepEnough, SplitProduct, SignedProducts.Kept;
    var at := [r, u, v];
    if DeepEnough(r, u, v, x) {
      var p, at' := ProductKeeps(at, 0, 1, 2, x, y);
      assert SplitProduct(World(at, p + []), 0, 1, 2) == Alive(World(at', []));
      SignedProducts.SplitSound(World(at, p + []), 0, 1, 2, x, y);
    }
    if SignedProducts.Kept(r, u, v, x, y) {
      var p, at' := SignedProducts.SplitKeeps(at, 0, 1, 2, x, y);
      assert SplitProduct(World(at, p + []), 0, 1, 2) == Alive(World(at', []));
      var at1 := ProductSound(World(at, p + []), 0, 1, 2);
    }
  }

  lemma MultipliableFits(r: Interval, u: Interval, v: Interval, x: int, y: int)
    requires u.Has(x) && v.Has(y) && r.Has(x * y) && Multipliable(r, u, v)
    ensures MulFits(r, u, v, x, y)
  {
    if u.IsFinite() && v.IsFinite() {
      QuotientKeeps(r, u, v, x, y);
      var v1 := Meet(v, Over(r, u).value);
      if u.high < FACTOR_LIMIT {
        FewStarts(r, u, v1, x, y);
      } else {
        CountReaches(r, u, v1, x, y);
      }
      PositiveKept(r, u, v1, x, y);
    }
  }

  /** What is asked of an operation, of the ranges of its result and operands and of the values of the latter. */
  predicate Splittable(op: Op, r: Interval, u: Interval, v: Interval, x: int, y: int) {
    match op
    case Add => Addable(Sum, r, u, v)
    case Sub => Addable(Difference, r, u, v)
    case Mul => Multipliable(r, u, v)
    case Eq => FewShared(u, v) && (x != y || u.IsConstant() || v.IsConstant())
    case Ne => FewShared(u, v) && (x != y || u.IsConstant() || v.IsConstant())
    case _ => FewShared(u, v)
  }

  /** It is still met by narrower intervals. */
  lemma SplittableNarrowed(op: Op, r: Interval, u: Interval, v: Interval, r': Interval, u': Interval, v': Interval,
                           x: int, y: int)
    requires Splittable(op, r, u, v, x, y) && r'.Within(r) && u'.Within(u) && v'.Within(v)
    requires u'.Has(x) && v'.Has(y) && r'.Has(Eval(op, x, y))
    ensures Splittable(op, r', u', v', x, y)
  {
    hide Addable;
    match op
    case Add => AddableNarrowed(Sum, r, u, v, r', u', v', x, y);
    case Sub => AddableNarrowed(Difference, r, u, v, r', u', v', x, y);
    case _ =>
  }

  lemma SharedLeft(at: seq<Interval>, a: nat, b: nat, strict: bool, x: int, y: int)
    requires Twin(at, a, b) && Holds(at, a, b, x, y) && FewShared(at[a], at[b])
    ensures Above(strict, x, y) ==> GreaterLeft(at, a, b, strict, x, y)
  {
    CommonComparable(at, a, b, strict);
    if Above(strict, x, y) {
      OrderedLeft(at, a, b, strict, x, y);
    }
  }

  /** An order with a known outcome that its operands meet. */
  lemma OrderShared(at: seq<Interval>, r: nat, a: nat, b: nat, negated: bool, x: int, y: int)
    requires Compared(at, r, a, b) && Holds(at, a, b, x, y) && FewShared(at[a], at[b])
    requires at[r].Has(BoolValue(if negated then x <= y else x > y))
    ensures OrderFits(at, r, a, b, negated, x, y)
  {
    hide GreaterLeft;
    KnownForm(at[r], true);
    KnownForm(at[r], false);
    SharedLeft(at, a, b, true, x, y);
    SharedLeft(at, b, a, false, y, x);
  }

  lemma EqualityShared(at: seq<Interval>, r: nat, a: nat, b: nat, negated: bool, x: int, y: int)
    requires Compared(at, r, a, b) && Holds(at, a, b, x, y) && FewShared(at[a], at[b])
    requires x != y || at[a].IsConstant() || at[b].IsConstant()
    requires at[r].Has(BoolValue((x == y) != negated))
    ensures EqualityFits(at, r, a, b, negated, x, y)
  {
    hide DifferentLeft;
    KnownForm(at[r], true);
    KnownForm(at[r], false);
    if x != y {
      UnequalLeft(at, a, b, x, y);
    }
  }

  /** What is asked of the ranges is enough for the operation. */
  lemma SplittableFits(op: Op, at: seq<Interval>, r: nat, a: nat, b: nat, x: int, y: int)
    requires Compared(at, r, a, b) && Holds(at, a, b, x, y) && at[r].Has(Eval(op, x, y))
    requires Splittable(op, at[r], at[a], at[b], x, y)
    ensures Fits(op, at, r, a, b, x, y)
  {
    hide SumFits, MulFits, OrderFits, EqualityFits, Addable, Multipliable;
    match op
    case Add => AddableFits(Sum, at, r, a, b, x, y);
    case Sub => AddableFits(Difference, at, r, a, b, x, y);
    case Mul => MultipliableFits(at[r], at[a], at[b], x, y);
    case Eq => EqualityShared(at, r, a, b, false, x, y);
    case Ne => EqualityShared(at, r, a, b, true, x, y);
    case Slt => OrderShared(at, r, b, a, false, y, x);
    case Sgt => OrderShared(at, r, a, b, false, x, y);
    case Sle => OrderShared(at, r, a, b, true, x, y);
    case Sge => OrderShared(at, r, b, a, true, y, x);
  }

  // ----- the whole history

  /** An interval operation, or everything when it has no outcome. */
  function OrTop(o: Outcome<Interval>): Interval {
    if o.Alive? then o.value else TOP
  }

  /** The range of an operation's results, for operands in these ranges: what it yields before anything is assumed. */
  function RangeOf(op: Op, u: Interval, v: Interval): Interval {
    match op
    case Add => OrTop(Plus(u, v))
    case Sub => OrTop(Minus(u, v))
    case Mul => Times(u, v)
    case _ => Interval(0, 1)
  }

  /** Values that an interval can stand for. */
  predicate Representable(v: seq<int>) {
    forall n :: 0 <= n < |v| ==> -MAX < v[n] < MAX
  }

  /** Values that a concrete execution gives the nodes, none of which overflows. */
  predicate Execution(g: seq<Shape>, v: seq<int>)
    requires WellFormed(g)
  {
    && |v| == |g|
    && (forall n :: 0 <= n < |g| && g[n].Binary? ==> v[n] == Eval(g[n].op, v[g[n].left], v[g[n].right]))
    && Representable(v)
  }

  /** What a node itself asks of the ranges and values of its operands, which are different nodes. */
  predicate OwnSeparable(g: seq<Shape>, ranges: seq<Interval>, v: seq<int>, n: nat)
    requires WellFormed(g) && |ranges| == |g| == |v| && n < |g| && g[n].Binary?
  {
    var left, right := g[n].left, g[n].right;
    left != right && Splittable(g[n].op, ranges[n], ranges[left], ranges[right], v[left], v[right])
  }

  /** What propagation from node `n` asks, at every node it reaches. */
  predicate Separable(g: seq<Shape>, ranges: seq<Interval>, v: seq<int>, n: nat)
    requires WellFormed(g) && |ranges| == |g| == |v| && n < |g|
    decreases n
  {
    match g[n]
    case Leaf => true
    case Binary(op, left, right) =>
      OwnSeparable(g, ranges, v, n) && Separable(g, ranges, v, left) && Separable(g, ranges, v, right)
  }

  /** Every node's interval holds its value and lies in its range. */
  predicate Tracks(at: seq<Interval>, ranges: seq<Interval>, v: seq<int>) {
    && |at| == |ranges| == |v|
    && (forall n :: 0 <= n < |v| ==> at[n].Has(v[n]))
    && (forall n :: 0 <= n < |v| ==> at[n].Within(ranges[n]))
  }

  lemma TracksNarrowed(at: seq<Interval>, at': seq<Interval>, a: nat, b: nat, ranges: seq<Interval>, v: seq<int>)
    requires Tracks(at, ranges, v) && NarrowsTo(at, at', a, b) && a < |v| && b < |v| && Holds(at', a, b, v[a], v[b])
    ensures Tracks(at', ranges, v)
  {
    forall n | 0 <= n < |v|
      ensures at'[n].Has(v[n]) && at'[n].Within(ranges[n])
    {
      assert at'[n].Within(at[n]);
    }
  }

  ghost predicate PropagateLeads(g: seq<Shape>, at: seq<Interval>, n: nat, p: seq<nat>, at': seq<Interval>)
    requires WellFormed(g) && |at| == |g| && n < |g|
  {
    forall rest: seq<nat> :: Propagate(g, World(at, p + rest), n) == Alive(World(at', rest))
  }

  lemma NodeFits(g: seq<Shape>, ranges: seq<Interval>, at: seq<Interval>, v: seq<int>, n: nat)
    requires WellFormed(g) && Execution(g, v) && Tracks(at, ranges, v) && n < |g| && g[n].Binary?
    requires OwnSeparable(g, ranges, v, n)
    ensures Compared(at, n, g[n].left, g[n].right)
    ensures Fits(g[n].op, at, n, g[n].left, g[n].right, v[g[n].left], v[g[n].right])
  {
    hide Splittable, Fits;
    var op, left, right := g[n].op, g[n].left, g[n].right;
    assert at[n].Has(v[n]) && at[left].Has(v[left]) && at[right].Has(v[right]);
    assert at[n].Within(ranges[n]) && at[left].Within(ranges[left]) && at[right].Within(ranges[right]);
    SplittableNarrowed(op, ranges[n], ranges[left], ranges[right], at[n], at[left], at[right], v[left], v[right]);
    SplittableFits(op, at, n, left, right, v[left], v[right]);
  }

  /** What is asked below a node is still met when the ranges become narrower. */
  lemma {:induction false} SeparableNarrowed(g: seq<Shape>, ranges: seq<Interval>, ranges': seq<Interval>, v: seq<int>,
                                             n: nat)
    requires WellFormed(g) && Execution(g, v) && |ranges| == |g| && n < |g| && Separable(g, ranges, v, n)
    requires Shrinks(ranges, ranges') && forall k :: 0 <= k < |v| ==> ranges'[k].Has(v[k])
    ensures Separable(g, ranges', v, n)
    decreases n
  {
    hide Splittable;
    match g[n]
    case Leaf =>
    case Binary(op, left, right) =>
      assert ranges'[n].Within(ranges[n]) && ranges'[n].Has(v[n]);
      assert ranges'[left].Within(ranges[left]) && ranges'[left].Has(v[left]);
      assert ranges'[right].Within(ranges[right]) && ranges'[right].Has(v[right]);
      SplittableNarrowed(op, ranges[n], ranges[left], ranges[right], ranges'[n], ranges'[left], ranges'[right],
                         v[left], v[right]);
      SeparableNarrowed(g, ranges, ranges', v, left);
      SeparableNarrowed(g, ranges, ranges', v, right);
  }

  lemma PropagateChain(g: seq<Shape>, at: seq<Interval>, at1: seq<Interval>, at2: seq<Interval>, at3: seq<Interval>,
                       n: nat, p1: seq<nat>, p2: seq<nat>, p3: seq<nat>, rest: seq<nat>)
    requires WellFormed(g) && |at| == |at1| == |at2| == |at3| == |g| && n < |g| && g[n].Binary?
    requires BackLeads(g[n].op, at, n, g[n].left, g[n].right, p1, at1)
    requires PropagateLeads(g, at1, g[n].left, p2, at2)
    requires PropagateLeads(g, at2, g[n].right, p3, at3)
    ensures Propagate(g, World(at, p1 + p2 + p3 + rest), n) == Alive(World(at3, rest))
  {
    hide Back, Propagate, BackLeads;
    Regroup(p1, p2, p3, rest);
    BackLed(g[n].op, at, n, g[n].left, g[n].right, p1, at1, p2 + (p3 + rest));
    assert Propagate(g, World(at1, p2 + (p3 + rest)), g[n].left) == Alive(World(at2, p3 + rest));
    assert Propagate(g, World(at2, p3 + rest), g[n].right) == Alive(World(at3, rest));
    PropagateStep(g, World(at, p1 + (p2 + (p3 + rest))), n, World(at1, p2 + (p3 + rest)), World(at2, p3 + rest),
                  World(at3, rest));
  }

  lemma Regroup(p1: seq<nat>, p2: seq<nat>, p3: seq<nat>, rest: seq<nat>)
    ensures p1 + p2 + p3 + rest == p1 + (p2 + (p3 + rest))
  {
  }

  lemma BackLed(op: Op, at: seq<Interval>, n: nat, a: nat, b: nat, p: seq<nat>, at': seq<Interval>, rest: seq<nat>)
    requires n < |at| && a < |at| && b < |at| && BackLeads(op, at, n, a, b, p, at')
    ensures Back(op, World(at, p + rest), n, a, b) == Alive(World(at', rest))
  {
    hide Back;
  }

  /** One node's own narrowing, then that of its operands, first the left one. */
  lemma PropagateStep(g: seq<Shape>, w: World, n: nat, w1: World, w2: World, w3: World)
    requires WellFormed(g) && |w.at| == |w1.at| == |w2.at| == |w3.at| == |g| && n < |g| && g[n].Binary?
    requires Back(g[n].op, w, n, g[n].left, g[n].right) == Alive(w1)
    requires Propagate(g, w1, g[n].left) == Alive(w2) && Propagate(g, w2, g[n].right) == Alive(w3)
    ensures Propagate(g, w, n) == Alive(w3)
  {
    hide Back;
  }

  /** Propagation loses no execution: with some answers it runs to its end, and every node still
      holds its value. */
  lemma {:induction false} PropagateKeeps(g: seq<Shape>, ranges: seq<Interval>, at: seq<Interval>, v: seq<int>, n: nat)
    returns (p: seq<nat>, at': seq<Interval>)
    requires WellFormed(g) && Execution(g, v) && Tracks(at, ranges, v) && n < |g| && Separable(g, ranges, v, n)
    ensures |at'| == |at| && PropagateLeads(g, at, n, p, at')
    ensures Tracks(at', ranges, v)
    decreases n
  {
    match g[n]
    case Leaf =>
      p, at' := [], at;
      assert forall rest: seq<nat> :: [] + rest == rest;
    case Binary(op, left, right) =>
      NodeFits(g, ranges, at, v, n);
      var p1, at1 := BackKeeps(op, at, n, left, right, v[left], v[right]);
      TracksNarrowed(at, at1, left, right, ranges, v);
      var p2, at2 := PropagateKeeps(g, ranges, at1, v, left);
      var p3, at3 := PropagateKeeps(g, ranges, at2, v, right);
      p, at' := p1 + p2 + p3, at3;
      forall rest: seq<nat> ensures Propagate(g, World(at, p + rest), n) == Alive(World(at', rest)) {
        PropagateChain(g, at, at1, at2, at3, n, p1, p2, p3, rest);
      }
  }

  /** The ranges with what is assumed of a node. */
  function Pinned(ranges: seq<Interval>, n: nat, expected: bool): (ranges': seq<Interval>)
    requires n < |ranges|
    ensures |ranges'| == |ranges|
  {
    ranges[n := Constant(BoolValue(expected))]
  }

  /** The ranges after an assumption: the node has the assumed value, and the operands of a comparison are ordered. */
  function Assumed(g: seq<Shape>, ranges: seq<Interval>, n: nat, expected: bool): (ranges': seq<Interval>)
    requires WellFormed(g) && |ranges| == |g| && n < |g|
    ensures |ranges'| == |ranges|
  {
    match g[n]
    case Leaf => Pinned(ranges, n, expected)
    case Binary(op, left, right) => Settle(op, Pinned(ranges, n, expected), left, right, expected)
  }

  /** What an assumption asks: of the assumed node with its value, and below it with the ranges that it leaves. */
  predicate Assumable(g: seq<Shape>, ranges: seq<Interval>, v: seq<int>, n: nat, expected: bool)
    requires WellFormed(g) && |ranges| == |g| == |v| && n < |g|
  {
    g[n].Binary? ==>
      && OwnSeparable(g, Pinned(ranges, n, expected), v, n)
      && Separable(g, Assumed(g, ranges, n, expected), v, g[n].left)
      && Separable(g, Assumed(g, ranges, n, expected), v, g[n].right)
  }

  /** What is met in the ranges before an assumption is met by it. */
  lemma SeparableAssumable(g: seq<Shape>, ranges: seq<Interval>, v: seq<int>, n: nat, expected: bool)
    requires WellFormed(g) && Execution(g, v) && |ranges| == |g| && n < |g| && Separable(g, ranges, v, n)
    requires (forall k :: 0 <= k < |v| ==> ranges[k].Has(v[k])) && v[n] == BoolValue(expected)
    ensures Assumable(g, ranges, v, n, expected)
  {
    if g[n].Binary? {
      var op, left, right := g[n].op, g[n].left, g[n].right;
      var pinned, ranges' := Pinned(ranges, n, expected), Assumed(g, ranges, n, expected);
      SplittableNarrowed(op, ranges[n], ranges[left], ranges[right], pinned[n], pinned[left], pinned[right],
                         v[left], v[right]);
      SettleHolds(g, ranges, v, n, expected);
      SeparableNarrowed(g, ranges, ranges', v, left);
      SeparableNarrowed(g, ranges, ranges', v, right);
    }
  }

  /** The ranges after an assumption are narrower and still have all values. */
  lemma SettleHolds(g: seq<Shape>, ranges: seq<Interval>, v: seq<int>, n: nat, expected: bool)
    requires WellFormed(g) && Execution(g, v) && |ranges| == |g| && n < |g| && v[n] == BoolValue(expected)
    requires forall k :: 0 <= k < |v| ==> ranges[k].Has(v[k])
    ensures Shrinks(ranges, Assumed(g, ranges, n, expected))
    ensures forall k :: 0 <= k < |v| ==> Assumed(g, ranges, n, expected)[k].Has(v[k])
  {
    assert Shrinks(ranges, Pinned(ranges, n, expected));
    if g[n].Binary? {
      var left, right := g[n].left, g[n].right;
      SettleNarrows(g[n].op, Pinned(ranges, n, expected), left, right, expected, v[left], v[right]);
    }
  }

  lemma InOrderNarrows(at: seq<Interval>, a: nat, b: nat, strict: bool, x: int, y: int)
    requires Holds(at, a, b, x, y)
    ensures Shrinks(at, InOrder(at, a, b, strict))
    ensures Above(strict, x, y) ==> Holds(InOrder(at, a, b, strict), a, b, x, y)
    ensures forall k :: 0 <= k < |at| && k != a && k != b ==> InOrder(at, a, b, strict)[k] == at[k]
  {
  }

  lemma SettleNarrows(op: Op, at: seq<Interval>, a: nat, b: nat, outcome: bool, x: int, y: int)
    requires Holds(at, a, b, x, y)
    ensures Shrinks(at, Settle(op, at, a, b, outcome))
    ensures Compares(op) && Eval(op, x, y) == BoolValue(outcome) ==> Holds(Settle(op, at, a, b, outcome), a, b, x, y)
    ensures forall k :: 0 <= k < |at| && k != a && k != b ==> Settle(op, at, a, b, outcome)[k] == at[k]
  {
    hide InOrder;
    InOrderNarrows(at, a, b, true, x, y);
    InOrderNarrows(at, a, b, false, x, y);
    InOrderNarrows(at, b, a, true, y, x);
    InOrderNarrows(at, b, a, false, y, x);
  }

  /** Narrowing by the assumption itself, at its own node. */
  lemma OwnNarrowing(g: seq<Shape>, ranges: seq<Interval>, at: seq<Interval>, v: seq<int>, n: nat, expected: bool)
    returns (p: seq<nat>, at': seq<Interval>)
    requires WellFormed(g) && Execution(g, v) && n < |g| && |ranges| == |g|
    requires Tracks(at, Pinned(ranges, n, expected), v)
    requires g[n].Binary? && at[n] == Constant(BoolValue(expected))
    requires OwnSeparable(g, Pinned(ranges, n, expected), v, n)
    ensures BackLeads(g[n].op, at, n, g[n].left, g[n].right, p, at')
    ensures Tracks(at', Assumed(g, ranges, n, expected), v)
  {
    hide Back, Settle, Fits, OwnSeparable;
    var op, left, right, pinned := g[n].op, g[n].left, g[n].right, Pinned(ranges, n, expected);
    NodeFits(g, pinned, at, v, n);
    p, at' := BackKeeps(op, at, n, left, right, v[left], v[right]);
    TracksNarrowed(at, at', left, right, pinned, v);
    SettleMonotone(op, at, pinned, left, right, expected, v[left], v[right]);
  }

  /** Assuming what is true of an execution loses nothing of it, in any node, and leaves the operands of a comparison
      within what its outcome says of their ranges. */
  lemma AssumeKeeps(g: seq<Shape>, ranges: seq<Interval>, at: seq<Interval>, v: seq<int>, n: nat, expected: bool)
    returns (p: seq<nat>, at': seq<Interval>)
    requires WellFormed(g) && Execution(g, v) && Tracks(at, ranges, v) && n < |g|
    requires Assumable(g, ranges, v, n, expected) && v[n] == BoolValue(expected)
    ensures forall rest: seq<nat> :: Assume(g, World(at, p + rest), n, expected) == Alive(World(at', rest))
    ensures Tracks(at', Assumed(g, ranges, n, expected), v)
  {
    hide OwnSeparable, Settle, Fits;
    var i := Constant(BoolValue(expected));
    IntersectKeeps(at, n, i, v[n]);
    var at0 := at[n := Meet(at[n], i)];
    assert at0[n] == i;
    TracksNarrowed(at, at0, n, n, ranges, v);
    match g[n]
    case Leaf =>
      p, at' := [], at0;
      assert forall rest: seq<nat> :: [] + rest == rest;
    case Binary(op, left, right) =>
      var ranges' := Assumed(g, ranges, n, expected);
      var p1, at1 := OwnNarrowing(g, ranges, at0, v, n, expected);
      var p2, at2 := PropagateKeeps(g, ranges', at1, v, left);
      var p3, at3 := PropagateKeeps(g, ranges', at2, v, right);
      p, at' := p1 + p2 + p3, at3;
      forall rest: seq<nat> ensures Propagate(g, World(at0, p + rest), n) == Alive(World(at', rest)) {
        PropagateChain(g, at0, at1, at2, at3, n, p1, p2, p3, rest);
      }
  }
}
