/**
 Expression histories: every abstract value remembers the values it was computed from, so that what
 is assumed about a result can be pushed down to its operands, and to theirs.
 Operands are older than results: a node's children have smaller positions.
 */
module History {
  import opened Outcomes
  import opened Bounds
  import opened Intervals
  import opened Backward

  datatype Op = Add | Sub | Mul | Eq | Ne | Slt | Sgt | Sle | Sge

  /** A value without history, or an operation on two earlier values. */
  datatype Shape = Leaf | Binary(op: Op, left: nat, right: nat)

  /** The integer meaning of an operation; comparisons yield 1 or 0. */
  function Eval(op: Op, x: int, y: int): int {
    match op
    case Add => x + y
    case Sub => x - y
    case Mul => x * y
    case Eq => BoolValue(x == y)
    case Ne => BoolValue(x != y)
    case Slt => BoolValue(x < y)
    case Sgt => BoolValue(x > y)
    case Sle => BoolValue(x <= y)
    case Sge => BoolValue(x >= y)
  }

  /** Building a value from an empty interval cancels. */
  function Inhabited(i: Interval): Outcome<Interval> {
    if i.IsBottom() then Cancelled else Alive(i)
  }

  /** The forward operation, which makes a new value. */
  function Forward(op: Op, u: Interval, v: Interval): Outcome<Interval> {
    match op
    case Add => var i :- Plus(u, v); Inhabited(i)
    case Sub => var i :- Minus(u, v); Inhabited(i)
    case Mul => Inhabited(Times(u, v))
    case Eq => Alive(OfTristate(Equal(u, v)))
    case Ne => Alive(OfTristate(Equal(u, v).Not()))
    case Slt => Alive(OfTristate(Less(u, v)))
    case Sgt => Alive(OfTristate(Greater(u, v)))
    case Sle => Alive(OfTristate(Greater(u, v).Not()))
    case Sge => Alive(OfTristate(Less(u, v).Not()))
  }

  /** The backward operation of a node `r` with operands `a` and `b`. */
  function Back(op: Op, w: World, r: nat, a: nat, b: nat): (o: Outcome<World>)
    requires r < |w.at| && a < |w.at| && b < |w.at|
    ensures o.Alive? ==> |o.value.at| == |w.at|
  {
    match op
    case Add => BackAdd(w, r, a, b)
    case Sub => BackSub(w, r, a, b)
    case Mul => BackMul(w, r, a, b)
    case Eq => BackEquality(w, r, a, b, false)
    case Ne => BackEquality(w, r, a, b, true)
    case Slt => BackOrder(w, r, b, a, false)
    case Sgt => BackOrder(w, r, a, b, false)
    case Sle => BackOrder(w, r, a, b, true)
    case Sge => BackOrder(w, r, b, a, true)
  }

  predicate WellFormed(g: seq<Shape>) {
    forall n :: 0 <= n < |g| && g[n].Binary? ==> g[n].left < n && g[n].right < n
  }

  /** Push what is known of node `n` down to its operands, then on from each of them in turn. */
  function Propagate(g: seq<Shape>, w: World, n: nat): (o: Outcome<World>)
    requires WellFormed(g) && |w.at| == |g| && n < |g|
    ensures o.Alive? ==> |o.value.at| == |g|
    decreases n
  {
    match g[n]
    case Leaf => Alive(w)
    case Binary(op, left, right) =>
      var w :- Back(op, w, n, left, right);
      var w :- Propagate(g, w, left);
      Propagate(g, w, right)
  }

  function Assume(g: seq<Shape>, w: World, n: nat, expected: bool): (o: Outcome<World>)
    requires WellFormed(g) && |w.at| == |g| && n < |g|
    ensures o.Alive? ==> |o.value.at| == |g|
  {
    var at :- Intersect(w.at, n, Constant(BoolValue(expected)));
    Propagate(g, w.(at := at), n)
  }
}
