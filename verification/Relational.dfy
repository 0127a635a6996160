/**
 The relational interval domain as the program runs it: values are objects that share their operands,
 and backward operations narrow the operands in place.  Every method is proved to do to the objects
 exactly what the functions of `Backward` and `History` say; a false result means that the branch
 was cancelled.
 */
module Relational {
  import opened Outcomes
  import opened Bounds
  import opened Intervals
  import Backward
  import opened History
  import Runs

  type World = Backward.World

  /** An abstract value with its history. */
  class Node {
    const id: nat
    const op: Option<Op>
    const children: seq<Node>
    var low: Int64
    var high: Int64

    constructor (id: nat, op: Option<Op>, children: seq<Node>, i: Interval)
      ensures this.id == id && this.op == op && this.children == children
      ensures Value() == i
    {
      this.id, this.op, this.children := id, op, children;
      this.low, this.high := i.low, i.high;
    }

    function Value(): Interval
      reads this
    {
      Interval(low, high)
    }
  }

  /** Every value is at its own position, and its operands are older. */
  ghost predicate Linked(nodes: seq<Node>) {
    forall i :: 0 <= i < |nodes| ==>
      && nodes[i].id == i
      && (nodes[i].op.None? ==> nodes[i].children == [])
      && (nodes[i].op.Some? ==> |nodes[i].children| == 2)
      && (forall k :: 0 <= k < |nodes[i].children| ==> IsOlder(nodes, nodes[i].children[k], i))
  }

  ghost predicate IsOlder(nodes: seq<Node>, n: Node, i: nat)
    requires i < |nodes|
  {
    n.id < i && nodes[n.id] == n
  }

  ghost function ShapeOf(n: Node): Shape
    requires n.op.Some? ==> |n.children| == 2
  {
    match n.op
    case None => Leaf
    case Some(op) => Binary(op, n.children[0].id, n.children[1].id)
  }

  ghost function ShapesOf(nodes: seq<Node>): (g: seq<Shape>)
    requires Linked(nodes)
    ensures |g| == |nodes| && WellFormed(g)
  {
    seq(|nodes|, i requires 0 <= i < |nodes| => ShapeOf(nodes[i]))
  }

  ghost function ValuesOf(nodes: seq<Node>): (at: seq<Interval>)
    reads nodes
    ensures |at| == |nodes| && forall i :: 0 <= i < |nodes| ==> at[i] == nodes[i].Value()
  {
    seq(|nodes|, i requires 0 <= i < |nodes| reads nodes => nodes[i].Value())
  }

  /** All values made so far, oldest first, and the environment's answers to come. */
  class Domain {
    var nodes: seq<Node>
    var answers: seq<nat>

    constructor (answers: seq<nat>)
      ensures Valid() && nodes == [] && World() == Backward.World([], answers)
    {
      nodes := [];
      this.answers := answers;
    }

    ghost predicate Valid()
      reads this`nodes
    {
      Linked(nodes)
    }

    predicate Owns(n: Node)
      reads this`nodes
    {
      n.id < |nodes| && nodes[n.id] == n
    }

    ghost function Shapes(): seq<Shape>
      requires Valid()
      reads this`nodes
    {
      ShapesOf(nodes)
    }

    ghost function At(): seq<Interval>
      reads this`nodes, nodes
    {
      ValuesOf(nodes)
    }

    ghost function World(): World
      reads this, nodes
    {
      Backward.World(At(), answers)
    }

    ghost function Session(): Runs.Session
      requires Valid()
      reads this, nodes
    {
      Runs.Session(Shapes(), World())
    }

    // ----- in-place narrowing

    method SetLow(a: Node, v: Int64)
      requires Valid() && Owns(a)
      modifies a
      ensures At() == old(At())[a.id := old(a.Value()).(low := v)]
    {
      a.low := v;
    }

    method SetHigh(a: Node, v: Int64)
      requires Valid() && Owns(a)
      modifies a
      ensures At() == old(At())[a.id := old(a.Value()).(high := v)]
    {
      a.high := v;
    }

    method MeetLow(a: Node, b: Int64)
      requires Valid() && Owns(a)
      modifies a
      ensures At() == Backward.MeetLow(old(At()), a.id, b)
    {
      SetLow(a, Max(a.low, b));
    }

    method MeetHigh(a: Node, b: Int64)
      requires Valid() && Owns(a)
      modifies a
      ensures At() == Backward.MeetHigh(old(At()), a.id, b)
    {
      SetHigh(a, Min(a.high, b));
    }

    method Intersect(a: Node, i: Interval) returns (alive: bool)
      requires Valid() && Owns(a)
      modifies a
      ensures alive == Backward.Intersect(old(At()), a.id, i).Alive?
      ensures alive ==> At() == Backward.Intersect(old(At()), a.id, i).value
    {
      var m := Meet(a.Value(), i);
      SetLow(a, m.low);
      SetHigh(a, m.high);
      return !m.IsBottom();
    }

    method Exclude(a: Node, b: Int64) returns (alive: bool)
      requires Valid() && Owns(a)
      modifies a
      ensures alive == Backward.Exclude(old(At()), a.id, b).Alive?
      ensures alive ==> At() == Backward.Exclude(old(At()), a.id, b).value
    {
      if a.low == b {
        SetLow(a, Increment(a.low));
      }
      if a.high == b {
        SetHigh(a, Decrement(a.high));
      }
      return !a.Value().IsBottom();
    }

    method Choose(n: Backward.Int32) returns (alive: bool, i: Backward.Int32)
      modifies this`answers
      ensures alive == Backward.Choose(old(World()), n).Alive?
      ensures alive ==> Backward.Choose(old(World()), n) == Alive((i, World()))
    {
      if n < 1 {
        return false, 0;
      }
      alive, i := true, Backward.Pick(answers, n);
      answers := Backward.Rest(answers);
    }

    // ----- sums and differences

    /** One correction of a sum or a difference by `d`. */
    method Correct(side: Backward.Side, a: Node, b: Node, d: Int64) returns (alive: bool)
      requires Valid() && Owns(a) && Owns(b)
      modifies this`answers, a, b
      ensures alive == Backward.Correct(side, old(World()), a.id, b.id, d).Alive?
      ensures alive ==> World() == Backward.Correct(side, old(World()), a.id, b.id, d).value
    {
      if !Backward.Correctable(d) {
        return true;
      }
      var i;
      alive, i := Choose(Backward.ToInt32(d + 1));
      var boundA := if Backward.FromLow(side) then Bounds.Add(a.low, i) else Bounds.Sub(a.high, i);
      if !alive || boundA.Cancelled? {
        return false;
      }
      if Backward.FromLow(side) {
        MeetLow(a, boundA.value);
      } else {
        MeetHigh(a, boundA.value);
      }
      var boundB := if Backward.RaisesB(side) then Backward.RaisedByRest(b.low, d, i)
                    else Backward.LoweredByRest(b.high, d, i);
      if boundB.Cancelled? {
        return false;
      }
      if Backward.RaisesB(side) {
        MeetLow(b, boundB.value);
      } else {
        MeetHigh(b, boundB.value);
      }
      return true;
    }

    /** Both corrections, given what the operands come to now. */
    method CorrectBoth(result: Interval, low: Backward.Side, high: Backward.Side, r: Node, a: Node, b: Node)
      returns (alive: bool)
      requires Valid() && Owns(r) && Owns(a) && Owns(b)
      modifies this`answers, a, b
      ensures alive == Backward.CorrectBoth(result, low, high, old(World()), r.id, a.id, b.id).Alive?
      ensures alive ==> World() == Backward.CorrectBoth(result, low, high, old(World()), r.id, a.id, b.id).value
    {
      if Equal(result, r.Value()) == True {
        return true;
      }
      var diffLow := Bounds.Sub(r.low, result.low);
      var diffHigh := Bounds.Sub(result.high, r.high);
      if diffLow.Cancelled? || diffHigh.Cancelled? {
        return false;
      }
      alive := Correct(low, a, b, diffLow.value);
      if alive {
        alive := Correct(high, a, b, diffHigh.value);
      }
    }

    method SplitSum(r: Node, a: Node, b: Node) returns (alive: bool)
      requires Valid() && Owns(r) && Owns(a) && Owns(b)
      modifies this`answers, a, b
      ensures alive == Backward.SplitSum(old(World()), r.id, a.id, b.id).Alive?
      ensures alive ==> World() == Backward.SplitSum(old(World()), r.id, a.id, b.id).value
    {
      var sum := Plus(a.Value(), b.Value());
      if sum.Cancelled? {
        return false;
      }
      alive := CorrectBoth(sum.value, Backward.SumLow, Backward.SumHigh, r, a, b);
    }

    method SplitDifference(r: Node, a: Node, b: Node) returns (alive: bool)
      requires Valid() && Owns(r) && Owns(a) && Owns(b)
      modifies this`answers, a, b
      ensures alive == Backward.SplitDifference(old(World()), r.id, a.id, b.id).Alive?
      ensures alive ==> World() == Backward.SplitDifference(old(World()), r.id, a.id, b.id).value
    {
      var difference := Minus(a.Value(), b.Value());
      if difference.Cancelled? {
        return false;
      }
      alive := CorrectBoth(difference.value, Backward.DifferenceLow, Backward.DifferenceHigh, r, a, b);
    }

    method BackAdd(r: Node, a: Node, b: Node) returns (alive: bool)
      requires Valid() && Owns(r) && Owns(a) && Owns(b)
      modifies this`answers, a, b
      ensures alive == Backward.BackAdd(old(World()), r.id, a.id, b.id).Alive?
      ensures alive ==> World() == Backward.BackAdd(old(World()), r.id, a.id, b.id).value
    {
      var i := Minus(r.Value(), b.Value());
      if i.Cancelled? {
        return false;
      }
      alive := Intersect(a, i.value);
      if !alive {
        return;
      }
      i := Minus(r.Value(), a.Value());
      if i.Cancelled? {
        return false;
      }
      alive := Intersect(b, i.value);
      if alive {
        alive := SplitSum(r, a, b);
      }
    }

    method BackSub(r: Node, a: Node, b: Node) returns (alive: bool)
      requires Valid() && Owns(r) && Owns(a) && Owns(b)
      modifies this`answers, a, b
      ensures alive == Backward.BackSub(old(World()), r.id, a.id, b.id).Alive?
      ensures alive ==> World() == Backward.BackSub(old(World()), r.id, a.id, b.id).value
    {
      var i := Plus(r.Value(), b.Value());
      if i.Cancelled? {
        return false;
      }
      alive := Intersect(a, i.value);
      if !alive {
        return;
      }
      i := Minus(a.Value(), r.Value());
      if i.Cancelled? {
        return false;
      }
      alive := Intersect(b, i.value);
      if alive {
        alive := SplitDifference(r, a, b);
      }
    }

    // ----- products

    method EndIfEmpty(a: Node, b: Node) returns (alive: bool)
      ensures alive <==> !a.Value().IsBottom() && !b.Value().IsBottom()
    {
      return !a.Value().IsBottom() && !b.Value().IsBottom();
    }

    method ProductLow(r: Node, a: Node, b: Node) returns (alive: bool)
      requires Valid() && Owns(r) && Owns(a) && Owns(b)
      modifies this`answers, a, b
      ensures alive == Backward.ProductLow(old(World()), r.id, a.id, b.id).Alive?
      ensures alive ==> World() == Backward.ProductLow(old(World()), r.id, a.id, b.id).value
    {
      hide Backward.DivUp, Backward.CountOf, Backward.Pick, Backward.Rest, Bounds.Sub;
      if b.low == 0 || b.high == 0 {
        return false;
      }
      var newHigh := Backward.DivUp(r.low, b.low);
      var newLow := Backward.DivUp(r.low, b.high);
      if newHigh.Cancelled? || newLow.Cancelled? {
        return false;
      }
      MeetLow(a, newLow.value);
      var n := Backward.CountOf(newLow.value, newHigh.value);
      if n.Cancelled? {
        return false;
      }
      var i;
      alive, i := Choose(n.value);
      if !alive {
        return;
      }
      var t := Bounds.Sub(newHigh.value, i);
      if t.Cancelled? || t.value == 0 {
        return false;
      }
      MeetLow(a, t.value);
      var lowB := Backward.DivUp(r.low, t.value);
      if lowB.Cancelled? {
        return false;
      }
      MeetLow(b, lowB.value);
      alive := EndIfEmpty(a, b);
    }

    method ProductHigh(r: Node, a: Node, b: Node) returns (alive: bool)
      requires Valid() && Owns(r) && Owns(a) && Owns(b)
      modifies this`answers, a, b
      ensures alive == Backward.ProductHigh(old(World()), r.id, a.id, b.id).Alive?
      ensures alive ==> World() == Backward.ProductHigh(old(World()), r.id, a.id, b.id).value
    {
      if b.high == 0 {
        return false;
      }
      var q := Div(r.high, b.high);
      if q.Cancelled? {
        return false;
      }
      var newLow := Max(q.value, a.low);
      var n := Backward.CountOf(newLow, a.high);
      if n.Cancelled? {
        return false;
      }
      var i;
      alive, i := Choose(n.value);
      if !alive {
        return;
      }
      var t := Bounds.Add(newLow, i);
      if t.Cancelled? || t.value == 0 {
        return false;
      }
      MeetHigh(a, t.value);
      var highB := Div(r.high, t.value);
      if highB.Cancelled? {
        return false;
      }
      MeetHigh(b, highB.value);
      alive := EndIfEmpty(a, b);
    }

    method SplitProduct(r: Node, a: Node, b: Node) returns (alive: bool)
      requires Valid() && Owns(r) && Owns(a) && Owns(b)
      modifies this`answers, a, b
      ensures alive == Backward.SplitProduct(old(World()), r.id, a.id, b.id).Alive?
      ensures alive ==> World() == Backward.SplitProduct(old(World()), r.id, a.id, b.id).value
    {
      var product := Times(a.Value(), b.Value());
      if r.Value().IncludesAll(product) {
        return true;
      }
      var diffLow := Bounds.Sub(r.low, product.low);
      var diffHigh := Bounds.Sub(product.high, r.high);
      if diffLow.Cancelled? || diffHigh.Cancelled? {
        return false;
      }
      if Backward.Correctable(diffLow.value) {
        alive := ProductLow(r, a, b);
        if !alive {
          return;
        }
      }
      alive := true;
      if Backward.Correctable(diffHigh.value) {
        alive := ProductHigh(r, a, b);
      }
    }

    method BackMul(r: Node, a: Node, b: Node) returns (alive: bool)
      requires Valid() && Owns(r) && Owns(a) && Owns(b)
      modifies this`answers, a, b
      ensures alive == Backward.BackMul(old(World()), r.id, a.id, b.id).Alive?
      ensures alive ==> World() == Backward.BackMul(old(World()), r.id, a.id, b.id).value
    {
      if a.low == MIN || a.high == MAX || b.low == MIN || b.high == MAX {
        var i := Over(r.Value(), b.Value());
        if i.Cancelled? {
          return false;
        }
        alive := Intersect(a, i.value);
        return;
      }
      var i := Over(r.Value(), a.Value());
      if i.Cancelled? {
        return false;
      }
      alive := Intersect(b, i.value);
      if alive {
        alive := SplitProduct(r, a, b);
      }
    }

    // ----- comparisons

    method BackGreater(a: Node, b: Node, strict: bool) returns (alive: bool)
      requires Valid() && Owns(a) && Owns(b)
      modifies this`answers, a, b
      ensures alive == Backward.BackGreater(old(World()), a.id, b.id, strict).Alive?
      ensures alive ==> World() == Backward.BackGreater(old(World()), a.id, b.id, strict).value
    {
      MeetLow(a, b.low);
      if strict {
        alive := Exclude(a, b.low);
        if !alive {
          return;
        }
      }
      MeetHigh(b, a.high);
      if strict {
        alive := Exclude(b, a.high);
        if !alive {
          return;
        }
      }
      alive := OrderCut(a, b, strict);
    }

    method OrderCut(a: Node, b: Node, strict: bool) returns (alive: bool)
      requires Valid() && Owns(a) && Owns(b)
      modifies this`answers, a, b
      ensures alive == Backward.OrderCut(old(World()), a.id, b.id, strict).Alive?
      ensures alive ==> World() == Backward.OrderCut(old(World()), a.id, b.id, strict).value
    {
      var common := Meet(a.Value(), b.Value());
      if common.IsBottom() {
        return true;
      }
      var size := common.Size();
      if Backward.CHOOSE_BOUND < Backward.ToInt64(size) {
        return true;
      }
      var i;
      alive, i := Choose(Backward.ToInt32(if strict then size + 1 else size));
      if !alive {
        return;
      }
      var delim := Bounds.Add(i, common.low);
      if delim.Cancelled? {
        return false;
      }
      alive := Intersect(a, Interval(delim.value, a.high));
      if !alive {
        return;
      }
      var last := if strict then Bounds.Sub(delim.value, 1) else delim;
      if last.Cancelled? {
        return false;
      }
      alive := Intersect(b, Interval(b.low, last.value));
    }

    method BackEqual(a: Node, b: Node) returns (alive: bool)
      requires Valid() && Owns(a) && Owns(b)
      modifies this`answers, a, b
      ensures alive == Backward.BackEqual(old(World()), a.id, b.id).Alive?
      ensures alive ==> World() == Backward.BackEqual(old(World()), a.id, b.id).value
    {
      alive := Intersect(a, b.Value());
      if alive {
        alive := Intersect(b, a.Value());
      }
      if !alive {
        return;
      }
      var size := Bounds.Sub(a.high, a.low);
      if size.Cancelled? || !Backward.Correctable(size.value) {
        return size.Alive?;
      }
      var i;
      alive, i := Choose(Backward.ToInt32(size.value));
      if !alive {
        return;
      }
      var c := Bounds.Add(a.low, i);
      if c.Cancelled? {
        return false;
      }
      alive := Intersect(a, Constant(c.value));
      if !alive {
        return;
      }
      c := Bounds.Add(b.low, i);
      if c.Cancelled? {
        return false;
      }
      alive := Intersect(b, Constant(c.value));
    }

    method BackDifferent(a: Node, b: Node) returns (alive: bool)
      requires Valid() && Owns(a) && Owns(b)
      modifies this`answers, a, b
      ensures alive == Backward.BackDifferent(old(World()), a.id, b.id).Alive?
      ensures alive ==> World() == Backward.BackDifferent(old(World()), a.id, b.id).value
    {
      if Meet(a.Value(), b.Value()).IsBottom() {
        return true;
      }
      if a.low == a.high && (a.low == b.low || a.low == b.high) {
        alive := Exclude(b, a.low);
        return;
      }
      if b.low == b.high && (b.low == a.low || b.low == a.high) {
        alive := Exclude(a, b.low);
        return;
      }
      var first;
      alive, first := Choose(2);
      if first != 0 {
        alive := BackGreater(a, b, true);
      } else {
        alive := BackGreater(b, a, true);
      }
    }

    method BackEquality(r: Node, a: Node, b: Node, negated: bool) returns (alive: bool)
      requires Valid() && Owns(r) && Owns(a) && Owns(b)
      modifies this`answers, a, b
      ensures alive == Backward.BackEquality(old(World()), r.id, a.id, b.id, negated).Alive?
      ensures alive ==> World() == Backward.BackEquality(old(World()), r.id, a.id, b.id, negated).value
    {
      alive := true;
      if Backward.Known(r.Value(), !negated) {
        alive := BackEqual(a, b);
      }
      if alive && Backward.Known(r.Value(), negated) {
        alive := BackDifferent(a, b);
      }
    }

    method BackOrder(r: Node, a: Node, b: Node, negated: bool) returns (alive: bool)
      requires Valid() && Owns(r) && Owns(a) && Owns(b)
      modifies this`answers, a, b
      ensures alive == Backward.BackOrder(old(World()), r.id, a.id, b.id, negated).Alive?
      ensures alive ==> World() == Backward.BackOrder(old(World()), r.id, a.id, b.id, negated).value
    {
      alive := true;
      if Backward.Known(r.Value(), !negated) {
        alive := BackGreater(a, b, true);
      }
      if alive && Backward.Known(r.Value(), negated) {
        alive := BackGreater(b, a, false);
      }
    }

    // ----- propagation through the history

    method Back(op: Op, r: Node, a: Node, b: Node) returns (alive: bool)
      requires Valid() && Owns(r) && Owns(a) && Owns(b)
      modifies this`answers, a, b
      ensures alive == History.Back(op, old(World()), r.id, a.id, b.id).Alive?
      ensures alive ==> World() == History.Back(op, old(World()), r.id, a.id, b.id).value
    {
      match op
      case Add => alive := BackAdd(r, a, b);
      case Sub => alive := BackSub(r, a, b);
      case Mul => alive := BackMul(r, a, b);
      case Eq => alive := BackEquality(r, a, b, false);
      case Ne => alive := BackEquality(r, a, b, true);
      case Slt => alive := BackOrder(r, b, a, false);
      case Sgt => alive := BackOrder(r, a, b, false);
      case Sle => alive := BackOrder(r, a, b, true);
      case Sge => alive := BackOrder(r, b, a, true);
    }

    /** Push what is known of `n` down its history; operands are shared, so later steps see what
        earlier ones narrowed. */
    method BackwardPropagate(n: Node) returns (alive: bool)
      requires Valid() && Owns(n)
      modifies this`answers, nodes
      ensures alive == Propagate(Shapes(), old(World()), n.id).Alive?
      ensures alive ==> World() == Propagate(Shapes(), old(World()), n.id).value
      decreases n.id
    {
      if n.op.None? {
        return true;
      }
      var a, b := n.children[0], n.children[1];
      assert IsOlder(nodes, a, n.id) && IsOlder(nodes, b, n.id);
      alive := Back(n.op.value, n, a, b);
      if alive {
        alive := BackwardPropagate(a);
      }
      if alive {
        alive := BackwardPropagate(b);
      }
    }

    method AssumeThat(n: Node, expected: bool) returns (alive: bool)
      requires Valid() && Owns(n)
      modifies this`answers, nodes
      ensures alive == Runs.Step(old(Session()), Runs.AssumeThat(n.id, expected)).Alive?
      ensures alive ==> Session() == Runs.Step(old(Session()), Runs.AssumeThat(n.id, expected)).value
    {
      alive := Intersect(n, Constant(BoolValue(expected)));
      if alive {
        alive := BackwardPropagate(n);
      }
    }

    // ----- making values

    /** A new value, younger than its operands; the values there are stay as they are. */
    method Make(op: Option<Op>, children: seq<Node>, i: Interval) returns (n: Node)
      requires Valid() && (forall c <- children :: Owns(c))
      requires op.None? ==> children == []
      requires op.Some? ==> |children| == 2
      modifies this`nodes
      ensures Valid() && fresh(n) && nodes == old(nodes) + [n]
      ensures n.op == op && n.children == children && n.id == |old(nodes)|
      ensures Session() == Runs.Push(old(Session()), ShapeOf(n), i)
    {
      n := new Node(|nodes|, op, children, i);
      forall k | 0 <= k < |children|
        ensures IsOlder(nodes + [n], children[k], |nodes|)
      {
        assert children[k] in children;
      }
      forall j, k | 0 <= j < |nodes| && 0 <= k < |nodes[j].children|
        ensures IsOlder(nodes + [n], nodes[j].children[k], j)
      {
        assert IsOlder(nodes, nodes[j].children[k], j);
      }
      nodes := nodes + [n];
      assert ShapesOf(nodes) == ShapesOf(old(nodes)) + [ShapeOf(n)];
      assert ValuesOf(nodes) == old(At()) + [i];
    }

    /** `any`, of a value between two bounds; an empty range cancels. */
    method MakeRange(from: Int64, to: Int64) returns (n: Node?)
      requires Valid()
      modifies this`nodes
      ensures Valid() && ((n != null) == Runs.Step(old(Session()), Runs.MakeRange(from, to)).Alive?)
      ensures n != null ==>
        Session() == Runs.Step(old(Session()), Runs.MakeRange(from, to)).value && Owns(n)
    {
      if to < from {
        return null;
      }
      n := Make(None, [], Interval(from, to));
    }

    /** `lift` */
    method MakeConstant(c: Int64) returns (n: Node)
      requires Valid()
      modifies this`nodes
      ensures Valid() && Owns(n)
      ensures Alive(Session()) == Runs.Step(old(Session()), Runs.MakeConstant(c))
    {
      n := Make(None, [], Constant(c));
    }

    /** A forward operation: the result remembers the two operands themselves. */
    method Apply(op: Op, a: Node, b: Node) returns (n: Node?)
      requires Valid() && Owns(a) && Owns(b)
      modifies this`nodes
      ensures Valid() && ((n != null) == Runs.Step(old(Session()), Runs.Apply(op, a.id, b.id)).Alive?)
      ensures n != null ==>
        Session() == Runs.Step(old(Session()), Runs.Apply(op, a.id, b.id)).value && Owns(n) && n.children == [a, b]
    {
      var i := Forward(op, a.Value(), b.Value());
      if i.Cancelled? {
        return null;
      }
      n := Make(Some(op), [a, b], i.value);
    }
  }
}
