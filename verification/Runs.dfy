/**
 Whole runs of an abstracted program: values are made and combined, and branches assume outcomes.
 The main theorem says that the branches of the abstract run cover every execution of the concrete
 program: whatever values an execution has, some answers keep all of them to the end of the run.
 */
module Runs {
  import opened Outcomes
  import opened Bounds
  import opened Intervals
  import opened Backward
  import opened History
  import opened Keeping
  import opened Propagation

  datatype Command =
    | MakeRange(from: Int64, to: Int64)
    | MakeConstant(c: Int64)
    | Apply(op: Op, left: nat, right: nat)
    | AssumeThat(node: nat, expected: bool)

  /** What a program has built so far. */
  datatype Session = Session(g: seq<Shape>, w: World) {
    predicate Valid() {
      WellFormed(g) && |w.at| == |g|
    }
  }

  /** A command refers only to values that exist. */
  predicate Refers(n: nat, c: Command) {
    match c
    case MakeRange(_, _) => true
    case MakeConstant(_) => true
    case Apply(_, left, right) => left < n && right < n
    case AssumeThat(node, _) => node < n
  }

  function Made(n: nat, c: Command): nat {
    if c.AssumeThat? then n else n + 1
  }

  predicate Scoped(n: nat, cmds: seq<Command>)
    decreases |cmds|
  {
    cmds == [] || (Refers(n, cmds[0]) && Scoped(Made(n, cmds[0]), cmds[1..]))
  }

  function Push(s: Session, shape: Shape, i: Interval): Session {
    Session(s.g + [shape], s.w.(at := s.w.at + [i]))
  }

  function Step(s: Session, c: Command): (o: Outcome<Session>)
    requires s.Valid() && Refers(|s.g|, c)
    ensures o.Alive? ==> o.value.Valid() && |o.value.g| == Made(|s.g|, c)
  {
    match c
    case MakeRange(from, to) =>
      var i :- Inhabited(Interval(from, to));
      Alive(Push(s, Leaf, i))
    case MakeConstant(c) => Alive(Push(s, Leaf, Constant(c)))
    case Apply(op, left, right) =>
      var i :- Forward(op, s.w.at[left], s.w.at[right]);
      Alive(Push(s, Binary(op, left, right), i))
    case AssumeThat(node, expected) =>
      var w :- Assume(s.g, s.w, node, expected);
      Alive(s.(w := w))
  }

  function Run(s: Session, cmds: seq<Command>): (o: Outcome<Session>)
    requires s.Valid() && Scoped(|s.g|, cmds)
    ensures o.Alive? ==> o.value.Valid()
    decreases |cmds|
  {
    if cmds == [] then Alive(s)
    else
      var s :- Step(s, cmds[0]);
      Run(s, cmds[1..])
  }

  // ----- the concrete program

  /** One concrete step: the values and the inputs left, or none if the execution leaves a range or
      fails an assumption. */
  function ValueStep(v: seq<int>, c: Command, inputs: seq<int>): Option<(seq<int>, seq<int>)>
    requires Refers(|v|, c)
  {
    match c
    case MakeRange(from, to) =>
      if inputs != [] && from <= inputs[0] <= to then Some((v + [inputs[0]], inputs[1..])) else None
    case MakeConstant(c) => Some((v + [c], inputs))
    case Apply(op, left, right) => Some((v + [Eval(op, v[left], v[right])], inputs))
    case AssumeThat(node, expected) => if v[node] == BoolValue(expected) then Some((v, inputs)) else None
  }

  /** The values of a concrete execution that is given `inputs`. */
  function Values(v: seq<int>, cmds: seq<Command>, inputs: seq<int>): Option<seq<int>>
    requires Scoped(|v|, cmds)
    decreases |cmds|
  {
    if cmds == [] then Some(v)
    else
      match ValueStep(v, cmds[0], inputs)
      case None => None
      case Some((v, inputs)) => Values(v, cmds[1..], inputs)
  }

  /** The history a program builds, and the range of each of its values: what its operations make of the declared
      ranges, narrowed by the comparisons that are assumed.  No run is needed for these. */
  function HistoryStep(g: seq<Shape>, c: Command): seq<Shape> {
    match c
    case MakeRange(_, _) => g + [Leaf]
    case MakeConstant(_) => g + [Leaf]
    case Apply(op, left, right) => g + [Binary(op, left, right)]
    case AssumeThat(_, _) => g
  }

  function HistoryOf(g: seq<Shape>, cmds: seq<Command>): seq<Shape>
    decreases |cmds|
  {
    if cmds == [] then g else HistoryOf(HistoryStep(g, cmds[0]), cmds[1..])
  }

  function RangeStep(g: seq<Shape>, ranges: seq<Interval>, c: Command): seq<Interval>
    requires WellFormed(g) && |ranges| == |g| && Refers(|g|, c)
  {
    match c
    case MakeRange(from, to) => ranges + [Interval(from, to)]
    case MakeConstant(c) => ranges + [Constant(c)]
    case Apply(op, left, right) => ranges + [RangeOf(op, ranges[left], ranges[right])]
    case AssumeThat(node, expected) => Assumed(g, ranges, node, expected)
  }

  lemma {:induction false} HistoryGrows(g: seq<Shape>, v: seq<int>, cmds: seq<Command>, inputs: seq<int>)
    requires |g| == |v| && Scoped(|g|, cmds) && Values(v, cmds, inputs).Some?
    ensures g <= HistoryOf(g, cmds) && v <= Values(v, cmds, inputs).value
    ensures |HistoryOf(g, cmds)| == |Values(v, cmds, inputs).value|
    decreases |cmds|
  {
    if cmds != [] {
      var (v1, inputs1) := ValueStep(v, cmds[0], inputs).value;
      HistoryGrows(HistoryStep(g, cmds[0]), v1, cmds[1..], inputs1);
    }
  }

  /** A step without overflow makes an execution longer. */
  lemma StepExecutes(g: seq<Shape>, v: seq<int>, c: Command, inputs: seq<int>)
    requires WellFormed(g) && Execution(g, v) && Refers(|g|, c) && ValueStep(v, c, inputs).Some?
    requires Representable(ValueStep(v, c, inputs).value.0)
    ensures WellFormed(HistoryStep(g, c)) && Execution(HistoryStep(g, c), ValueStep(v, c, inputs).value.0)
  {
  }

  /** Every assumption of an execution is about a node below which operands can be told apart, in the ranges that
      they have by then. */
  predicate AllAssumable(g: seq<Shape>, ranges: seq<Interval>, v: seq<int>, cmds: seq<Command>, inputs: seq<int>)
    requires WellFormed(g) && |ranges| == |g| == |v| && Scoped(|g|, cmds) && Values(v, cmds, inputs).Some?
    decreases |cmds|
  {
    cmds == [] ||
    ((cmds[0].AssumeThat? ==> Assumable(g, ranges, v, cmds[0].node, cmds[0].expected)) &&
     var (v1, inputs1) := ValueStep(v, cmds[0], inputs).value;
     AllAssumable(HistoryStep(g, cmds[0]), RangeStep(g, ranges, cmds[0]), v1, cmds[1..], inputs1))
  }

  lemma ComparisonTracks(op: Op, u: Interval, v: Interval, x: int, y: int)
    requires u.Has(x) && v.Has(y) && Compares(op)
    ensures Forward(op, u, v).Alive? && Forward(op, u, v).value.Has(Eval(op, x, y))
    ensures 0 <= Forward(op, u, v).value.low && Forward(op, u, v).value.high <= 1
  {
    ComparisonSound(u, v, x, y);
    NotSound(Equal(u, v), x == y);
    NotSound(Less(u, v), x < y);
    NotSound(Greater(u, v), x > y);
  }

  /** A forward operation on tracked values tracks its result. */
  lemma ForwardTracks(op: Op, u: Interval, v: Interval, ru: Interval, rv: Interval, x: int, y: int)
    requires u.Has(x) && v.Has(y) && u.Within(ru) && v.Within(rv) && -MAX < Eval(op, x, y) < MAX
    ensures Forward(op, u, v).Alive? && Forward(op, u, v).value.Has(Eval(op, x, y))
    ensures Forward(op, u, v).value.Within(RangeOf(op, ru, rv))
  {
    match op
    case Add =>
      SumMonotone(u, v, ru, rv, x, y);
      PlusSound(u, v, x, y);
    case Sub =>
      SumMonotone(u, v, ru, rv, x, y);
      MinusSound(u, v, x, y);
    case Mul =>
      TimesMonotone(u, v, ru, rv);
      TimesSound(u, v, x, y);
    case _ =>
      ComparisonTracks(op, u, v, x, y);
  }

  // ----- the abstract run covers the concrete one

  ghost predicate StepLeads(g: seq<Shape>, at: seq<Interval>, c: Command, p: seq<nat>, g': seq<Shape>,
                            at': seq<Interval>)
    requires WellFormed(g) && |at| == |g| && Refers(|g|, c)
  {
    forall rest: seq<nat> :: Step(Session(g, World(at, p + rest)), c) == Alive(Session(g', World(at', rest)))
  }

  ghost predicate RunLeads(g: seq<Shape>, at: seq<Interval>, cmds: seq<Command>, p: seq<nat>, g': seq<Shape>,
                           at': seq<Interval>)
    requires WellFormed(g) && |at| == |g| && Scoped(|g|, cmds)
  {
    forall rest: seq<nat> :: Run(Session(g, World(at, p + rest)), cmds) == Alive(Session(g', World(at', rest)))
  }

  /** Making a value keeps the values that there are. */
  lemma MakeKeeps(g: seq<Shape>, at: seq<Interval>, c: Command, shape: Shape, i: Interval)
    requires WellFormed(g) && |at| == |g| && Refers(|g|, c)
    requires forall rest: seq<nat> ::
               Step(Session(g, World(at, rest)), c) == Alive(Session(g + [shape], World(at + [i], rest)))
    ensures StepLeads(g, at, c, [], g + [shape], at + [i])
  {
    assert forall rest: seq<nat> :: [] + rest == rest;
  }

  lemma ApplyKeeps(g: seq<Shape>, at: seq<Interval>, ranges: seq<Interval>, v: seq<int>, op: Op, left: nat, right: nat)
    requires |ranges| == |g| == |v| && Tracks(at, ranges, v) && left < |g| && right < |g|
    requires -MAX < Eval(op, v[left], v[right]) < MAX
    ensures Forward(op, at[left], at[right]).Alive?
    ensures Tracks(at + [Forward(op, at[left], at[right]).value],
                   ranges + [RangeOf(op, ranges[left], ranges[right])], v + [Eval(op, v[left], v[right])])
  {
    assert at[left].Within(ranges[left]) && at[right].Within(ranges[right]);
    ForwardTracks(op, at[left], at[right], ranges[left], ranges[right], v[left], v[right]);
  }

  /** One step of an execution is covered by one step of the abstract run. */
  lemma StepKeeps(g: seq<Shape>, at: seq<Interval>, ranges: seq<Interval>, v: seq<int>, c: Command, inputs: seq<int>)
    returns (p: seq<nat>, at': seq<Interval>)
    requires |ranges| == |g| == |v| && Refers(|g|, c) && ValueStep(v, c, inputs).Some?
    requires WellFormed(g) && |at| == |g| && Execution(g, v) && Tracks(at, ranges, v)
    requires Representable(ValueStep(v, c, inputs).value.0)
    requires c.AssumeThat? ==> Assumable(g, ranges, v, c.node, c.expected)
    ensures |at'| == |HistoryStep(g, c)| && StepLeads(g, at, c, p, HistoryStep(g, c), at')
    ensures Tracks(at', RangeStep(g, ranges, c), ValueStep(v, c, inputs).value.0)
  {
    match c
    case MakeRange(from, to) =>
      assert (v + [inputs[0]])[|g|] == inputs[0];
      p, at' := [], at + [Interval(from, to)];
      MakeKeeps(g, at, c, Leaf, Interval(from, to));
    case MakeConstant(k) =>
      assert (v + [k])[|g|] == k;
      p, at' := [], at + [Constant(k)];
      MakeKeeps(g, at, c, Leaf, Constant(k));
    case Apply(op, left, right) =>
      assert (v + [Eval(op, v[left], v[right])])[|g|] == Eval(op, v[left], v[right]);
      ApplyKeeps(g, at, ranges, v, op, left, right);
      var i := Forward(op, at[left], at[right]).value;
      p, at' := [], at + [i];
      MakeKeeps(g, at, c, Binary(op, left, right), i);
    case AssumeThat(n, e) =>
      p, at' := AssumeKeeps(g, ranges, at, v, n, e);
  }

  lemma RunChain(s: Session, s1: Session, s2: Session, cmds: seq<Command>)
    requires s.Valid() && Scoped(|s.g|, cmds) && cmds != []
    requires Step(s, cmds[0]) == Alive(s1) && Run(s1, cmds[1..]) == Alive(s2)
    ensures Run(s, cmds) == Alive(s2)
  {
  }

  lemma RunCompose(g: seq<Shape>, at: seq<Interval>, g1: seq<Shape>, at1: seq<Interval>, g2: seq<Shape>,
                   at2: seq<Interval>,
                   cmds: seq<Command>, p1: seq<nat>, p2: seq<nat>)
    requires WellFormed(g) && |at| == |g| && Scoped(|g|, cmds) && cmds != []
    requires WellFormed(g1) && |at1| == |g1| == Made(|g|, cmds[0])
    requires StepLeads(g, at, cmds[0], p1, g1, at1)
    requires RunLeads(g1, at1, cmds[1..], p2, g2, at2)
    ensures RunLeads(g, at, cmds, p1 + p2, g2, at2)
  {
    forall rest: seq<nat>
      ensures Run(Session(g, World(at, p1 + p2 + rest)), cmds) == Alive(Session(g2, World(at2, rest)))
    {
      assert p1 + p2 + rest == p1 + (p2 + rest);
      var s := Session(g, World(at, p1 + (p2 + rest)));
      RunChain(s, Session(g1, World(at1, p2 + rest)), Session(g2, World(at2, rest)), cmds);
    }
  }

  /** The first step of a program whose values can all be represented makes an execution longer. */
  lemma FirstExecutes(g: seq<Shape>, v: seq<int>, cmds: seq<Command>, inputs: seq<int>)
    requires |g| == |v| && Scoped(|g|, cmds) && Values(v, cmds, inputs).Some? && cmds != []
    requires WellFormed(g) && Execution(g, v) && Representable(Values(v, cmds, inputs).value)
    ensures Representable(ValueStep(v, cmds[0], inputs).value.0)
    ensures WellFormed(HistoryStep(g, cmds[0]))
    ensures Execution(HistoryStep(g, cmds[0]), ValueStep(v, cmds[0], inputs).value.0)
  {
    var (v1, inputs1) := ValueStep(v, cmds[0], inputs).value;
    HistoryGrows(HistoryStep(g, cmds[0]), v1, cmds[1..], inputs1);
    StepExecutes(g, v, cmds[0], inputs);
  }

  /** From a session that covers the values so far, some answers lead to one that covers them all. */
  lemma {:induction false} RunKeeps(g: seq<Shape>, at: seq<Interval>, ranges: seq<Interval>, v: seq<int>,
                                    cmds: seq<Command>, inputs: seq<int>)
    returns (p: seq<nat>, at': seq<Interval>, ranges': seq<Interval>)
    requires |ranges| == |g| == |v| && Scoped(|g|, cmds) && Values(v, cmds, inputs).Some?
    requires WellFormed(g) && |at| == |g| && Execution(g, v) && Tracks(at, ranges, v)
    requires Representable(Values(v, cmds, inputs).value) && AllAssumable(g, ranges, v, cmds, inputs)
    ensures RunLeads(g, at, cmds, p, HistoryOf(g, cmds), at')
    ensures Tracks(at', ranges', Values(v, cmds, inputs).value)
    decreases |cmds|
  {
    hide Step, StepLeads, RunLeads, Assumable, Execution, Tracks;
    if cmds == [] {
      p, at', ranges' := [], at, ranges;
      RunNothing(g, at);
    } else {
      var g1, ranges1 := HistoryStep(g, cmds[0]), RangeStep(g, ranges, cmds[0]);
      var (v1, inputs1) := ValueStep(v, cmds[0], inputs).value;
      FirstExecutes(g, v, cmds, inputs);
      var p1, at1 := StepKeeps(g, at, ranges, v, cmds[0], inputs);
      var p2;
      p2, at', ranges' := RunKeeps(g1, at1, ranges1, v1, cmds[1..], inputs1);
      p := p1 + p2;
      RunCompose(g, at, g1, at1, HistoryOf(g, cmds), at', cmds, p1, p2);
    }
  }

  lemma RunNothing(g: seq<Shape>, at: seq<Interval>)
    requires WellFormed(g) && |at| == |g|
    ensures RunLeads(g, at, [], [], g, at)
  {
    assert forall rest: seq<nat> :: [] + rest == rest;
  }

  /** The run of a program on a script of answers ends with every value of an execution inside the
      interval of its node. */
  ghost predicate RunCovers(s: Session, cmds: seq<Command>, g: seq<Shape>, v: seq<int>)
    requires s.Valid() && Scoped(|s.g|, cmds)
  {
    var o := Run(s, cmds);
    o.Alive? && o.value.g == g && |v| == |g| && forall n :: 0 <= n < |g| ==> o.value.w.at[n].Has(v[n])
  }

  /** A run that leads somewhere is covered by its answers. */
  lemma LeadsCovers(g: seq<Shape>, at: seq<Interval>, cmds: seq<Command>, p: seq<nat>, g': seq<Shape>,
                    at': seq<Interval>,
                    ranges: seq<Interval>, v: seq<int>)
    requires WellFormed(g) && |at| == |g| && Scoped(|g|, cmds) && RunLeads(g, at, cmds, p, g', at')
    requires Tracks(at', ranges, v) && |g'| == |v|
    ensures RunCovers(Session(g, World(at, p)), cmds, g', v)
  {
    assert p + [] == p;
    assert Run(Session(g, World(at, p + [])), cmds) == Alive(Session(g', World(at', [])));
  }

  /** No execution is lost.  Take any program, whatever ranges it declares, and any of its executions that does not
      overflow and in which operands can be told apart below every assumption.  Then some branch of the abstract run,
      from the very start to the end and through every assumption, is not cancelled and has every value of the
      execution inside the interval of its node.  (The program may also start from a session, at `g` and `at`, that
      tracks the values an execution has reached.) */
  lemma NoExecutionLost(g: seq<Shape>, at: seq<Interval>, ranges: seq<Interval>, v: seq<int>,
                        cmds: seq<Command>, inputs: seq<int>)
    returns (answers: seq<nat>)
    requires |ranges| == |g| == |v| && Scoped(|g|, cmds) && Values(v, cmds, inputs).Some?
    requires WellFormed(g) && |at| == |g| && Execution(g, v) && Tracks(at, ranges, v)
    requires Representable(Values(v, cmds, inputs).value) && AllAssumable(g, ranges, v, cmds, inputs)
    ensures RunCovers(Session(g, World(at, answers)), cmds, HistoryOf(g, cmds), Values(v, cmds, inputs).value)
  {
    HistoryGrows(g, v, cmds, inputs);
    var at', ranges';
    answers, at', ranges' := RunKeeps(g, at, ranges, v, cmds, inputs);
    LeadsCovers(g, at, cmds, answers, HistoryOf(g, cmds), at', ranges', Values(v, cmds, inputs).value);
  }
}
