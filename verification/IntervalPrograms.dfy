/** The interval domain under the abstraction scheme, against a machine of 64-bit words. */
module IntervalPrograms {
  import opened Outcomes
  import opened Bounds
  import opened Intervals
  import opened Terms
  import Simulation

  /** `x` in two's complement of the given width. */
  function Wrap(x: int, width: nat): int {
    if width == 0 then 0
    else
      PowPositive(2, width - 1);
      var half := Pow(2, width - 1);
      (x + half) % (2 * half) - half
  }

  function Exact(op: nat, x: int, y: int): int {
    if op == 0 then x + y else if op == 1 then x - y else x * y
  }

  function Words(): Simulation.Machine {
    Simulation.Machine((op: nat, x: int, y: int) => Wrap(Exact(op, x, y), 64),
                       (op: nat, x: int, width: nat) => Wrap(x, width))
  }

  function Domain(any: nat -> Interval): Simulation.Domain<Interval> {
    Simulation.Domain(
      (x: int) => Constant(Clamp(x)),
      any,
      (op: nat, a: Interval, b: Interval) =>
        if op == 0 then Plus(a, b) else if op == 1 then Minus(a, b) else Alive(Times(a, b)),
      (op: nat, a: Interval, width: nat) => Alive(a),
      (a: Interval, x: int) => a.Has(x))
  }

  predicate Inner(x: int) {
    -MAX < x < MAX
  }

  /** No overflow, and no change of width that drops bits: casts leave an interval as it is. */
  function NoOverflow(): Simulation.Guard {
    Simulation.Guard((x: int) => Inner(x), (op: nat, x: int, y: int) => Inner(Exact(op, x, y)),
                     (op: nat, x: int, width: nat) => Wrap(x, width) == x)
  }

  lemma WrapExact(x: int)
    requires Inner(x)
    ensures Wrap(x, 64) == x
  {
    PowWord();
    assert Pow(2, 64) == 2 * Pow(2, 63);
  }

  lemma BinaryKept(any: nat -> Interval, op: nat, a: Interval, b: Interval, x: int, y: int)
    ensures Simulation.BinaryKept(Domain(any), Words(), NoOverflow(), op, a, b, x, y)
  {
    if a.Has(x) && b.Has(y) && Inner(Exact(op, x, y)) {
      WrapExact(Exact(op, x, y));
      PlusSound(a, b, x, y);
      MinusSound(a, b, x, y);
      TimesSound(a, b, x, y);
    }
  }

  /** Programs of additions, subtractions, multiplications and casts that stay in range are soundly run on intervals. */
  lemma IntervalsSound(any: nat -> Interval)
    ensures Simulation.Sound(Domain(any), Words(), NoOverflow())
  {
    forall op, a, b, x, y
      ensures Simulation.BinaryKept(Domain(any), Words(), NoOverflow(), op, a, b, x, y)
    {
      BinaryKept(any, op, a, b, x, y);
    }
  }

  /** On intervals: every tainted value of a run without overflow is inside the interval computed for it. */
  lemma IntervalsSimulate(p: seq<Simulation.Instr>, instrumented: set<nat>, env: nat -> int, junk: nat -> int,
                          any: nat -> Interval)
    requires Simulation.WellFormed(p) && Simulation.Covers(instrumented, p)
    requires Simulation.Guarded(p, Simulation.Values(p, Words(), env), NoOverflow())
    requires forall id: nat :: any(id).Has(env(id))
    ensures var s := Simulation.Run(p, instrumented, Words(), junk, Domain(any));
            s.Running? && forall k :: 0 <= k < |p| && s.cells[k].taint ==>
              s.cells[k].abs.Some? && s.cells[k].abs.value.Has(Simulation.Values(p, Words(), env)[k])
  {
    IntervalsSound(any);
    Simulation.AbstractionSimulates(p, instrumented, Words(), env, junk, Domain(any), NoOverflow());
  }
}
