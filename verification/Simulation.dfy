/** Straight-line programs and their abstracted form: what every instruction's value stands for. */
module Simulation {
  import opened Outcomes
  import opened Dispatch

  /** Operands are the numbers of earlier instructions. A source is a value the abstraction makes up. */
  datatype Instr = Literal(n: int) | Source(id: nat) | Binary(op: nat, left: nat, right: nat)
                 | Cast(op: nat, arg: nat, width: nat)

  predicate WellFormed(p: seq<Instr>) {
    forall k | 0 <= k < |p| :: match p[k]
      case Literal(_) => true
      case Source(_) => true
      case Binary(_, i, j) => i < k && j < k
      case Cast(_, i, _) => i < k
  }

  datatype Machine = Machine(binary: (nat, int, int) -> int, cast: (nat, int, nat) -> int)

  // ----- the original program

  /** The value of an instruction when the sources take the values `env`. */
  function Value(i: Instr, vs: seq<int>, m: Machine, env: nat -> int): int
    requires i.Binary? ==> i.left < |vs| && i.right < |vs|
    requires i.Cast? ==> i.arg < |vs|
  {
    match i
    case Literal(n) => n
    case Source(id) => env(id)
    case Binary(op, l, r) => m.binary(op, vs[l], vs[r])
    case Cast(op, a, width) => m.cast(op, vs[a], width)
  }

  function Values(p: seq<Instr>, m: Machine, env: nat -> int): (r: seq<int>)
    requires WellFormed(p)
    ensures |r| == |p|
  {
    if p == [] then []
    else
      var n := |p| - 1;
      var vs := Values(p[..n], m, env);
      vs + [Value(p[n], vs, m, env)]
  }

  // ----- the abstracted program

  datatype Domain<!A> = Domain(lift: int -> A, any: nat -> A,
                               binary: (nat, A, A) -> Outcome<A>, cast: (nat, A, nat) -> Outcome<A>,
                               has: (A, int) -> bool)

  /** Every instruction's taint, the value the machine computes, and the abstract value, null when there is none. */
  datatype Cell<A> = Cell(taint: bool, concrete: int, abs: Option<A>)

  /** A run goes on with its cells, is cancelled by the domain, or breaks because an operation was given a null
      value. */
  datatype State<A> = Running(cells: seq<Cell<A>>) | Stopped | NullArgument

  function Carry<A>(c: Cell<A>): Argument<A> {
    Carried(c.taint, c.concrete, c.abs)
  }

  function Arguments<A>(i: Instr, cells: seq<Cell<A>>): seq<Argument<A>>
    requires i.Binary? ==> i.left < |cells| && i.right < |cells|
    requires i.Cast? ==> i.arg < |cells|
  {
    match i
    case Binary(_, l, r) => [Carry(cells[l]), Carry(cells[r])]
    case Cast(_, a, width) => [Carry(cells[a]), Plain(width)]
    case _ => []
  }

  datatype Called<A> = Returned(a: A) | Ended | NullGiven

  predicate IsValue<A>(w: Word<A>) {
    w.Pointer? && w.p.Some?
  }

  function Ending<A>(o: Outcome<A>): Called<A> {
    match o case Alive(a) => Returned(a) case Cancelled => Ended
  }

  function Call<A>(i: Instr, finals: seq<Word<A>>, d: Domain<A>): Called<A> {
    match i
    case Binary(op, _, _) =>
      if |finals| != 2 || !IsValue(finals[0]) || !IsValue(finals[1]) then NullGiven
      else Ending(d.binary(op, finals[0].p.value, finals[1].p.value))
    case Cast(op, _, _) =>
      if |finals| != 2 || !IsValue(finals[0]) || !finals[1].Number? || finals[1].n < 0 then NullGiven
      else Ending(d.cast(op, finals[0].p.value, finals[1].n))
    case _ => NullGiven
  }

  /** The shadow of an operation: an or over its operands' taints. */
  function Taint<A>(i: Instr, cells: seq<Cell<A>>): bool
    requires i.Binary? ==> i.left < |cells| && i.right < |cells|
    requires i.Cast? ==> i.arg < |cells|
  {
    match i
    case Literal(_) => false
    case Source(_) => true
    case Binary(_, l, r) => cells[l].taint || cells[r].taint
    case Cast(_, a, _) => cells[a].taint
  }

  /** What the machine computes; for a source it is a placeholder. */
  function Concrete<A>(i: Instr, cells: seq<Cell<A>>, m: Machine, junk: nat -> int): int
    requires i.Binary? ==> i.left < |cells| && i.right < |cells|
    requires i.Cast? ==> i.arg < |cells|
  {
    match i
    case Literal(n) => n
    case Source(id) => junk(id)
    case Binary(op, l, r) => m.binary(op, cells[l].concrete, cells[r].concrete)
    case Cast(op, a, width) => m.cast(op, cells[a].concrete, width)
  }

  /** One instruction; an instrumented operation is followed by its test, whose concrete path leaves null. */
  function Advance<A>(i: Instr, instrumented: bool, cells: seq<Cell<A>>, m: Machine, junk: nat -> int,
                      d: Domain<A>): State<A>
    requires i.Binary? ==> i.left < |cells| && i.right < |cells|
    requires i.Cast? ==> i.arg < |cells|
  {
    var t, c := Taint(i, cells), Concrete(i, cells, m, junk);
    if i.Source? then Running(cells + [Cell(t, c, Some(d.any(i.id)))])
    else if i.Literal? || !instrumented || !AnyTaint(Arguments(i, cells)) then Running(cells + [Cell(t, c, None)])
    else match Call(i, Finals(Arguments(i, cells), d.lift), d)
      case Returned(a) => Running(cells + [Cell(t, c, Some(a))])
      case Ended => Stopped
      case NullGiven => NullArgument
  }

  function Run<A>(p: seq<Instr>, instrumented: set<nat>, m: Machine, junk: nat -> int, d: Domain<A>): (s: State<A>)
    requires WellFormed(p)
    ensures s.Running? ==> |s.cells| == |p|
  {
    if p == [] then Running([])
    else
      var n := |p| - 1;
      match Run(p[..n], instrumented, m, junk, d)
      case Running(cells) => Advance(p[n], n in instrumented, cells, m, junk, d)
      case s => s
  }

  // ----- the simulation

  /** What the dataflow provides: sources and all users of instrumented instructions are instrumented. */
  predicate Covers(instrumented: set<nat>, p: seq<Instr>) {
    forall k | 0 <= k < |p| :: match p[k]
      case Literal(_) => true
      case Source(_) => k in instrumented
      case Binary(_, i, j) => (i in instrumented || j in instrumented ==> k in instrumented)
      case Cast(_, i, _) => (i in instrumented ==> k in instrumented)
  }

  /** Where the domain is trusted: on values that fit, and on operations whose operands are fine. */
  datatype Guard = Guard(fits: int -> bool, binary: (nat, int, int) -> bool, cast: (nat, int, nat) -> bool)

  ghost predicate Sound<A(!new)>(d: Domain<A>, m: Machine, g: Guard) {
    && (forall x :: g.fits(x) ==> d.has(d.lift(x), x))
    && (forall op, a, b, x, y :: BinaryKept(d, m, g, op, a, b, x, y))
    && (forall op, a, x, w :: CastKept(d, m, g, op, a, x, w))
  }

  ghost predicate BinaryKept<A>(d: Domain<A>, m: Machine, g: Guard, op: nat, a: A, b: A, x: int, y: int) {
    d.has(a, x) && d.has(b, y) && g.binary(op, x, y) ==>
      d.binary(op, a, b).Alive? && d.has(d.binary(op, a, b).value, m.binary(op, x, y))
  }

  ghost predicate CastKept<A>(d: Domain<A>, m: Machine, g: Guard, op: nat, a: A, x: int, w: nat) {
    d.has(a, x) && g.cast(op, x, w) ==>
      d.cast(op, a, w).Alive? && d.has(d.cast(op, a, w).value, m.cast(op, x, w))
  }

  /** The original run stays within the guard. */
  predicate Guarded(p: seq<Instr>, vs: seq<int>, g: Guard)
    requires WellFormed(p) && |vs| == |p|
  {
    && (forall k | 0 <= k < |vs| :: g.fits(vs[k]))
    && (forall k | 0 <= k < |p| :: match p[k]
          case Binary(op, i, j) => g.binary(op, vs[i], vs[j])
          case Cast(op, i, w) => g.cast(op, vs[i], w)
          case _ => true)
  }

  /** An untainted cell holds the original value, a tainted one an abstract value that includes it. */
  ghost predicate Stands<A>(c: Cell<A>, v: int, d: Domain<A>) {
    if c.taint then c.abs.Some? && d.has(c.abs.value, v) else c.concrete == v
  }

  ghost predicate Simulates<A>(s: State<A>, vs: seq<int>, instrumented: set<nat>, d: Domain<A>) {
    s.Running? && |s.cells| == |vs| &&
    forall k | 0 <= k < |vs| :: Stands(s.cells[k], vs[k], d) && (s.cells[k].taint ==> k in instrumented)
  }

  lemma FinalsOfTwo<A>(a: Argument<A>, b: Argument<A>, lift: int -> A)
    requires a.Carried? && !b.Tested?
    ensures Finals([a, b], lift) == [Final(a, lift, b.Carried?), Final(b, lift, b.Carried?)]
    ensures AnyTaint([a, b]) <==> a.taint || (b.Carried? && b.taint)
  {
    GivenOfTwo(a, b);
    var several := b.Carried?;
    assert FirstFinals([a, b], 2, lift, several) == [Final(a, lift, several), Final(b, lift, several)];
  }

  lemma GivenOfTwo<A>(a: Argument<A>, b: Argument<A>)
    requires a.Carried? && !b.Tested?
    ensures Given([a, b]) == [a, b] && (CountTaints([a, b]) > 1 <==> b.Carried?)
    ensures AnyTaint([a, b]) <==> a.taint || (b.Carried? && b.taint)
  {
    Extend([], a);
    Extend([a], b);
    assert [] + [a] == [a] && [a] + [b] == [a, b];
  }

  lemma Extend<A>(args: seq<Argument<A>>, x: Argument<A>)
    ensures Given(args + [x]) == Given(args) + if x.Tested? then [] else [x]
    ensures CountTaints(args + [x]) == CountTaints(args) + if x.Carried? then 1 else 0
    ensures AnyTaint(args + [x]) <==> AnyTaint(args) || (!x.Plain? && x.taint)
  {
    assert (args + [x])[..|args|] == args;
  }

  /** The final form of an operand, lifted if need be, includes the original value. */
  lemma FinalStands<A(!new)>(c: Cell<A>, v: int, d: Domain<A>, m: Machine, g: Guard)
    requires Stands(c, v, d) && Sound(d, m, g) && g.fits(v)
    ensures var f := Final(Carry(c), d.lift, true); f.Pointer? && f.p.Some? && d.has(f.p.value, v)
  {
  }

  lemma BinaryStands<A(!new)>(op: nat, l: nat, r: nat, cells: seq<Cell<A>>, vs: seq<int>, m: Machine,
                              junk: nat -> int, d: Domain<A>, g: Guard, instrumented: bool)
    requires l < |vs| == |cells| && r < |vs| && Sound(d, m, g)
    requires Stands(cells[l], vs[l], d) && Stands(cells[r], vs[r], d) && g.fits(vs[l]) && g.fits(vs[r])
    requires g.binary(op, vs[l], vs[r]) && (cells[l].taint || cells[r].taint ==> instrumented)
    ensures var s := Advance(Binary(op, l, r), instrumented, cells, m, junk, d);
            s.Running? && s.cells[..|cells|] == cells && |s.cells| == |cells| + 1
            && Stands(s.cells[|cells|], m.binary(op, vs[l], vs[r]), d)
            && (s.cells[|cells|].taint <==> cells[l].taint || cells[r].taint)
  {
    hide Finals, AnyTaint;
    var a, b := Carry(cells[l]), Carry(cells[r]);
    FinalsOfTwo(a, b, d.lift);
    FinalStands(cells[l], vs[l], d, m, g);
    FinalStands(cells[r], vs[r], d, m, g);
    assert BinaryKept(d, m, g, op, Final(a, d.lift, true).p.value, Final(b, d.lift, true).p.value, vs[l], vs[r]);
  }

  lemma CastStands<A(!new)>(op: nat, a: nat, w: nat, cells: seq<Cell<A>>, vs: seq<int>, m: Machine,
                            junk: nat -> int, d: Domain<A>, g: Guard, instrumented: bool)
    requires a < |vs| == |cells| && Sound(d, m, g) && Stands(cells[a], vs[a], d)
    requires g.cast(op, vs[a], w) && (cells[a].taint ==> instrumented)
    ensures var s := Advance(Cast(op, a, w), instrumented, cells, m, junk, d);
            s.Running? && s.cells[..|cells|] == cells && |s.cells| == |cells| + 1
            && Stands(s.cells[|cells|], m.cast(op, vs[a], w), d)
            && (s.cells[|cells|].taint <==> cells[a].taint)
  {
    hide Finals, AnyTaint;
    FinalsOfTwo(Carry(cells[a]), Plain(w), d.lift);
    if cells[a].taint {
      assert CastKept(d, m, g, op, cells[a].abs.value, vs[a], w);
    }
  }

  /**
   For every straight-line program, every sound domain, all values of the sources and all placeholders: the
   abstracted program runs to its end, no null value ever reaches a domain operation, every untainted value is
   the original one and every tainted value has the original one among those its abstract value stands for.
   */
  lemma {:induction false} AbstractionSimulates<A(!new)>(p: seq<Instr>, instrumented: set<nat>, m: Machine,
                                                  env: nat -> int,
                                                   junk: nat -> int, d: Domain<A>, g: Guard)
    requires WellFormed(p) && Covers(instrumented, p) && Sound(d, m, g) && Guarded(p, Values(p, m, env), g)
    requires forall id :: d.has(d.any(id), env(id))
    ensures Simulates(Run(p, instrumented, m, junk, d), Values(p, m, env), instrumented, d)
  {
    hide Sound, Advance, Stands, Value;
    if p != [] {
      var n := |p| - 1;
      var vs := Values(p[..n], m, env);
      assert forall k :: 0 <= k < n ==> Values(p, m, env)[k] == vs[k];
      AbstractionSimulates(p[..n], instrumented, m, env, junk, d, g);
      var cells := Run(p[..n], instrumented, m, junk, d).cells;
      match p[n]
      case Literal(_) => LeafStands(p[n], n in instrumented, cells, vs, m, env, junk, d);
      case Source(_) => LeafStands(p[n], n in instrumented, cells, vs, m, env, junk, d);
      case Binary(op, l, r) =>
        assert Value(p[n], vs, m, env) == m.binary(op, vs[l], vs[r]) by { ValueOf(p[n], vs, m, env); }
        assert Values(p, m, env)[l] == vs[l] && Values(p, m, env)[r] == vs[r];
        BinaryStands(op, l, r, cells, vs, m, junk, d, g, n in instrumented);
      case Cast(op, a, w) =>
        assert Value(p[n], vs, m, env) == m.cast(op, vs[a], w) by { ValueOf(p[n], vs, m, env); }
        assert Values(p, m, env)[a] == vs[a];
        CastStands(op, a, w, cells, vs, m, junk, d, g, n in instrumented);
    }
  }

  lemma ValueOf(i: Instr, vs: seq<int>, m: Machine, env: nat -> int)
    requires i.Binary? ==> i.left < |vs| && i.right < |vs|
    requires i.Cast? ==> i.arg < |vs|
    ensures i.Binary? ==> Value(i, vs, m, env) == m.binary(i.op, vs[i.left], vs[i.right])
    ensures i.Cast? ==> Value(i, vs, m, env) == m.cast(i.op, vs[i.arg], i.width)
  {
  }

  lemma LeafStands<A>(i: Instr, instrumented: bool, cells: seq<Cell<A>>, vs: seq<int>, m: Machine,
                     env: nat -> int, junk: nat -> int, d: Domain<A>)
    requires i.Literal? || (i.Source? && d.has(d.any(i.id), env(i.id)))
    ensures var s := Advance(i, instrumented, cells, m, junk, d);
            s.Running? && s.cells[..|cells|] == cells && |s.cells| == |cells| + 1
            && Stands(s.cells[|cells|], Value(i, vs, m, env), d) && (s.cells[|cells|].taint <==> i.Source?)
  {
  }
}
