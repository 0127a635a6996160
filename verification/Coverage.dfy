/** The dataflow analysis tells the abstraction what to instrument: its solution covers every use of an abstract
    value. */
module Coverage {
  import opened Onions
  import opened Outcomes
  import opened Solutions
  import Simulation

  type Program = seq<Simulation.Instr>

  /** Operand `k` is used by instruction `n`. */
  predicate Uses(p: Program, n: nat, k: nat)
    requires n < |p|
  {
    match p[n]
    case Literal(_) => false
    case Source(_) => false
    case Binary(_, i, j) => k == i || k == j
    case Cast(_, i, _) => k == i
  }

  /** Scalars only, an edge from every operand to its use, and every source a root. */
  ghost predicate Describes(g: Graph, roots: Roots, p: Program)
    requires g.Valid()
  {
    && |g.nest| == |p| && (forall v :: 0 <= v < |p| ==> g.nest[v] == 0)
    && (forall n, k :: 0 <= k < n < |p| && Uses(p, n, k) ==> g.HasEdge(Edge(k, n, Uniform)))
    && (forall n :: 0 <= n < |p| && p[n].Source? ==> n in roots && roots[n] == Scalar)
    && (forall n <- roots :: n < |p|)
  }

  /** The instructions that the analysis found to hold abstract content. */
  function Instrumented(t: Types): set<nat> {
    set v | 0 <= v < |t| && t[v].IsAbstract()
  }

  /** What is abstract stays so in any greater type. */
  lemma AbstractKept(a: Onion, b: Onion)
    requires Leq(a, b) && a.IsAbstract()
    ensures b.IsAbstract()
  {
  }

  /** A value with a pointer level whose content is abstract, or that is abstract itself, is active. */
  lemma AbstractIsActive(g: Graph, roots: Roots, t: Types, v: nat)
    requires |t| == |g.nest| && v < |t|
    ensures t[v].IsAbstract() ==> Active(g, roots, t, v)
    ensures t[v].Peel().IsAbstract() ==> Active(g, roots, t, v)
  {
    FreshConcrete(g.nest[v]);
    if g.nest[v] > 0 {
      FreshConcrete(g.nest[v] - 1);
    }
  }

  /** The use of an abstract value is abstract: the value is active, and its edges carry its outermost layer on. */
  lemma UseIsAbstract(g: Graph, roots: Roots, t: Types, k: nat, n: nat)
    requires g.Valid() && Solves(g, roots, t) && k < |t| && n < |t|
    requires g.HasEdge(Edge(k, n, Uniform)) && t[k].IsAbstract()
    ensures t[n].IsAbstract()
  {
    var e := Edge(k, n, Uniform);
    AbstractIsActive(g, roots, t, k);
    assert Closed(g, t, e);
    AbstractKept(Carried(g, e, t[k]), t[n]);
  }

  /** Any solution, so the least one that the analysis finds, instruments all sources and all uses of what it
      instruments. */
  lemma SolutionCovers(g: Graph, roots: Roots, t: Types, p: Program)
    requires g.Valid() && Solves(g, roots, t) && Simulation.WellFormed(p) && Describes(g, roots, p)
    ensures Simulation.Covers(Instrumented(t), p)
  {
    forall n, k | 0 <= k < n < |p| && Uses(p, n, k) && t[k].IsAbstract()
      ensures t[n].IsAbstract()
    {
      UseIsAbstract(g, roots, t, k, n);
    }
    forall n | 0 <= n < |p| && p[n].Source?
      ensures t[n].IsAbstract()
    {
      assert Leq(Base(g, roots, n), t[n]);
      AbstractKept(Base(g, roots, n), t[n]);
    }
  }

  /** So a straight-line program instrumented as the analysis says is simulated over every sound domain. */
  lemma AnalysisSimulates<A(!new)>(g: Graph, roots: Roots, t: Types, p: Program, m: Simulation.Machine, env: nat -> int,
                                   junk: nat -> int, d: Simulation.Domain<A>, guard: Simulation.Guard)
    requires g.Valid() && LeastSolution(g, roots, t) && Simulation.WellFormed(p) && Describes(g, roots, p)
    requires Simulation.Sound(d, m, guard) && Simulation.Guarded(p, Simulation.Values(p, m, env), guard)
    requires forall id :: d.has(d.any(id), env(id))
    ensures Simulation.Simulates(Simulation.Run(p, Instrumented(t), m, junk, d), Simulation.Values(p, m, env),
                                 Instrumented(t), d)
  {
    SolutionCovers(g, roots, t, p);
    Simulation.AbstractionSimulates(p, Instrumented(t), m, env, junk, d, guard);
  }

  // ----- programs with memory

  /** A command makes a value, named by its position.  Objects are made by `Alloc` and hold scalars; `Copy` is any
      computation on a pointer that keeps its object. */
  datatype Command = Constant | Input | Compute(args: seq<nat>) | Alloc | Copy(pointer: nat)
                   | Write(value: nat, pointer: nat) | Read(pointer: nat)

  predicate Refers(c: Command, n: nat) {
    match c
    case Compute(args) => forall a <- args :: a < n
    case Copy(q) => q < n
    case Write(v, q) => v < n && q < n
    case Read(q) => q < n
    case _ => true
  }

  predicate Scoped(p: seq<Command>) {
    forall n :: 0 <= n < |p| ==> Refers(p[n], n)
  }

  /** Whether a value depends on an input, and the object it points to. */
  datatype Register = Register(tainted: bool, target: Option<nat>)

  /** The registers, and whether the content of an object depends on an input. */
  datatype Memory = Memory(registers: seq<Register>, contents: map<nat, bool>)

  function Content(s: Memory, o: Option<nat>): bool {
    o.Some? && o.value in s.contents && s.contents[o.value]
  }

  function Made(c: Command, s: Memory): Register
    requires Refers(c, |s.registers|)
  {
    match c
    case Constant => Register(false, None)
    case Input => Register(true, None)
    case Compute(args) => Register(exists a <- args :: s.registers[a].tainted, None)
    case Alloc => Register(false, Some(|s.registers|))
    case Copy(q) => Register(false, s.registers[q].target)
    case Write(_, _) => Register(false, None)
    case Read(q) => Register(Content(s, s.registers[q].target), None)
  }

  function Written(c: Command, s: Memory): map<nat, bool>
    requires Refers(c, |s.registers|)
  {
    if c.Write? && s.registers[c.pointer].target.Some? then
      s.contents[s.registers[c.pointer].target.value := s.registers[c.value].tainted]
    else
      s.contents
  }

  /** A run of a program, as far as dependence on inputs goes. */
  function Executed(p: seq<Command>): (s: Memory)
    requires Scoped(p)
    ensures |s.registers| == |p|
  {
    if p == [] then Memory([], map[])
    else
      var n := |p| - 1;
      var s := Executed(p[..n]);
      Memory(s.registers + [Made(p[n], s)], Written(p[n], s))
  }

  /** The edges of the analysis for a program; the aliases that it is given include every object written to. */
  ghost predicate DescribesMemory(g: Graph, roots: Roots, p: seq<Command>)
    requires g.Valid() && Scoped(p)
  {
    && |g.nest| == |p|
    && (forall n :: 0 <= n < |p| ==> g.nest[n] == if p[n].Alloc? || p[n].Copy? then 1 else 0)
    && (forall n :: 0 <= n < |p| && p[n].Input? ==> n in roots && roots[n] == Scalar)
    && (forall n :: 0 <= n < |p| && p[n].Compute? ==> forall a <- p[n].args :: g.HasEdge(Edge(a, n, Uniform)))
    && (forall n :: 0 <= n < |p| && p[n].Copy? ==> g.HasEdge(Edge(p[n].pointer, n, Uniform)))
    && (forall n :: 0 <= n < |p| && p[n].Read? ==> g.HasEdge(Edge(p[n].pointer, n, Load)))
    && (forall n :: 0 <= n < |p| && p[n].Write? ==> WritesAlong(g, p, n))
  }

  ghost predicate WritesAlong(g: Graph, p: seq<Command>, n: nat)
    requires g.Valid() && Scoped(p) && n < |p| && p[n].Write?
  {
    var target := Executed(p[..n]).registers[p[n].pointer].target;
    target.Some? ==> g.HasEdge(Edge(p[n].value, target.value, Store))
  }

  /** What the types say of a state: tainted registers are abstract, tainted objects have abstract content, and so has
      every pointer to an object with abstract content. */
  ghost predicate Approved(s: Memory, t: Types) {
    && |s.registers| <= |t|
    && (forall k :: 0 <= k < |s.registers| && s.registers[k].tainted ==> t[k].IsAbstract())
    && (forall o <- s.contents :: o < |t| && (s.contents[o] ==> t[o].Peel().IsAbstract()))
    && (forall k :: 0 <= k < |s.registers| ==> Points(s.registers[k], k, t))
  }

  predicate PointsWell(o: nat, k: nat, t: Types)
    requires k < |t|
  {
    o < |t| && (t[o].Peel().IsAbstract() ==> t[k].Peel().IsAbstract())
  }

  predicate Points(r: Register, k: nat, t: Types)
    requires k < |t|
  {
    r.target.Some? ==> PointsWell(r.target.value, k, t)
  }

  lemma CopyPointsWell(g: Graph, roots: Roots, t: Types, q: nat, n: nat, o: nat)
    requires g.Valid() && Solves(g, roots, t) && q < |t| && n < |t| && g.nest[n] == 1
    requires g.HasEdge(Edge(q, n, Uniform)) && PointsWell(o, q, t)
    ensures PointsWell(o, n, t)
  {
    if t[o].Peel().IsAbstract() {
      AbstractIsActive(g, roots, t, q);
      assert Closed(g, t, Edge(q, n, Uniform)) && n !in g.compares;
      PeelMonotone(t[q], t[n]);
      AbstractKept(t[q].Peel(), t[n].Peel());
    }
  }

  /** Of what is written the object learns, and of what the object holds whatever is read. */
  lemma MemoryKept(g: Graph, roots: Roots, t: Types, v: nat, o: nat, q: nat, n: nat)
    requires g.Valid() && Solves(g, roots, t) && v < |t| && o < |t| && q < |t| && n < |t|
    ensures g.HasEdge(Edge(v, o, Store)) && t[v].IsAbstract() ==> t[o].Peel().IsAbstract()
    ensures g.HasEdge(Edge(q, n, Load)) && t[q].Peel().IsAbstract() ==> t[n].IsAbstract()
  {
    StoredIsLoaded(g, roots, t, v, o, n);
    StoredIsLoaded(g, roots, t, v, q, n);
    AbstractIsActive(g, roots, t, v);
    AbstractIsActive(g, roots, t, q);
    if g.HasEdge(Edge(v, o, Store)) && t[v].IsAbstract() {
      AbstractKept(t[v], t[o].Peel());
    }
    if g.HasEdge(Edge(q, n, Load)) && t[q].Peel().IsAbstract() {
      AbstractKept(t[q].Peel(), t[n]);
    }
  }

  lemma RegisterApproved(g: Graph, roots: Roots, t: Types, p: seq<Command>, n: nat, s: Memory)
    requires g.Valid() && Solves(g, roots, t) && Scoped(p) && n < |p| && DescribesMemory(g, roots, p)
    requires |s.registers| == n && Approved(s, t)
    ensures Made(p[n], s).tainted ==> t[n].IsAbstract()
    ensures Points(Made(p[n], s), n, t)
  {
    hide Executed, Join, Onion.Peel, PointsWell;
    match p[n]
    case Constant =>
    case Input =>
      assert Leq(Base(g, roots, n), t[n]);
      AbstractKept(Base(g, roots, n), t[n]);
    case Compute(args) =>
      forall a <- args | s.registers[a].tainted ensures t[n].IsAbstract() {
        UseIsAbstract(g, roots, t, a, n);
      }
    case Alloc => SelfPointsWell(n, t);
    case Copy(q) =>
      assert Points(s.registers[q], q, t);
      if s.registers[q].target.Some? {
        CopyPointsWell(g, roots, t, q, n, s.registers[q].target.value);
      }
    case Write(_, _) =>
    case Read(q) =>
      assert Points(s.registers[q], q, t);
      ReadApproved(s, q, t);
      MemoryKept(g, roots, t, q, q, q, n);
  }

  lemma SelfPointsWell(n: nat, t: Types)
    requires n < |t|
    ensures PointsWell(n, n, t)
  {
  }

  lemma ReadApproved(s: Memory, q: nat, t: Types)
    requires Approved(s, t) && q < |s.registers|
    ensures Content(s, s.registers[q].target) ==> t[q].Peel().IsAbstract()
  {
    hide Onion.Peel, Onion.IsAbstract;
    assert Points(s.registers[q], q, t);
  }

  lemma ContentsApproved(g: Graph, roots: Roots, t: Types, p: seq<Command>, n: nat, s: Memory)
    requires g.Valid() && Solves(g, roots, t) && Scoped(p) && n < |p| && DescribesMemory(g, roots, p)
    requires s == Executed(p[..n]) && Approved(s, t)
    ensures forall o <- Written(p[n], s) :: o < |t| && (Written(p[n], s)[o] ==> t[o].Peel().IsAbstract())
  {
    hide Executed, Join, Onion.Peel;
    if p[n].Write? && s.registers[p[n].pointer].target.Some? {
      assert WritesAlong(g, p, n);
      MemoryKept(g, roots, t, p[n].value, s.registers[p[n].pointer].target.value, p[n].pointer, n);
    }
  }

  lemma Extended(s: Memory, r: Register, contents: map<nat, bool>, t: Types)
    requires Approved(s, t) && |s.registers| < |t|
    requires (r.tainted ==> t[|s.registers|].IsAbstract()) && Points(r, |s.registers|, t)
    requires forall o <- contents :: o < |t| && (contents[o] ==> t[o].Peel().IsAbstract())
    ensures Approved(Memory(s.registers + [r], contents), t)
  {
    hide Points, Onion.Peel, Onion.IsAbstract;
  }

  lemma StepApproved(g: Graph, roots: Roots, t: Types, p: seq<Command>, n: nat, s: Memory)
    requires g.Valid() && Solves(g, roots, t) && Scoped(p) && n < |p| && DescribesMemory(g, roots, p)
    requires s == Executed(p[..n]) && Approved(s, t)
    ensures Approved(Memory(s.registers + [Made(p[n], s)], Written(p[n], s)), t)
  {
    assert |s.registers| == n < |t|;
    RegisterApproved(g, roots, t, p, n, s);
    ContentsApproved(g, roots, t, p, n, s);
    Extended(s, Made(p[n], s), Written(p[n], s), t);
  }

  /** In every run of a program with memory, all that depends on an input, through whatever pointers it was written and
      read, is instrumented by any solution of the analysis. */
  lemma {:induction false} TaintCovered(g: Graph, roots: Roots, t: Types, p: seq<Command>, n: nat)
    requires g.Valid() && Solves(g, roots, t) && Scoped(p) && n <= |p| && DescribesMemory(g, roots, p)
    ensures Approved(Executed(p[..n]), t)
    ensures forall k :: 0 <= k < n && Executed(p[..n]).registers[k].tainted ==> k in Instrumented(t)
  {
    if n > 0 {
      TaintCovered(g, roots, t, p, n - 1);
      assert p[..n][..n - 1] == p[..n - 1] && p[..n][n - 1] == p[n - 1];
      StepApproved(g, roots, t, p, n - 1, Executed(p[..n - 1]));
    }
  }
}
