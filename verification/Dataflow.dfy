/**
 The dataflow analysis as the program runs it: a queue of edges and a map of types that is filled on
 demand.  Whatever order the roots and the edges come in, it ends with the least solution.
 */
module Dataflow {
  import opened Onions
  import opened LayerVectors
  import opened Solutions

  /** The type of a value: what the map has, or the initial type it would be given. */
  function TypeOf(g: Graph, types: map<nat, Layers>, v: nat): Onion
    requires v < |g.nest|
  {
    if v in types then View(types[v]) else Initial(g, v)
  }

  function AssignmentOf(g: Graph, types: map<nat, Layers>): (t: Types)
    ensures |t| == |g.nest| && forall v :: 0 <= v < |t| ==> t[v] == TypeOf(g, types, v)
  {
    seq(|g.nest|, v requires 0 <= v < |g.nest| => TypeOf(g, types, v))
  }

  lemma AssignmentUpdate(g: Graph, types: map<nat, Layers>, v: nat, r: Layers)
    requires v < |g.nest|
    ensures AssignmentOf(g, types[v := r]) == AssignmentOf(g, types)[v := View(r)]
  {
  }

  /** Base types where the roots have been added, initial types elsewhere. */
  ghost predicate Started(g: Graph, roots: Roots, done: set<nat>, t: Types) {
    |t| == |g.nest| && forall v :: 0 <= v < |t| ==> t[v] == if v in done then Base(g, roots, v) else Initial(g, v)
  }

  lemma BaseSound(g: Graph, roots: Roots, v: nat)
    requires v < |g.nest|
    ensures Base(g, roots, v).Sound() && Base(g, roots, v).Weight() <= 3 * (g.nest[v] + 1)
  {
    FreshWeight(g.nest[v]);
    SoundKept(Initial(g, v), Initial(g, v));
    MaybeCoreWeight(Initial(g, v).MakeAbstract().MakePointer());
  }

  lemma MaybeCoreWeight(o: Onion)
    ensures o.WithCore(Layer(Maybe, Maybe)).Weight() <= o.Weight()
  {
  }

  lemma {:induction false} BaseBudget(g: Graph, roots: Roots, t: Types, k: nat)
    requires |t| == |g.nest| && k <= |t| && forall v :: 0 <= v < |t| ==> t[v] == Base(g, roots, v)
    ensures TotalWeight(t[k..]) <= Budget(g.nest[k..])
    decreases |t| - k
  {
    if k < |t| {
      BaseSound(g, roots, k);
      BaseBudget(g, roots, t, k + 1);
      assert t[k..][1..] == t[k + 1..] && g.nest[k..][1..] == g.nest[k + 1..];
    }
  }

  /** The state once all roots are added and the edges that leave them are queued. */
  lemma StartKeepsInvariant(g: Graph, roots: Roots, t: Types, worklist: seq<Edge>)
    requires g.Valid() && Started(g, roots, roots.Keys, t)
    requires forall e <- worklist :: g.HasEdge(e) && e.from in roots
    requires forall e :: g.HasEdge(e) && e.from in roots ==> e in worklist
    ensures Invariant(g, roots, t, worklist)
  {
    forall v | 0 <= v < |t| ensures t[v] == Base(g, roots, v) && Leq(Base(g, roots, v), t[v]) && t[v].Sound() {
      LeqReflexive(t[v]);
      BaseSound(g, roots, v);
    }
  }

  class Analysis {
    const g: Graph
    var worklist: seq<Edge>
    var types: map<nat, Layers>

    constructor (g: Graph)
      ensures this.g == g && worklist == [] && types == map[]
    {
      this.g := g;
      worklist, types := [], map[];
    }

    function Assignment(): Types
      reads this`types
    {
      AssignmentOf(g, types)
    }

    /** The type of a value; a value not seen before gets its initial type. */
    method Get(v: nat) returns (r: Layers)
      requires v < |g.nest|
      modifies this`types
      ensures v in types && r == types[v] && types.Keys == old(types.Keys) + {v}
      ensures Assignment() == old(Assignment()) && View(r) == Assignment()[v]
    {
      if v !in types {
        types := types[v := FreshVector(g.nest[v])];
      }
      r := types[v];
    }

    method Set(v: nat, r: Layers)
      requires v < |g.nest|
      modifies this`types
      ensures Assignment() == old(Assignment())[v := View(r)]
    {
      types := types[v := r];
      AssignmentUpdate(g, old(types), v, r);
    }

    method Add(v: nat, kind: RootKind)
      requires v < |g.nest|
      modifies this`types
      ensures Assignment() == old(Assignment())[v := Added(old(Assignment())[v], kind)]
    {
      var onion := Get(v);
      match kind {
        case Scalar => onion := MakeAbstract(onion);
        case Pointer => onion := MakeAbstractPointer(onion);
      }
      Set(v, onion);
    }

    /** Queue every edge that leaves a value. */
    method PushValue(v: nat)
      requires v < |g.out|
      modifies this`worklist
      ensures worklist == old(worklist) + g.out[v]
    {
      for i := 0 to |g.out[v]|
        invariant worklist == old(worklist) + g.out[v][..i]
      {
        worklist := worklist + [g.out[v][i]];
      }
    }

    method Pop() returns (e: Edge)
      requires worklist != []
      modifies this`worklist
      ensures old(worklist) == [e] + worklist
    {
      e := worklist[0];
      worklist := worklist[1..];
    }

    /** Carry the type of the edge's source over to its target; if that changes the target, queue the
        edges that leave it. */
    method Process(e: Edge) returns (changed: bool)
      requires g.Valid() && g.HasEdge(e)
      requires Assignment()[e.from].Peelable()
      requires e.to in g.compares ==> Assignment()[e.to].Core?
      modifies this`worklist, this`types
      ensures Assignment() == Updated(g, old(Assignment()), e)
      ensures changed <==> Assignment()[e.to] != old(Assignment())[e.to]
      ensures worklist == old(worklist) + Repushed(g, old(Assignment()), e)
    {
      var to := Get(e.to);
      var from := Get(e.from);
      var joined: Layers := to;
      match e.kind {
        case Uniform =>
          if e.to in g.compares {
            joined := [JoinLayer(Back(to), Back(from))];
          } else {
            joined := JoinInPlace(to, from);
          }
        case Load =>
          var peeled := Peel(from);
          joined := JoinInPlace(to, peeled);
        case Store =>
          var wrapped := Wrap(from);
          joined := JoinInPlace(to, wrapped);
      }
      assert View(joined) == Updated(g, old(Assignment()), e)[e.to];
      changed := to != joined;
      if changed {
        if View(to) == View(joined) {
          ViewInjective(to, joined);
        }
        Set(e.to, joined);
        PushValue(e.to);
      }
    }

    /** Add the roots, in any order, and queue the edges that leave them. */
    method AddRoots(roots: Roots)
      requires g.Valid() && worklist == [] && types == map[]
      requires forall v <- roots :: v < |g.nest|
      modifies this`worklist, this`types
      ensures Invariant(g, roots, Assignment(), worklist)
      ensures TotalWeight(Assignment()) <= Budget(g.nest)
    {
      ghost var added := {};
      var rest := roots.Keys;
      while rest != {}
        invariant rest !! added && rest + added == roots.Keys
        invariant Started(g, roots, added, Assignment())
        invariant forall e <- worklist :: g.HasEdge(e) && e.from in added
        invariant forall e :: g.HasEdge(e) && e.from in added ==> e in worklist
        decreases rest
      {
        var v :| v in rest;
        rest, added := rest - {v}, added + {v};
        Add(v, roots[v]);
        PushValue(v);
      }
      StartKeepsInvariant(g, roots, Assignment(), worklist);
      assert Assignment()[0..] == Assignment() && g.nest[0..] == g.nest;
      BaseBudget(g, roots, Assignment(), 0);
    }

    /** The analysis: process edges until none waits.  It ends with the least solution, after no more
        changes than three for each layer of each value. */
    method RunFrom(roots: Roots) returns (ghost changes: nat)
      requires g.Valid() && worklist == [] && types == map[]
      requires forall v <- roots :: v < |g.nest|
      modifies this`worklist, this`types
      ensures LeastSolution(g, roots, Assignment())
      ensures worklist == [] && changes <= Budget(g.nest)
    {
      AddRoots(roots);
      changes := 0;
      while worklist != []
        invariant Invariant(g, roots, Assignment(), worklist)
        invariant changes + TotalWeight(Assignment()) <= Budget(g.nest)
        decreases TotalWeight(Assignment()), |worklist|
      {
        ghost var t := Assignment();
        var e := Pop();
        StepKeepsInvariant(g, roots, t, e, worklist);
        CompareIsFlat(g, roots, t, e.to);
        var changed := Process(e);
        if changed {
          StepUsesWeight(g, t, e);
          changes := changes + 1;
        } else {
          assert Assignment() == t;
        }
      }
      EmptyWorklistSolves(g, roots, Assignment());
    }
  }

  /** A comparison has no pointer levels and never gains any. */
  lemma CompareIsFlat(g: Graph, roots: Roots, t: Types, v: nat)
    requires g.Valid() && AboveBase(g, roots, t) && v < |t|
    ensures v in g.compares ==> t[v].Core?
  {
    if v in g.compares {
      assert Leq(Base(g, roots, v), t[v]);
    }
  }
}
