/**
 What the dataflow analysis is to compute: the least assignment of onions to values that is above
 the types of the roots and closed under every edge that leaves an active value.
 */
module Solutions {
  import opened Onions

  datatype EdgeKind = Uniform | Load | Store

  datatype Edge = Edge(from: nat, to: nat, kind: EdgeKind)

  datatype RootKind = Scalar | Pointer

  /** Values are numbered; each has a nesting of pointers and the edges that leave it. */
  datatype Graph = Graph(nest: seq<nat>, compares: set<nat>, out: seq<seq<Edge>>) {
    ghost predicate Valid() {
      && |out| == |nest|
      && (forall v, e :: 0 <= v < |nest| && e in out[v] ==> e.from == v && e.to < |nest|)
      && (forall v <- compares :: v < |nest| && nest[v] == 0)
    }

    ghost predicate HasEdge(e: Edge)
      requires Valid()
    {
      e.from < |nest| && e in out[e.from]
    }
  }

  type Types = seq<Onion>

  type Roots = map<nat, RootKind>

  function Initial(g: Graph, v: nat): Onion
    requires v < |g.nest|
  {
    Fresh(g.nest[v])
  }

  function Added(o: Onion, kind: RootKind): Onion {
    match kind
    case Scalar => o.MakeAbstract()
    case Pointer => o.MakeAbstractPointer()
  }

  /** The type a value starts from. */
  function Base(g: Graph, roots: Roots, v: nat): Onion
    requires v < |g.nest|
  {
    if v in roots then Added(Initial(g, v), roots[v]) else Initial(g, v)
  }

  /** What an edge carries over; a comparison only takes the outermost layer. */
  function Carried(g: Graph, e: Edge, o: Onion): Onion {
    match e.kind
    case Uniform => if e.to in g.compares then Core(o.layer) else o
    case Load => o.Peel()
    case Store => o.Wrap()
  }

  predicate Active(g: Graph, roots: Roots, t: Types, v: nat)
    requires |t| == |g.nest| && v < |t|
  {
    v in roots || t[v] != Initial(g, v)
  }

  predicate Closed(g: Graph, t: Types, e: Edge)
    requires e.from < |t| && e.to < |t|
  {
    Leq(Carried(g, e, t[e.from]), t[e.to])
  }

  ghost predicate Below(s: Types, t: Types) {
    |s| == |t| && forall v :: 0 <= v < |s| ==> Leq(s[v], t[v])
  }

  ghost predicate AboveBase(g: Graph, roots: Roots, t: Types) {
    |t| == |g.nest| && forall v :: 0 <= v < |t| ==> Leq(Base(g, roots, v), t[v])
  }

  /** Above the base types, and closed under the edges that leave active values. */
  ghost predicate Solves(g: Graph, roots: Roots, t: Types)
    requires g.Valid()
  {
    && AboveBase(g, roots, t)
    && (forall e :: g.HasEdge(e) && Active(g, roots, t, e.from) ==> Closed(g, t, e))
  }

  ghost predicate BelowSolutions(g: Graph, roots: Roots, t: Types)
    requires g.Valid()
  {
    forall s: Types :: Solves(g, roots, s) ==> Below(t, s)
  }

  ghost predicate LeastSolution(g: Graph, roots: Roots, t: Types)
    requires g.Valid()
  {
    Solves(g, roots, t) && BelowSolutions(g, roots, t)
  }

  // ----- the least solution does not depend on any order

  /** The same values, and from each value the same edges in any order. */
  ghost predicate SameEdges(g: Graph, h: Graph)
    requires g.Valid() && h.Valid()
  {
    g.nest == h.nest && g.compares == h.compares && forall e :: g.HasEdge(e) <==> h.HasEdge(e)
  }

  lemma SolvesInAnyOrder(g: Graph, h: Graph, roots: Roots, t: Types)
    requires g.Valid() && h.Valid() && SameEdges(g, h) && Solves(g, roots, t)
    ensures Solves(h, roots, t)
  {
    forall e | h.HasEdge(e) && Active(h, roots, t, e.from) ensures Closed(h, t, e) {
      assert g.HasEdge(e);
      assert Closed(g, t, e);
    }
  }

  /** There is at most one least solution, whatever order the edges are listed in. */
  lemma LeastIsUnique(g: Graph, h: Graph, roots: Roots, s: Types, t: Types)
    requires g.Valid() && h.Valid() && SameEdges(g, h)
    requires LeastSolution(g, roots, s) && LeastSolution(h, roots, t)
    ensures s == t
  {
    SolvesInAnyOrder(g, h, roots, s);
    SolvesInAnyOrder(h, g, roots, t);
    forall v | 0 <= v < |s| ensures s[v] == t[v] {
      LeqAntisymmetric(s[v], t[v]);
    }
  }

  // ----- one step of the analysis

  function Updated(g: Graph, t: Types, e: Edge): Types
    requires e.from < |t| && e.to < |t|
  {
    t[e.to := Join(t[e.to], Carried(g, e, t[e.from]))]
  }

  /** A root becomes abstract in its outermost layer alone; a root that is a pointer becomes a pointer there as well,
      and anything in its core. */
  lemma RootLayers(g: Graph, roots: Roots, v: nat)
    requires v < |g.nest| && v in roots
    ensures var o, nest := Base(g, roots, v), g.nest[v];
            && o.Size() == nest + 1
            && (roots[v].Scalar? ==> o == Initial(g, v).(layer := Layer(if nest > 0 then Yes else No, Yes)))
            && (roots[v].Pointer? && nest == 0 ==> o == Core(Layer(Maybe, Maybe)))
            && (roots[v].Pointer? && nest > 0 ==>
                  o == Shell(Initial(g, v).inner.WithCore(Layer(Maybe, Maybe)), Layer(Yes, Yes)))
  {
    FreshConcrete(g.nest[v]);
    WithCoreSize(Initial(g, v), Layer(Maybe, Maybe));
  }

  lemma WithCoreSize(o: Onion, l: Layer)
    ensures o.WithCore(l).Size() == o.Size()
  {
  }

  /** Storing a value joins its type into what the pointer points to.  The pointer stays one, and as concrete as it
      was.  A target that has no layers left becomes anything with the content of both. */
  lemma StoreStep(g: Graph, t: Types, e: Edge)
    requires e.from < |t| && e.to < |t| && e.kind.Store?
    ensures var p, o := t[e.to], Updated(g, t, e)[e.to];
            && (p.Shell? ==>
                  o == Shell(Join(p.inner, t[e.from]),
                             Layer(JoinTristate(p.layer.pointer, Yes), JoinTristate(p.layer.content, No))))
            && (p.Core? ==>
                  o == Core(Layer(Maybe, JoinTristate(p.layer.content, JoinTristate(t[e.from].Content(), No)))))
  {
  }

  /** Loading joins what a pointer points to into the loaded value; from a value without layers left, its own
      content. */
  lemma LoadStep(g: Graph, t: Types, e: Edge)
    requires e.from < |t| && e.to < |t| && e.kind.Load?
    ensures var p, o := t[e.from], Updated(g, t, e)[e.to];
            && (p.Shell? ==> o == Join(t[e.to], p.inner))
            && (p.Core? ==> o == Join(t[e.to], Core(Layer(Maybe, p.layer.content))))
  {
  }

  /** Any other use joins the type itself, or for a comparison the outermost layers of both. */
  lemma UniformStep(g: Graph, t: Types, e: Edge)
    requires e.from < |t| && e.to < |t| && e.kind.Uniform?
    ensures e.to !in g.compares ==> Updated(g, t, e)[e.to] == Join(t[e.to], t[e.from])
    ensures e.to in g.compares && t[e.to].Core? ==>
              Updated(g, t, e)[e.to] == Core(JoinLayer(t[e.to].layer, t[e.from].layer))
  {
  }

  /** In every solution, what is stored is within what the pointer points to, and that within what is loaded. */
  lemma StoredIsLoaded(g: Graph, roots: Roots, t: Types, v: nat, p: nat, w: nat)
    requires g.Valid() && Solves(g, roots, t) && v < |t| && p < |t| && w < |t|
    ensures g.HasEdge(Edge(v, p, Store)) && Active(g, roots, t, v) ==> Leq(t[v], t[p].Peel())
    ensures g.HasEdge(Edge(p, w, Load)) && Active(g, roots, t, p) ==> Leq(t[p].Peel(), t[w])
  {
    if g.HasEdge(Edge(v, p, Store)) && Active(g, roots, t, v) {
      assert Closed(g, t, Edge(v, p, Store));
      PeelMonotone(t[v].Wrap(), t[p]);
    }
    if g.HasEdge(Edge(p, w, Load)) && Active(g, roots, t, p) {
      assert Closed(g, t, Edge(p, w, Load));
    }
  }

  lemma CarriedMonotone(g: Graph, e: Edge, a: Onion, b: Onion)
    requires Leq(a, b)
    ensures Leq(Carried(g, e, a), Carried(g, e, b))
  {
    match e.kind
    case Uniform => OuterMonotone(a, b);
    case Load => PeelMonotone(a, b);
    case Store => WrapHomomorphism(a, b);
  }

  lemma UpdatedIsAbove(g: Graph, t: Types, e: Edge)
    requires e.from < |t| && e.to < |t|
    ensures Below(t, Updated(g, t, e))
    ensures Leq(Carried(g, e, t[e.from]), Updated(g, t, e)[e.to])
  {
    JoinIsLub(t[e.to], Carried(g, e, t[e.from]), t[e.to]);
    forall v | 0 <= v < |t| ensures Leq(t[v], Updated(g, t, e)[v]) {
      LeqReflexive(t[v]);
    }
  }

  /** Activity is never lost going up, and only going up creates it. */
  lemma ActiveKept(g: Graph, roots: Roots, s: Types, t: Types, v: nat)
    requires AboveBase(g, roots, s) && Below(s, t) && v < |t|
    ensures Active(g, roots, s, v) ==> Active(g, roots, t, v)
    ensures s[v] != t[v] ==> Active(g, roots, t, v)
  {
    if v !in roots && t[v] == Initial(g, v) {
      LeqAntisymmetric(s[v], t[v]);
    }
  }

  /** A step along an active edge stays below every solution. */
  lemma StepBelowSolutions(g: Graph, roots: Roots, t: Types, e: Edge)
    requires g.Valid() && g.HasEdge(e) && AboveBase(g, roots, t) && BelowSolutions(g, roots, t)
    requires Active(g, roots, t, e.from)
    ensures BelowSolutions(g, roots, Updated(g, t, e))
  {
    forall s: Types | Solves(g, roots, s) ensures Below(Updated(g, t, e), s) {
      ActiveKept(g, roots, t, s, e.from);
      assert Closed(g, s, e);
      CarriedMonotone(g, e, t[e.from], s[e.from]);
      LeqTransitive(Carried(g, e, t[e.from]), Carried(g, e, s[e.from]), s[e.to]);
      JoinIsLub(t[e.to], Carried(g, e, t[e.from]), s[e.to]);
    }
  }

  /** Every edge that leaves an active value is closed or waits in the worklist, where there are no
      others. */
  ghost predicate Pending(g: Graph, roots: Roots, t: Types, worklist: seq<Edge>)
    requires g.Valid() && |t| == |g.nest|
  {
    && (forall e :: g.HasEdge(e) && Active(g, roots, t, e.from) ==> Closed(g, t, e) || e in worklist)
    && (forall e <- worklist :: g.HasEdge(e) && Active(g, roots, t, e.from))
  }

  ghost predicate AllSound(t: Types) {
    forall v :: 0 <= v < |t| ==> t[v].Sound()
  }

  /** What every reachable state of the analysis keeps. */
  ghost predicate Invariant(g: Graph, roots: Roots, t: Types, worklist: seq<Edge>)
    requires g.Valid()
  {
    && AboveBase(g, roots, t) && AllSound(t)
    && BelowSolutions(g, roots, t) && Pending(g, roots, t, worklist)
  }

  function Repushed(g: Graph, t: Types, e: Edge): seq<Edge>
    requires e.from < |t| && e.to < |t| && |t| <= |g.out|
  {
    if Updated(g, t, e)[e.to] == t[e.to] then [] else g.out[e.to]
  }

  lemma StepPending(g: Graph, roots: Roots, t: Types, e: Edge, rest: seq<Edge>)
    requires g.Valid() && AboveBase(g, roots, t) && Pending(g, roots, t, [e] + rest)
    requires g.HasEdge(e)
    ensures Pending(g, roots, Updated(g, t, e), rest + Repushed(g, t, e))
  {
    var t', worklist := Updated(g, t, e), rest + Repushed(g, t, e);
    UpdatedIsAbove(g, t, e);
    forall f | g.HasEdge(f) && Active(g, roots, t', f.from)
      ensures Closed(g, t', f) || f in worklist
    {
      if t'[f.from] != t[f.from] {
        assert f in g.out[e.to];
      } else if f == e {
      } else if Closed(g, t, f) {
        LeqTransitive(Carried(g, f, t[f.from]), t[f.to], t'[f.to]);
      }
    }
    forall f | f in worklist ensures g.HasEdge(f) && Active(g, roots, t', f.from) {
      if f in rest {
        assert f in [e] + rest;
        ActiveKept(g, roots, t, t', f.from);
      } else {
        assert f in g.out[e.to] && f.from == e.to;
        ActiveKept(g, roots, t, t', f.from);
      }
    }
  }

  /** Processing the next edge keeps the invariant, and the assertion of peeling holds there. */
  lemma StepKeepsInvariant(g: Graph, roots: Roots, t: Types, e: Edge, rest: seq<Edge>)
    requires g.Valid() && Invariant(g, roots, t, [e] + rest)
    ensures g.HasEdge(e) && t[e.from].Peelable()
    ensures Invariant(g, roots, Updated(g, t, e), rest + Repushed(g, t, e))
  {
    assert e in [e] + rest;
    StepPending(g, roots, t, e, rest);
    StepBelowSolutions(g, roots, t, e);
    UpdatedIsAbove(g, t, e);
    var t' := Updated(g, t, e);
    forall v | 0 <= v < |t| ensures Leq(Base(g, roots, v), t'[v]) && t'[v].Sound() {
      LeqTransitive(Base(g, roots, v), t[v], t'[v]);
      SoundKept(t[e.from], t[e.from]);
      assert Carried(g, e, t[e.from]).Sound();
      SoundKept(t[e.to], Carried(g, e, t[e.from]));
    }
  }

  /** When nothing waits any more, the assignment is the least solution. */
  lemma EmptyWorklistSolves(g: Graph, roots: Roots, t: Types)
    requires g.Valid() && Invariant(g, roots, t, [])
    ensures LeastSolution(g, roots, t)
  {
  }

  // ----- termination

  function TotalWeight(t: Types): nat {
    if t == [] then 0 else t[0].Weight() + TotalWeight(t[1..])
  }

  lemma {:induction false} TotalWeightUpdate(t: Types, v: nat, o: Onion)
    requires v < |t|
    ensures TotalWeight(t[v := o]) == TotalWeight(t) - t[v].Weight() + o.Weight()
  {
    if v > 0 {
      TotalWeightUpdate(t[1..], v - 1, o);
      assert t[v := o][1..] == t[1..][v - 1 := o];
    } else {
      assert t[v := o][1..] == t[1..];
    }
  }

  /** Every change of a type uses up some of the total weight. */
  lemma StepUsesWeight(g: Graph, t: Types, e: Edge)
    requires e.from < |t| && e.to < |t| && Updated(g, t, e)[e.to] != t[e.to]
    ensures TotalWeight(Updated(g, t, e)) < TotalWeight(t)
  {
    UpdatedIsAbove(g, t, e);
    WeightDrops(t[e.to], Updated(g, t, e)[e.to]);
    TotalWeightUpdate(t, e.to, Updated(g, t, e)[e.to]);
  }

  /** Three for each layer of each value. */
  function Budget(nest: seq<nat>): nat {
    if nest == [] then 0 else 3 * (nest[0] + 1) + Budget(nest[1..])
  }
}
