/** The worklist in any order: whichever waiting edge is taken next, every run ends, and in the same least solution. */
module Orderings {
  import opened Onions
  import opened Solutions
  import Dataflow

  datatype Stage = Stage(t: Types, worklist: seq<Edge>)

  /** The types fit the graph and only edges of the graph wait. */
  ghost predicate Fits(g: Graph, s: Stage)
    requires g.Valid()
  {
    |s.t| == |g.nest| && forall i :: 0 <= i < |s.worklist| ==> g.HasEdge(s.worklist[i]) && s.worklist[i].to < |g.nest|
  }

  /** Process the waiting edge number `i`. */
  ghost function Take(g: Graph, s: Stage, i: nat): Stage
    requires g.Valid() && Fits(g, s) && i < |s.worklist|
  {
    var e := s.worklist[i];
    Stage(Updated(g, s.t, e), s.worklist[..i] + s.worklist[i + 1..] + Repushed(g, s.t, e))
  }

  /** What matters of a worklist is which edges wait. */
  lemma SameEdgesWait(g: Graph, roots: Roots, t: Types, w: seq<Edge>, w': seq<Edge>)
    requires g.Valid() && Invariant(g, roots, t, w) && forall e :: e in w <==> e in w'
    ensures Invariant(g, roots, t, w')
  {
  }

  /** Processing any waiting edge keeps the invariant, and the assertion of peeling holds there. */
  lemma TakeKeepsInvariant(g: Graph, roots: Roots, s: Stage, i: nat)
    requires g.Valid() && Invariant(g, roots, s.t, s.worklist) && i < |s.worklist|
    ensures Fits(g, s) && s.t[s.worklist[i].from].Peelable()
    ensures Invariant(g, roots, Take(g, s, i).t, Take(g, s, i).worklist)
  {
    var e, rest := s.worklist[i], s.worklist[..i] + s.worklist[i + 1..];
    assert s.worklist == s.worklist[..i] + [e] + s.worklist[i + 1..];
    SameEdgesWait(g, roots, s.t, s.worklist, [e] + rest);
    StepKeepsInvariant(g, roots, s.t, e, rest);
  }

  /** All roots are added, and exactly the edges that leave them wait, in some order and number. */
  ghost predicate Begins(g: Graph, roots: Roots, s: Stage)
    requires g.Valid()
  {
    && Dataflow.Started(g, roots, roots.Keys, s.t)
    && (forall e <- s.worklist :: g.HasEdge(e) && e.from in roots)
    && (forall e :: g.HasEdge(e) && e.from in roots ==> e in s.worklist)
  }

  ghost predicate Next(g: Graph, s: Stage, s': Stage)
    requires g.Valid()
  {
    Fits(g, s) && exists i: nat :: i < |s.worklist| && s' == Take(g, s, i)
  }

  ghost predicate IsRun(g: Graph, roots: Roots, run: seq<Stage>)
    requires g.Valid()
  {
    run != [] && Begins(g, roots, run[0]) && forall k :: 0 <= k < |run| - 1 ==> Next(g, run[k], run[k + 1])
  }

  predicate DegreeAtMost(g: Graph, degree: nat) {
    forall v :: 0 <= v < |g.out| ==> |g.out[v]| <= degree
  }

  lemma TakeUsesUp(g: Graph, s: Stage, i: nat, degree: nat)
    requires g.Valid() && Fits(g, s) && i < |s.worklist| && DegreeAtMost(g, degree)
    ensures Left(Take(g, s, i), degree) < Left(s, degree)
  {
    hide TotalWeight;
    var e, t' := s.worklist[i], Updated(g, s.t, s.worklist[i]);
    if t'[e.to] == s.t[e.to] {
      assert t' == s.t;
    } else {
      StepUsesWeight(g, s.t, e);
      Scaled(degree, TotalWeight(t') + 1, TotalWeight(s.t));
      assert degree * (TotalWeight(t') + 1) == degree * TotalWeight(t') + degree;
    }
  }

  lemma Scaled(degree: nat, a: nat, b: nat)
    requires a <= b
    ensures degree * a <= degree * b
  {
  }

  /** A bound on the steps that are left: each change may queue as many edges as leave one value. */
  function Left(s: Stage, degree: nat): nat {
    |s.worklist| + degree * TotalWeight(s.t)
  }

  lemma {:induction false} RunUsesUp(g: Graph, roots: Roots, run: seq<Stage>, k: nat, degree: nat)
    requires g.Valid() && IsRun(g, roots, run) && k < |run| && DegreeAtMost(g, degree)
    ensures k + Left(run[k], degree) <= Left(run[0], degree)
  {
    hide Left, Take, Begins, DegreeAtMost;
    if k > 0 {
      RunUsesUp(g, roots, run, k - 1, degree);
      var s := run[k - 1];
      assert Next(g, s, run[k - 1 + 1]);
      var i: nat :| i < |s.worklist| && run[k] == Take(g, s, i);
      TakeUsesUp(g, s, i, degree);
    }
  }

  lemma {:induction false} RunInvariant(g: Graph, roots: Roots, run: seq<Stage>, k: nat)
    requires g.Valid() && IsRun(g, roots, run) && k < |run|
    ensures Invariant(g, roots, run[k].t, run[k].worklist)
  {
    hide Invariant, Take;
    if k == 0 {
      Dataflow.StartKeepsInvariant(g, roots, run[0].t, run[0].worklist);
    } else {
      RunInvariant(g, roots, run, k - 1);
      var s := run[k - 1];
      assert Next(g, s, run[k - 1 + 1]);
      var i: nat :| i < |s.worklist| && run[k] == Take(g, s, i);
      TakeKeepsInvariant(g, roots, s, i);
    }
  }

  /** Every run, in whatever order edges are taken, has a bounded length. */
  lemma RunIsShort(g: Graph, roots: Roots, run: seq<Stage>, degree: nat)
    requires g.Valid() && IsRun(g, roots, run) && DegreeAtMost(g, degree)
    ensures |run| <= 1 + |run[0].worklist| + degree * Budget(g.nest)
  {
    hide TotalWeight, Budget;
    RunUsesUp(g, roots, run, |run| - 1, degree);
    assert run[0].t[0..] == run[0].t && g.nest[0..] == g.nest;
    Dataflow.BaseBudget(g, roots, run[0].t, 0);
    Scaled(degree, TotalWeight(run[0].t), Budget(g.nest));
  }

  /** A run that leaves no edge waiting has reached the least solution. */
  lemma RunReachesLeast(g: Graph, roots: Roots, run: seq<Stage>)
    requires g.Valid() && IsRun(g, roots, run) && run[|run| - 1].worklist == []
    ensures LeastSolution(g, roots, run[|run| - 1].t)
  {
    RunInvariant(g, roots, run, |run| - 1);
    EmptyWorklistSolves(g, roots, run[|run| - 1].t);
  }

  /** Any other run can go on with any of the edges that wait. */
  lemma RunGoesOn(g: Graph, roots: Roots, run: seq<Stage>, i: nat)
    requires g.Valid() && IsRun(g, roots, run) && i < |run[|run| - 1].worklist|
    ensures Fits(g, run[|run| - 1]) && IsRun(g, roots, run + [Take(g, run[|run| - 1], i)])
  {
    RunInvariant(g, roots, run, |run| - 1);
    TakeKeepsInvariant(g, roots, run[|run| - 1], i);
    RunExtends(g, roots, run, i);
  }

  lemma RunExtends(g: Graph, roots: Roots, run: seq<Stage>, i: nat)
    requires g.Valid() && IsRun(g, roots, run) && Fits(g, run[|run| - 1]) && i < |run[|run| - 1].worklist|
    ensures IsRun(g, roots, run + [Take(g, run[|run| - 1], i)])
  {
    var longer := run + [Take(g, run[|run| - 1], i)];
    forall k | 0 <= k < |longer| - 1
      ensures Next(g, longer[k], longer[k + 1])
    {
      if k < |run| - 1 {
        assert Next(g, run[k], run[k + 1]);
      }
    }
  }

  /** Two finished runs agree, however roots and edges were ordered and picked. */
  lemma RunsAgree(g: Graph, h: Graph, roots: Roots, p: seq<Stage>, q: seq<Stage>)
    requires g.Valid() && h.Valid() && SameEdges(g, h)
    requires IsRun(g, roots, p) && IsRun(h, roots, q)
    requires p[|p| - 1].worklist == [] && q[|q| - 1].worklist == []
    ensures p[|p| - 1].t == q[|q| - 1].t
  {
    RunReachesLeast(g, roots, p);
    RunReachesLeast(h, roots, q);
    LeastIsUnique(g, h, roots, p[|p| - 1].t, q[|q| - 1].t);
  }
}
