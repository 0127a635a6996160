/** Exploration by forking is an exact depth-first search. */
module Enumeration {
  import opened Outcomes
  import opened Exploration

  /** The result at the end of a path of choices, if it is one. */
  function LeafAt(t: Tree, path: seq<nat>): Option<Result> {
    match t
    case Leaf(r) => if path == [] then Some(r) else None
    case Choice(alts) => if path != [] && path[0] < |alts| then LeafAt(alts[path[0]], path[1..]) else None
  }

  /** Every choice along a path that is not of the greatest alternative is made at a depth that the
      bound has not reached. */
  predicate Admitted(cfg: Config, t: Tree, depth: nat, path: seq<nat>) {
    match t
    case Leaf(r) => path == []
    case Choice(alts) =>
      path != [] && path[0] < |alts| && (path[0] == |alts| - 1 || !cfg.Reached(depth)) &&
      Admitted(cfg, alts[path[0]], depth + |alts| - path[0], path[1..])
  }

  /** The admitted leaves of a tree, depth first, trying the greatest alternative of a choice first. */
  function Listing(cfg: Config, t: Tree, depth: nat, path: seq<nat>): seq<Visit>
    requires Proper(t)
    decreases t, 1, 0
  {
    match t
    case Leaf(r) => [Visit(path, r)]
    case Choice(alts) => ListingOfAlts(cfg, t, |alts|, depth, path)
  }

  function ListingOfAlts(cfg: Config, t: Tree, count: nat, depth: nat, path: seq<nat>): seq<Visit>
    requires Proper(t) && t.Choice? && 0 < count <= |t.alts|
    decreases t, 0, count
  {
    var v := count - 1;
    var first := Listing(cfg, t.alts[v], depth + |t.alts| - v, path + [v]);
    if v == 0 || cfg.Reached(depth) then first else first + ListingOfAlts(cfg, t, v, depth, path)
  }

  // ----- the listing has every admitted leaf once

  /** A visit of the listing below `prefix`, as a path from there. */
  predicate Lists(cfg: Config, t: Tree, depth: nat, prefix: seq<nat>, visit: Visit) {
    prefix <= visit.path && LeafAt(t, visit.path[|prefix|..]) == Some(visit.result) &&
    Admitted(cfg, t, depth, visit.path[|prefix|..])
  }

  /** Restricted to the `count` lowest alternatives, the greatest of which is always admitted. */
  predicate ListsAlt(cfg: Config, t: Tree, count: nat, depth: nat, prefix: seq<nat>, visit: Visit)
    requires t.Choice? && count <= |t.alts|
  {
    prefix <= visit.path && |visit.path| > |prefix| &&
    var v := visit.path[|prefix|];
    v < count && (v == count - 1 || !cfg.Reached(depth)) &&
    Lists(cfg, t.alts[v], depth + |t.alts| - v, prefix + [v], visit)
  }

  lemma {:induction false} ListingExact(cfg: Config, t: Tree, depth: nat, prefix: seq<nat>, visit: Visit)
    requires Proper(t)
    ensures visit in Listing(cfg, t, depth, prefix) <==> Lists(cfg, t, depth, prefix, visit)
    decreases t, 1, 0
  {
    match t
    case Leaf(r) =>
      assert prefix[|prefix|..] == [];
      if Lists(cfg, t, depth, prefix, visit) {
        assert visit.path == visit.path[..|prefix|] + visit.path[|prefix|..];
        assert visit == Visit(prefix, r);
      }
      assert Listing(cfg, t, depth, prefix) == [Visit(prefix, r)];
    case Choice(alts) =>
      AltsExact(cfg, t, |alts|, depth, prefix, visit);
      if prefix <= visit.path && |visit.path| > |prefix| {
        var p := visit.path[|prefix|..];
        assert p[1..] == visit.path[|prefix + [p[0]]|..];
        assert prefix + [p[0]] <= visit.path;
      }
  }

  lemma {:induction false} AltsExact(cfg: Config, t: Tree, count: nat, depth: nat, prefix: seq<nat>, visit: Visit)
    requires Proper(t) && t.Choice? && 0 < count <= |t.alts|
    ensures visit in ListingOfAlts(cfg, t, count, depth, prefix) <==> ListsAlt(cfg, t, count, depth, prefix, visit)
    decreases t, 0, count
  {
    var v := count - 1;
    ListingExact(cfg, t.alts[v], depth + |t.alts| - v, prefix + [v], visit);
    if Lists(cfg, t.alts[v], depth + |t.alts| - v, prefix + [v], visit) {
      assert visit.path[|prefix|] == (prefix + [v])[|prefix|] == v;
      assert prefix <= visit.path;
    }
    if v > 0 && !cfg.Reached(depth) {
      AltsExact(cfg, t, v, depth, prefix, visit);
    }
  }

  ghost predicate Distinct(visits: seq<Visit>) {
    forall i, j :: 0 <= i < j < |visits| ==> visits[i].path != visits[j].path
  }

  lemma {:induction false} ListingDistinct(cfg: Config, t: Tree, depth: nat, prefix: seq<nat>)
    requires Proper(t)
    ensures Distinct(Listing(cfg, t, depth, prefix))
    decreases t, 1, 0
  {
    if t.Choice? {
      AltsDistinct(cfg, t, |t.alts|, depth, prefix);
    }
  }

  lemma {:induction false} AltsDistinct(cfg: Config, t: Tree, count: nat, depth: nat, prefix: seq<nat>)
    requires Proper(t) && t.Choice? && 0 < count <= |t.alts|
    ensures Distinct(ListingOfAlts(cfg, t, count, depth, prefix))
    decreases t, 0, count
  {
    var v := count - 1;
    ListingDistinct(cfg, t.alts[v], depth + |t.alts| - v, prefix + [v]);
    if v > 0 && !cfg.Reached(depth) {
      AltsDistinct(cfg, t, v, depth, prefix);
      var first := Listing(cfg, t.alts[v], depth + |t.alts| - v, prefix + [v]);
      var rest := ListingOfAlts(cfg, t, v, depth, prefix);
      forall a, b | a in first && b in rest ensures a.path != b.path {
        ListingExact(cfg, t.alts[v], depth + |t.alts| - v, prefix + [v], a);
        AltsExact(cfg, t, v, depth, prefix, b);
        assert a.path[|prefix|] == (prefix + [v])[|prefix|] == v;
      }
    }
  }

  // ----- exploring visits the listing up to the first failure

  predicate Fails(visit: Visit) {
    visit.result.AssertFails?
  }

  /** Up to and including the first failure. */
  function Cut(visits: seq<Visit>): seq<Visit> {
    if visits == [] then []
    else if Fails(visits[0]) then [visits[0]]
    else [visits[0]] + Cut(visits[1..])
  }

  predicate SomeFails(visits: seq<Visit>) {
    exists i :: 0 <= i < |visits| && Fails(visits[i])
  }

  lemma {:induction false} CutAppend(a: seq<Visit>, b: seq<Visit>)
    ensures SomeFails(a) ==> Cut(a + b) == Cut(a) && SomeFails(a + b)
    ensures !SomeFails(a) ==> Cut(a + b) == a + Cut(b) && (SomeFails(a + b) <==> SomeFails(b))
    ensures !SomeFails(a) ==> Cut(a) == a
  {
    if a == [] {
      assert a + b == b;
    } else {
      CutAppend(a[1..], b);
      assert (a + b)[1..] == a[1..] + b;
      assert a == [a[0]] + a[1..];
      SomeFailsSplit([a[0]], a[1..]);
      SomeFailsSplit(a, b);
    }
  }

  lemma SomeFailsSplit(a: seq<Visit>, b: seq<Visit>)
    ensures SomeFails(a + b) <==> SomeFails(a) || SomeFails(b)
  {
    if SomeFails(a) {
      var i :| 0 <= i < |a| && Fails(a[i]);
      assert Fails((a + b)[i]);
    }
    if SomeFails(b) {
      var i :| 0 <= i < |b| && Fails(b[i]);
      assert Fails((a + b)[|a| + i]);
    }
  }

  // ----- when exploration is the whole search

  /** Some admitted leaf fails. */
  predicate HasFailure(cfg: Config, t: Tree, depth: nat)
    requires Proper(t)
    decreases t, 1, 0
  {
    match t
    case Leaf(r) => r.AssertFails?
    case Choice(alts) => AltsHaveFailure(cfg, t, |alts|, depth)
  }

  predicate AltsHaveFailure(cfg: Config, t: Tree, count: nat, depth: nat)
    requires Proper(t) && t.Choice? && 0 < count <= |t.alts|
    decreases t, 0, count
  {
    var v := count - 1;
    HasFailure(cfg, t.alts[v], depth + |t.alts| - v) ||
    (v > 0 && !cfg.Reached(depth) && AltsHaveFailure(cfg, t, v, depth))
  }

  /** The code a process ends with when nothing fails: that of the leaf at which it has taken alternative 0
      of every choice, or 0 if it stops at a reached bound after its first child. */
  function EndCode(cfg: Config, t: Tree, depth: nat): nat
    requires Proper(t)
  {
    match t
    case Leaf(r) => cfg.CodeOf(r)
    case Choice(alts) => if |alts| > 1 && cfg.Reached(depth) then 0 else EndCode(cfg, alts[0], depth + |alts|)
  }

  /** At every choice that is reached before the first failure, below the bound, each alternative but the
      last one to be tried ends its process with code 0. */
  predicate Complete(cfg: Config, t: Tree, depth: nat)
    requires Proper(t)
    decreases t, 1, 0
  {
    match t
    case Leaf(_) => true
    case Choice(alts) => CompleteAlts(cfg, t, |alts|, depth)
  }

  predicate CompleteAlts(cfg: Config, t: Tree, count: nat, depth: nat)
    requires Proper(t) && t.Choice? && 0 < count <= |t.alts|
    decreases t, 0, count
  {
    var v := count - 1;
    var depth' := depth + |t.alts| - v;
    Complete(cfg, t.alts[v], depth') &&
    (v == 0 || cfg.Reached(depth) || HasFailure(cfg, t.alts[v], depth') ||
     (EndCode(cfg, t.alts[v], depth') == 0 && CompleteAlts(cfg, t, v, depth)))
  }

  lemma {:induction false} FailureListed(cfg: Config, t: Tree, depth: nat, path: seq<nat>)
    requires Proper(t)
    ensures HasFailure(cfg, t, depth) <==> SomeFails(Listing(cfg, t, depth, path))
    decreases t, 1, 0
  {
    match t
    case Leaf(r) => assert Listing(cfg, t, depth, path)[0] == Visit(path, r);
    case Choice(alts) => AltsFailureListed(cfg, t, |alts|, depth, path);
  }

  lemma {:induction false} AltsFailureListed(cfg: Config, t: Tree, count: nat, depth: nat, path: seq<nat>)
    requires Proper(t) && t.Choice? && 0 < count <= |t.alts|
    ensures AltsHaveFailure(cfg, t, count, depth) <==> SomeFails(ListingOfAlts(cfg, t, count, depth, path))
    decreases t, 0, count
  {
    var v := count - 1;
    FailureListed(cfg, t.alts[v], depth + |t.alts| - v, path + [v]);
    if v > 0 && !cfg.Reached(depth) {
      AltsFailureListed(cfg, t, v, depth, path);
      SomeFailsSplit(Listing(cfg, t.alts[v], depth + |t.alts| - v, path + [v]), ListingOfAlts(cfg, t, v, depth, path));
    }
  }

  /** A complete tree is explored up to and including the first failure. */
  lemma {:induction false} ExploreComplete(cfg: Config, t: Tree, depth: nat, path: seq<nat>)
    requires Proper(t) && Complete(cfg, t, depth)
    ensures var r, l := Explore(cfg, t, depth, path, false), Listing(cfg, t, depth, path);
            r.visits == Cut(l) && (r.error <==> SomeFails(l)) && (!r.error ==> r.code == EndCode(cfg, t, depth))
    decreases t, 1, 0
  {
    match t
    case Leaf(r) => assert Listing(cfg, t, depth, path)[0] == Visit(path, r);
    case Choice(alts) => ExploreAltsComplete(cfg, t, |alts|, depth, path);
  }

  lemma {:induction false} ExploreAltsComplete(cfg: Config, t: Tree, count: nat, depth: nat, path: seq<nat>)
    requires Proper(t) && t.Choice? && 0 < count <= |t.alts| && CompleteAlts(cfg, t, count, depth)
    ensures var r, l := ExploreAlts(cfg, t, count, depth, path, false), ListingOfAlts(cfg, t, count, depth, path);
            r.visits == Cut(l) && (r.error <==> SomeFails(l)) &&
            (!r.error ==>
               r.code == if count > 1 && cfg.Reached(depth) then 0 else EndCode(cfg, t.alts[0], depth + |t.alts|))
    decreases t, 0, count
  {
    var v := count - 1;
    var first := Listing(cfg, t.alts[v], depth + |t.alts| - v, path + [v]);
    ExploreComplete(cfg, t.alts[v], depth + |t.alts| - v, path + [v]);
    FailureListed(cfg, t.alts[v], depth + |t.alts| - v, path + [v]);
    CutAppend(first, []);
    assert first + [] == first;
    if v > 0 && !cfg.Reached(depth) {
      if !SomeFails(first) {
        ExploreAltsComplete(cfg, t, v, depth, path);
      }
      CutAppend(first, ListingOfAlts(cfg, t, v, depth, path));
    }
  }

  /** Visits below a prefix, and from one of the `count` lowest alternatives there. */
  ghost predicate Under(visits: seq<Visit>, path: seq<nat>, count: nat) {
    forall x <- visits :: path <= x.path && |x.path| > |path| && x.path[|path|] < count
  }

  lemma {:induction false} VisitsUnder(cfg: Config, t: Tree, depth: nat, path: seq<nat>, error: bool)
    requires Proper(t)
    ensures forall x <- Explore(cfg, t, depth, path, error).visits :: path <= x.path
    decreases t, 1, 0
  {
    if t.Choice? {
      AltsVisitsUnder(cfg, t, |t.alts|, depth, path, error);
    }
  }

  lemma {:induction false} AltsVisitsUnder(cfg: Config, t: Tree, count: nat, depth: nat, path: seq<nat>, error: bool)
    requires Proper(t) && t.Choice? && 0 < count <= |t.alts|
    ensures Under(ExploreAlts(cfg, t, count, depth, path, error).visits, path, count)
    decreases t, 0, count
  {
    var v := count - 1;
    var child := Explore(cfg, t.alts[v], depth + |t.alts| - v, path + [v], error);
    VisitsUnder(cfg, t.alts[v], depth + |t.alts| - v, path + [v], error);
    forall x <- child.visits
      ensures path <= x.path && |x.path| > |path| && x.path[|path|] == v
    {
      assert x.path[|path|] == (path + [v])[|path|];
    }
    if v > 0 && !Stops(cfg, depth, child.error, child.code) {
      AltsVisitsUnder(cfg, t, v, depth, path, child.error);
    }
  }

  lemma CutWithin(visits: seq<Visit>, x: Visit)
    ensures x in Cut(visits) ==> x in visits
  {
    if visits != [] && !Fails(visits[0]) {
      CutWithin(visits[1..], x);
    }
  }

  lemma ListingInhabited(cfg: Config, t: Tree, count: nat, depth: nat, path: seq<nat>)
    requires Proper(t) && t.Choice? && 0 < count <= |t.alts|
    ensures ListingOfAlts(cfg, t, count, depth, path) != []
    decreases t, count
  {
    var v := count - 1;
    if t.alts[v].Choice? {
      ListingInhabited(cfg, t.alts[v], |t.alts[v].alts|, depth + |t.alts| - v, path + [v]);
    }
  }

  /** A tree that is not complete hides a leaf that the search has to visit. */
  lemma {:induction false} ExploreMisses(cfg: Config, t: Tree, depth: nat, path: seq<nat>) returns (x: Visit)
    requires Proper(t) && !Complete(cfg, t, depth)
    ensures x in Cut(Listing(cfg, t, depth, path)) && x !in Explore(cfg, t, depth, path, false).visits
    decreases t, 1, 0
  {
    x := ExploreAltsMiss(cfg, t, |t.alts|, depth, path);
  }

  lemma {:induction false} ExploreAltsMiss(cfg: Config, t: Tree, count: nat, depth: nat,
                                           path: seq<nat>) returns (x: Visit)
    requires Proper(t) && t.Choice? && 0 < count <= |t.alts| && !CompleteAlts(cfg, t, count, depth)
    ensures x in Cut(ListingOfAlts(cfg, t, count, depth, path))
    ensures x !in ExploreAlts(cfg, t, count, depth, path, false).visits
    decreases t, 0, count
  {
    var v := count - 1;
    var depth' := depth + |t.alts| - v;
    if Complete(cfg, t.alts[v], depth') {
      x := LaterMiss(cfg, t, count, depth, path);
    } else {
      x := ExploreMisses(cfg, t.alts[v], depth', path + [v]);
      ChildMiss(cfg, t, count, depth, path, x);
    }
  }

  /** What a child's exploration misses is missed for good: the alternatives tried later have other paths. */
  lemma ChildMiss(cfg: Config, t: Tree, count: nat, depth: nat, path: seq<nat>, x: Visit)
    requires Proper(t) && t.Choice? && 0 < count <= |t.alts|
    requires var v := count - 1;
             x in Cut(Listing(cfg, t.alts[v], depth + |t.alts| - v, path + [v])) &&
             x !in Explore(cfg, t.alts[v], depth + |t.alts| - v, path + [v], false).visits
    ensures x in Cut(ListingOfAlts(cfg, t, count, depth, path))
    ensures x !in ExploreAlts(cfg, t, count, depth, path, false).visits
  {
    var v := count - 1;
    var first := Listing(cfg, t.alts[v], depth + |t.alts| - v, path + [v]);
    CutWithin(first, x);
    ListingExact(cfg, t.alts[v], depth + |t.alts| - v, path + [v], x);
    assert x.path[|path|] == (path + [v])[|path|] == v;
    var child := Explore(cfg, t.alts[v], depth + |t.alts| - v, path + [v], false);
    if v > 0 {
      if !cfg.Reached(depth) {
        CutAppend(first, ListingOfAlts(cfg, t, v, depth, path));
      }
      if !Stops(cfg, depth, child.error, child.code) {
        AltsVisitsUnder(cfg, t, v, depth, path, child.error);
      }
    }
  }

  /** A complete child that fails nowhere and is followed by alternatives that are not tried, or not completely. */
  lemma {:induction false} LaterMiss(cfg: Config, t: Tree, count: nat, depth: nat, path: seq<nat>) returns (x: Visit)
    requires Proper(t) && t.Choice? && 0 < count <= |t.alts| && !CompleteAlts(cfg, t, count, depth)
    requires Complete(cfg, t.alts[count - 1], depth + |t.alts| - (count - 1))
    ensures x in Cut(ListingOfAlts(cfg, t, count, depth, path))
    ensures x !in ExploreAlts(cfg, t, count, depth, path, false).visits
    decreases t, 0, count, 0
  {
    hide Listing, Cut, ExploreAlts, Complete;
    var v := count - 1;
    if EndCode(cfg, t.alts[v], depth + |t.alts| - v) == 0 {
      x := ExploreAltsMiss(cfg, t, v, depth, path);
    } else {
      x := FirstOf(cfg, t, v, depth, path);
    }
    RestMiss(cfg, t, count, depth, path, x);
  }

  lemma FirstOf(cfg: Config, t: Tree, count: nat, depth: nat, path: seq<nat>) returns (x: Visit)
    requires Proper(t) && t.Choice? && 0 < count <= |t.alts|
    ensures x in Cut(ListingOfAlts(cfg, t, count, depth, path))
  {
    ListingInhabited(cfg, t, count, depth, path);
    x := Cut(ListingOfAlts(cfg, t, count, depth, path))[0];
  }

  /** What is missed of the alternatives tried later is not found earlier. */
  lemma RestMiss(cfg: Config, t: Tree, count: nat, depth: nat, path: seq<nat>, x: Visit)
    requires Proper(t) && t.Choice? && 1 < count <= |t.alts| && !cfg.Reached(depth)
    requires var (c, d) := (t.alts[count - 1], depth + |t.alts| - (count - 1));
             Complete(cfg, c, d) && !HasFailure(cfg, c, d) &&
             (EndCode(cfg, c, d) == 0 ==> x !in ExploreAlts(cfg, t, count - 1, depth, path, false).visits)
    requires x in Cut(ListingOfAlts(cfg, t, count - 1, depth, path))
    ensures x in Cut(ListingOfAlts(cfg, t, count, depth, path))
    ensures x !in ExploreAlts(cfg, t, count, depth, path, false).visits
  {
    hide Listing, Explore, Complete, HasFailure, EndCode, Cut;
    var v := count - 1;
    var depth' := depth + |t.alts| - v;
    var first, rest := Listing(cfg, t.alts[v], depth', path + [v]), ListingOfAlts(cfg, t, v, depth, path);
    ExploreComplete(cfg, t.alts[v], depth', path + [v]);
    FailureListed(cfg, t.alts[v], depth', path + [v]);
    CutAppend(first, rest);
    CutWithin(rest, x);
    AltsExact(cfg, t, v, depth, path, x);
    VisitsUnder(cfg, t.alts[v], depth', path + [v], false);
    OnPath(path, v, x.path);
  }

  lemma OnPath(path: seq<nat>, v: nat, p: seq<nat>)
    ensures path + [v] <= p ==> |p| > |path| && p[|path|] == v
  {
    assert (path + [v])[|path|] == v;
  }

  /** Exploration visits exactly the search up to the first failure if and only if the tree is complete. */
  lemma ExploreExact(cfg: Config, t: Tree, depth: nat, path: seq<nat>)
    requires Proper(t)
    ensures Explore(cfg, t, depth, path, false).visits == Cut(Listing(cfg, t, depth, path)) <==> Complete(cfg, t, depth)
    ensures Complete(cfg, t, depth) ==>
              (Explore(cfg, t, depth, path, false).error <==> SomeFails(Listing(cfg, t, depth, path)))
  {
    if Complete(cfg, t, depth) {
      ExploreComplete(cfg, t, depth, path);
    } else {
      var x := ExploreMisses(cfg, t, depth, path);
    }
  }

  /** Where every leaf exits with 0 or cancels or fails an assertion, the tree is complete, whatever the bound. */
  predicate ExitsWell(t: Tree) {
    match t
    case Leaf(r) => r.Exit? ==> r.code == 0
    case Choice(alts) => forall i :: 0 <= i < |alts| ==> ExitsWell(alts[i])
  }

  lemma {:induction false} ExitsWellComplete(cfg: Config, t: Tree, depth: nat)
    requires Proper(t) && ExitsWell(t)
    ensures Complete(cfg, t, depth) && (EndCode(cfg, t, depth) != 0 ==> HasFailure(cfg, t, depth))
    decreases t, 1, 0
  {
    if t.Choice? {
      AltsExitWell(cfg, t, |t.alts|, depth);
    }
  }

  lemma {:induction false} AltsExitWell(cfg: Config, t: Tree, count: nat, depth: nat)
    requires Proper(t) && ExitsWell(t) && t.Choice? && 0 < count <= |t.alts|
    ensures CompleteAlts(cfg, t, count, depth)
    ensures (count == 1 || !cfg.Reached(depth)) && EndCode(cfg, t.alts[0], depth + |t.alts|) != 0 ==>
              AltsHaveFailure(cfg, t, count, depth)
    decreases t, 0, count
  {
    ExitsWellComplete(cfg, t.alts[count - 1], depth + |t.alts| - (count - 1));
    if count > 1 {
      AltsExitWell(cfg, t, count - 1, depth);
    }
  }

  /** Forking explores exactly when the tree is complete: then, and only then, every run that ends has visited,
      in this order, the admitted leaves of the tree up to and including the first that fails; and the error
      flag says whether there is one. */
  lemma RunSearches(cfg: Config, root: Tree, states: seq<System>)
    requires Proper(root) && IsRun(cfg, root, states) && Final(cfg, states[|states| - 1])
    ensures states[|states| - 1].visited == Cut(Listing(cfg, root, 0, [])) <==> Complete(cfg, root, 0)
    ensures Complete(cfg, root, 0) ==> (states[|states| - 1].error <==> SomeFails(Listing(cfg, root, 0, [])))
  {
    RunExplores(cfg, root, states);
    ExploreExact(cfg, root, 0, []);
  }

  ghost predicate VisitsAll(cfg: Config, root: Tree, visited: seq<Visit>) {
    Distinct(visited) &&
    forall visit: Visit :: visit in visited <==>
      LeafAt(root, visit.path) == Some(visit.result) && Admitted(cfg, root, 0, visit.path)
  }

  /** If no admitted leaf fails, each admitted leaf is visited, once, and nothing else is, if and only if the
      tree is complete. */
  lemma RunVisitsAll(cfg: Config, root: Tree, states: seq<System>)
    requires Proper(root) && IsRun(cfg, root, states) && Final(cfg, states[|states| - 1])
    requires !HasFailure(cfg, root, 0)
    ensures VisitsAll(cfg, root, states[|states| - 1].visited) <==> Complete(cfg, root, 0)
    ensures Complete(cfg, root, 0) ==> !states[|states| - 1].error
  {
    var start: seq<nat> := [];
    var l := Listing(cfg, root, 0, start);
    FailureListed(cfg, root, 0, start);
    RunSearches(cfg, root, states);
    RunExplores(cfg, root, states);
    CutAppend(l, []);
    assert l + [] == l;
    ListingDistinct(cfg, root, 0, start);
    forall visit: Visit
      ensures visit in l <==> LeafAt(root, visit.path) == Some(visit.result) && Admitted(cfg, root, 0, visit.path)
    {
      ListingExact(cfg, root, 0, start, visit);
      assert visit.path[0..] == visit.path;
    }
    if !Complete(cfg, root, 0) {
      var x := ExploreMisses(cfg, root, 0, start);
      assert x in l && x !in states[|states| - 1].visited;
    }
  }

  /** Without a bound every leaf is admitted. */
  lemma {:induction false} UnboundedAdmits(cfg: Config, t: Tree, depth: nat, path: seq<nat>)
    requires cfg.bound == 0
    ensures Admitted(cfg, t, depth, path) <==> LeafAt(t, path).Some?
  {
    if t.Choice? && path != [] && path[0] < |t.alts| {
      UnboundedAdmits(cfg, t.alts[path[0]], depth + |t.alts| - path[0], path[1..]);
    }
  }

  /** A leaf that exits with another code cuts the search short: the failing alternative 0 is never
      tried after alternative 1 has exited with 3, and no error is found. */
  lemma NonzeroExitHidesFailure(cfg: Config)
    ensures var t := Choice([Leaf(AssertFails), Leaf(Exit(3))]);
            LeafAt(t, [0]) == Some(AssertFails) &&
            Explore(cfg, t, 0, [], false) == Report([Visit([1], Exit(3))], false, 0)
  {
    var t := Choice([Leaf(AssertFails), Leaf(Exit(3))]);
    assert LeafAt(t.alts[0], [0][1..]) == Some(AssertFails);
    assert Proper(t.alts[0]) && Proper(t.alts[1]);
    var start: seq<nat> := [];
    assert start + [1] == [1];
    assert Explore(cfg, t.alts[1], 1, start + [1], false) == Report([Visit([1], Exit(3))], false, 3);
    assert [Visit([1], Exit(3))] + [] == [Visit([1], Exit(3))];
    assert Explore(cfg, t, 0, start, false) == ExploreAlts(cfg, t, 2, 0, start, false);
  }
}
