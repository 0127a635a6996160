/**
 Exploring choices by forking.  A process that chooses forks a child for the greatest alternative,
 waits for it, and goes on to the next one itself.  The processes share only an error flag.
 A program is a tree of choices; `Explore` says what running it comes to.
 */
module Exploration {
  import opened Outcomes

  /** How a leaf ends its process. */
  datatype Result = Exit(code: nat) | Cancel | AssertFails

  datatype Tree = Leaf(result: Result) | Choice(alts: seq<Tree>)

  /** Every choice is among at least one alternative, and exit codes are bytes. */
  predicate Proper(t: Tree) {
    match t
    case Leaf(r) => r.Exit? ==> r.code < 256
    case Choice(alts) => |alts| > 0 && forall i :: 0 <= i < |alts| ==> Proper(alts[i])
  }

  /** A bound on the depth of choices (0 for none), and whether failing exits with success. */
  datatype Config = Config(bound: nat, noFail: bool) {
    predicate Reached(depth: nat) {
      bound != 0 && depth >= bound
    }

    function CodeOf(r: Result): nat {
      match r
      case Exit(code) => code
      case Cancel => 0
      case AssertFails => if noFail then 0 else 1
    }
  }

  /** A leaf that was reached, and the choices that led there. */
  datatype Visit = Visit(path: seq<nat>, result: Result)

  // ----- what exploring comes to

  /** The leaves visited in order, the error flag afterwards, and the exit code of the process. */
  datatype Report = Report(visits: seq<Visit>, error: bool, code: nat)

  /** What a waiting process does about its child: `exit` of a nonzero wait status (the child's code
      shifted left by a byte) exits with code 0, as do an error and a reached bound. */
  predicate Stops(cfg: Config, depth: nat, error: bool, code: nat) {
    code != 0 || error || cfg.Reached(depth)
  }

  function Explore(cfg: Config, t: Tree, depth: nat, path: seq<nat>, error: bool): (r: Report)
    requires Proper(t)
    decreases t, 1, 0, 0
  {
    match t
    case Leaf(result) => Report([Visit(path, result)], error || result.AssertFails?, cfg.CodeOf(result))
    case Choice(alts) => ExploreAlts(cfg, t, |alts|, depth, path, error)
  }

  /** The process is left with the `count` lowest alternatives. */
  function ExploreAlts(cfg: Config, t: Tree, count: nat, depth: nat, path: seq<nat>, error: bool): (r: Report)
    requires Proper(t) && t.Choice? && 0 < count <= |t.alts|
    decreases t, 0, count, 0
  {
    var v := count - 1;
    var child := Explore(cfg, t.alts[v], depth + |t.alts| - v, path + [v], error);
    if v == 0 then child
    else
      var rest := Resume(cfg, t, v, depth, path, child.error, child.code);
      Report(child.visits + rest.visits, rest.error, rest.code)
  }

  /** What a process that waited for alternative `count` does next. */
  function Resume(cfg: Config, t: Tree, count: nat, depth: nat, path: seq<nat>, error: bool, code: nat): Report
    requires Proper(t) && t.Choice? && 0 < count < |t.alts|
    decreases t, 0, count, 1
  {
    if Stops(cfg, depth, error, code) then Report([], error, 0)
    else ExploreAlts(cfg, t, count, depth, path, error)
  }

  // ----- the processes

  /** A process is about to make the innermost of `frames` nested calls of `choose`, for `count`
      alternatives (or is at a leaf); or waits for a child that took alternative `count - 1`. */
  datatype Proc =
    | Running(t: Tree, count: nat, frames: nat, depth: nat, trace: seq<nat>, path: seq<nat>)
    | Waiting(child: nat, t: Tree, count: nat, frames: nat, depth: nat, trace: seq<nat>, path: seq<nat>)
    | Exited(code: nat)

  datatype System = System(procs: seq<Proc>, error: bool, visited: seq<Visit>)

  /** Enter a subtree: at a choice, the first call of `choose` is made. */
  function Enter(t: Tree, depth: nat, trace: seq<nat>, path: seq<nat>): Proc {
    Running(t, if t.Choice? then |t.alts| else 0, 1, depth, trace, path)
  }

  /** Returning `v` through `frames` nested calls: each traces the value and counts it. */
  function Unwind(frames: nat, v: nat, depth: nat, trace: seq<nat>): (nat, seq<nat>) {
    if frames == 0 then (depth, trace) else Unwind(frames - 1, v, depth + 1, trace + [v])
  }

  /** The process that `choose` returns `v` to. */
  function Return(t: Tree, v: nat, frames: nat, depth: nat, trace: seq<nat>, path: seq<nat>): Proc
    requires t.Choice? && v < |t.alts|
  {
    var (depth', trace') := Unwind(frames, v, depth, trace);
    Enter(t.alts[v], depth', trace', path + [v])
  }

  /** The wait status of a child, and the code that `exit` of a status ends with. */
  function WaitStatus(code: nat): nat {
    code % 256 * 256
  }

  function ExitCode(status: nat): nat {
    status % 256
  }

  /** `check_terminate`: the code the process exits with, if it does. */
  function CheckTerminate(cfg: Config, status: nat, error: bool, depth: nat): Option<nat> {
    if status != 0 then Some(ExitCode(status))
    else if error then Some(0)
    else if cfg.Reached(depth) then Some(0)
    else None
  }

  function Init(t: Tree): System {
    System([Enter(t, 0, [], [])], false, [])
  }

  /** A step of process `pid`, if it can take one. */
  function Step(cfg: Config, s: System, pid: nat): Option<System>
    requires pid < |s.procs|
  {
    match s.procs[pid]
    case Exited(_) => None
    case Running(t, count, frames, depth, trace, path) =>
      if t.Leaf? then
        Some(System(s.procs[pid := Exited(cfg.CodeOf(t.result))], s.error || t.result.AssertFails?,
                    s.visited + [Visit(path, t.result)]))
      else if count == 0 || count > |t.alts| then None
      else if count == 1 then
        Some(s.(procs := s.procs[pid := Return(t, 0, frames, depth, trace, path)]))
      else
        var parent := Waiting(|s.procs|, t, count, frames, depth, trace, path);
        var child := Return(t, count - 1, frames, depth, trace, path);
        Some(s.(procs := s.procs[pid := parent] + [child]))
    case Waiting(child, t, count, frames, depth, trace, path) =>
      if child < |s.procs| && s.procs[child].Exited? && count > 0 then
        var next := match CheckTerminate(cfg, WaitStatus(s.procs[child].code), s.error, depth)
                    case Some(code) => Exited(code)
                    case None => Running(t, count - 1, frames + 1, depth, trace, path);
        Some(s.(procs := s.procs[pid := next]))
      else None
  }

  // ----- choices count their distance from the greatest

  lemma {:induction false} UnwindAdds(frames: nat, v: nat, depth: nat, trace: seq<nat>)
    ensures Unwind(frames, v, depth, trace) == (depth + frames, trace + seq(frames, _ => v))
  {
    if frames == 0 {
      assert trace + seq(0, _ => v) == trace;
    } else {
      UnwindAdds(frames - 1, v, depth + 1, trace + [v]);
      assert trace + [v] + seq(frames - 1, _ => v) == trace + seq(frames, _ => v);
    }
  }

  /** The calls nested in a process and the alternatives left add up. */
  predicate Counted(p: Proc) {
    match p
    case Exited(code) => code < 256
    case Running(t, count, frames, depth, trace, path) =>
      Proper(t) && |trace| == depth && (t.Choice? ==> 0 < count <= |t.alts| && frames + count == |t.alts| + 1)
    case Waiting(_, t, count, frames, depth, trace, path) =>
      Proper(t) && |trace| == depth && t.Choice? && 1 < count <= |t.alts| && frames + count == |t.alts| + 1
  }

  /** Taking value `v` of a choice among `n` adds exactly `n - v` to the depth, and as many entries of
      `v` to the trace. */
  lemma ReturnCounts(t: Tree, v: nat, frames: nat, depth: nat, trace: seq<nat>, path: seq<nat>)
    requires Proper(t) && t.Choice? && v < |t.alts| && frames == |t.alts| - v && |trace| == depth
    ensures var p := Return(t, v, frames, depth, trace, path);
            p == Enter(t.alts[v], depth + |t.alts| - v, trace + seq(|t.alts| - v, _ => v), path + [v]) && Counted(p)
  {
    UnwindAdds(frames, v, depth, trace);
  }

  // ----- the waiting processes form one chain

  /** From the first process on, each process of the chain waits for the next; the last one does not
      wait, and every process outside the chain has exited. */
  ghost predicate IsChain(s: System, chain: seq<nat>) {
    && |chain| > 0 && chain[0] == 0
    && (forall k :: 0 <= k < |chain| ==> chain[k] < |s.procs|)
    && (forall j, k :: 0 <= j < k < |chain| ==> chain[j] != chain[k])
    && (forall k :: 0 <= k < |chain| - 1 ==> s.procs[chain[k]].Waiting? && s.procs[chain[k]].child == chain[k + 1])
    && !s.procs[chain[|chain| - 1]].Waiting?
    && (forall p :: 0 <= p < |s.procs| && p !in chain ==> s.procs[p].Exited?)
    && (forall p :: 0 <= p < |s.procs| ==> Counted(s.procs[p]))
  }

  predicate WaitsAt(procs: seq<Proc>, p: nat) {
    p < |procs| && procs[p].Waiting? && Counted(procs[p])
  }

  /** What the last process of the chain still does by itself. */
  function Now(cfg: Config, p: Proc, error: bool): Report
    requires Counted(p) && !p.Waiting?
  {
    match p
    case Exited(code) => Report([], error, code)
    case Running(t, count, frames, depth, trace, path) =>
      if t.Leaf? then Explore(cfg, t, depth, path, error) else ExploreAlts(cfg, t, count, depth, path, error)
  }

  /** What follows when the process at position `k` of the chain has come to `r`: the ones above it
      resume in turn. */
  function Follow(cfg: Config, procs: seq<Proc>, chain: seq<nat>, k: nat, r: Report): Report
    requires k < |chain|
    requires forall j :: 0 <= j < k ==> WaitsAt(procs, chain[j])
    decreases k
  {
    if k == 0 then r
    else
      assert WaitsAt(procs, chain[k - 1]);
      var p := procs[chain[k - 1]];
      var next := Resume(cfg, p.t, p.count - 1, p.depth, p.path, r.error, r.code);
      Follow(cfg, procs, chain, k - 1, Report(r.visits + next.visits, next.error, next.code))
  }

  /** What the whole system comes to from here, with what it has visited. */
  ghost function Prospect(cfg: Config, s: System, chain: seq<nat>): Report
    requires IsChain(s, chain)
  {
    var last := |chain| - 1;
    var now := Now(cfg, s.procs[chain[last]], s.error);
    Follow(cfg, s.procs, chain, last, Report(s.visited + now.visits, now.error, now.code))
  }

  lemma {:induction false} FollowFrame(cfg: Config, procs: seq<Proc>, procs': seq<Proc>, chain: seq<nat>,
                                       chain': seq<nat>, k: nat, r: Report)
    requires k < |chain| && k < |chain'| && forall j :: 0 <= j < k ==> chain[j] == chain'[j]
    requires forall j :: 0 <= j < k ==> WaitsAt(procs, chain[j])
    requires forall j :: 0 <= j < k ==> chain[j] < |procs| && chain[j] < |procs'| && procs'[chain[j]] == procs[chain[j]]
    ensures Follow(cfg, procs, chain, k, r) == Follow(cfg, procs', chain', k, r)
    decreases k
  {
    if k > 0 {
      assert WaitsAt(procs, chain[k - 1]);
      var p := procs[chain[k - 1]];
      var next := Resume(cfg, p.t, p.count - 1, p.depth, p.path, r.error, r.code);
      FollowFrame(cfg, procs, procs', chain, chain', k - 1, Report(r.visits + next.visits, next.error, next.code));
    }
  }

  /** Only one process can take a step: the last of the chain, or the one that waits for it. */
  lemma OnlyOneEnabled(cfg: Config, s: System, chain: seq<nat>, pid: nat)
    requires IsChain(s, chain) && pid < |s.procs| && Step(cfg, s, pid).Some?
    ensures var last := |chain| - 1;
            if s.procs[chain[last]].Running? then pid == chain[last]
            else |chain| > 1 && pid == chain[last - 1]
  {
    var last := |chain| - 1;
    assert pid in chain;
    var k :| 0 <= k < |chain| && chain[k] == pid;
    if k < last {
      assert s.procs[pid].child == chain[k + 1];
    }
  }

  /** Unless the first process has exited, some process can take a step. */
  lemma NeverStuck(cfg: Config, s: System, chain: seq<nat>)
    requires IsChain(s, chain) && !(|chain| == 1 && s.procs[0].Exited?)
    ensures exists pid :: 0 <= pid < |s.procs| && Step(cfg, s, pid).Some?
  {
    var last := |chain| - 1;
    if s.procs[chain[last]].Running? {
      assert Counted(s.procs[chain[last]]);
      assert Step(cfg, s, chain[last]).Some?;
    } else {
      assert s.procs[chain[last - 1]].child == chain[last];
      assert Counted(s.procs[chain[last - 1]]);
      assert Step(cfg, s, chain[last - 1]).Some?;
    }
  }

  // ----- every step keeps the chain and what the system comes to

  lemma ChainWaits(s: System, chain: seq<nat>)
    requires IsChain(s, chain)
    ensures forall j :: 0 <= j < |chain| - 1 ==> WaitsAt(s.procs, chain[j])
  {
    forall j | 0 <= j < |chain| - 1 ensures WaitsAt(s.procs, chain[j]) {
      assert Counted(s.procs[chain[j]]);
    }
  }

  /** Entering a subtree is the start of exploring it. */
  lemma EnterExplores(cfg: Config, t: Tree, depth: nat, trace: seq<nat>, path: seq<nat>, error: bool)
    requires Proper(t) && |trace| == depth
    ensures Counted(Enter(t, depth, trace, path))
    ensures Now(cfg, Enter(t, depth, trace, path), error) == Explore(cfg, t, depth, path, error)
  {
  }

  /** The last process moves on by itself, or exits at a leaf. */
  predicate Moves(s: System, chain: seq<nat>) {
    |chain| > 0 && var pid := chain[|chain| - 1];
    pid < |s.procs| && s.procs[pid].Running? && (s.procs[pid].t.Leaf? || s.procs[pid].count == 1)
  }

  lemma MoveNow(cfg: Config, s: System, pid: nat, s': System)
    requires pid < |s.procs| && s.procs[pid].Running? && (s.procs[pid].t.Leaf? || s.procs[pid].count == 1)
    requires Counted(s.procs[pid]) && Step(cfg, s, pid) == Some(s')
    ensures |s'.procs| == |s.procs| && forall q :: 0 <= q < |s.procs| && q != pid ==> s'.procs[q] == s.procs[q]
    ensures !s'.procs[pid].Waiting? && Counted(s'.procs[pid])
    ensures var now, now' := Now(cfg, s.procs[pid], s.error), Now(cfg, s'.procs[pid], s'.error);
            s'.visited + now'.visits == s.visited + now.visits && now'.error == now.error && now'.code == now.code
  {
    var p := s.procs[pid];
    if p.t.Choice? {
      ReturnCounts(p.t, 0, p.frames, p.depth, p.trace, p.path);
      EnterExplores(cfg, p.t.alts[0], p.depth + |p.t.alts|, p.trace + seq(|p.t.alts|, _ => 0), p.path + [0], s.error);
    } else {
      var visit := [Visit(p.path, p.t.result)];
      assert s.visited + visit + [] == s.visited + visit;
    }
  }

  lemma MoveKeeps(cfg: Config, s: System, chain: seq<nat>, s': System)
    requires IsChain(s, chain) && Moves(s, chain) && Step(cfg, s, chain[|chain| - 1]) == Some(s')
    ensures IsChain(s', chain) && Prospect(cfg, s', chain) == Prospect(cfg, s, chain)
  {
    var last := |chain| - 1;
    var pid := chain[last];
    MoveNow(cfg, s, pid, s');
    ChainWaits(s, chain);
    var now := Now(cfg, s.procs[pid], s.error);
    FollowFrame(cfg, s.procs, s'.procs, chain, chain, last, Report(s.visited + now.visits, now.error, now.code));
  }

  /** The last process forks a child for its greatest alternative and waits for it. */
  lemma ForkChain(cfg: Config, s: System, chain: seq<nat>, s': System)
    requires IsChain(s, chain)
    requires var p := s.procs[chain[|chain| - 1]]; p.Running? && p.t.Choice? && p.count > 1
    requires Step(cfg, s, chain[|chain| - 1]) == Some(s')
    ensures IsChain(s', chain + [|s.procs|])
    ensures forall q :: 0 <= q < |s.procs| && q != chain[|chain| - 1] ==> s'.procs[q] == s.procs[q]
    ensures var p := s.procs[chain[|chain| - 1]];
            s'.procs[chain[|chain| - 1]] == Waiting(|s.procs|, p.t, p.count, p.frames, p.depth, p.trace, p.path)
    ensures var p := s.procs[chain[|chain| - 1]];
            s'.procs[|s.procs|] == Return(p.t, p.count - 1, p.frames, p.depth, p.trace, p.path)
    ensures s'.error == s.error && s'.visited == s.visited
  {
    hide Step, Return;
    var pid := chain[|chain| - 1];
    var p := s.procs[pid];
    ForkStep(cfg, s, pid, s');
    var parent := Waiting(|s.procs|, p.t, p.count, p.frames, p.depth, p.trace, p.path);
    ExtendChain(s, chain, s', parent, s'.procs[|s.procs|]);
  }

  lemma ForkStep(cfg: Config, s: System, pid: nat, s': System)
    requires pid < |s.procs| && Counted(s.procs[pid]) && Step(cfg, s, pid) == Some(s')
    requires var p := s.procs[pid]; p.Running? && p.t.Choice? && p.count > 1
    ensures var p := s.procs[pid];
            var child := Return(p.t, p.count - 1, p.frames, p.depth, p.trace, p.path);
            s'.procs == s.procs[pid := Waiting(|s.procs|, p.t, p.count, p.frames, p.depth, p.trace, p.path)] + [child]
            && Counted(child) && !child.Waiting?
    ensures s'.error == s.error && s'.visited == s.visited
  {
    var p := s.procs[pid];
    ReturnCounts(p.t, p.count - 1, p.frames, p.depth, p.trace, p.path);
  }

  /** A chain whose last process now waits for a new one goes on with that one. */
  lemma ExtendChain(s: System, chain: seq<nat>, s': System, parent: Proc, child: Proc)
    requires IsChain(s, chain) && s'.procs == s.procs[chain[|chain| - 1] := parent] + [child]
    requires parent.Waiting? && parent.child == |s.procs| && Counted(parent) && Counted(child) && !child.Waiting?
    ensures IsChain(s', chain + [|s.procs|])
  {
    hide Counted;
    var longer := chain + [|s.procs|];
    forall q | 0 <= q < |s'.procs| && q !in longer
      ensures s'.procs[q].Exited?
    {
      assert q !in chain && q < |s.procs|;
    }
  }

  lemma ForkNow(cfg: Config, p: Proc, error: bool)
    requires Counted(p) && p.Running? && p.t.Choice? && p.count > 1
    ensures var child := Return(p.t, p.count - 1, p.frames, p.depth, p.trace, p.path);
            Counted(child) && !child.Waiting? &&
            var c := Now(cfg, child, error);
            var rest := Resume(cfg, p.t, p.count - 1, p.depth, p.path, c.error, c.code);
            Now(cfg, p, error) == Report(c.visits + rest.visits, rest.error, rest.code)
  {
    var v := p.count - 1;
    ReturnCounts(p.t, v, p.frames, p.depth, p.trace, p.path);
    EnterExplores(cfg, p.t.alts[v], p.depth + |p.t.alts| - v, p.trace + seq(|p.t.alts| - v, _ => v), p.path + [v],
                  error);
  }

  lemma ForkKeeps(cfg: Config, s: System, chain: seq<nat>, s': System)
    requires IsChain(s, chain)
    requires var p := s.procs[chain[|chain| - 1]]; p.Running? && p.t.Choice? && p.count > 1
    requires Step(cfg, s, chain[|chain| - 1]) == Some(s')
    ensures IsChain(s', chain + [|s.procs|])
    ensures Prospect(cfg, s', chain + [|s.procs|]) == Prospect(cfg, s, chain)
  {
    var last := |chain| - 1;
    var p := s.procs[chain[last]];
    assert Counted(p);
    ForkChain(cfg, s, chain, s');
    ForkNow(cfg, p, s.error);
    ChainWaits(s, chain);
    ChainWaits(s', chain + [|s.procs|]);
    var now := Now(cfg, p, s.error);
    var c := Now(cfg, s'.procs[|s.procs|], s.error);
    var rest := Resume(cfg, p.t, p.count - 1, p.depth, p.path, c.error, c.code);
    assert s.visited + (c.visits + rest.visits) == s.visited + c.visits + rest.visits;
    FollowFrame(cfg, s.procs, s'.procs, chain, chain + [|s.procs|], last,
                Report(s.visited + now.visits, now.error, now.code));
  }

  /** The process that waited for the last one resumes, or exits. */
  lemma ResumeNow(cfg: Config, s: System, pid: nat, s': System)
    requires pid < |s.procs| && s.procs[pid].Waiting? && Counted(s.procs[pid]) && Step(cfg, s, pid) == Some(s')
    requires s.procs[pid].child < |s.procs| && Counted(s.procs[s.procs[pid].child])
    ensures |s'.procs| == |s.procs| && forall q :: 0 <= q < |s.procs| && q != pid ==> s'.procs[q] == s.procs[q]
    ensures s'.error == s.error && s'.visited == s.visited
    ensures s.procs[s.procs[pid].child].Exited? && !s'.procs[pid].Waiting? && Counted(s'.procs[pid])
    ensures var p := s.procs[pid];
            Now(cfg, s'.procs[pid], s'.error) ==
              Resume(cfg, p.t, p.count - 1, p.depth, p.path, s.error, s.procs[p.child].code)
  {
    var code := s.procs[s.procs[pid].child].code;
    assert WaitStatus(code) == code * 256 && ExitCode(WaitStatus(code)) == 0;
  }

  lemma ResumeChain(s: System, chain: seq<nat>, s': System)
    requires IsChain(s, chain) && |chain| > 1 && s.procs[chain[|chain| - 1]].Exited?
    requires var pid := chain[|chain| - 2];
             |s'.procs| == |s.procs| && !s'.procs[pid].Waiting? && Counted(s'.procs[pid]) &&
             forall q :: 0 <= q < |s.procs| && q != pid ==> s'.procs[q] == s.procs[q]
    ensures IsChain(s', chain[..|chain| - 1])
  {
    var last := |chain| - 1;
    forall q | 0 <= q < |s'.procs| && q !in chain[..last] ensures s'.procs[q].Exited? {
      assert chain == chain[..last] + [chain[last]];
      assert chain[last - 1] in chain[..last];
    }
  }

  lemma ResumeKeeps(cfg: Config, s: System, chain: seq<nat>, s': System)
    requires IsChain(s, chain) && |chain| > 1 && s.procs[chain[|chain| - 1]].Exited?
    requires Step(cfg, s, chain[|chain| - 2]) == Some(s')
    ensures IsChain(s', chain[..|chain| - 1])
    ensures Prospect(cfg, s', chain[..|chain| - 1]) == Prospect(cfg, s, chain)
  {
    hide Step, Resume;
    var last := |chain| - 1;
    var pid := chain[last - 1];
    var p := s.procs[pid];
    assert Counted(p) && p.child == chain[last];
    ResumeNow(cfg, s, pid, s');
    ResumeChain(s, chain, s');
    ChainWaits(s, chain);
    ChainWaits(s', chain[..last]);
    var next := Resume(cfg, p.t, p.count - 1, p.depth, p.path, s.error, s.procs[p.child].code);
    assert s.visited + [] == s.visited;
    FollowFrame(cfg, s.procs, s'.procs, chain, chain[..last], last - 1,
                Report(s.visited + next.visits, next.error, next.code));
  }

  /** What holds of every state that the processes can reach from the start. */
  ghost predicate Invariant(cfg: Config, root: Tree, s: System) {
    Proper(root) && exists chain :: IsChain(s, chain) && Prospect(cfg, s, chain) == Explore(cfg, root, 0, [], false)
  }

  lemma InitHolds(cfg: Config, root: Tree)
    requires Proper(root)
    ensures Invariant(cfg, root, Init(root))
  {
    var s := Init(root);
    assert IsChain(s, [0]);
    assert Prospect(cfg, s, [0]) == Explore(cfg, root, 0, [], false);
  }

  lemma StepHolds(cfg: Config, root: Tree, s: System, pid: nat, s': System)
    requires Invariant(cfg, root, s) && pid < |s.procs| && Step(cfg, s, pid) == Some(s')
    ensures Invariant(cfg, root, s')
  {
    var chain :| IsChain(s, chain) && Prospect(cfg, s, chain) == Explore(cfg, root, 0, [], false);
    OnlyOneEnabled(cfg, s, chain, pid);
    var last := |chain| - 1;
    if !s.procs[chain[last]].Running? {
      ResumeKeeps(cfg, s, chain, s');
    } else if s.procs[pid].t.Leaf? || s.procs[pid].count == 1 {
      MoveKeeps(cfg, s, chain, s');
    } else {
      assert Counted(s.procs[pid]);
      ForkKeeps(cfg, s, chain, s');
    }
  }

  // ----- every run ends

  function SizeOf(t: Tree): nat {
    match t
    case Leaf(_) => 1
    case Choice(alts) => SizeOfAlts(t, |alts|)
  }

  function SizeOfAlts(t: Tree, count: nat): nat
    requires t.Choice? && count <= |t.alts|
    decreases t, 0, count
  {
    if count == 0 then 0 else SizeOfAlts(t, count - 1) + SizeOf(t.alts[count - 1]) + 2
  }

  function Work(p: Proc): nat {
    match p
    case Exited(_) => 0
    case Running(t, count, _, _, _, _) =>
      if t.Leaf? then 1 else if count <= |t.alts| then SizeOfAlts(t, count) else 0
    case Waiting(_, t, count, _, _, _, _) =>
      if t.Choice? && 0 < count <= |t.alts| then SizeOfAlts(t, count - 1) + 1 else 0
  }

  function TotalWork(procs: seq<Proc>): nat {
    if procs == [] then 0 else TotalWork(procs[..|procs| - 1]) + Work(procs[|procs| - 1])
  }

  lemma {:induction false} TotalWorkUpdate(procs: seq<Proc>, pid: nat, p: Proc)
    requires pid < |procs|
    ensures TotalWork(procs[pid := p]) == TotalWork(procs) - Work(procs[pid]) + Work(p)
  {
    var front := procs[..|procs| - 1];
    if pid < |front| {
      TotalWorkUpdate(front, pid, p);
      assert procs[pid := p][..|procs| - 1] == front[pid := p];
    } else {
      assert procs[pid := p][..|procs| - 1] == front;
    }
  }

  lemma TotalWorkAppend(procs: seq<Proc>, p: Proc)
    ensures TotalWork(procs + [p]) == TotalWork(procs) + Work(p)
  {
    assert (procs + [p])[..|procs|] == procs;
  }

  lemma ReturnWork(t: Tree, v: nat, frames: nat, depth: nat, trace: seq<nat>, path: seq<nat>)
    requires t.Choice? && v < |t.alts|
    ensures Work(Return(t, v, frames, depth, trace, path)) == SizeOf(t.alts[v])
  {
    UnwindAdds(frames, v, depth, trace);
  }

  /** Every step of a process uses up some of the work left. */
  lemma StepUsesWork(cfg: Config, s: System, pid: nat, s': System)
    requires pid < |s.procs| && Counted(s.procs[pid]) && Step(cfg, s, pid) == Some(s')
    ensures TotalWork(s'.procs) < TotalWork(s.procs)
  {
    hide TotalWork, Return, WaitStatus, ExitCode, CheckTerminate;
    var p := s.procs[pid];
    match p
    case Running(t, count, frames, depth, trace, path) =>
      if t.Leaf? {
        TotalWorkUpdate(s.procs, pid, Exited(cfg.CodeOf(t.result)));
      } else if count == 1 {
        ReturnWork(t, 0, frames, depth, trace, path);
        TotalWorkUpdate(s.procs, pid, Return(t, 0, frames, depth, trace, path));
      } else {
        var parent := Waiting(|s.procs|, t, count, frames, depth, trace, path);
        var child := Return(t, count - 1, frames, depth, trace, path);
        ReturnWork(t, count - 1, frames, depth, trace, path);
        TotalWorkUpdate(s.procs, pid, parent);
        TotalWorkAppend(s.procs[pid := parent], child);
      }
    case Waiting(child, t, count, frames, depth, trace, path) =>
      TotalWorkUpdate(s.procs, pid, s'.procs[pid]);
  }

  // ----- whole runs

  ghost predicate Next(cfg: Config, s: System, s': System) {
    exists pid :: 0 <= pid < |s.procs| && Step(cfg, s, pid) == Some(s')
  }

  /** Any interleaving of steps, whichever process the operating system lets go on. */
  ghost predicate IsRun(cfg: Config, root: Tree, states: seq<System>) {
    |states| > 0 && states[0] == Init(root) && forall i :: 0 <= i < |states| - 1 ==> Next(cfg, states[i], states[i + 1])
  }

  ghost predicate Final(cfg: Config, s: System) {
    forall pid :: 0 <= pid < |s.procs| ==> Step(cfg, s, pid).None?
  }

  lemma {:induction false} RunHolds(cfg: Config, root: Tree, states: seq<System>, i: nat)
    requires Proper(root) && IsRun(cfg, root, states) && i < |states|
    ensures Invariant(cfg, root, states[i])
    ensures TotalWork(states[i].procs) + i <= SizeOf(root)
  {
    if i == 0 {
      InitHolds(cfg, root);
      assert [Enter(root, 0, [], [])] == [] + [Enter(root, 0, [], [])];
      TotalWorkAppend([], Enter(root, 0, [], []));
    } else {
      RunHolds(cfg, root, states, i - 1);
      var s := states[i - 1];
      assert Next(cfg, s, states[i - 1 + 1]);
      var pid :| 0 <= pid < |s.procs| && Step(cfg, s, pid) == Some(states[i]);
      StepHolds(cfg, root, s, pid, states[i]);
      var chain :| IsChain(s, chain) && Prospect(cfg, s, chain) == Explore(cfg, root, 0, [], false);
      assert Counted(s.procs[pid]);
      StepUsesWork(cfg, s, pid, states[i]);
    }
  }

  /** In every state of every run at most one process is not waiting or exited, and at most one can
      take a step; so all runs are the same. */
  lemma OneAtATime(cfg: Config, root: Tree, states: seq<System>, i: nat, p: nat, q: nat)
    requires Proper(root) && IsRun(cfg, root, states) && i < |states|
    requires p < |states[i].procs| && q < |states[i].procs|
    ensures states[i].procs[p].Running? && states[i].procs[q].Running? ==> p == q
    ensures Step(cfg, states[i], p).Some? && Step(cfg, states[i], q).Some? ==> p == q
  {
    RunHolds(cfg, root, states, i);
    var s := states[i];
    var chain :| IsChain(s, chain) && Prospect(cfg, s, chain) == Explore(cfg, root, 0, [], false);
    if Step(cfg, s, p).Some? && Step(cfg, s, q).Some? {
      OnlyOneEnabled(cfg, s, chain, p);
      OnlyOneEnabled(cfg, s, chain, q);
    }
    if s.procs[p].Running? && s.procs[q].Running? {
      assert p in chain && q in chain;
    }
  }

  /** Every run ends within a bound known from the tree; and where it ends, the first process has
      exited, and what was visited and found is what `Explore` says. */
  lemma RunExplores(cfg: Config, root: Tree, states: seq<System>)
    requires Proper(root) && IsRun(cfg, root, states)
    ensures |states| <= SizeOf(root) + 1
    ensures var s := states[|states| - 1];
            Final(cfg, s) ==>
              |s.procs| > 0 &&
              s.procs[0] == Exited(Explore(cfg, root, 0, [], false).code) &&
              s.visited == Explore(cfg, root, 0, [], false).visits &&
              s.error == Explore(cfg, root, 0, [], false).error
  {
    RunHolds(cfg, root, states, |states| - 1);
    var s := states[|states| - 1];
    if Final(cfg, s) {
      var chain :| IsChain(s, chain) && Prospect(cfg, s, chain) == Explore(cfg, root, 0, [], false);
      if !(|chain| == 1 && s.procs[0].Exited?) {
        NeverStuck(cfg, s, chain);
      }
      assert s.visited + [] == s.visited;
    }
  }
}
