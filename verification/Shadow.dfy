/**
 Shadow memory: bytes of the program's memory carry labels of abstract values, and each frame of the
 stack owns the bytes that were first tainted while it was the innermost one.
 */
module Shadow {
  import opened Outcomes
  import opened Terms

  /** What is known of a label: the abstract value, where it was stored and over how many bytes. */
  datatype Info = Info(value: Term, origin: nat, bytes: nat)

  /** `owner` names, for every allocated byte, the frame whose list it is in. */
  datatype Memory = Memory(shadow: map<nat, nat>, info: map<nat, Info>, frames: seq<seq<nat>>, owner: map<nat, nat>)

  // ----- one operation at a time

  function Enter(m: Memory): Memory {
    m.(frames := m.frames + [[]])
  }

  function Release(m: Memory, addrs: seq<nat>): (r: Memory)
    ensures r.frames == m.frames
    decreases |addrs|
  {
    if addrs == [] then m
    else
      var n := |addrs| - 1;
      var r := Release(m, addrs[..n]);
      r.(shadow := r.shadow - {addrs[n]}, owner := r.owner - {addrs[n]})
  }

  function Exit(m: Memory): Memory
    requires m.frames != []
  {
    var last := |m.frames| - 1;
    Release(m, m.frames[last]).(frames := m.frames[..last])
  }

  function NextLabel(m: Memory): nat {
    |m.info| + 1
  }

  /** A map's `emplace` leaves an existing entry alone. */
  function CreateLabel(m: Memory, i: Info): Memory {
    if NextLabel(m) in m.info then m else m.(info := m.info[NextLabel(m) := i])
  }

  /** Label one byte; a byte that no frame owns goes to the innermost one. */
  function LabelByte(m: Memory, mark: nat, b: nat): Memory
    requires m.frames != []
  {
    var last := |m.frames| - 1;
    var r := if b in m.owner then m
             else m.(frames := m.frames[last := m.frames[last] + [b]], owner := m.owner[b := last]);
    r.(shadow := m.shadow[b := mark])
  }

  function SetLabel(m: Memory, mark: nat, addr: nat, size: nat): (r: Memory)
    requires m.frames != []
    ensures |r.frames| == |m.frames|
  {
    if size == 0 then m else LabelByte(SetLabel(m, mark, addr, size - 1), mark, addr + size - 1)
  }

  function EraseShadow(m: Memory, addr: nat, size: nat): Memory {
    m.(shadow := map a | a in m.shadow && !(addr <= a < addr + size) :: m.shadow[a])
  }

  function Poke(m: Memory, addr: nat, bytes: nat, value: Option<Term>): (r: Memory)
    requires m.frames != []
    ensures |r.frames| == |m.frames|
  {
    match value
    case Some(v) => SetLabel(CreateLabel(m, Info(v, addr, bytes)), NextLabel(m), addr, bytes)
    case None => EraseShadow(m, addr, bytes)
  }

  // ----- what every reachable state keeps

  predicate Distinct(addrs: seq<nat>) {
    addrs == [] || (addrs[|addrs| - 1] !in addrs[..|addrs| - 1] && Distinct(addrs[..|addrs| - 1]))
  }

  /** The frames' lists are disjoint and duplicate-free, and together they are what is allocated. */
  ghost predicate Owned(frames: seq<seq<nat>>, owner: map<nat, nat>) {
    && (forall a <- owner :: owner[a] < |frames| && a in frames[owner[a]])
    && (forall f, a :: 0 <= f < |frames| && a in frames[f] ==> a in owner && owner[a] == f)
    && (forall f :: 0 <= f < |frames| ==> Distinct(frames[f]))
  }

  ghost predicate Spans(i: Info, a: nat) {
    i.origin <= a < i.origin + i.bytes
  }

  /** Only allocated bytes are shadowed, each by a label whose span covers it. */
  ghost predicate Shaded(shadow: map<nat, nat>, info: map<nat, Info>, owner: map<nat, nat>) {
    forall a <- shadow :: a in owner && shadow[a] in info && Spans(info[shadow[a]], a)
  }

  /** Labels count up from 1. */
  ghost predicate Counted(info: map<nat, Info>) {
    forall l :: l in info <==> 1 <= l <= |info|
  }

  ghost predicate Valid(m: Memory) {
    Owned(m.frames, m.owner) && Shaded(m.shadow, m.info, m.owner) && Counted(m.info)
  }

  lemma OwnedAppend(frames: seq<seq<nat>>, owner: map<nat, nat>, b: nat)
    requires Owned(frames, owner) && frames != [] && b !in owner
    ensures var last := |frames| - 1; Owned(frames[last := frames[last] + [b]], owner[b := last])
  {
    var last := |frames| - 1;
    var list := frames[last] + [b];
    assert b !in frames[last];
    assert list[..|list| - 1] == frames[last];
    assert b in list;
  }

  lemma LabelByteValid(m: Memory, mark: nat, b: nat)
    requires Valid(m) && m.frames != [] && mark in m.info && Spans(m.info[mark], b)
    ensures Valid(LabelByte(m, mark, b))
  {
    if b !in m.owner {
      OwnedAppend(m.frames, m.owner, b);
    }
  }

  lemma {:induction false} SetLabelValid(m: Memory, mark: nat, addr: nat, size: nat)
    requires Valid(m) && m.frames != [] && mark in m.info
    requires m.info[mark].origin <= addr && addr + size <= m.info[mark].origin + m.info[mark].bytes
    ensures Valid(SetLabel(m, mark, addr, size)) && SetLabel(m, mark, addr, size).info == m.info
  {
    hide Owned, Shaded, Counted;
    if size > 0 {
      SetLabelValid(m, mark, addr, size - 1);
      LabelByteValid(SetLabel(m, mark, addr, size - 1), mark, addr + size - 1);
    }
  }

  lemma FreshCounted(info: map<nat, Info>, i: Info)
    requires Counted(info)
    ensures var l := |info| + 1; l !in info && |info[l := i]| == l && Counted(info[l := i])
  {
    var l := |info| + 1;
    assert info[l := i].Keys == info.Keys + {l};
  }

  /** A new label was never used before, by the table or by a byte. */
  lemma CreateLabelFresh(m: Memory, i: Info)
    requires Valid(m)
    ensures NextLabel(m) !in m.info && NextLabel(m) !in m.shadow.Values
    ensures CreateLabel(m, i) == m.(info := m.info[NextLabel(m) := i]) && Valid(CreateLabel(m, i))
    ensures |CreateLabel(m, i).info| == |m.info| + 1
  {
    FreshCounted(m.info, i);
  }

  lemma {:induction false} ReleaseForm(m: Memory, addrs: seq<nat>)
    ensures Release(m, addrs) == m.(shadow := m.shadow - Elements(addrs), owner := m.owner - Elements(addrs))
  {
    if addrs == [] {
      assert m.shadow - Elements(addrs) == m.shadow && m.owner - Elements(addrs) == m.owner;
    } else {
      var n := |addrs| - 1;
      ReleaseForm(m, addrs[..n]);
      assert addrs == addrs[..n] + [addrs[n]];
      assert Elements(addrs) == Elements(addrs[..n]) + {addrs[n]};
      assert m.shadow - Elements(addrs) == m.shadow - Elements(addrs[..n]) - {addrs[n]};
      assert m.owner - Elements(addrs) == m.owner - Elements(addrs[..n]) - {addrs[n]};
    }
  }

  function Elements(addrs: seq<nat>): set<nat> {
    set a | a in addrs
  }

  lemma ReleaseOwned(frames: seq<seq<nat>>, owner: map<nat, nat>)
    requires Owned(frames, owner) && frames != []
    ensures var last := |frames| - 1; Owned(frames[..last], owner - Elements(frames[last]))
  {
    var last := |frames| - 1;
    var inner := owner - Elements(frames[last]);
    forall a | a in inner
      ensures inner[a] < last && a in frames[..last][inner[a]]
    {
      assert a !in frames[last];
    }
    forall f, a | 0 <= f < last && a in frames[..last][f]
      ensures a in inner && inner[a] == f
    {
      assert a in frames[f];
      NotOnTop(frames, owner, a);
    }
  }

  lemma NotOnTop(frames: seq<seq<nat>>, owner: map<nat, nat>, a: nat)
    requires Owned(frames, owner) && a in owner && owner[a] < |frames| - 1
    ensures a !in frames[|frames| - 1]
  {
  }

  function Shade(m: Memory, a: nat): Option<nat> {
    if a in m.shadow then Some(m.shadow[a]) else None
  }

  /** What storing a label does to the shadow of every byte. */
  lemma {:induction false} SetLabelForm(m: Memory, mark: nat, addr: nat, size: nat, a: nat)
    requires m.frames != []
    ensures Shade(SetLabel(m, mark, addr, size), a) == if addr <= a < addr + size then Some(mark) else Shade(m, a)
    ensures SetLabel(m, mark, addr, size).info == m.info
  {
    if size > 0 {
      SetLabelForm(m, mark, addr, size - 1, a);
    }
  }

  // ----- runs

  datatype Command = EnterFrame | ExitFrame | Store(addr: nat, bytes: nat, value: Option<Term>)

  datatype Program = Done | Then(first: Command, rest: Program)

  /** The number of frames entered and not left, or a negative number when too many are left. */
  function Depth(depth: int, c: Command): int {
    match c
    case EnterFrame => depth + 1
    case ExitFrame => depth - 1
    case Store(_, _, _) => depth
  }

  /** The program leaves only frames it entered, and all of those. */
  predicate Nested(p: Program, depth: nat) {
    match p
    case Done => depth == 0
    case Then(c, rest) => Depth(depth, c) >= 0 && Nested(rest, Depth(depth, c))
  }

  function Step(m: Memory, c: Command): (r: Memory)
    requires m.frames != []
    ensures |r.frames| == Depth(|m.frames|, c)
  {
    match c
    case EnterFrame => Enter(m)
    case ExitFrame => Exit(m)
    case Store(addr, bytes, value) => Poke(m, addr, bytes, value)
  }

  function Run(m: Memory, p: Program, depth: nat): (r: Memory)
    requires |m.frames| > depth && Nested(p, depth)
    ensures |r.frames| + depth == |m.frames|
    decreases p
  {
    match p
    case Done => m
    case Then(c, rest) => Run(Step(m, c), rest, Depth(depth, c))
  }

  lemma PokeValid(m: Memory, addr: nat, bytes: nat, value: Option<Term>)
    requires Valid(m) && m.frames != []
    ensures Valid(Poke(m, addr, bytes, value))
    ensures |Poke(m, addr, bytes, value).info| == |m.info| + if value.Some? then 1 else 0
    ensures forall l <- m.info ::
              l in Poke(m, addr, bytes, value).info && Poke(m, addr, bytes, value).info[l] == m.info[l]
  {
    match value
    case Some(v) =>
      var i := Info(v, addr, bytes);
      CreateLabelFresh(m, i);
      SetLabelValid(CreateLabel(m, i), NextLabel(m), addr, bytes);
    case None =>
  }

  lemma EnterValid(m: Memory)
    requires Valid(m)
    ensures Valid(Enter(m))
  {
    EmptyFrame(m.frames, m.owner);
  }

  lemma EmptyFrame(frames: seq<seq<nat>>, owner: map<nat, nat>)
    requires Owned(frames, owner)
    ensures Owned(frames + [[]], owner)
  {
    var r := frames + [[]];
    assert r[|frames|] == [];
    forall f, a | 0 <= f < |r| && a in r[f]
      ensures a in owner && owner[a] == f
    {
      assert f < |frames| && r[f] == frames[f];
    }
  }

  lemma ExitValid(m: Memory)
    requires Valid(m) && m.frames != []
    ensures Valid(Exit(m)) && Exit(m).info == m.info
  {
    ReleaseForm(m, m.frames[|m.frames| - 1]);
    ReleaseOwned(m.frames, m.owner);
  }

  /** One operation keeps the state valid and never touches what is recorded of an earlier label. */
  lemma StepValid(m: Memory, c: Command)
    requires Valid(m) && m.frames != []
    ensures Valid(Step(m, c))
    ensures |Step(m, c).info| == |m.info| + if c.Store? && c.value.Some? then 1 else 0
    ensures forall l <- m.info :: l in Step(m, c).info && Step(m, c).info[l] == m.info[l]
  {
    hide Owned, Shaded, Counted;
    match c
    case EnterFrame => EnterValid(m);
    case ExitFrame => ExitValid(m);
    case Store(addr, bytes, value) => PokeValid(m, addr, bytes, value);
  }

  /** The label a byte ends with: of the last store over it, counting labels from `made`; none once erased. */
  function Last(p: Program, a: nat, shade: Option<nat>, made: nat): Option<nat> {
    match p
    case Done => shade
    case Then(c, rest) => Last(rest, a, Newest(c, a, shade, made), if c.Store? && c.value.Some? then made + 1 else made)
  }

  function Newest(c: Command, a: nat, shade: Option<nat>, made: nat): Option<nat> {
    if c.Store? && c.addr <= a < c.addr + c.bytes then
      if c.value.Some? then Some(made + 1) else None
    else shade
  }

  lemma {:induction false} SetLabelOuter(m: Memory, mark: nat, addr: nat, size: nat, n: nat)
    requires n < |m.frames|
    ensures SetLabel(m, mark, addr, size).frames[..n] == m.frames[..n]
  {
    if size > 0 {
      SetLabelOuter(m, mark, addr, size - 1, n);
    }
  }

  /** The frames below the innermost one are out of reach of a single operation. */
  lemma StepOuter(m: Memory, c: Command, n: nat)
    requires n < |m.frames|
    ensures Step(m, c).frames[..n] == m.frames[..n]
  {
    match c
    case EnterFrame =>
    case ExitFrame => ReleaseForm(m, m.frames[|m.frames| - 1]);
    case Store(addr, bytes, Some(v)) =>
      SetLabelOuter(CreateLabel(m, Info(v, addr, bytes)), NextLabel(m), addr, bytes, n);
    case Store(addr, bytes, None) =>
  }

  lemma PokeShade(m: Memory, addr: nat, n: nat, value: Option<Term>, a: nat)
    requires m.frames != []
    ensures Shade(Poke(m, addr, n, value), a) ==
            if !(addr <= a < addr + n) then Shade(m, a) else if value.Some? then Some(NextLabel(m)) else None
  {
    if value.Some? {
      SetLabelForm(CreateLabel(m, Info(value.value, addr, n)), NextLabel(m), addr, n, a);
    }
  }

  lemma ExitShade(m: Memory, a: nat)
    requires m.frames != [] && a !in m.frames[|m.frames| - 1]
    ensures Shade(Exit(m), a) == Shade(m, a)
  {
    ReleaseForm(m, m.frames[|m.frames| - 1]);
  }

  /** A byte owned by an outer frame changes only when it is stored to. */
  lemma StepShade(m: Memory, c: Command, a: nat)
    requires Valid(m) && m.frames != []
    requires a in m.owner && m.owner[a] < |m.frames| - 1
    ensures Shade(Step(m, c), a) == Newest(c, a, Shade(m, a), |m.info|)
  {
    hide Owned, Shaded, Counted, Exit, Poke;
    match c
    case EnterFrame =>
    case ExitFrame =>
      NotOnTop(m.frames, m.owner, a);
      ExitShade(m, a);
    case Store(addr, bytes, value) => PokeShade(m, addr, bytes, value, a);
  }

  /** Every program run keeps the state valid and keeps what is recorded of a label. */
  lemma {:induction false} RunValid(m: Memory, p: Program, depth: nat)
    requires Valid(m) && |m.frames| > depth && Nested(p, depth)
    ensures var r := Run(m, p, depth);
            Valid(r) && (forall l <- m.info :: l in r.info && r.info[l] == m.info[l])
    decreases p
  {
    hide Owned, Shaded, Counted, Enter, Exit, Poke;
    match p
    case Done =>
    case Then(c, rest) =>
      StepValid(m, c);
      RunValid(Step(m, c), rest, Depth(depth, c));
  }

  /** Every program run leaves the frames below the one it started in as they were. */
  lemma {:induction false} RunOuter(m: Memory, p: Program, depth: nat)
    requires |m.frames| > depth && Nested(p, depth)
    ensures var n := |m.frames| - depth - 1; Run(m, p, depth).frames[..n] == m.frames[..n]
    decreases p
  {
    hide Enter, Exit, Poke;
    match p
    case Done =>
    case Then(c, rest) =>
      StepOuter(m, c, |m.frames| - depth - 1);
      RunOuter(Step(m, c), rest, Depth(depth, c));
  }

  lemma OwnerKept(frames: seq<seq<nat>>, owner: map<nat, nat>, frames': seq<seq<nat>>, owner': map<nat, nat>,
                  n: nat, a: nat)
    requires Owned(frames, owner) && Owned(frames', owner')
    requires n <= |frames| && n <= |frames'| && frames'[..n] == frames[..n]
    requires a in owner && owner[a] < n
    ensures a in owner' && owner'[a] == owner[a]
  {
    assert a in frames[..n][owner[a]] && a in frames'[..n][owner[a]];
  }

  lemma {:induction false} RunShade(m: Memory, p: Program, depth: nat, a: nat)
    requires Valid(m) && |m.frames| > depth && Nested(p, depth)
    requires a in m.owner && m.owner[a] < |m.frames| - 1 - depth
    ensures Shade(Run(m, p, depth), a) == Last(p, a, Shade(m, a), |m.info|)
    decreases p
  {
    hide Owned, Shaded, Counted;
    match p
    case Done =>
    case Then(c, rest) =>
      var s, n := Step(m, c), |m.frames| - depth - 1;
      StepValid(m, c);
      StepShade(m, c, a);
      StepOuter(m, c, n);
      OwnerKept(m.frames, m.owner, s.frames, s.owner, n, a);
      RunShade(s, rest, Depth(depth, c), a);
  }

  lemma OwnersAgree(frames: seq<seq<nat>>, p: map<nat, nat>, q: map<nat, nat>)
    requires Owned(frames, p) && Owned(frames, q)
    ensures p == q
  {
    forall a
      ensures a in p <==> a in q
      ensures a in p ==> p[a] == q[a]
    {
      if a in p {
        assert a in frames[p[a]];
      }
      if a in q {
        assert a in frames[q[a]];
      }
    }
  }

  lemma OuterByte(m: Memory, a: nat)
    requires Valid(m) && a in m.owner
    ensures m.owner[a] < |m.frames|
  {
  }

  lemma OnlyOwned(m: Memory, a: nat)
    requires Valid(m) && a !in m.owner
    ensures a !in m.shadow
  {
  }

  lemma CallShade(m: Memory, body: Program, a: nat)
    requires Valid(m) && Nested(body, 0) && a in m.owner && m.owner[a] < |m.frames|
    ensures Shade(Exit(Run(Enter(m), body, 0)), a) == Last(body, a, Shade(m, a), |m.info|)
  {
    hide Owned, Shaded, Counted, Run, Last;
    var s := Enter(m);
    EnterValid(m);
    RunValid(s, body, 0);
    RunOuter(s, body, 0);
    RunShade(s, body, 0, a);
    var e := Run(s, body, 0);
    OwnerKept(m.frames, m.owner, e.frames, e.owner, |m.frames|, a);
    StepShade(e, ExitFrame, a);
    assert Step(e, ExitFrame) == Exit(e);
  }

  /**
   A call is transparent: after a frame is entered, any nested program runs and the frame is left, the
   same bytes are allocated to the same frames; nothing that was not allocated is tainted, and every byte
   of an outer frame has the label last written to it during the call.
   */
  lemma CallBalanced(m: Memory, body: Program)
    requires Valid(m) && Nested(body, 0)
    ensures var r := Exit(Run(Enter(m), body, 0));
            && r.frames == m.frames && r.owner == m.owner && Valid(r)
            && (forall a | a !in m.owner :: a !in r.shadow)
            && (forall a <- m.owner :: Shade(r, a) == Last(body, a, Shade(m, a), |m.info|))
  {
    hide Owned, Shaded, Counted, Run;
    var s := Enter(m);
    EnterValid(m);
    RunValid(s, body, 0);
    RunOuter(s, body, 0);
    var e := Run(s, body, 0);
    ExitValid(e);
    StepOuter(e, ExitFrame, |m.frames|);
    assert Exit(e).frames == e.frames[..|m.frames|] == s.frames[..|m.frames|] == m.frames;
    OwnersAgree(m.frames, Exit(e).owner, m.owner);
    forall a
      ensures a !in m.owner ==> a !in Exit(e).shadow
      ensures a in m.owner ==> Shade(Exit(e), a) == Last(body, a, Shade(m, a), |m.info|)
    {
      if a in m.owner {
        OuterByte(m, a);
        CallShade(m, body, a);
      } else {
        OnlyOwned(Exit(e), a);
      }
    }
  }

  /** At start-up the global frame is entered; the state is valid then. */
  lemma StartValid()
    ensures Valid(Enter(Memory(map[], map[], [], map[])))
  {
  }
}
