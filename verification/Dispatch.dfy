/**
 The functions generated around one abstracted instruction: a test that picks the abstract or the concrete
 path by the taints of the operands, and a lifter that wraps operands without an abstract value.
 */
module Dispatch {
  import opened Outcomes

  /** Values with a taint travel as three parameters; a tested taint and a concrete value as one each. */
  datatype Kind = Test | WithTaint | Concrete

  datatype Argument<A> = Tested(taint: bool) | Carried(taint: bool, concrete: int, abs: Option<A>)
                       | Plain(concrete: int)

  function KindOf<A>(a: Argument<A>): Kind {
    match a case Tested(_) => Test case Carried(_, _, _) => WithTaint case Plain(_) => Concrete
  }

  /** A null pointer is `Pointer(None)`. */
  datatype Word<A> = Function | Flag(flag: bool) | Number(n: int) | Pointer(p: Option<A>)

  function Words<A>(a: Argument<A>): seq<Word<A>> {
    match a
    case Tested(t) => [Flag(t)]
    case Carried(t, c, p) => [Flag(t), Number(c), Pointer(p)]
    case Plain(c) => [Number(c)]
  }

  function Flat<A>(args: seq<Argument<A>>): seq<Word<A>> {
    if args == [] then [] else Flat(args[..|args| - 1]) + Words(args[|args| - 1])
  }

  // ----- what the two functions are for

  predicate AnyTaint<A>(args: seq<Argument<A>>) {
    args != [] && (AnyTaint(args[..|args| - 1]) || (!args[|args| - 1].Plain? && args[|args| - 1].taint))
  }

  /** The arguments the lifter is given: all but those that were only tested. */
  function Given<A>(args: seq<Argument<A>>): seq<Argument<A>> {
    if args == [] then []
    else
      var last := args[|args| - 1];
      Given(args[..|args| - 1]) + if last.Tested? then [] else [last]
  }

  function CountTaints<A>(args: seq<Argument<A>>): nat {
    if args == [] then 0
    else CountTaints(args[..|args| - 1]) + if args[|args| - 1].Carried? then 1 else 0
  }

  /** What reaches the domain's operation: a single value is passed on as it is, several are lifted if untainted. */
  function Final<A>(a: Argument<A>, lift: int -> A, several: bool): Word<A> {
    match a
    case Carried(taint, c, p) => Pointer(if several && !taint then Some(lift(c)) else p)
    case _ => Number(if a.Plain? then a.concrete else 0)
  }

  function FirstFinals<A>(given: seq<Argument<A>>, n: nat, lift: int -> A, several: bool): seq<Word<A>>
    requires n <= |given|
  {
    seq(n, k requires 0 <= k < n => Final(given[k], lift, several))
  }

  function Finals<A>(args: seq<Argument<A>>, lift: int -> A): seq<Word<A>> {
    FirstFinals(Given(args), |Given(args)|, lift, CountTaints(Given(args)) > 1)
  }

  // ----- generated code

  datatype Value = Parameter(at: nat) | Temporary(at: nat) | Never

  /** `Merge` stands for a lift block and the block that merges its result with the given abstract value. */
  datatype Instruction = Or(left: Value, right: Value) | Merge(taint: Value, abs: Value, concrete: Value)

  predicate IsTrue<A>(w: Word<A>) {
    w.Flag? && w.flag
  }

  function Read<A>(v: Value, params: seq<Word<A>>, temps: seq<Word<A>>): Word<A> {
    match v
    case Parameter(at) => if at < |params| then params[at] else Function
    case Temporary(at) => if at < |temps| then temps[at] else Function
    case Never => Flag(false)
  }

  function Execute<A>(i: Instruction, params: seq<Word<A>>, temps: seq<Word<A>>, lift: int -> A): Word<A> {
    match i
    case Or(a, b) => Flag(IsTrue(Read(a, params, temps)) || IsTrue(Read(b, params, temps)))
    case Merge(taint, abs, concrete) =>
      if IsTrue(Read(taint, params, temps)) then Read(abs, params, temps)
      else match Read(concrete, params, temps) case Number(n) => Pointer(Some(lift(n))) case _ => Function
  }

  function Temps<A>(code: seq<Instruction>, params: seq<Word<A>>, lift: int -> A): (r: seq<Word<A>>)
    ensures |r| == |code|
  {
    if code == [] then []
    else
      var done := Temps(code[..|code| - 1], params, lift);
      done + [Execute(code[|code| - 1], params, done, lift)]
  }

  function ReadAll<A>(vs: seq<Value>, params: seq<Word<A>>, temps: seq<Word<A>>): seq<Word<A>> {
    seq(|vs|, k requires 0 <= k < |vs| => Read(vs[k], params, temps))
  }

  /** Code, and the values it leaves. */
  datatype Routine = Routine(code: seq<Instruction>, values: seq<Value>)

  function Run<A>(r: Routine, params: seq<Word<A>>, lift: int -> A): seq<Word<A>> {
    ReadAll(r.values, params, Temps(r.code, params, lift))
  }

  lemma TempsAppend<A>(code: seq<Instruction>, i: Instruction, params: seq<Word<A>>, lift: int -> A)
    ensures Temps(code + [i], params, lift)
         == Temps(code, params, lift) + [Execute(i, params, Temps(code, params, lift), lift)]
  {
    assert (code + [i])[..|code|] == code;
  }

  predicate Written(v: Value, n: nat) {
    v.Temporary? ==> v.at < n
  }

  lemma {:induction false} FlatPrefix<A>(args: seq<Argument<A>>, n: nat)
    requires n <= |args|
    ensures Flat(args[..n]) <= Flat(args)
    decreases |args| - n
  {
    if n < |args| {
      FlatPrefix(args, n + 1);
      assert args[..n + 1][..n] == args[..n];
    } else {
      assert args[..n] == args;
    }
  }

  /** Where the words of argument number `n` stand among all. */
  lemma FlatAt<A>(args: seq<Argument<A>>, n: nat, k: nat)
    requires n < |args| && k < |Words(args[n])|
    ensures var at := |Flat(args[..n])| + k; at < |Flat(args)| && Flat(args)[at] == Words(args[n])[k]
  {
    FlatPrefix(args, n + 1);
    assert args[..n + 1][..n] == args[..n];
  }

  lemma GivenStep<A>(args: seq<Argument<A>>, n: nat)
    requires n < |args|
    ensures Flat(Given(args[..n + 1])) == Flat(Given(args[..n])) + if args[n].Tested? then [] else Words(args[n])
  {
    assert args[..n + 1][..n] == args[..n];
    var given := Given(args[..n]);
    assert args[n].Tested? ==> given + [] == given && Flat(given) + [] == Flat(given);
    assert (given + [args[n]])[..|given|] == given;
  }

  function Parameters(pos: nat, n: nat): (r: seq<Value>)
    ensures forall v <- r :: v.Parameter?
  {
    seq(n, k requires 0 <= k < n => Parameter(pos + k))
  }

  /** Argument number `n` of the test stands after the lifter and the arguments before it. */
  lemma WordsAt<A>(args: seq<Argument<A>>, n: nat)
    requires n < |args|
    ensures var (at, w, params) := (1 + |Flat(args[..n])|, Words(args[n]), [Function] + Flat(args));
      at + |w| <= |params| && params[at..at + |w|] == w
  {
    FlatPrefix(args, n + 1);
    assert args[..n + 1][..n] == args[..n];
    Segment(Function, Flat(args[..n]), Words(args[n]), Flat(args));
  }

  lemma Segment<T>(x: T, p: seq<T>, w: seq<T>, all: seq<T>)
    requires p + w <= all
    ensures ([x] + all)[1 + |p|..1 + |p| + |w|] == w
  {
    assert all[..|p| + |w|][|p|..] == w;
  }

  /** Passing on consecutive parameters passes on the words there. */
  lemma PassWords<A>(values: seq<Value>, params: seq<Word<A>>, at: nat, w: seq<Word<A>>)
    requires at + |w| <= |params| && params[at..at + |w|] == w
    ensures ReadAll(values + Parameters(at, |w|), params, []) == ReadAll(values, params, []) + w
  {
    forall k | 0 <= k < |w|
      ensures Read(Parameters(at, |w|)[k], params, []) == w[k]
    {
      assert params[at..at + |w|][k] == w[k];
    }
  }

  lemma FlatStep<A>(args: seq<Argument<A>>, n: nat)
    requires n < |args|
    ensures |Flat(args[..n + 1])| == |Flat(args[..n])| + |Words(args[n])|
    ensures AnyTaint(args[..n + 1]) <==> AnyTaint(args[..n]) || (!args[n].Plain? && args[n].taint)
  {
    assert args[..n + 1][..n] == args[..n];
  }

  /** An or of what was found so far with one more taint. */
  lemma OrTaint<A>(any: Value, code: seq<Instruction>, found: bool, at: nat, t: bool, params: seq<Word<A>>,
                   lift: int -> A)
    requires at < |params| && params[at] == Flag(t)
    requires Read(any, params, Temps(code, params, lift)) == Flag(found)
    ensures Read(Temporary(|code|), params, Temps(code + [Or(any, Parameter(at))], params, lift)) == Flag(found || t)
  {
    TempsAppend(code, Or(any, Parameter(at)), params, lift);
  }

  /**
   The test: one or over all taints, and the words to pass on. The first parameter is the lifter.
   The actual arguments are ghost: the code is made from their kinds alone.
   */
  method LowerTestTaint<A>(kinds: seq<Kind>, ghost args: seq<Argument<A>>, ghost lift: int -> A)
    returns (tainted: Routine, passed: Routine)
    requires |kinds| == |args| && forall k :: 0 <= k < |kinds| ==> kinds[k] == KindOf(args[k])
    ensures Run(tainted, [Function] + Flat(args), lift) == [Flag(AnyTaint(args))]
    ensures Run(passed, [Function] + Flat(args), lift) == Flat(Given(args))
  {
    hide Flat, Given, AnyTaint, Execute, ReadAll, Temps;
    ghost var params := [Function] + Flat(args);
    var code: seq<Instruction>, values: seq<Value>, any, pos := [], [], Never, 1;
    Nothing(args, params, lift);
    for n := 0 to |kinds|
      invariant pos == 1 + |Flat(args[..n])|
      invariant Read(any, params, Temps(code, params, lift)) == Flag(AnyTaint(args[..n]))
      invariant ReadAll(values, params, []) == Flat(Given(args[..n]))
    {
      FlatStep(args, n);
      GivenStep(args, n);
      WordsAt(args, n);
      ghost var w := Words(args[n]);
      PassWords(values, params, pos, w);
      assert params[pos] == params[pos..pos + |w|][0];
      match kinds[n]
      case WithTaint =>
        OrTaint(any, code, AnyTaint(args[..n]), pos, args[n].taint, params, lift);
        code, any := code + [Or(any, Parameter(pos))], Temporary(|code|);
        assert Parameters(pos, 3) == [Parameter(pos), Parameter(pos + 1), Parameter(pos + 2)];
        values := values + [Parameter(pos), Parameter(pos + 1), Parameter(pos + 2)];
        pos := pos + 3;
      case Test =>
        OrTaint(any, code, AnyTaint(args[..n]), pos, args[n].taint, params, lift);
        code, any := code + [Or(any, Parameter(pos))], Temporary(|code|);
        pos := pos + 1;
      case Concrete =>
        assert Parameters(pos, 1) == [Parameter(pos)];
        values := values + [Parameter(pos)];
        pos := pos + 1;
    }
    assert args[..|args|] == args;
    tainted, passed := Routine(code, [any]), Routine([], values);
    Single(any, code, params, lift);
  }

  lemma Nothing<A>(args: seq<Argument<A>>, params: seq<Word<A>>, lift: int -> A)
    ensures Flat(args[..0]) == [] && !AnyTaint(args[..0]) && Flat(Given(args[..0])) == []
    ensures ReadAll([], params, []) == []
    ensures Temps([], params, lift) == []
  {
  }

  lemma Single<A>(v: Value, code: seq<Instruction>, params: seq<Word<A>>, lift: int -> A)
    ensures Run(Routine(code, [v]), params, lift) == [Read(v, params, Temps(code, params, lift))]
    ensures Temps([], params, lift) == []
  {
  }

  // ----- the lifter

  /** Where the lifter finds the parts of one of its arguments. */
  datatype Slot = Triple(taint: Value, concrete: Value, abs: Value) | Lone(concrete: Value)

  ghost predicate Finds<A>(s: Slot, a: Argument<A>, params: seq<Word<A>>, temps: seq<Word<A>>) {
    match a
    case Carried(t, c, p) =>
      s.Triple? && Read(s.taint, params, temps) == Flag(t) && Read(s.concrete, params, temps) == Number(c)
      && Read(s.abs, params, temps) == Pointer(p)
    case Plain(c) => s.Lone? && Read(s.concrete, params, temps) == Number(c)
    case Tested(_) => false
  }

  /** The parameters are split into slots; nothing is tested here. */
  method Slots<A>(kinds: seq<Kind>, ghost args: seq<Argument<A>>) returns (slots: seq<Slot>, count: nat)
    requires |kinds| == |args| && forall k :: 0 <= k < |kinds| ==> kinds[k] == KindOf(args[k]) && kinds[k] != Test
    ensures |slots| == |kinds| && count == CountTaints(args)
    ensures forall k :: 0 <= k < |kinds| ==> Finds(slots[k], args[k], Flat(args), [])
    ensures forall k :: 0 <= k < |kinds| ==> FromParameters(slots[k])
  {
    hide Flat;
    slots, count := [], 0;
    var i := 0;
    NoWords(args);
    for n := 0 to |kinds|
      invariant i == |Flat(args[..n])| && |slots| == n && count == CountTaints(args[..n])
      invariant forall k :: 0 <= k < n ==> Finds(slots[k], args[k], Flat(args), []) && FromParameters(slots[k])
    {
      FlatStep(args, n);
      FlatAt(args, n, 0);
      assert args[..n + 1][..n] == args[..n];
      if kinds[n] == WithTaint {
        FlatAt(args, n, 1);
        FlatAt(args, n, 2);
        slots := slots + [Triple(Parameter(i), Parameter(i + 1), Parameter(i + 2))];
        i, count := i + 3, count + 1;
      } else {
        slots := slots + [Lone(Parameter(i))];
        i := i + 1;
      }
    }
    assert args[..|args|] == args;
  }

  lemma NoWords<A>(args: seq<Argument<A>>)
    ensures Flat(args[..0]) == []
  {
  }

  predicate FromParameters(s: Slot) {
    s.concrete.Parameter? && (s.Triple? ==> s.taint.Parameter? && s.abs.Parameter?)
  }

  /** One argument's lift and merge: its abstract value if tainted, its concrete value wrapped if not. */
  lemma MergeLifts<A>(s: Slot, a: Argument<A>, code: seq<Instruction>, params: seq<Word<A>>, lift: int -> A)
    requires Finds(s, a, params, []) && FromParameters(s) && s.Triple?
    ensures Read(Temporary(|code|), params, Temps(code + [Merge(s.taint, s.abs, s.concrete)], params, lift))
         == Final(a, lift, true)
  {
    TempsAppend(code, Merge(s.taint, s.abs, s.concrete), params, lift);
  }

  lemma ReadLater<A>(vs: seq<Value>, code: seq<Instruction>, i: Instruction, params: seq<Word<A>>, lift: int -> A)
    requires forall v <- vs :: Written(v, |code|)
    ensures ReadAll(vs, params, Temps(code + [i], params, lift)) == ReadAll(vs, params, Temps(code, params, lift))
  {
    TempsAppend(code, i, params, lift);
    assert forall k :: 0 <= k < |vs| ==> Written(vs[k], |code|);
  }

  /** The lifter passes the final form of every argument; only with several tainted arguments does it lift any. */
  method Generate<A>(kinds: seq<Kind>, ghost args: seq<Argument<A>>, ghost lift: int -> A) returns (lifter: Routine)
    requires |kinds| == |args| && forall k :: 0 <= k < |kinds| ==> kinds[k] == KindOf(args[k]) && kinds[k] != Test
    ensures Run(lifter, Flat(args), lift) == FirstFinals(args, |args|, lift, CountTaints(args) > 1)
  {
    hide Flat, CountTaints, Temps, Execute;
    var slots, count := Slots(kinds, args);
    ghost var params, several := Flat(args), count > 1;
    var code: seq<Instruction>, finals: seq<Value> := [], [];
    for n := 0 to |slots|
      invariant forall v <- finals :: Written(v, |code|)
      invariant ReadAll(finals, params, Temps(code, params, lift)) == FirstFinals(args, n, lift, several)
    {
      var s := slots[n];
      ghost var before := ReadAll(finals, params, Temps(code, params, lift));
      if s.Triple? && count > 1 {
        var merge := Merge(s.taint, s.abs, s.concrete);
        MergeLifts(s, args[n], code, params, lift);
        ReadLater(finals, code, merge, params, lift);
        code, finals := code + [merge], finals + [Temporary(|code|)];
      } else {
        finals := finals + [if s.Triple? then s.abs else s.concrete];
      }
      assert ReadAll(finals, params, Temps(code, params, lift)) == before + [Final(args[n], lift, several)];
    }
    lifter := Routine(code, finals);
  }

  function Lifted(kinds: seq<Kind>): seq<Kind> {
    if kinds == [] then []
    else
      var n := |kinds| - 1;
      Lifted(kinds[..n]) + if kinds[n] == Test then [] else [kinds[n]]
  }

  lemma {:induction false} GivenKinds<A>(kinds: seq<Kind>, args: seq<Argument<A>>)
    requires |kinds| == |args| && forall k :: 0 <= k < |kinds| ==> kinds[k] == KindOf(args[k])
    ensures |Lifted(kinds)| == |Given(args)|
    ensures forall k :: 0 <= k < |Lifted(kinds)| ==>
              Lifted(kinds)[k] == KindOf(Given(args)[k]) && Lifted(kinds)[k] != Test
  {
    if kinds != [] {
      var n := |kinds| - 1;
      GivenKinds(kinds[..n], args[..n]);
    }
  }

  /**
   Both generated functions together: the test finds whether any argument is tainted, and what it passes on
   reaches the domain's operation in its final form. Arguments and wrapping are ghost, as before.
   */
  method Synthesize<A>(kinds: seq<Kind>, ghost args: seq<Argument<A>>, ghost lift: int -> A)
    returns (tainted: Routine, passed: Routine, lifter: Routine)
    requires |kinds| == |args| && forall k :: 0 <= k < |kinds| ==> kinds[k] == KindOf(args[k])
    ensures Run(tainted, [Function] + Flat(args), lift) == [Flag(AnyTaint(args))]
    ensures Run(lifter, Run(passed, [Function] + Flat(args), lift), lift) == Finals(args, lift)
  {
    tainted, passed := LowerTestTaint(kinds, args, lift);
    GivenKinds(kinds, args);
    lifter := Generate(Lifted(kinds), Given(args), lift);
  }
}
