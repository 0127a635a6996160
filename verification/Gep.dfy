/** Address computations over typed memory, lowered to shifts, multiplications and additions. */
module Gep {
  import opened Outcomes
  import opened Terms

  // ----- what an address computation means

  datatype Type = Scalar(size: nat)
                | Array(element: Type, count: nat)
                | Struct(fields: seq<Type>, offsets: seq<nat>, size: nat)

  function AllocSize(t: Type): nat {
    match t
    case Scalar(size) => size
    case Array(element, count) => count * AllocSize(element)
    case Struct(_, _, size) => size
  }

  /** An index is a literal or a register, of its own width. */
  datatype Index = Constant(width: nat, value: nat) | Register(width: nat, name: nat)

  function Raw(i: Index, env: nat -> nat): (r: nat)
    ensures Pow(2, i.width) > 0 && r < Pow(2, i.width)
  {
    PowPositive(2, i.width);
    (if i.Constant? then i.value else env(i.name)) % Pow(2, i.width)
  }

  /** The two's complement number in an index. */
  function Signed(i: Index, env: nat -> nat): int {
    if i.width > 0 && Raw(i, env) >= Pow(2, i.width - 1) then Raw(i, env) - Pow(2, i.width) else Raw(i, env)
  }

  datatype Path = End | Into(index: Index, rest: Path)

  /** Indices into a structure are literals that name one of its fields; the first field is at offset 0. */
  predicate Fits(t: Type, p: Path) {
    match p
    case End => true
    case Into(i, rest) =>
      match t
      case Scalar(_) => false
      case Array(element, _) => Fits(element, rest)
      case Struct(fields, offsets, _) =>
        |offsets| == |fields| && i.Constant? && i.value < |fields| && offsets[0] == 0 && Fits(fields[i.value], rest)
  }

  function Offset(t: Type, p: Path, env: nat -> nat): int
    requires Fits(t, p)
    decreases p
  {
    match p
    case End => 0
    case Into(i, rest) =>
      if t.Array? then Signed(i, env) * AllocSize(t.element) + Offset(t.element, rest, env)
      else t.offsets[i.value] + Offset(t.fields[i.value], rest, env)
  }

  /** The address: the base, moved by whole objects, then into one. */
  function Address(base: int, t: Type, first: Index, p: Path, env: nat -> nat): int
    requires Fits(t, p)
  {
    base + Signed(first, env) * AllocSize(t) + Offset(t, p, env)
  }

  // ----- the operands of the instruction, as its type iterator presents them

  datatype Level = Sequential(index: Index, size: nat) | Field(number: nat, offset: nat)

  function Inner(t: Type, p: Path): seq<Level>
    requires Fits(t, p)
    decreases p
  {
    match p
    case End => []
    case Into(i, rest) =>
      if t.Array? then [Sequential(i, AllocSize(t.element))] + Inner(t.element, rest)
      else [Field(i.value, t.offsets[i.value])] + Inner(t.fields[i.value], rest)
  }

  function Levels(t: Type, first: Index, p: Path): seq<Level>
    requires Fits(t, p)
  {
    [Sequential(first, AllocSize(t))] + Inner(t, p)
  }

  predicate FirstAtZero(levels: seq<Level>) {
    forall l <- levels :: l.Field? && l.number == 0 ==> l.offset == 0
  }

  /** The part of the address the fields contribute. */
  function Fields(levels: seq<Level>): nat {
    if levels == [] then 0
    else (if levels[|levels| - 1].Field? then levels[|levels| - 1].offset else 0) + Fields(levels[..|levels| - 1])
  }

  /** The part the sequential indices contribute. */
  function Elements(levels: seq<Level>, env: nat -> nat): int {
    if levels == [] then 0
    else
      var l := levels[|levels| - 1];
      Elements(levels[..|levels| - 1], env) + if l.Sequential? then Signed(l.index, env) * l.size else 0
  }

  lemma {:induction false} PartsPrepend(l: Level, levels: seq<Level>, env: nat -> nat)
    ensures Fields([l] + levels) == Fields([l]) + Fields(levels)
    ensures Elements([l] + levels, env) == Elements([l], env) + Elements(levels, env)
  {
    if levels == [] {
      assert [l] + levels == [l];
    } else {
      var n := |levels| - 1;
      PartsPrepend(l, levels[..n], env);
      assert ([l] + levels)[..n + 1] == [l] + levels[..n];
    }
  }

  lemma PartsOne(l: Level, env: nat -> nat)
    ensures Fields([l]) == if l.Field? then l.offset else 0
    ensures Elements([l], env) == if l.Sequential? then Signed(l.index, env) * l.size else 0
  {
    assert [l][..0] == [];
  }

  /** Collecting fields apart from indices does not change their sum. */
  lemma {:induction false} OffsetSplits(t: Type, p: Path, env: nat -> nat)
    requires Fits(t, p)
    ensures Offset(t, p, env) == Elements(Inner(t, p), env) + Fields(Inner(t, p)) && FirstAtZero(Inner(t, p))
    decreases p
  {
    match p
    case End =>
    case Into(i, rest) =>
      var next := if t.Array? then t.element else t.fields[i.value];
      OffsetSplits(next, rest, env);
      var l := Inner(t, p)[0];
      PartsPrepend(l, Inner(next, rest), env);
      PartsOne(l, env);
  }

  lemma AddressSplits(base: int, t: Type, first: Index, p: Path, env: nat -> nat)
    requires Fits(t, p)
    ensures FirstAtZero(Levels(t, first, p))
    ensures Address(base, t, first, p, env)
         == base + Elements(Levels(t, first, p), env) + Fields(Levels(t, first, p))
  {
    OffsetSplits(t, p, env);
    PartsPrepend(Sequential(first, AllocSize(t)), Inner(t, p), env);
    PartsOne(Sequential(first, AllocSize(t)), env);
  }

  // ----- the emitted instructions

  datatype Value = Given(index: Index) | Result(at: nat) | Literal(n: nat)

  datatype Instruction = PtrToInt | Resize(index: Index) | Shl(value: Value, bits: nat) | Mul(value: Value, factor: nat)
                       | Add(left: Value, right: Value) | IntToPtr(value: Value)

  /** A value in the width of pointers; an index used directly has that width. */
  function Read(v: Value, results: seq<nat>, env: nat -> nat, w: nat): nat {
    PowPositive(2, w);
    match v
    case Given(i) => Raw(i, env)
    case Result(at) => if at < |results| then results[at] else 0
    case Literal(n) => n % Pow(2, w)
  }

  /** One instruction, modulo the width of pointers; a change of width extends the sign or drops high bits. */
  function Execute(i: Instruction, results: seq<nat>, base: nat, env: nat -> nat, w: nat): (r: nat)
    ensures Pow(2, w) > 0 && r < Pow(2, w)
  {
    PowPositive(2, w);
    var m := Pow(2, w);
    match i
    case PtrToInt => base % m
    case Resize(i) => if i.width < w then Signed(i, env) % m else Raw(i, env) % m
    case Shl(v, bits) => Read(v, results, env, w) * Pow(2, bits) % m
    case Mul(v, factor) => Read(v, results, env, w) * factor % m
    case Add(a, b) => (Read(a, results, env, w) + Read(b, results, env, w)) % m
    case IntToPtr(v) => Read(v, results, env, w) % m
  }

  function Results(code: seq<Instruction>, base: nat, env: nat -> nat, w: nat): (r: seq<nat>)
    ensures |r| == |code|
  {
    if code == [] then []
    else
      var done := Results(code[..|code| - 1], base, env, w);
      done + [Execute(code[|code| - 1], done, base, env, w)]
  }

  lemma ResultsAppend(code: seq<Instruction>, i: Instruction, base: nat, env: nat -> nat, w: nat)
    ensures Results(code + [i], base, env, w)
         == Results(code, base, env, w) + [Execute(i, Results(code, base, env, w), base, env, w)]
  {
    assert (code + [i])[..|code|] == code;
  }

  // ----- arithmetic modulo a power of two

  lemma ModShift(x: int, y: int, k: int, m: int)
    requires m > 0 && x == y + k * m
    ensures x % m == y % m
  {
    var q := y / m;
    assert (q + k) * m == q * m + k * m;
    RemainderOf(x, m, q + k, y % m);
  }

  lemma ModAdd(x: int, a: int, y: int, b: int, m: int)
    requires m > 0 && x % m == a % m && y % m == b % m
    ensures (x + y) % m == (a + b) % m
  {
    var k, j := x / m - a / m, y / m - b / m;
    assert x == a + k * m && y == b + j * m;
    assert (k + j) * m == k * m + j * m;
    ModShift(x + y, a + b, k + j, m);
  }

  lemma ModMul(x: int, a: int, y: int, b: int, m: int)
    requires m > 0 && x % m == a % m && y % m == b % m
    ensures (x * y) % m == (a * b) % m
  {
    var k, j := x / m - a / m, y / m - b / m;
    assert x == a + k * m && y == b + j * m;
    ModProduct(a, k, b, j, m);
    ModShift(x * y, a * b, a * j + k * b + k * m * j, m);
  }

  lemma ModProduct(a: int, k: int, b: int, j: int, m: int)
    ensures (a + k * m) * (b + j * m) == a * b + (a * j + k * b + k * m * j) * m
  {
    assert (a + k * m) * (b + j * m) == a * b + a * (j * m) + (k * m) * b + (k * m) * (j * m);
    assert a * (j * m) == (a * j) * m && (k * m) * b == (k * b) * m && (k * m) * (j * m) == (k * m * j) * m;
  }

  lemma ModMod(x: int, m: int)
    requires m > 0
    ensures (x % m) % m == x % m
  {
  }

  /** A number modulo a multiple of `m` is the same modulo `m`. */
  lemma ModNarrow(x: int, n: int, c: int, m: int)
    requires m > 0 && n > 0 && n == c * m
    ensures (x % n) % m == x % m
  {
    var q := x / n;
    assert q * n == (q * c) * m;
    ModShift(x, x % n, q * c, m);
  }

  const WORD: nat := 0x1_0000_0000_0000_0000

  lemma WordIsPower(w: nat)
    requires w <= 64
    ensures Pow(2, w) > 0 && WORD == Pow(2, 64 - w) * Pow(2, w)
  {
    PowPositive(2, w);
    PowAdd(2, 64 - w, w);
    PowWord();
  }

  /** Bringing an index to the width of pointers keeps its number modulo that width. */
  lemma ResizeKeeps(i: Index, env: nat -> nat, w: nat)
    ensures Pow(2, w) > 0
    ensures i.width >= w ==> Raw(i, env) % Pow(2, w) == Signed(i, env) % Pow(2, w)
  {
    PowPositive(2, w);
    if i.width >= w && Signed(i, env) != Raw(i, env) {
      PowAdd(2, i.width - w, w);
      ModShift(Raw(i, env), Signed(i, env), Pow(2, i.width - w), Pow(2, w));
    }
  }

  /** The exponent of a power of two. */
  function Log2(n: nat): (r: Option<nat>)
    ensures r.Some? ==> Pow(2, r.value) == n
  {
    if n == 0 then None
    else if n == 1 then Some(0)
    else if n % 2 == 1 then None
    else match Log2(n / 2) case Some(k) => Some(k + 1) case None => None
  }

  // ----- the lowering

  /** `v` is available after `code` and is `x` modulo the width of pointers. */
  ghost predicate Holds(v: Value, x: int, code: seq<Instruction>, base: nat, env: nat -> nat, w: nat) {
    && Pow(2, w) > 0 && (v.Result? ==> v.at < |code|)
    && Read(v, Results(code, base, env, w), env, w) % Pow(2, w) == x % Pow(2, w)
  }

  lemma HoldsAppend(v: Value, x: int, code: seq<Instruction>, i: Instruction, base: nat, env: nat -> nat, w: nat)
    requires Holds(v, x, code, base, env, w)
    ensures Holds(v, x, code + [i], base, env, w)
  {
    ResultsAppend(code, i, base, env, w);
  }

  /** An appended instruction's result is what it computes. */
  lemma HoldsNew(code: seq<Instruction>, i: Instruction, base: nat, env: nat -> nat, w: nat)
    ensures Holds(Result(|code|), Execute(i, Results(code, base, env, w), base, env, w), code + [i], base, env, w)
  {
    ResultsAppend(code, i, base, env, w);
  }

  ghost predicate Canonical(levels: seq<Level>, operands: seq<Value>, n: nat, code: seq<Instruction>,
                            base: nat, env: nat -> nat, w: nat)
    requires n <= |levels| && n <= |operands|
  {
    forall k | 0 <= k < n && levels[k].Sequential? ::
      Holds(operands[k], Signed(levels[k].index, env), code, base, env, w)
  }

  lemma CanonicalAppend(levels: seq<Level>, operands: seq<Value>, code: seq<Instruction>, i: Instruction,
                        base: nat, env: nat -> nat, w: nat)
    requires |operands| <= |levels| && Canonical(levels, operands, |operands|, code, base, env, w)
    ensures Canonical(levels, operands, |operands|, code + [i], base, env, w)
  {
    forall k | 0 <= k < |operands| && levels[k].Sequential?
      ensures Holds(operands[k], Signed(levels[k].index, env), code + [i], base, env, w)
    {
      HoldsAppend(operands[k], Signed(levels[k].index, env), code, i, base, env, w);
    }
  }

  /** Sequential indices of another width are extended or truncated; the register contents and the base are unknown
      here. */
  method Canonicalize(levels: seq<Level>, w: nat, ghost base: nat, ghost env: nat -> nat)
    returns (code: seq<Instruction>, operands: seq<Value>)
    ensures |operands| == |levels| && Canonical(levels, operands, |levels|, code, base, env, w)
  {
    code, operands := [], [];
    for n := 0 to |levels|
      invariant |operands| == n && Canonical(levels, operands, n, code, base, env, w)
    {
      match levels[n]
      case Sequential(i, _) =>
        ResizeKeeps(i, env, w);
        if i.width != w {
          var r := Resize(i);
          HoldsNew(code, r, base, env, w);
          CanonicalAppend(levels, operands, code, r, base, env, w);
          operands := operands + [Result(|code|)];
          code := code + [r];
          ModMod(Signed(i, env), Pow(2, w));
        } else {
          operands := operands + [Given(i)];
        }
      case Field(number, _) =>
        operands := operands + [Literal(number)];
    }
  }

  /** Field offsets summed in 64 bits; the first field is skipped. */
  method AccumulateByteOffset(levels: seq<Level>) returns (offset: nat)
    requires FirstAtZero(levels)
    ensures offset == Fields(levels) % WORD
  {
    offset := 0;
    for n := 0 to |levels|
      invariant offset == Fields(levels[..n]) % WORD
    {
      assert levels[..n + 1][..n] == levels[..n] && levels[n] in levels;
      if levels[n].Field? && levels[n].number != 0 {
        offset := (offset + levels[n].offset) % WORD;
      }
    }
    assert levels[..|levels|] == levels;
  }

  lemma AddHolds(a: Value, x: int, b: Value, y: int, code: seq<Instruction>, base: nat, env: nat -> nat, w: nat)
    requires Holds(a, x, code, base, env, w) && Holds(b, y, code, base, env, w)
    ensures Holds(Result(|code|), x + y, code + [Add(a, b)], base, env, w)
  {
    var results, m := Results(code, base, env, w), Pow(2, w);
    HoldsNew(code, Add(a, b), base, env, w);
    ModAdd(Read(a, results, env, w), x, Read(b, results, env, w), y, m);
    ModMod(Read(a, results, env, w) + Read(b, results, env, w), m);
  }

  /** Multiplying by the element size, or shifting when it is a power of two. */
  lemma ScaleHolds(v: Value, x: int, size: nat, i: Instruction, code: seq<Instruction>, base: nat, env: nat -> nat,
                   w: nat)
    requires Holds(v, x, code, base, env, w)
    requires var e := size % Pow(2, w); i == Mul(v, e) || (i.Shl? && i.value == v && Pow(2, i.bits) == e)
    ensures Holds(Result(|code|), x * size, code + [i], base, env, w)
  {
    var r, m := Read(v, Results(code, base, env, w), env, w), Pow(2, w);
    HoldsNew(code, i, base, env, w);
    ModMod(size, m);
    ModMul(r, x, size % m, size, m);
    ModMod(r * (size % m), m);
  }

  /** One index scaled by its element size and added; sizes of one and literal zeros need no scaling, or no addition. */
  method LowerIndex(idx: Value, size: nat, code: seq<Instruction>, res: Value, w: nat, ghost x: int, ghost sum: int,
                    levels: seq<Level>, operands: seq<Value>, ghost base: nat, ghost env: nat -> nat)
    returns (r: seq<Instruction>, next: Value)
    requires Holds(idx, x, code, base, env, w) && Holds(res, sum, code, base, env, w)
    requires |operands| == |levels| && Canonical(levels, operands, |levels|, code, base, env, w)
    ensures Holds(next, sum + x * size, r, base, env, w)
    ensures Canonical(levels, operands, |levels|, r, base, env, w)
  {
    hide Canonical, Execute, Results, Elements, Holds, Pow;
    HasModulus(res, sum, code, base, env, w);
    PowPositive(2, if idx.Given? then idx.index.width else 0);
    r, next := code, res;
    if idx.Given? && idx.index.Constant? && idx.index.value % Pow(2, idx.index.width) == 0 {
      ZeroGiven(idx, x, code, base, env, w);
      ZeroIndex(x, size, Pow(2, w));
      ModAdd(sum, sum, x * size, 0, Pow(2, w));
      HoldsSame(res, sum, sum + x * size, code, base, env, w);
      return;
    }
    var element, scaled := size % Pow(2, w), idx;
    if element != 1 {
      var power := Log2(element);
      var scale := if power.Some? then Shl(idx, power.value) else Mul(idx, element);
      ScaleHolds(idx, x, size, scale, code, base, env, w);
      HoldsAppend(res, sum, code, scale, base, env, w);
      CanonicalAppend(levels, operands, code, scale, base, env, w);
      r, scaled := code + [scale], Result(|code|);
    } else {
      UnitSize(idx, x, size, code, base, env, w);
    }
    AddHolds(res, sum, scaled, x * size, r, base, env, w);
    CanonicalAppend(levels, operands, r, Add(res, scaled), base, env, w);
    r, next := r + [Add(res, scaled)], Result(|r|);
  }

  /** The base, then every sequential index, then the sum of the field offsets unless it is zero. */
  method LowerToArithmetic(levels: seq<Level>, operands: seq<Value>, canonical: seq<Instruction>, offset: nat, w: nat,
                           ghost base: nat, ghost env: nat -> nat)
    returns (code: seq<Instruction>)
    requires |operands| == |levels| && Canonical(levels, operands, |levels|, canonical, base, env, w)
    ensures code != [] && Pow(2, w) > 0
    ensures Results(code, base, env, w)[|code| - 1] == (base + Elements(levels, env) + offset) % Pow(2, w)
  {
    hide Canonical, Execute, Results, Raw, Signed;
    PowPositive(2, w);
    var res: Value;
    code, res := canonical + [PtrToInt], Result(|canonical|);
    BaseHolds(canonical, base, env, w);
    CanonicalAppend(levels, operands, canonical, PtrToInt, base, env, w);
    for n := 0 to |levels|
      invariant Holds(res, base + Elements(levels[..n], env), code, base, env, w)
      invariant Canonical(levels, operands, |levels|, code, base, env, w)
    {
      assert levels[..n + 1][..n] == levels[..n];
      if levels[n].Sequential? {
        ghost var x, sum := Signed(levels[n].index, env), base + Elements(levels[..n], env);
        CanonicalAt(levels, operands, n, code, base, env, w);
        code, res := LowerIndex(operands[n], levels[n].size, code, res, w, x, sum, levels, operands, base, env);
      }
    }
    assert levels[..|levels|] == levels;
    ghost var sum := base + Elements(levels, env);
    if offset != 0 {
      LiteralHolds(offset, code, base, env, w);
      AddHolds(res, sum, Literal(offset), offset, code, base, env, w);
      code, res := code + [Add(res, Literal(offset))], Result(|code|);
    }
    PointerHolds(res, sum + offset, code, base, env, w);
    code := code + [IntToPtr(res)];
  }

  lemma BaseHolds(code: seq<Instruction>, base: nat, env: nat -> nat, w: nat)
    ensures Holds(Result(|code|), base, code + [PtrToInt], base, env, w)
  {
    HoldsNew(code, PtrToInt, base, env, w);
    ModMod(base, Pow(2, w));
  }

  lemma LiteralHolds(n: nat, code: seq<Instruction>, base: nat, env: nat -> nat, w: nat)
    ensures Holds(Literal(n), n, code, base, env, w)
  {
    PowPositive(2, w);
    ModMod(n, Pow(2, w));
  }

  lemma PointerHolds(v: Value, x: int, code: seq<Instruction>, base: nat, env: nat -> nat, w: nat)
    requires Holds(v, x, code, base, env, w)
    ensures Results(code + [IntToPtr(v)], base, env, w)[|code|] == x % Pow(2, w)
  {
    ResultsAppend(code, IntToPtr(v), base, env, w);
  }

  lemma CanonicalAt(levels: seq<Level>, operands: seq<Value>, n: nat, code: seq<Instruction>, base: nat,
                    env: nat -> nat, w: nat)
    requires n < |levels| == |operands| && Canonical(levels, operands, |levels|, code, base, env, w)
    requires levels[n].Sequential?
    ensures Holds(operands[n], Signed(levels[n].index, env), code, base, env, w)
  {
  }

  lemma HasModulus(v: Value, x: int, code: seq<Instruction>, base: nat, env: nat -> nat, w: nat)
    requires Holds(v, x, code, base, env, w)
    ensures Pow(2, w) > 0
  {
  }

  lemma ZeroGiven(v: Value, x: int, code: seq<Instruction>, base: nat, env: nat -> nat, w: nat)
    requires Holds(v, x, code, base, env, w) && v.Given? && v.index.Constant?
    requires Pow(2, v.index.width) > 0 && v.index.value % Pow(2, v.index.width) == 0
    ensures Pow(2, w) > 0 && x % Pow(2, w) == 0
  {
    hide Pow, Results;
    SmallRemainder(0, Pow(2, w));
    assert Raw(v.index, env) == 0;
  }

  lemma HoldsSame(v: Value, x: int, y: int, code: seq<Instruction>, base: nat, env: nat -> nat, w: nat)
    requires Holds(v, x, code, base, env, w) && Pow(2, w) > 0 && x % Pow(2, w) == y % Pow(2, w)
    ensures Holds(v, y, code, base, env, w)
  {
  }

  lemma ZeroIndex(x: int, size: nat, m: nat)
    requires m > 0 && x % m == 0
    ensures (x * size) % m == 0
  {
    ModMul(x, 0, size, size, m);
  }

  lemma UnitSize(v: Value, x: int, size: nat, code: seq<Instruction>, base: nat, env: nat -> nat, w: nat)
    requires Holds(v, x, code, base, env, w) && size % Pow(2, w) == 1
    ensures Holds(v, x * size, code, base, env, w)
  {
    var m := Pow(2, w);
    RemainderOf(1, m, 0, 1);
    ModMul(x, x, size, 1, m);
  }

  /**
   The lowered code computes the address modulo the width of pointers, for every type and path, every base
   and all register contents: `base` and `env` are ghost, so the code cannot depend on them.
   */
  method LowerPointerArithmetic(t: Type, first: Index, p: Path, w: nat, ghost base: nat, ghost env: nat -> nat)
    returns (code: seq<Instruction>)
    requires Fits(t, p) && w <= 64
    ensures code != [] && Pow(2, w) > 0
    ensures Results(code, base, env, w)[|code| - 1] == Address(base, t, first, p, env) % Pow(2, w)
  {
    var levels := Levels(t, first, p);
    AddressSplits(base, t, first, p, env);
    var canonical, operands := Canonicalize(levels, w, base, env);
    var offset := AccumulateByteOffset(levels);
    code := LowerToArithmetic(levels, operands, canonical, offset, w, base, env);
    WordIsPower(w);
    ModNarrow(Fields(levels), WORD, Pow(2, 64 - w), Pow(2, w));
    ghost var sum := base + Elements(levels, env);
    ModAdd(sum, sum, offset, Fields(levels), Pow(2, w));
  }
}
