/**
 Expressions in reverse Polish notation: every operation is one byte followed by as many immediate bytes
 as the operation's traits say. Operations are named by their position in the enumeration.
 */
module Rpn {
  import opened Outcomes
  import opened Terms

  type Code = Octet

  const EQ: Code := 1
  const ARRAY: Code := 5
  const VAR_I1: Code := 6
  const CONST_I1: Code := 13
  const BV_SEXT: Code := 22
  const BV_STOFP: Code := 26
  const FP_EXT: Code := 28
  const FP_TOSBV: Code := 30
  const BOOL_AND: Code := 32
  const BOOL_NOT: Code := 36
  const BV_AND: Code := 37
  const BV_EXTRACT: Code := 79
  const BV_CONCAT: Code := 80
  const LOAD: Code := 81
  const STORE: Code := 82

  /** The number of operands; conversions between integers and floats are recorded with none. */
  function Arity(op: Code): nat {
    if EQ <= op < ARRAY || BOOL_AND <= op < BOOL_NOT || BV_AND <= op < BV_EXTRACT then 2
    else if op == BV_CONCAT || op == STORE then 2
    else if CONST_I1 + 7 <= op < BV_STOFP || FP_EXT <= op < FP_TOSBV then 1
    else if op == BOOL_NOT || op == BV_EXTRACT || op == LOAD then 1
    else 0
  }

  /** The number of immediate bytes. */
  function Immediate(op: Code): nat {
    if op == ARRAY then 4
    else if VAR_I1 <= op < CONST_I1 then 2
    else if CONST_I1 <= op < CONST_I1 + 7 then [1, 1, 2, 4, 8, 4, 8][op - CONST_I1]
    else if BV_SEXT <= op < BOOL_AND then 1
    else if op == BV_EXTRACT then 2
    else if op == LOAD || op == STORE then 1
    else 0
  }

  datatype Atom = Atom(op: Code, imm: seq<Octet>)

  predicate Sound(a: Atom) {
    |a.imm| == Immediate(a.op)
  }

  datatype Tree = Leaf(atom: Atom) | Unary(atom: Atom, arg: Tree) | Binary(atom: Atom, left: Tree, right: Tree)

  /** Every node has the operands and the immediate bytes of its operation. */
  predicate WellFormed(t: Tree) {
    Sound(t.atom) && match t
      case Leaf(a) => Arity(a.op) == 0
      case Unary(a, arg) => Arity(a.op) == 1 && WellFormed(arg)
      case Binary(a, left, right) => Arity(a.op) == 2 && WellFormed(left) && WellFormed(right)
  }

  function AtomBytes(a: Atom): seq<Octet> {
    [a.op] + a.imm
  }

  function Encode(t: Tree): seq<Octet> {
    match t
    case Leaf(a) => AtomBytes(a)
    case Unary(a, arg) => Encode(arg) + AtomBytes(a)
    case Binary(a, left, right) => Encode(left) + Encode(right) + AtomBytes(a)
  }

  // ----- reading an expression back

  /** The operations met by an iterator, provided it stops exactly at the end. */
  function Walk(bytes: seq<Octet>): Option<seq<Atom>>
    decreases |bytes|
  {
    if bytes == [] then Some([])
    else
      var size := 1 + Immediate(bytes[0]);
      if size > |bytes| then None
      else match Walk(bytes[size..])
        case Some(atoms) => Some([Atom(bytes[0], bytes[1..size])] + atoms)
        case None => None
  }

  datatype Stack = Empty | Push(top: Tree, below: Stack)

  /** Operations applied to a stack of operands. */
  function Build(atoms: seq<Atom>, s: Stack): Option<Stack> {
    if atoms == [] then Some(s)
    else
      var n := Arity(atoms[0].op);
      if n == 0 then Build(atoms[1..], Push(Leaf(atoms[0]), s))
      else if n == 1 && s.Push? then Build(atoms[1..], Push(Unary(atoms[0], s.top), s.below))
      else if n == 2 && s.Push? && s.below.Push? then
        Build(atoms[1..], Push(Binary(atoms[0], s.below.top, s.top), s.below.below))
      else None
  }

  function Decode(bytes: seq<Octet>): Option<Stack> {
    match Walk(bytes)
    case Some(atoms) => Build(atoms, Empty)
    case None => None
  }

  /** The operations of a tree, operands first. */
  function Postfix(t: Tree): seq<Atom> {
    match t
    case Leaf(a) => [a]
    case Unary(a, arg) => Postfix(arg) + [a]
    case Binary(a, left, right) => Postfix(left) + Postfix(right) + [a]
  }

  function Flatten(atoms: seq<Atom>): seq<Octet> {
    if atoms == [] then [] else AtomBytes(atoms[0]) + Flatten(atoms[1..])
  }

  lemma {:induction false} FlattenAppend(p: seq<Atom>, q: seq<Atom>)
    ensures Flatten(p + q) == Flatten(p) + Flatten(q)
  {
    hide AtomBytes;
    if p == [] {
      assert p + q == q;
    } else {
      FlattenAppend(p[1..], q);
      assert (p + q)[1..] == p[1..] + q;
      Assoc(AtomBytes(p[0]), Flatten(p[1..]), Flatten(q));
    }
  }

  lemma {:induction false} EncodeFlattens(t: Tree)
    ensures Encode(t) == Flatten(Postfix(t))
  {
    match t
    case Leaf(a) => FlattenOne(a);
    case Unary(a, arg) =>
      EncodeFlattens(arg);
      FlattenOne(a);
      FlattenAppend(Postfix(arg), [a]);
    case Binary(a, left, right) =>
      EncodeFlattens(left);
      EncodeFlattens(right);
      FlattenOne(a);
      FlattenAppend(Postfix(left), Postfix(right));
      FlattenAppend(Postfix(left) + Postfix(right), [a]);
  }

  lemma FlattenOne(a: Atom)
    ensures Flatten([a]) == AtomBytes(a)
  {
    assert Flatten([a]) == AtomBytes(a) + Flatten([]);
  }

  /** Walking is the exact inverse of writing operations one after another. */
  lemma {:induction false} WalkExact(bytes: seq<Octet>, atoms: seq<Atom>)
    ensures Walk(bytes) == Some(atoms) <==> bytes == Flatten(atoms) && forall a <- atoms :: Sound(a)
    decreases |bytes|
  {
    hide Immediate;
    if bytes != [] && 1 + Immediate(bytes[0]) <= |bytes| {
      var size := 1 + Immediate(bytes[0]);
      var a := Atom(bytes[0], bytes[1..size]);
      assert bytes == AtomBytes(a) + bytes[size..];
      if atoms != [] {
        WalkExact(bytes[size..], atoms[1..]);
        assert atoms == [atoms[0]] + atoms[1..];
        if bytes == Flatten(atoms) && Sound(atoms[0]) {
          Heads(atoms[0], Flatten(atoms[1..]), bytes);
        }
      }
      match Walk(bytes[size..])
      case Some(rest) =>
        assert ([a] + rest)[1..] == rest;
      case None =>
    } else if atoms != [] {
      FirstFits(atoms[0], Flatten(atoms[1..]), bytes);
    }
  }

  lemma FirstFits(a: Atom, rest: seq<Octet>, bytes: seq<Octet>)
    ensures Sound(a) && bytes == AtomBytes(a) + rest ==> |bytes| >= 1 + Immediate(bytes[0])
  {
  }

  lemma Heads(a: Atom, rest: seq<Octet>, bytes: seq<Octet>)
    requires Sound(a) && bytes == AtomBytes(a) + rest
    ensures var size := 1 + Immediate(bytes[0]);
            size <= |bytes| && a == Atom(bytes[0], bytes[1..size]) && rest == bytes[size..]
  {
  }

  lemma {:induction false} PostfixSound(t: Tree)
    requires WellFormed(t)
    ensures forall a <- Postfix(t) :: Sound(a)
  {
    match t
    case Leaf(_) =>
    case Unary(_, arg) => PostfixSound(arg);
    case Binary(_, left, right) =>
      PostfixSound(left);
      PostfixSound(right);
  }

  /** A tree's operations push exactly that tree, whatever comes before and after. */
  lemma {:induction false} BuildTree(t: Tree, rest: seq<Atom>, s: Stack)
    requires WellFormed(t)
    ensures Build(Postfix(t) + rest, s) == Build(rest, Push(t, s))
  {
    match t
    case Leaf(a) =>
      assert ([a] + rest)[1..] == rest;
    case Unary(a, arg) =>
      BuildTree(arg, [a] + rest, s);
      assert Postfix(t) + rest == Postfix(arg) + ([a] + rest);
      assert ([a] + rest)[1..] == rest;
    case Binary(a, left, right) =>
      assert Postfix(t) + rest == Postfix(left) + (Postfix(right) + ([a] + rest));
      BuildTree(left, Postfix(right) + ([a] + rest), s);
      BuildTree(right, [a] + rest, Push(left, s));
      assert ([a] + rest)[1..] == rest;
  }

  /** The walk over an encoding stops at its end having met one operation per node, and yields the tree. */
  lemma DecodeEncode(t: Tree)
    requires WellFormed(t)
    ensures Walk(Encode(t)) == Some(Postfix(t)) && Decode(Encode(t)) == Some(Push(t, Empty))
  {
    EncodeFlattens(t);
    PostfixSound(t);
    WalkExact(Encode(t), Postfix(t));
    BuildTree(t, [], Empty);
    assert Postfix(t) + [] == Postfix(t);
  }

  /** The operations behind a stack, bottom first. */
  function Written(s: Stack): seq<Atom> {
    match s case Empty => [] case Push(t, below) => Written(below) + Postfix(t)
  }

  predicate AllWellFormed(s: Stack) {
    match s case Empty => true case Push(t, below) => WellFormed(t) && AllWellFormed(below)
  }

  lemma {:induction false} BuildWrites(atoms: seq<Atom>, s: Stack, r: Stack)
    requires Build(atoms, s) == Some(r) && AllWellFormed(s) && forall a <- atoms :: Sound(a)
    ensures AllWellFormed(r) && Written(r) == Written(s) + atoms
  {
    if atoms == [] {
      assert Written(s) + [] == Written(s);
    } else {
      var a, n := atoms[0], Arity(atoms[0].op);
      var next := if n == 0 then Push(Leaf(a), s)
                  else if n == 1 then Push(Unary(a, s.top), s.below)
                  else Push(Binary(a, s.below.top, s.top), s.below.below);
      assert Build(atoms[1..], next) == Some(r) && AllWellFormed(next);
      StepWrites(a, s, next);
      BuildWrites(atoms[1..], next, r);
      Regroup(Written(s), a, atoms);
    }
  }

  lemma StepWrites(a: Atom, s: Stack, next: Stack)
    requires || next == Push(Leaf(a), s)
             || (s.Push? && next == Push(Unary(a, s.top), s.below))
             || (s.Push? && s.below.Push? && next == Push(Binary(a, s.below.top, s.top), s.below.below))
    ensures Written(next) == Written(s) + [a]
  {
    hide WellFormed, AtomBytes;
    if s.Push? && next == Push(Unary(a, s.top), s.below) {
      Assoc(Written(s.below), Postfix(s.top), [a]);
    } else if s.Push? && s.below.Push? && next == Push(Binary(a, s.below.top, s.top), s.below.below) {
      var w, x, y := Written(s.below.below), Postfix(s.below.top), Postfix(s.top);
      Assoc(w, x + y, [a]);
      Assoc(w, x, y);
    }
  }

  lemma Assoc<T>(p: seq<T>, q: seq<T>, r: seq<T>)
    ensures p + (q + r) == (p + q) + r
  {
  }

  lemma Regroup(w: seq<Atom>, a: Atom, atoms: seq<Atom>)
    requires atoms != [] && atoms[0] == a
    ensures w + [a] + atoms[1..] == w + atoms
  {
    assert [a] + atoms[1..] == atoms;
  }

  /** Decoding succeeds with one tree exactly on that tree's encoding: no other bytes decode to it. */
  lemma DecodeExact(bytes: seq<Octet>, t: Tree)
    ensures Decode(bytes) == Some(Push(t, Empty)) <==> WellFormed(t) && bytes == Encode(t)
  {
    if WellFormed(t) && bytes == Encode(t) {
      DecodeEncode(t);
    } else if Decode(bytes) == Some(Push(t, Empty)) {
      var atoms := Walk(bytes).value;
      WalkExact(bytes, atoms);
      BuildWrites(atoms, Empty, Push(t, Empty));
      assert [] + Postfix(t) == Postfix(t) && [] + atoms == atoms;
      EncodeFlattens(t);
    }
  }

  /** Distinct expressions have distinct encodings. */
  lemma EncodeInjective(t: Tree, u: Tree)
    requires WellFormed(t) && WellFormed(u) && Encode(t) == Encode(u)
    ensures t == u
  {
    DecodeEncode(t);
    DecodeEncode(u);
  }

  /** A conversion recorded without operands leaves its operand on the stack as a second expression. */
  lemma ConversionDetached(t: Tree, op: Code, width: Octet)
    requires WellFormed(t) && (op == BV_STOFP || op == BV_STOFP + 1 || op == FP_TOSBV || op == FP_TOSBV + 1)
    ensures Decode(Encode(t) + AtomBytes(Atom(op, [width])))
         == Some(Push(Leaf(Atom(op, [width])), Push(t, Empty)))
  {
    var a := Atom(op, [width]);
    EncodeFlattens(t);
    PostfixSound(t);
    FlattenOne(a);
    FlattenAppend(Postfix(t), [a]);
    WalkExact(Encode(t) + AtomBytes(a), Postfix(t) + [a]);
    BuildTree(t, [a], Empty);
  }

  // ----- immediate values

  function LittleEndian(v: nat, k: nat): (bytes: seq<Octet>)
    ensures |bytes| == k
  {
    if k == 0 then [] else [v % 256] + LittleEndian(v / 256, k - 1)
  }

  function FromBytes(bytes: seq<Octet>): nat {
    if bytes == [] then 0 else bytes[0] + 256 * FromBytes(bytes[1..])
  }

  lemma {:induction false} ImmediateLow(v: nat, k: nat)
    ensures FromBytes(LittleEndian(v, k)) == Low(v, k)
  {
    if k > 0 {
      ImmediateLow(v / 256, k - 1);
      assert LittleEndian(v, k)[1..] == LittleEndian(v / 256, k - 1);
    }
  }

  /** A value stored as `k` immediate bytes is read back modulo 256 to the `k`. */
  lemma ImmediateRoundTrip(v: nat, k: nat)
    ensures Pow(256, k) > 0 && FromBytes(LittleEndian(v, k)) == v % Pow(256, k)
  {
    ImmediateLow(v, k);
    LowIsRemainder(v, k);
  }

  /** The variable made by the `counter`-th call, for the operation `VAR_I1` and up. */
  function Any(op: Code, counter: nat): Tree {
    Leaf(Atom(op, LittleEndian(counter, 2)))
  }

  /** Variable numbers are 16 bits wide: two variables of one type are distinct unless their counters agree modulo
      65536. */
  lemma AnyDistinct(op: Code, i: nat, j: nat)
    ensures Any(op, i) == Any(op, j) <==> i % 65536 == j % 65536
  {
    assert Pow(256, 2) == 256 * Pow(256, 1) == 65536 * Pow(256, 0) by {
      assert Pow(256, 1) == 256 * Pow(256, 0);
    }
    ImmediateRoundTrip(i, 2);
    ImmediateRoundTrip(j, 2);
    ImmediateLow(i, 2);
    ImmediateLow(j, 2);
    if i % 65536 == j % 65536 {
      LowDecides(i, j, 2);
    }
  }

  lemma {:induction false} LowDecides(i: nat, j: nat, k: nat)
    requires Low(i, k) == Low(j, k)
    ensures LittleEndian(i, k) == LittleEndian(j, k)
  {
    if k > 0 {
      assert i % 256 == j % 256 && Low(i / 256, k - 1) == Low(j / 256, k - 1);
      LowDecides(i / 256, j / 256, k - 1);
    }
  }

  // ----- constants and variables of the machine's types

  /** Variables and constants are listed in the same order of types. */
  function TypeIndex(op: Code): nat
    requires VAR_I1 <= op < CONST_I1 + 7
  {
    (op - VAR_I1) % 7
  }

  function Bits(op: Code): nat
    requires VAR_I1 <= op < CONST_I1 + 7
  {
    [1, 8, 16, 32, 64, 32, 64][TypeIndex(op)]
  }

  /** The arithmetic types; a pointer is lifted like a 64-bit integer. */
  datatype Scalar = Bool | Int(bits: nat) | Real(bits: nat) {

    predicate Arithmetic() {
      Bool? || (Int? && bits in [8, 16, 32, 64]) || (Real? && bits in [32, 64])
    }

    function Width(): nat {
      if Bool? then 1 else bits
    }

    /** The bytes that a value of the type takes in memory. */
    function Size(): nat {
      if Bool? then 1 else bits / 8
    }
  }

  predicate Matches(op: Code, constant: bool, t: Scalar) {
    && VAR_I1 <= op < CONST_I1 + 7 && (op >= CONST_I1 <==> constant)
    && Bits(op) == t.Width() && (TypeIndex(op) >= 5 <==> t.Real?)
  }

  /** The first operation from `op` on that is a variable or a constant of the type. */
  function Match(constant: bool, t: Scalar, op: Code): Option<Code>
    decreases STORE - op
  {
    if Matches(op, constant, t) then Some(op)
    else if op >= STORE then None
    else Match(constant, t, op + 1)
  }

  lemma {:induction false} MatchFinds(constant: bool, t: Scalar, op: Code, from: Code)
    requires Matches(op, constant, t) && from <= op
    ensures Match(constant, t, from).Some? && Matches(Match(constant, t, from).value, constant, t)
    decreases op - from
  {
    if from < op {
      MatchFinds(constant, t, op, from + 1);
    }
  }

  lemma EveryTypeMatched(constant: bool, t: Scalar)
    requires t.Arithmetic()
    ensures Match(constant, t, 0).Some? && Matches(Match(constant, t, 0).value, constant, t)
  {
    var index := if t.Bool? then 0 else if t.bits == 8 then 1 else if t.bits == 16 then 2
                 else if t.bits == 32 then (if t.Int? then 3 else 5)
                 else if t.Int? then 4 else 6;
    MatchFinds(constant, t, if constant then CONST_I1 + index else VAR_I1 + index, 0);
  }

  /** The expression made of a value of the type, given by its bits in memory. */
  function Lift(t: Scalar, v: nat): Tree
    requires t.Arithmetic()
  {
    EveryTypeMatched(true, t);
    Leaf(Atom(Match(true, t, 0).value, LittleEndian(v, t.Size())))
  }

  function Fresh(t: Scalar, counter: nat): Tree
    requires t.Arithmetic()
  {
    EveryTypeMatched(false, t);
    Any(Match(false, t, 0).value, counter)
  }

  /** As many bytes as hold a value of the width. */
  function Held(width: nat): nat {
    if width <= 8 then 1 else if width <= 16 then 2 else if width <= 32 then 4 else 8
  }

  /** What is read of a constant. */
  function Constant(a: Atom): nat
    requires CONST_I1 <= a.op < CONST_I1 + 7 && Sound(a)
  {
    FromBytes(a.imm[..Held(Bits(a.op))])
  }

  /** Three sizes agree: what is read of a constant, what the traits say, and what the type takes in memory. */
  lemma SizesAgree(op: Code, t: Scalar)
    requires t.Arithmetic() && Matches(op, true, t)
    ensures Held(Bits(op)) == Immediate(op) == t.Size() && Arity(op) == 0
  {
    assert op - CONST_I1 == TypeIndex(op);
  }

  lemma HeldWhole(v: nat, k: nat)
    requires v < Pow(256, k)
    ensures FromBytes(LittleEndian(v, k)[..k]) == v
  {
    hide LittleEndian, FromBytes, Pow;
    ImmediateRoundTrip(v, k);
    assert LittleEndian(v, k)[..k] == LittleEndian(v, k);
  }

  /** A lifted value is one well-formed operation, whatever its type: its encoding reads back as the constant of the
      same width and value, and of no other type. */
  lemma LiftReadBack(t: Scalar, v: nat)
    requires t.Arithmetic() && v < Pow(256, t.Size())
    ensures Decode(Encode(Lift(t, v))) == Some(Push(Lift(t, v), Empty))
    ensures var a := Lift(t, v).atom;
            Matches(a.op, true, t) && Sound(a) && Bits(a.op) == t.Width() && Constant(a) == v
  {
    hide Arity, Immediate, Bits, Held, Match, LittleEndian, FromBytes, Pow, Decode, Encode, Scalar.Size;
    EveryTypeMatched(true, t);
    SizesAgree(Match(true, t, 0).value, t);
    HeldWhole(v, t.Size());
    DecodeEncode(Lift(t, v));
  }

  /** Values of different types, or different values of one type, are lifted to different bytes. */
  lemma LiftInjective(t: Scalar, v: nat, u: Scalar, w: nat)
    requires t.Arithmetic() && v < Pow(256, t.Size()) && u.Arithmetic() && w < Pow(256, u.Size())
    ensures Encode(Lift(t, v)) == Encode(Lift(u, w)) ==> t == u && v == w
  {
    LiftReadBack(t, v);
    LiftReadBack(u, w);
  }

  /** A new variable is one operation of its type's width that carries the counter modulo 65536. */
  lemma FreshReadBack(t: Scalar, counter: nat)
    requires t.Arithmetic()
    ensures Decode(Encode(Fresh(t, counter))) == Some(Push(Fresh(t, counter), Empty))
    ensures var a := Fresh(t, counter).atom;
            Matches(a.op, false, t) && Bits(a.op) == t.Width() && FromBytes(a.imm) == counter % 65536
  {
    EveryTypeMatched(false, t);
    DecodeEncode(Fresh(t, counter));
    ImmediateRoundTrip(counter, 2);
    assert Pow(256, 2) == 256 * Pow(256, 1) && Pow(256, 1) == 256 * Pow(256, 0);
  }

  /** The operations for which the domain has a function of two expressions, and those that change a width. */
  predicate TakesTwo(op: Code) {
    EQ <= op <= EQ + 1 || BV_AND <= op < BV_EXTRACT
  }

  predicate ChangesWidth(op: Code) {
    BV_SEXT <= op < BV_STOFP || FP_EXT <= op < FP_TOSBV
  }

  /** The bytes that these functions put together read back as the operation on exactly the operands given. */
  lemma BuiltReadBack(op: Code, x: Tree, y: Tree, width: Octet)
    requires WellFormed(x) && WellFormed(y)
    ensures TakesTwo(op) ==>
              Decode(Encode(x) + Encode(y) + [op]) == Some(Push(Binary(Atom(op, []), x, y), Empty))
    ensures ChangesWidth(op) ==>
              Decode(Encode(x) + [op, width]) == Some(Push(Unary(Atom(op, [width]), x), Empty))
  {
    if TakesTwo(op) {
      DecodeEncode(Binary(Atom(op, []), x, y));
      assert AtomBytes(Atom(op, [])) == [op];
    }
    if ChangesWidth(op) {
      DecodeEncode(Unary(Atom(op, [width]), x));
      assert AtomBytes(Atom(op, [width])) == [op, width];
    }
  }

  // ----- building and walking the byte vector

  function Prefixed(met: seq<Atom>, rest: Option<seq<Atom>>): Option<seq<Atom>> {
    match rest case Some(atoms) => Some(met + atoms) case None => None
  }

  lemma Joined(met: seq<Atom>, rest: Option<seq<Atom>>)
    requires met == []
    ensures Prefixed(met, rest) == rest
  {
    assert rest.Some? ==> met + rest.value == rest.value;
  }

  lemma PrefixedTwice(met: seq<Atom>, a: Atom, rest: Option<seq<Atom>>)
    ensures Prefixed(met, Prefixed([a], rest)) == Prefixed(met + [a], rest)
  {
    assert rest.Some? ==> met + ([a] + rest.value) == met + [a] + rest.value;
  }

  lemma WalkNothing(bytes: seq<Octet>)
    requires bytes == []
    ensures Walk(bytes) == Some([])
  {
  }

  /** One move of the iterator. */
  lemma WalkOne(bytes: seq<Octet>, base: nat)
    requires base < |bytes|
    ensures var size := 1 + Immediate(bytes[base]);
            Walk(bytes[base..]) ==
              if base + size > |bytes| then None
              else Prefixed([Atom(bytes[base], bytes[base + 1..base + size])], Walk(bytes[base + size..]))
  {
    hide Immediate;
    var size := 1 + Immediate(bytes[base]);
    if base + size <= |bytes| {
      assert bytes[base..][1..size] == bytes[base + 1..base + size];
      assert bytes[base..][size..] == bytes[base + size..];
    }
  }

  class Expression {
    var bytes: seq<Octet>

    constructor ()
      ensures bytes == []
    {
      bytes := [];
    }

    method ApplyAtom(a: Atom)
      requires Sound(a)
      modifies this
      ensures bytes == old(bytes) + AtomBytes(a)
    {
      bytes := bytes + [a.op] + a.imm;
      assert old(bytes) + ([a.op] + a.imm) == bytes;
    }

    method ApplyExpression(e: Expression)
      modifies this
      ensures bytes == old(bytes) + old(e.bytes)
    {
      bytes := bytes + e.bytes;
    }

    /** An iterator moved from the beginning to the end; it overruns exactly when no list of operations was written. */
    method Atoms() returns (atoms: Option<seq<Atom>>)
      ensures atoms == Walk(bytes)
    {
      hide Walk, Immediate;
      var met: seq<Atom> := [];
      var base := 0;
      assert bytes[base..] == bytes;
      Joined(met, Walk(bytes));
      while base < |bytes|
        invariant base <= |bytes|
        invariant Walk(bytes) == Prefixed(met, Walk(bytes[base..]))
      {
        WalkOne(bytes, base);
        var size := 1 + Immediate(bytes[base]);
        if base + size > |bytes| {
          return None;
        }
        var a := Atom(bytes[base], bytes[base + 1..base + size]);
        PrefixedTwice(met, a, Walk(bytes[base + size..]));
        met := met + [a];
        base := base + size;
      }
      WalkNothing(bytes[base..]);
      assert met + [] == met;
      return Some(met);
    }
  }

  /** A binary operation: both operands' bytes, then the operation. */
  method Combine(a: Expression, b: Expression, op: Code, ghost x: Tree, ghost y: Tree) returns (r: Expression)
    requires a.bytes == Encode(x) && b.bytes == Encode(y) && WellFormed(x) && WellFormed(y)
    requires Arity(op) == 2 && Immediate(op) == 0
    ensures fresh(r) && r.bytes == Encode(Binary(Atom(op, []), x, y)) && WellFormed(Binary(Atom(op, []), x, y))
  {
    r := new Expression();
    r.ApplyExpression(a);
    r.ApplyExpression(b);
    r.ApplyAtom(Atom(op, []));
    assert [] + Encode(x) == Encode(x);
  }

  /** A change of width: the operand's bytes, then the operation with the new width. */
  method Resize(a: Expression, width: Octet, op: Code, ghost x: Tree) returns (r: Expression)
    requires a.bytes == Encode(x) && WellFormed(x) && Arity(op) == 1 && Immediate(op) == 1
    ensures fresh(r) && r.bytes == Encode(Unary(Atom(op, [width]), x)) && WellFormed(Unary(Atom(op, [width]), x))
  {
    r := new Expression();
    r.ApplyExpression(a);
    r.ApplyAtom(Atom(op, [width]));
    assert [] + Encode(x) == Encode(x);
  }
}
