/** Reading abstract values back out of shadow memory, and what such a read means byte by byte. */
module Melting {
  import opened Outcomes
  import opened Terms
  import opened Shadow

  /** One element of a read: a label's record, or one byte without a label. */
  datatype Piece = Whole(info: Info) | Plain

  function Size(p: Piece): nat {
    match p case Whole(i) => i.bytes case Plain => 1
  }

  function Total(pieces: seq<Piece>): nat {
    if pieces == [] then 0 else Size(pieces[0]) + Total(pieces[1..])
  }

  function PieceAt(m: Memory, a: nat): (p: Piece)
    requires Valid(m)
    ensures Size(p) > 0
  {
    if a in m.shadow then Whole(m.info[m.shadow[a]]) else Plain
  }

  /** A labelled byte advances the read by the label's full size. */
  function Peek(m: Memory, a: nat, n: int): seq<Piece>
    requires Valid(m)
    decreases if n > 0 then n else 0
  {
    if n <= 0 then [] else [PieceAt(m, a)] + Peek(m, a + Size(PieceAt(m, a)), n - Size(PieceAt(m, a)))
  }

  /** Later bytes are more significant. */
  function Append(result: Option<Term>, t: Term): Option<Term> {
    match result case Some(r) => Some(Concat(t, r)) case None => Some(t)
  }

  /** The pieces of a read of `n` bytes put together; `a` is the address reached, `result` the value so far. */
  function Assemble(pieces: seq<Piece>, concrete: nat -> Octet, a: nat, n: nat, result: Option<Term>): Option<Term> {
    if pieces == [] then result
    else match pieces[0]
      case Whole(i) =>
        if i.bytes == n || n == 0 then Some(i.value)
        else if i.bytes > n then Some(Trunc(i.value, 8 * n))
        else Assemble(pieces[1..], concrete, a + i.bytes, n, Append(result, i.value))
      case Plain => Assemble(pieces[1..], concrete, a + 1, n, Append(result, Byte(concrete(a))))
  }

  function Melt(m: Memory, concrete: nat -> Octet, addr: nat, n: nat): Option<Term>
    requires Valid(m)
  {
    Assemble(Peek(m, addr, if n == 0 then 1 else n), concrete, addr, n, None)
  }

  // ----- what memory holds

  /** A value made of whole bytes only. */
  predicate ByteWise(t: Term) {
    match t
    case Value(_, _) => true
    case Byte(_) => true
    case Concat(high, low) => ByteWise(high) && ByteWise(low)
    case Trunc(t, bits) => ByteWise(t) && bits % 8 == 0
  }

  lemma {:induction false} DenoteFits(t: Term, env: nat -> nat)
    requires ByteWise(t)
    ensures Denote(t, env) < Pow(256, Width(t))
  {
    match t
    case Value(id, bytes) => PowPositive(256, bytes);
    case Byte(octet) => assert Pow(256, 1) == 256 * Pow(256, 0);
    case Concat(high, low) =>
      DenoteFits(high, env);
      DenoteFits(low, env);
      PowAdd(256, Width(high), Width(low));
      Places(Denote(high, env), Denote(low, env), Pow(256, Width(high)), Pow(256, Width(low)));
    case Trunc(t, bits) =>
      PowOfBytes(bits / 8);
      PowPositive(2, bits);
      assert bits == 8 * (bits / 8);
  }

  lemma Places(h: nat, l: nat, p: nat, q: nat)
    requires h < p && l < q
    ensures h * q + l < p * q
  {
    assert (p - (h + 1)) * q >= 0;
    assert p * q == (p - (h + 1)) * q + (h + 1) * q;
    assert (h + 1) * q == h * q + q;
  }

  /** Every label's value is as wide as the span it was stored over. */
  ghost predicate Sized(m: Memory) {
    forall l <- m.info :: ByteWise(m.info[l].value) && Width(m.info[l].value) == m.info[l].bytes
  }

  /** The byte at `a`: of the abstract value that labels it, or the concrete one. */
  function ByteAt(m: Memory, concrete: nat -> Octet, env: nat -> nat, a: nat): Octet
    requires Valid(m)
  {
    if a in m.shadow then Digit(Denote(m.info[m.shadow[a]].value, env), a - m.info[m.shadow[a]].origin)
    else concrete(a)
  }

  /** The little-endian number in `n` bytes from `a`. */
  function Number(m: Memory, concrete: nat -> Octet, env: nat -> nat, a: nat, n: nat): nat
    requires Valid(m)
    decreases n
  {
    if n == 0 then 0 else ByteAt(m, concrete, env, a) + 256 * Number(m, concrete, env, a + 1, n - 1)
  }

  lemma {:induction false} NumberSplit(m: Memory, concrete: nat -> Octet, env: nat -> nat, a: nat, i: nat, j: nat)
    requires Valid(m)
    ensures Number(m, concrete, env, a, i + j)
         == Number(m, concrete, env, a + i, j) * Pow(256, i) + Number(m, concrete, env, a, i)
    decreases i
  {
    hide Valid, ByteAt;
    if i > 0 {
      NumberSplit(m, concrete, env, a + 1, i - 1, j);
      Carry(ByteAt(m, concrete, env, a), Number(m, concrete, env, a + i, j), Pow(256, i - 1),
            Number(m, concrete, env, a + 1, i - 1));
    }
  }

  lemma Carry(b: int, high: int, p: int, low: int)
    ensures b + 256 * (high * p + low) == high * (256 * p) + (b + 256 * low)
  {
  }

  /** All bytes of the label at `a`, `n` of them from `a` on, are still there. */
  ghost predicate Carries(m: Memory, mark: nat, a: nat, n: nat) {
    forall b | a <= b < a + n :: b in m.shadow && m.shadow[b] == mark
  }

  lemma CarriesAt(m: Memory, mark: nat, a: nat, n: nat, b: nat)
    requires Carries(m, mark, a, n) && a <= b < a + n
    ensures b in m.shadow && m.shadow[b] == mark
  {
  }

  /** Bytes that carry one label hold consecutive bytes of its value. */
  lemma {:induction false} CarriedNumber(m: Memory, concrete: nat -> Octet, env: nat -> nat, mark: nat, j: nat, n: nat)
    requires Valid(m) && mark in m.info && Carries(m, mark, m.info[mark].origin + j, n)
    ensures Number(m, concrete, env, m.info[mark].origin + j, n) == Low(Shift(Denote(m.info[mark].value, env), j), n)
    decreases n
  {
    hide Valid, Denote;
    if n > 0 {
      var a := m.info[mark].origin + j;
      assert a in m.shadow && m.shadow[a] == mark;
      CarriedNumber(m, concrete, env, mark, j + 1, n - 1);
      DigitShift(Denote(m.info[mark].value, env), j);
    }
  }

  /** Labels seen in `n` bytes from `a` lie wholly within them and are intact. */
  ghost predicate Tiled(m: Memory, a: nat, n: nat) {
    forall b | a <= b < a + n && b in m.shadow :: Inside(m, m.shadow[b], a, n)
  }

  ghost predicate Inside(m: Memory, mark: nat, a: nat, n: nat) {
    && mark in m.info && a <= m.info[mark].origin && m.info[mark].origin + m.info[mark].bytes <= a + n
    && Carries(m, mark, m.info[mark].origin, m.info[mark].bytes)
  }

  /** What follows the first piece of a tiled range is tiled. */
  lemma TiledRest(m: Memory, a: nat, n: nat)
    requires Valid(m) && n > 0 && Tiled(m, a, n)
    ensures var s := Size(PieceAt(m, a)); s <= n && Tiled(m, a + s, n - s)
    ensures a in m.shadow ==> m.info[m.shadow[a]].origin == a
  {
    var s := Size(PieceAt(m, a));
    if a in m.shadow {
      assert Inside(m, m.shadow[a], a, n);
    }
    forall b | a + s <= b < a + n && b in m.shadow
      ensures Inside(m, m.shadow[b], a + s, n - s)
    {
      var mark := m.shadow[b];
      assert Inside(m, mark, a, n);
      var o := m.info[mark].origin;
      assert Spans(m.info[mark], b);
      if o < a + s {
        CarriesAt(m, mark, o, m.info[mark].bytes, o);
      }
    }
  }

  /** The pieces of a read lie one after another from `a`, each whole. */
  predicate InOrder(pieces: seq<Piece>, m: Memory, a: nat)
    requires Valid(m)
  {
    pieces == [] || (pieces[0] == PieceAt(m, a) && (pieces[0].Whole? ==> pieces[0].info.origin == a)
                     && InOrder(pieces[1..], m, a + Size(pieces[0])))
  }

  /** A tiled range is read piece by piece in address order, no byte twice and none left out. */
  lemma {:induction false} PeekTiles(m: Memory, a: nat, n: nat)
    requires Valid(m) && Tiled(m, a, n)
    ensures InOrder(Peek(m, a, n), m, a) && Total(Peek(m, a, n)) == n
    decreases n
  {
    hide Valid, Tiled;
    if n > 0 {
      TiledRest(m, a, n);
      var p := PieceAt(m, a);
      PeekTiles(m, a + Size(p), n - Size(p));
      assert Peek(m, a, n)[1..] == Peek(m, a + Size(p), n - Size(p));
    }
  }

  /** `t` stands for the `n` bytes from `a`. */
  ghost predicate Stands(t: Term, m: Memory, concrete: nat -> Octet, env: nat -> nat, a: nat, n: nat)
    requires Valid(m)
  {
    ByteWise(t) && Width(t) == n && Denote(t, env) == Number(m, concrete, env, a, n)
  }

  lemma AppendStands(r: Term, t: Term, m: Memory, concrete: nat -> Octet, env: nat -> nat, a: nat, i: nat, j: nat)
    requires Valid(m) && Stands(r, m, concrete, env, a, i) && Stands(t, m, concrete, env, a + i, j)
    ensures Stands(Concat(t, r), m, concrete, env, a, i + j)
  {
    hide Valid;
    NumberSplit(m, concrete, env, a, i, j);
  }

  lemma LowOfSmall(v: nat, k: nat)
    requires v < Pow(256, k)
    ensures Low(v, k) == v
  {
    hide Low, Pow;
    LowIsRemainder(v, k);
  }

  /** An intact label's value stands for the bytes of its span. */
  lemma LabelStands(m: Memory, concrete: nat -> Octet, env: nat -> nat, mark: nat)
    requires Valid(m) && Sized(m) && mark in m.info && Carries(m, mark, m.info[mark].origin, m.info[mark].bytes)
    ensures Stands(m.info[mark].value, m, concrete, env, m.info[mark].origin, m.info[mark].bytes)
  {
    hide Valid, Number, Low, Denote, Pow;
    var i := m.info[mark];
    CarriedNumber(m, concrete, env, mark, 0, i.bytes);
    DenoteFits(i.value, env);
    LowOfSmall(Denote(i.value, env), i.bytes);
  }

  lemma PlainStands(m: Memory, concrete: nat -> Octet, env: nat -> nat, a: nat)
    requires Valid(m) && a !in m.shadow
    ensures Stands(Byte(concrete(a)), m, concrete, env, a, 1)
  {
    hide Valid;
    assert Number(m, concrete, env, a + 1, 0) == 0;
  }

  lemma FirstStands(m: Memory, concrete: nat -> Octet, env: nat -> nat, a: nat, n: nat)
    requires Valid(m) && Sized(m) && n > 0 && Tiled(m, a, n)
    ensures var p := PieceAt(m, a);
            Stands(if p.Whole? then p.info.value else Byte(concrete(a)), m, concrete, env, a, Size(p))
  {
    TiledRest(m, a, n);
    if a in m.shadow {
      assert Inside(m, m.shadow[a], a, n);
      LabelStands(m, concrete, env, m.shadow[a]);
    } else {
      PlainStands(m, concrete, env, a);
    }
  }

  /** What is assembled after `o` bytes of a read of `n`, given that what there was stood for those `o`. */
  lemma {:induction false} AssembleStands(m: Memory, concrete: nat -> Octet, env: nat -> nat, a: nat, n: nat,
                                          o: nat, r: Option<Term>)
    requires Valid(m) && Sized(m) && o <= n && Tiled(m, a + o, n - o)
    requires if r.Some? then o > 0 && Stands(r.value, m, concrete, env, a, o) else o == 0 < n
    ensures var t := Assemble(Peek(m, a + o, n - o), concrete, a + o, n, r);
            t.Some? && Stands(t.value, m, concrete, env, a, n)
    decreases n - o
  {
    hide Valid, Sized, Tiled, Stands, PieceAt, Number, Denote;
    if o < n {
      var p := PieceAt(m, a + o);
      TiledRest(m, a + o, n - o);
      FirstStands(m, concrete, env, a + o, n - o);
      var t := if p.Whole? then p.info.value else Byte(concrete(a + o));
      if r.Some? {
        AppendStands(r.value, t, m, concrete, env, a, o, Size(p));
      }
      assert Peek(m, a + o, n - o)[1..] == Peek(m, a + o + Size(p), n - o - Size(p));
      if p.Plain? || p.info.bytes < n {
        AssembleStands(m, concrete, env, a, n, o + Size(p), Append(r, t));
      }
    }
  }

  /** Reading a tiled range yields a value that stands for exactly its bytes, least significant first. */
  lemma MeltMeans(m: Memory, concrete: nat -> Octet, env: nat -> nat, a: nat, n: nat)
    requires Valid(m) && Sized(m) && n > 0 && Tiled(m, a, n)
    ensures var t := Melt(m, concrete, a, n);
            t.Some? && ByteWise(t.value) && Width(t.value) == n
            && Denote(t.value, env) == Number(m, concrete, env, a, n)
  {
    AssembleStands(m, concrete, env, a, n, 0, None);
  }

  /** A read that starts with a label's first byte and stops before its last yields the low bytes of its value. */
  lemma MeltPrefix(m: Memory, concrete: nat -> Octet, env: nat -> nat, a: nat, n: nat)
    requires Valid(m) && n > 0 && Carries(m, if a in m.shadow then m.shadow[a] else 0, a, n)
    requires a in m.shadow && m.info[m.shadow[a]].origin == a && n < m.info[m.shadow[a]].bytes
    ensures var v := m.info[m.shadow[a]].value;
            Melt(m, concrete, a, n) == Some(Trunc(v, 8 * n)) && Pow(256, n) > 0
            && Denote(Trunc(v, 8 * n), env) == Number(m, concrete, env, a, n) == Denote(v, env) % Pow(256, n)
  {
    var mark := m.shadow[a];
    var v := m.info[mark].value;
    assert Peek(m, a, n)[0] == Whole(m.info[mark]);
    CarriedNumber(m, concrete, env, mark, 0, n);
    TruncKeepsBytes(v, n, env);
    LowIsRemainder(Denote(v, env), n);
  }

  // ----- storing, then reading

  /** Storing an abstract value changes the meaning of exactly its bytes; storing none uncovers the concrete ones. */
  lemma PokeMeans(m: Memory, concrete: nat -> Octet, env: nat -> nat, addr: nat, n: nat, value: Option<Term>, a: nat)
    requires Valid(m) && m.frames != []
    ensures Valid(Poke(m, addr, n, value))
    ensures ByteAt(Poke(m, addr, n, value), concrete, env, a) ==
            if !(addr <= a < addr + n) then ByteAt(m, concrete, env, a)
            else if value.Some? then Digit(Denote(value.value, env), a - addr)
            else concrete(a)
  {
    hide Owned, Shaded, Counted, Denote, Digit, Poke;
    PokeValid(m, addr, n, value);
    PokeShade(m, addr, n, value, a);
    var r := Poke(m, addr, n, value);
    if !(addr <= a < addr + n) {
      Recorded(m, a);
      assert Shade(r, a) == Shade(m, a);
    } else if value.Some? {
      assert Shade(r, a) == Some(NextLabel(m));
      PokeInfo(m, addr, n, value.value);
    } else {
      assert Shade(r, a) == None;
    }
  }

  lemma Recorded(m: Memory, a: nat)
    requires Valid(m)
    ensures a in m.shadow ==> m.shadow[a] in m.info && m.info[m.shadow[a]].bytes > 0
  {
  }

  lemma PokeInfo(m: Memory, addr: nat, n: nat, v: Term)
    requires Valid(m) && m.frames != []
    ensures Poke(m, addr, n, Some(v)).info == m.info[NextLabel(m) := Info(v, addr, n)] && NextLabel(m) !in m.info
  {
    hide Owned, Shaded, Counted;
    CreateLabelFresh(m, Info(v, addr, n));
    SetLabelForm(CreateLabel(m, Info(v, addr, n)), NextLabel(m), addr, n, 0);
  }

  /** Storing values of the stored width keeps every label sized. */
  lemma PokeSized(m: Memory, addr: nat, n: nat, value: Option<Term>)
    requires Valid(m) && Sized(m) && m.frames != []
    requires value.Some? ==> ByteWise(value.value) && Width(value.value) == n
    ensures Sized(Poke(m, addr, n, value))
  {
    if value.Some? {
      PokeInfo(m, addr, n, value.value);
    }
  }

  lemma PokeCarries(m: Memory, addr: nat, n: nat, v: Term)
    requires m.frames != []
    ensures Carries(Poke(m, addr, n, Some(v)), NextLabel(m), addr, n)
  {
    forall a | addr <= a < addr + n
      ensures a in Poke(m, addr, n, Some(v)).shadow && Poke(m, addr, n, Some(v)).shadow[a] == NextLabel(m)
    {
      PokeShade(m, addr, n, Some(v), a);
    }
  }

  /** What was stored is what is read: whole, cut to a shorter width, and when the width is left open. */
  lemma FreezeMelt(m: Memory, concrete: nat -> Octet, addr: nat, n: nat, v: Term, k: nat)
    requires Valid(m) && m.frames != [] && 0 < n && k <= n
    ensures var r := Poke(m, addr, n, Some(v));
            Valid(r) && Melt(r, concrete, addr, k) == if k == 0 || k == n then Some(v) else Some(Trunc(v, 8 * k))
  {
    hide Owned, Shaded, Counted;
    PokeValid(m, addr, n, Some(v));
    PokeInfo(m, addr, n, v);
    PokeCarries(m, addr, n, v);
    var r := Poke(m, addr, n, Some(v));
    assert addr in r.shadow;
    assert Peek(r, addr, if k == 0 then 1 else k)[0] == Whole(Info(v, addr, n));
  }

  /** A store elsewhere leaves a tiled range tiled, and the stored range becomes so. */
  lemma PokeTiles(m: Memory, addr: nat, n: nat, value: Option<Term>, a: nat, k: nat)
    requires Valid(m) && m.frames != []
    requires (a == addr && k == n) || (Tiled(m, a, k) && (a + k <= addr || addr + n <= a))
    ensures Tiled(Poke(m, addr, n, value), a, k)
  {
    hide Owned, Counted;
    var r := Poke(m, addr, n, value);
    PokeValid(m, addr, n, value);
    forall b | a <= b < a + k && b in r.shadow
      ensures Inside(r, r.shadow[b], a, k)
    {
      PokeShade(m, addr, n, value, b);
      if a == addr && k == n {
        PokeInfo(m, addr, n, value.value);
        PokeCarries(m, addr, n, value.value);
      } else {
        InsideKept(m, addr, n, value, a, k, m.shadow[b]);
      }
    }
  }

  lemma InsideKept(m: Memory, addr: nat, n: nat, value: Option<Term>, a: nat, k: nat, mark: nat)
    requires Valid(m) && m.frames != [] && Inside(m, mark, a, k) && (a + k <= addr || addr + n <= a)
    ensures Inside(Poke(m, addr, n, value), mark, a, k)
  {
    hide Owned, Counted, Shaded;
    PokeValid(m, addr, n, value);
    var r := Poke(m, addr, n, value);
    var i := m.info[mark];
    forall b | i.origin <= b < i.origin + i.bytes
      ensures b in r.shadow && r.shadow[b] == mark
    {
      PokeShade(m, addr, n, value, b);
    }
  }

  // ----- off the tiling

  /** A read yields a value that denotes what is there. */
  ghost predicate ReadsRight(m: Memory, concrete: nat -> Octet, env: nat -> nat, a: nat, n: nat)
    requires Valid(m)
  {
    var t := Melt(m, concrete, a, n);
    t.Some? && Denote(t.value, env) == Number(m, concrete, env, a, n)
  }

  ghost predicate AlwaysRight(m: Memory, concrete: nat -> Octet, a: nat, n: nat)
    requires Valid(m)
  {
    forall env: nat -> nat :: ReadsRight(m, concrete, env, a, n)
  }

  const ONES: nat -> nat := _ => 1
  const ONE_BYTES: nat -> Octet := _ => 1

  /** From the middle of a stored value a read yields the value's low bytes, not those that are there. */
  lemma MiddleBytes(m: Memory, concrete: nat -> Octet, env: nat -> nat, addr: nat, n: nat, v: Term, j: nat, k: nat)
    requires Valid(m) && m.frames != [] && 0 < j && 0 < k && j + k <= n
    ensures var r := Poke(m, addr, n, Some(v));
            && Valid(r) && Melt(r, concrete, addr + j, k) == Some(Trunc(v, 8 * k))
            && Denote(Trunc(v, 8 * k), env) == Low(Denote(v, env), k)
            && Number(r, concrete, env, addr + j, k) == Low(Shift(Denote(v, env), j), k)
  {
    hide Owned, Shaded, Counted, Poke, Denote, Low, Shift, Number;
    PokeValid(m, addr, n, Some(v));
    PokeInfo(m, addr, n, v);
    PokeCarries(m, addr, n, v);
    var r := Poke(m, addr, n, Some(v));
    assert addr + j in r.shadow;
    assert Peek(r, addr + j, k)[0] == Whole(Info(v, addr, n));
    TruncKeepsBytes(v, k, env);
    CarriedNumber(r, concrete, env, NextLabel(m), j, k);
  }

  lemma {:induction false} ShiftOne(j: nat)
    requires j > 0
    ensures Shift(1, j) == 0
  {
    if j > 1 {
      ShiftOne(j - 1);
    } else {
      assert Shift(1, 0) == 1;
    }
  }

  lemma {:induction false} LowZero(k: nat)
    ensures Low(0, k) == 0
  {
    if k > 0 {
      LowZero(k - 1);
    }
  }

  lemma LowOne(k: nat)
    requires k > 0
    ensures Low(1, k) == 1
  {
    LowZero(k - 1);
  }

  lemma DenoteOne(id: nat, n: nat)
    requires n > 0
    ensures Denote(Value(id, n), ONES) == 1
  {
    hide Denote;
    PowPositive(256, n - 1);
    SmallRemainder(1, Pow(256, n));
    DenoteValue(id, n, ONES);
  }

  lemma DenoteValue(id: nat, n: nat, env: nat -> nat)
    ensures Pow(256, n) > 0 && Denote(Value(id, n), env) == env(id) % Pow(256, n)
  {
    PowPositive(256, n);
  }

  /** A read within a stored value is right for all contents if and only if it starts with the value's first byte. */
  lemma MiddleRead(m: Memory, concrete: nat -> Octet, addr: nat, n: nat, id: nat, j: nat, k: nat)
    requires Valid(m) && m.frames != [] && 0 < k && j + k <= n
    ensures Valid(Poke(m, addr, n, Some(Value(id, n))))
    ensures AlwaysRight(Poke(m, addr, n, Some(Value(id, n))), concrete, addr + j, k) <==> j == 0
  {
    hide Poke, Valid, ReadsRight;
    var r := Poke(m, addr, n, Some(Value(id, n)));
    PokeValid(m, addr, n, Some(Value(id, n)));
    if j == 0 {
      forall env: nat -> nat
        ensures ReadsRight(r, concrete, env, addr, k)
      {
        StartRead(m, concrete, env, addr, n, id, k);
      }
    } else {
      MiddleWrong(m, concrete, addr, n, id, j, k);
    }
  }

  lemma MiddleWrong(m: Memory, concrete: nat -> Octet, addr: nat, n: nat, id: nat, j: nat, k: nat)
    requires Valid(m) && m.frames != [] && 0 < j && 0 < k && j + k <= n
    ensures var r := Poke(m, addr, n, Some(Value(id, n)));
            Valid(r) && !ReadsRight(r, concrete, ONES, addr + j, k)
  {
    hide Poke, Valid, Melt, Number, Low, Denote, Shift;
    MiddleBytes(m, concrete, ONES, addr, n, Value(id, n), j, k);
    DenoteOne(id, n);
    ShiftOne(j);
    LowZero(k);
    LowOne(k);
  }

  lemma StartRead(m: Memory, concrete: nat -> Octet, env: nat -> nat, addr: nat, n: nat, id: nat, k: nat)
    requires Valid(m) && m.frames != [] && 0 < k <= n
    ensures var r := Poke(m, addr, n, Some(Value(id, n))); Valid(r) && ReadsRight(r, concrete, env, addr, k)
  {
    hide Poke, Owned, Shaded, Counted, Number, Low, Denote;
    var v := Value(id, n);
    PokeValid(m, addr, n, Some(v));
    PokeInfo(m, addr, n, v);
    PokeCarries(m, addr, n, v);
    FreezeMelt(m, concrete, addr, n, v, k);
    var r := Poke(m, addr, n, Some(v));
    CarriedPart(r, NextLabel(m), addr, n, k);
    CarriedNumber(r, concrete, env, NextLabel(m), 0, k);
    TruncKeepsBytes(v, k, env);
    if k == n {
      DenoteFits(v, env);
      LowOfSmall(Denote(v, env), n);
    }
  }

  lemma CarriedPart(m: Memory, mark: nat, a: nat, n: nat, k: nat)
    requires Carries(m, mark, a, n) && k <= n
    ensures Carries(m, mark, a, k)
  {
  }

  /** A value whose tail was overwritten is still read whole, as it was before. */
  lemma StaleWhole(m: Memory, concrete: nat -> Octet, addr: nat, n: nat, v: Term, j: nat, k: nat, w: Option<Term>)
    requires Valid(m) && m.frames != [] && 0 < j && j + k <= n
    ensures var r := Poke(Poke(m, addr, n, Some(v)), addr + j, k, w);
            Valid(r) && Melt(r, concrete, addr, n) == Some(v)
  {
    hide Owned, Shaded, Counted, Poke, Melt, Carries;
    var once := Poke(m, addr, n, Some(v));
    PokeValid(m, addr, n, Some(v));
    PokeInfo(m, addr, n, v);
    PokeCarries(m, addr, n, v);
    CarriesAt(once, NextLabel(m), addr, n, addr);
    var r := Poke(once, addr + j, k, w);
    PokeValid(once, addr + j, k, w);
    PokeShade(once, addr + j, k, w, addr);
    assert Shade(r, addr) == Shade(once, addr);
    FirstPiece(r, concrete, addr, n);
  }

  /** What overwrites: nothing abstract, or a value of the bytes overwritten. */
  predicate Overwrites(w: Option<Term>, k: nat) {
    w.Some? ==> w.value.Value? && w.value.bytes == k
  }

  ghost predicate RightForAll(m: Memory, a: nat, n: nat)
    requires Valid(m)
  {
    forall concrete: nat -> Octet :: AlwaysRight(m, concrete, a, n)
  }

  /** A whole read is right for all contents after part of its tail was overwritten if and only if no byte was. */
  lemma StaleRead(m: Memory, addr: nat, n: nat, id: nat, j: nat, k: nat, w: Option<Term>, once: Memory, r: Memory)
    requires Valid(m) && m.frames != [] && 0 < j && j + k <= n && Overwrites(w, k)
    requires once == Poke(m, addr, n, Some(Value(id, n))) && r == Poke(once, addr + j, k, w)
    ensures Valid(r) && (RightForAll(r, addr, n) <==> k == 0)
  {
    hide Poke, Valid, RightForAll;
    if k == 0 {
      UnstaleRead(m, addr, n, id, j, w, once, r);
    } else {
      StaleWrong(m, addr, n, id, j, k, w, once, r);
      NotForAll(r, ONE_BYTES, ONES, addr, n);
    }
  }

  lemma NotForAll(m: Memory, concrete: nat -> Octet, env: nat -> nat, a: nat, n: nat)
    requires Valid(m) && !ReadsRight(m, concrete, env, a, n)
    ensures !RightForAll(m, a, n)
  {
    hide Valid, ReadsRight;
    assert !AlwaysRight(m, concrete, a, n);
  }

  lemma UnstaleRead(m: Memory, addr: nat, n: nat, id: nat, j: nat, w: Option<Term>, once: Memory, r: Memory)
    requires Valid(m) && m.frames != [] && 0 < j <= n
    requires once == Poke(m, addr, n, Some(Value(id, n))) && r == Poke(once, addr + j, 0, w)
    ensures Valid(r) && RightForAll(r, addr, n)
  {
    hide Valid, Poke, ReadsRight;
    PokeValid(m, addr, n, Some(Value(id, n)));
    PokeValid(once, addr + j, 0, w);
    forall concrete: nat -> Octet, env: nat -> nat
      ensures ReadsRight(r, concrete, env, addr, n)
    {
      StaleRight(m, concrete, env, addr, n, id, j, w, once, r);
    }
  }

  lemma StaleRight(m: Memory, concrete: nat -> Octet, env: nat -> nat, addr: nat, n: nat, id: nat, j: nat,
                   w: Option<Term>, once: Memory, r: Memory)
    requires Valid(m) && m.frames != [] && 0 < j <= n
    requires once == Poke(m, addr, n, Some(Value(id, n))) && r == Poke(once, addr + j, 0, w)
    ensures Valid(r) && ReadsRight(r, concrete, env, addr, n)
  {
    hide Poke, Valid, Melt, Number, Denote;
    var v := Value(id, n);
    PokeValid(m, addr, n, Some(v));
    StaleWhole(m, concrete, addr, n, v, j, 0, w);
    StartRead(m, concrete, env, addr, n, id, n);
    FreezeMelt(m, concrete, addr, n, v, n);
    SameNumber(once, r, concrete, env, addr, n, addr + j, w);
  }

  lemma {:induction false} SameNumber(m: Memory, r: Memory, concrete: nat -> Octet, env: nat -> nat, a: nat, n: nat,
                                      addr: nat, w: Option<Term>)
    requires Valid(m) && m.frames != [] && r == Poke(m, addr, 0, w) && Valid(r)
    ensures Number(r, concrete, env, a, n) == Number(m, concrete, env, a, n)
    decreases n
  {
    hide Valid, Poke, ByteAt;
    if n > 0 {
      PokeMeans(m, concrete, env, addr, 0, w, a);
      SameNumber(m, r, concrete, env, a + 1, n - 1, addr, w);
    }
  }

  /** With 1 in every value and every concrete byte, the stale value reads 1 and memory holds more. */
  lemma StaleWrong(m: Memory, addr: nat, n: nat, id: nat, j: nat, k: nat, w: Option<Term>,
                  once: Memory, r: Memory)
    requires Valid(m) && m.frames != [] && 0 < j && 0 < k && j + k <= n && Overwrites(w, k)
    requires once == Poke(m, addr, n, Some(Value(id, n))) && r == Poke(once, addr + j, k, w)
    ensures Valid(r) && !ReadsRight(r, ONE_BYTES, ONES, addr, n)
  {
    hide Valid, Poke, Melt, Denote, Digit, ByteAt, Number;
    StaleWhole(m, ONE_BYTES, addr, n, Value(id, n), j, k, w);
    DenoteOne(id, n);
    TailByte(m, addr, n, id, j, k, w, once, r);
    NumberAtLeast(r, ONE_BYTES, ONES, addr, n, j);
  }

  lemma TailByte(m: Memory, addr: nat, n: nat, id: nat, j: nat, k: nat, w: Option<Term>,
                  once: Memory, r: Memory)
    requires Valid(m) && m.frames != [] && 0 < j && 0 < k && j + k <= n && Overwrites(w, k)
    requires once == Poke(m, addr, n, Some(Value(id, n))) && r == Poke(once, addr + j, k, w)
    ensures Valid(r) && ByteAt(r, ONE_BYTES, ONES, addr + j) == 1
  {
    hide Valid, Poke, Denote, Digit, ByteAt, Overwrites;
    PokeValid(m, addr, n, Some(Value(id, n)));
    PokeFirst(once, ONE_BYTES, ONES, addr + j, k, w);
    FirstDigit(w, k);
  }

  lemma PokeFirst(m: Memory, concrete: nat -> Octet, env: nat -> nat, a: nat, k: nat, w: Option<Term>)
    requires Valid(m) && m.frames != [] && 0 < k
    ensures Valid(Poke(m, a, k, w))
    ensures ByteAt(Poke(m, a, k, w), concrete, env, a)
         == if w.Some? then Digit(Denote(w.value, env), 0) else concrete(a)
  {
    hide Valid, Poke, Denote, Digit, ByteAt;
    PokeMeans(m, concrete, env, a, k, w, a);
  }

  lemma FirstDigit(w: Option<Term>, k: nat)
    requires 0 < k && Overwrites(w, k)
    ensures w.Some? ==> Digit(Denote(w.value, ONES), 0) == 1
  {
    hide Denote;
    if w.Some? {
      DenoteOne(w.value.id, k);
    }
  }

  lemma {:induction false} NumberAtLeast(m: Memory, concrete: nat -> Octet, env: nat -> nat, a: nat, n: nat, j: nat)
    requires Valid(m) && j < n && ByteAt(m, concrete, env, a + j) == 1
    ensures Number(m, concrete, env, a, n) >= if j == 0 then 1 else 256
    decreases n
  {
    hide Valid, ByteAt;
    if j > 0 {
      NumberAtLeast(m, concrete, env, a + 1, n - 1, j - 1);
    }
  }

  /** A read as wide as the label it starts at is that label's value. */
  lemma FirstPiece(m: Memory, concrete: nat -> Octet, a: nat, n: nat)
    requires Valid(m) && a in m.shadow && m.info[m.shadow[a]].bytes == n > 0
    ensures Melt(m, concrete, a, n) == Some(m.info[m.shadow[a]].value)
  {
    hide Owned, Counted;
    assert Peek(m, a, n)[0] == Whole(m.info[m.shadow[a]]);
  }
}
