/** What the backward comparisons keep and what they rule out. */
module Orders {
  import opened Outcomes
  import opened Bounds
  import opened Intervals
  import opened Backward
  import opened Splits

  predicate Above(strict: bool, x: int, y: int) {
    if strict then x > y else x >= y
  }

  /** Two different nodes, whose ends may be infinite. */
  predicate Twin(at: seq<Interval>, a: nat, b: nat) {
    a < |at| && b < |at| && a != b && Sided(at[a]) && Sided(at[b])
  }

  function Gapped(strict: bool): int {
    if strict then 1 else 0
  }

  function UpperPart(u: Interval, v: Interval, strict: bool): Interval
    requires Sided(v)
  {
    Interval(Max(u.low, v.low + Gapped(strict)), u.high)
  }

  function LowerPart(u: Interval, v: Interval, strict: bool): Interval
    requires Sided(u)
  {
    Interval(v.low, Min(v.high, u.high - Gapped(strict)))
  }

  lemma OrderBoundsForm(at: seq<Interval>, a: nat, b: nat, strict: bool)
    requires Twin(at, a, b)
    ensures var u, v := UpperPart(at[a], at[b], strict), LowerPart(at[a], at[b], strict);
            OrderBounds(at, a, b, strict) ==
              if strict && (u.IsBottom() || v.IsBottom()) then Cancelled else Alive(at[a := u][b := v])
  {
    var u, v := UpperPart(at[a], at[b], strict), LowerPart(at[a], at[b], strict);
    var at1 := MeetLow(at, a, at[b].low);
    if strict {
      assert at1[a := u] == at[a := u];
      assert Exclude(at1, a, at[b].low) == if u.IsBottom() then Cancelled else Alive(at[a := u]);
      var at2 := MeetHigh(at[a := u], b, u.high);
      assert at2[b := v] == at[a := u][b := v];
      assert Exclude(at2, b, u.high) == if v.IsBottom() then Cancelled else Alive(at[a := u][b := v]);
    } else {
      assert at1 == at[a := u];
    }
  }

  lemma PartsExact(u: Interval, v: Interval, strict: bool, x: int, y: int)
    requires Sided(u) && Sided(v)
    ensures u.Has(x) && v.Has(y) && Above(strict, x, y) ==>
              UpperPart(u, v, strict).Has(x) && LowerPart(u, v, strict).Has(y)
    ensures UpperPart(u, v, strict).Has(x) && LowerPart(u, v, strict).Has(y) ==> u.Has(x) && v.Has(y)
    ensures (UpperPart(u, v, strict).Has(x) && LowerPart(u, v, strict).Has(y) &&
             Meet(UpperPart(u, v, strict), LowerPart(u, v, strict)).IsBottom()) ==> Above(strict, x, y)
  {
  }

  /** The values both parts still share. */
  function Common(at: seq<Interval>, a: nat, b: nat, strict: bool): Interval
    requires Twin(at, a, b)
  {
    Meet(UpperPart(at[a], at[b], strict), LowerPart(at[a], at[b], strict))
  }

  /** The number of shared values fits a signed bound. */
  predicate Countable(i: Interval) {
    i.high - i.low + 1 <= MAX
  }

  /** The shared part is cut, not left whole: it has at most 200 values, or so many that their number is negative. */
  predicate IsCut(c: Interval) {
    c.IsBottom() || ToInt64(c.Size()) <= CHOOSE_BOUND
  }

  /** The number of places where two parts that share `c` can be cut, as the 32-bit `int` that the choice is made
      among. */
  function Places(c: Interval, strict: bool): Int32 {
    ToInt32(c.Size() + Gapped(strict))
  }

  /** The places where the shared part is cut are counted from a finite bound, and go up far enough for `y` to stay
      below one of them. */
  predicate CutReaches(c: Interval, strict: bool, y: int) {
    c.IsBottom() || (Finite(c.low) && 1 <= Places(c, strict) && y + Gapped(strict) < c.low + Places(c, strict))
  }

  lemma CutCases(c: Interval, strict: bool)
    requires !c.IsBottom()
    ensures Countable(c) ==> c.Size() == ToInt64(c.Size()) == c.high - c.low + 1
    ensures IsCut(c) && Countable(c) ==> Places(c, strict) == c.high - c.low + 1 + Gapped(strict)
    ensures !Countable(c) ==> IsCut(c) && c.low <= 0
  {
  }

  /** Up to 200 values are all reached, unless they start at the lower infinity. */
  lemma FewReached(c: Interval, strict: bool, y: int)
    requires Countable(c) && IsCut(c) && y <= c.high && (c.IsBottom() || Finite(c.low))
    ensures CutReaches(c, strict, y)
  {
    if !c.IsBottom() {
      CutCases(c, strict);
    }
  }

  /** The two parts cut at `delim`. */
  function Cut(at: seq<Interval>, a: nat, b: nat, strict: bool, delim: Int64): seq<Interval>
    requires a < |at| && b < |at| && MIN < delim
  {
    at[a := Interval(Max(at[a].low, delim), at[a].high)]
      [b := Interval(at[b].low, Min(at[b].high, delim - Gapped(strict)))]
  }

  /** The parts as ordering the bounds leaves them. */
  predicate Ordered(u: Interval, v: Interval, strict: bool) {
    && v.low < MAX && -MAX < u.high
    && v.low + Gapped(strict) <= u.low && v.high <= u.high - Gapped(strict)
  }

  /** The two parts cut, unless one has nothing left. */
  function CutOrEnd(at: seq<Interval>, a: nat, b: nat, strict: bool, delim: Int64): Outcome<seq<Interval>>
    requires a < |at| && b < |at| && MIN < delim
  {
    var cut := Cut(at, a, b, strict, delim);
    if cut[a].IsBottom() || cut[b].IsBottom() then Cancelled else Alive(cut)
  }

  lemma CutAtForm(at: seq<Interval>, a: nat, b: nat, strict: bool, delim: Int64)
    requires a < |at| && b < |at| && a != b
    requires !at[a].IsBottom() && !at[b].IsBottom() && MIN < delim
    requires strict ==> at[b].high < MAX
    ensures CutAt(at, a, b, strict, delim) == CutOrEnd(at, a, b, strict, delim)
  {
  }

  /** A place that can be chosen is a bound, and within the shared part or just above it. */
  lemma PlaceInRange(c: Interval, strict: bool, i: nat)
    requires !c.IsBottom() && IsCut(c) && Finite(c.low) && i < Places(c, strict) && (strict ==> c.high < MAX)
    ensures MIN < c.low + i <= MAX && Add(i, c.low) == Alive(c.low + i)
  {
    CutCases(c, strict);
  }

  lemma ChoosePlace(w: World, c: Interval, strict: bool)
    requires !c.IsBottom() && IsCut(c)
    ensures ToInt64(c.Size()) <= CHOOSE_BOUND
    ensures Choose(w, ToInt32(if strict then c.Size() + 1 else c.Size())) ==
              if Places(c, strict) < 1 then Cancelled
              else Alive((Pick(w.answers, Places(c, strict)), w.(answers := Rest(w.answers))))
  {
  }

  lemma CutStep(w: World, a: nat, b: nat, strict: bool, c: Interval)
    requires a < |w.at| && b < |w.at| && c == Meet(w.at[a], w.at[b]) && !c.IsBottom() && IsCut(c)
    requires Places(c, strict) >= 1 ==> Add(Pick(w.answers, Places(c, strict)), c.low).Alive?
    ensures OrderCut(w, a, b, strict) ==
              if Places(c, strict) < 1 then Cancelled
              else
                match CutAt(w.at, a, b, strict, Add(Pick(w.answers, Places(c, strict)), c.low).value)
                case Cancelled => Cancelled
                case Alive(at) => Alive(World(at, Rest(w.answers)))
  {
    ChoosePlace(w, c, strict);
    hide CutAt, Choose, Places, ToInt64, ToInt32, Add, IsCut, Meet;
  }

  /** Cutting two inhabited parts at a chosen place between them. */
  lemma CutForm(w: World, a: nat, b: nat, strict: bool, c: Interval)
    requires a < |w.at| && b < |w.at| && a != b && Ordered(w.at[a], w.at[b], strict)
    requires !w.at[a].IsBottom() && !w.at[b].IsBottom() && c == Meet(w.at[a], w.at[b])
    requires !c.IsBottom() && IsCut(c) && Finite(c.low)
    ensures Places(c, strict) < 1 ==> OrderCut(w, a, b, strict) == Cancelled
    ensures Places(c, strict) >= 1 ==>
              var delim := c.low + Pick(w.answers, Places(c, strict));
              && MIN < delim <= MAX
              && OrderCut(w, a, b, strict) ==
                   match CutOrEnd(w.at, a, b, strict, delim)
                   case Cancelled => Cancelled
                   case Alive(at) => Alive(World(at, Rest(w.answers)))
  {
    assert strict ==> c.high < MAX;
    if Places(c, strict) < 1 {
      hide *;
      CutStep(w, a, b, strict, c);
    } else {
      var i := Pick(w.answers, Places(c, strict));
      PlaceInRange(c, strict, i);
      hide OrderCut, CutOrEnd, CutAt, Places, ToInt64, ToInt32, Add, IsCut, Meet, Pick;
      CutAtForm(w.at, a, b, strict, c.low + i);
      CutStep(w, a, b, strict, c);
    }
  }

  /** The place at which the split for a pair of values is cut. */
  function DelimOf(c: Interval, strict: bool, x: int): int {
    if x < c.low + Places(c, strict) then x else c.low + Places(c, strict) - 1
  }

  lemma CutKeeps(at: seq<Interval>, a: nat, b: nat, strict: bool, c: Interval, x: int, y: int)
    requires Holds(at, a, b, x, y) && a != b && Ordered(at[a], at[b], strict) && Above(strict, x, y)
    requires c == Meet(at[a], at[b]) && !c.IsBottom() && IsCut(c) && CutReaches(c, strict, y)
    ensures 0 <= DelimOf(c, strict, x) - c.low < Places(c, strict)
    ensures MIN < DelimOf(c, strict, x) <= MAX
    ensures Holds(Cut(at, a, b, strict, DelimOf(c, strict, x)), a, b, x, y)
  {
    PlaceInRange(c, strict, DelimOf(c, strict, x) - c.low);
    hide Places;
  }

  lemma CutSound(at: seq<Interval>, a: nat, b: nat, strict: bool, delim: Int64, x: int, y: int)
    requires a < |at| && b < |at| && a != b && MIN < delim
    requires Holds(Cut(at, a, b, strict, delim), a, b, x, y)
    ensures Holds(at, a, b, x, y) && Above(strict, x, y) && y + Gapped(strict) <= delim
    ensures NarrowsTo(at, Cut(at, a, b, strict, delim), a, b)
  {
  }

  lemma PartsOrdered(u: Interval, v: Interval, strict: bool)
    requires Sided(u) && Sided(v)
    requires !UpperPart(u, v, strict).IsBottom() && !LowerPart(u, v, strict).IsBottom()
    ensures Ordered(UpperPart(u, v, strict), LowerPart(u, v, strict), strict)
  {
  }

  /** The parts of two operands, in place. */
  function Parts(at: seq<Interval>, a: nat, b: nat, strict: bool): seq<Interval>
    requires Twin(at, a, b)
  {
    at[a := UpperPart(at[a], at[b], strict)][b := LowerPart(at[a], at[b], strict)]
  }

  lemma PartsNarrow(at: seq<Interval>, a: nat, b: nat, strict: bool)
    requires Twin(at, a, b)
    ensures NarrowsTo(at, Parts(at, a, b, strict), a, b)
  {
  }

  lemma IntersectNarrows(at: seq<Interval>, a: nat, b: nat, c: nat, i: Interval)
    requires a < |at| && b < |at| && (c == a || c == b) && Intersect(at, c, i).Alive?
    ensures NarrowsTo(at, Intersect(at, c, i).value, a, b)
  {
  }

  lemma CutAtNarrows(at: seq<Interval>, a: nat, b: nat, strict: bool, delim: Int64)
    requires a < |at| && b < |at| && CutAt(at, a, b, strict, delim).Alive?
    ensures NarrowsTo(at, CutAt(at, a, b, strict, delim).value, a, b)
  {
    var i := Interval(delim, at[a].high);
    IntersectNarrows(at, a, b, a, i);
    var at1 := Intersect(at, a, i).value;
    var last := if strict then Sub(delim, 1).value else delim;
    IntersectNarrows(at1, a, b, b, Interval(at1[b].low, last));
    NarrowsTrans(at, at1, CutAt(at, a, b, strict, delim).value, a, b);
  }

  /** Whatever is chosen, a cut only narrows. */
  lemma CutNarrows(w: World, a: nat, b: nat, strict: bool)
    requires a < |w.at| && b < |w.at| && OrderCut(w, a, b, strict).Alive?
    ensures NarrowsTo(w.at, OrderCut(w, a, b, strict).value.at, a, b)
  {
    var c := Meet(w.at[a], w.at[b]);
    if !c.IsBottom() && ToInt64(c.Size()) <= CHOOSE_BOUND {
      var i := Choose(w, ToInt32(if strict then c.Size() + 1 else c.Size())).value.0;
      CutAtNarrows(w.at, a, b, strict, Add(i, c.low).value);
    }
  }

  /** The pairs that an order split leaves: those of the two parts, and where the shared part is cut, those in order
      that a cut reaches. */
  predicate GreaterLeft(at: seq<Interval>, a: nat, b: nat, strict: bool, x: int, y: int)
    requires Twin(at, a, b)
  {
    var c := Common(at, a, b, strict);
    && UpperPart(at[a], at[b], strict).Has(x) && LowerPart(at[a], at[b], strict).Has(y)
    && (IsCut(c) ==> Above(strict, x, y) && CutReaches(c, strict, y))
  }

  /** A pair in order is left when a cut reaches it; no cut is needed for more than 200 shared values, and one reaches
      every pair of up to 200, unless they start at the lower infinity. */
  lemma OrderedLeft(at: seq<Interval>, a: nat, b: nat, strict: bool, x: int, y: int)
    requires Twin(at, a, b) && Holds(at, a, b, x, y) && Above(strict, x, y)
    ensures var c := Common(at, a, b, strict);
            && (GreaterLeft(at, a, b, strict, x, y) <==> IsCut(c) ==> CutReaches(c, strict, y))
            && (Countable(c) && (c.IsBottom() || Finite(c.low)) ==> GreaterLeft(at, a, b, strict, x, y))
  {
    var c := Common(at, a, b, strict);
    PartsExact(at[a], at[b], strict, x, y);
    if Countable(c) && IsCut(c) && !c.IsBottom() && Finite(c.low) {
      FewReached(c, strict, y);
    }
  }

  lemma BranchLeft(w: World, a: nat, b: nat, strict: bool, x: int, y: int)
    requires Twin(w.at, a, b)
    requires var o := OrderCut(w.(at := Parts(w.at, a, b, strict)), a, b, strict);
             o.Alive? && Holds(o.value.at, a, b, x, y)
    ensures GreaterLeft(w.at, a, b, strict, x, y)
  {
    var c := Common(w.at, a, b, strict);
    var w1 := w.(at := Parts(w.at, a, b, strict));
    CutNarrows(w1, a, b, strict);
    assert OrderCut(w1, a, b, strict).value.at[a].Within(w1.at[a]);
    assert OrderCut(w1, a, b, strict).value.at[b].Within(w1.at[b]);
    if c.IsBottom() {
      PartsExact(w.at[a], w.at[b], strict, x, y);
    } else if IsCut(c) {
      PartsOrdered(w.at[a], w.at[b], strict);
      if c.low == MIN {
        CutFromInfinity(w1, a, b, strict, c);
      } else {
        CutForm(w1, a, b, strict, c);
        CutSound(w1.at, a, b, strict, c.low + Pick(w1.answers, Places(c, strict)), x, y);
      }
    }
  }

  /** A cut counted from the lower infinity leaves the lesser operand without a value. */
  lemma CutFromInfinity(w: World, a: nat, b: nat, strict: bool, c: Interval)
    requires a < |w.at| && b < |w.at| && a != b && Ordered(w.at[a], w.at[b], strict)
    requires c == Meet(w.at[a], w.at[b]) && !c.IsBottom() && IsCut(c) && c.low == MIN
    ensures !strict
    ensures OrderCut(w, a, b, strict).Alive? ==> OrderCut(w, a, b, strict).value.at[b].high == MIN
  {
  }

  /** Every branch of an order split is a narrower box; where the shared part is cut, it holds only pairs in the order
      assumed. */
  lemma GreaterSound(w: World, a: nat, b: nat, strict: bool)
    requires Twin(w.at, a, b) && BackGreater(w, a, b, strict).Alive?
    ensures NarrowsTo(w.at, BackGreater(w, a, b, strict).value.at, a, b)
    ensures forall x, y :: Holds(BackGreater(w, a, b, strict).value.at, a, b, x, y) ==>
              GreaterLeft(w.at, a, b, strict, x, y)
  {
    var at := BackGreater(w, a, b, strict).value.at;
    OrderBoundsForm(w.at, a, b, strict);
    PartsNarrow(w.at, a, b, strict);
    var w1 := w.(at := Parts(w.at, a, b, strict));
    CutNarrows(w1, a, b, strict);
    NarrowsTrans(w.at, w1.at, at, a, b);
    forall x, y | Holds(at, a, b, x, y)
      ensures GreaterLeft(w.at, a, b, strict, x, y)
    {
      BranchLeft(w, a, b, strict, x, y);
    }
  }

  /** A pair that is left survives some answers, whatever the bounds and however many values are shared. */
  lemma GreaterKeeps(at: seq<Interval>, a: nat, b: nat, strict: bool, x: int, y: int)
    returns (p: seq<nat>, at': seq<Interval>)
    requires Twin(at, a, b) && GreaterLeft(at, a, b, strict, x, y)
    ensures forall rest: seq<nat> :: BackGreater(World(at, p + rest), a, b, strict) == Alive(World(at', rest))
    ensures Holds(at', a, b, x, y) && NarrowsTo(at, at', a, b) && NarrowsTo(Parts(at, a, b, strict), at', a, b)
  {
    var c := Common(at, a, b, strict);
    var at1 := Parts(at, a, b, strict);
    PartsNarrow(at, a, b, strict);
    if c.IsBottom() || !IsCut(c) {
      p, at' := [], at1;
      forall rest: seq<nat> ensures OrderCut(World(at1, p + rest), a, b, strict) == Alive(World(at', rest)) {
        assert p + rest == rest;
      }
    } else {
      PartsOrdered(at[a], at[b], strict);
      p, at' := CutOnce(at1, a, b, strict, c, x, y);
      NarrowsTrans(at, at1, at', a, b);
    }
    forall rest: seq<nat> ensures BackGreater(World(at, p + rest), a, b, strict) == Alive(World(at', rest)) {
      GreaterForm(World(at, p + rest), a, b, strict);
    }
  }

  /** The order split is its cut, of the two parts. */
  lemma GreaterForm(w: World, a: nat, b: nat, strict: bool)
    requires Twin(w.at, a, b)
    requires !UpperPart(w.at[a], w.at[b], strict).IsBottom() && !LowerPart(w.at[a], w.at[b], strict).IsBottom()
    ensures BackGreater(w, a, b, strict) == OrderCut(w.(at := Parts(w.at, a, b, strict)), a, b, strict)
  {
    OrderBoundsForm(w.at, a, b, strict);
    hide OrderBounds, OrderCut;
  }

  /** Two parts in order cut at the place for a pair that a cut reaches. */
  lemma CutOnce(at: seq<Interval>, a: nat, b: nat, strict: bool, c: Interval, x: int, y: int)
    returns (p: seq<nat>, at': seq<Interval>)
    requires Holds(at, a, b, x, y) && a != b && Ordered(at[a], at[b], strict) && Above(strict, x, y)
    requires c == Meet(at[a], at[b]) && !c.IsBottom() && IsCut(c) && CutReaches(c, strict, y)
    ensures forall rest: seq<nat> :: OrderCut(World(at, p + rest), a, b, strict) == Alive(World(at', rest))
    ensures Holds(at', a, b, x, y) && NarrowsTo(at, at', a, b)
  {
    CutKeeps(at, a, b, strict, c, x, y);
    var delim: Int64 := DelimOf(c, strict, x);
    var i := delim - c.low;
    p, at' := [i], Cut(at, a, b, strict, delim);
    CutSound(at, a, b, strict, delim, x, y);
    assert CutOrEnd(at, a, b, strict, delim) == Alive(at');
    hide OrderCut, Cut, CutOrEnd, Places, IsCut, DelimOf, Meet;
    forall rest: seq<nat> ensures OrderCut(World(at, p + rest), a, b, strict) == Alive(World(at', rest)) {
      PickFirst(i, rest, Places(c, strict));
      CutForm(World(at, p + rest), a, b, strict, c);
    }
  }

  ghost predicate GreaterSurvives(at: seq<Interval>, a: nat, b: nat, strict: bool, x: int, y: int)
    requires a < |at| && b < |at|
  {
    exists answers: seq<nat> ::
      var o := BackGreater(World(at, answers), a, b, strict);
      o.Alive? && Holds(o.value.at, a, b, x, y)
  }

  /** The order split is exact, for all bounds and all numbers of shared values: the branches hold precisely the pairs
      of the two parts that are in order and reached by a cut, or all of their pairs where nothing is cut. */
  lemma GreaterExact(at: seq<Interval>, a: nat, b: nat, strict: bool, x: int, y: int)
    requires Twin(at, a, b)
    ensures GreaterSurvives(at, a, b, strict, x, y) <==> GreaterLeft(at, a, b, strict, x, y)
  {
    hide GreaterLeft;
    if GreaterSurvives(at, a, b, strict, x, y) {
      var answers: seq<nat> :| var o := BackGreater(World(at, answers), a, b, strict);
                               o.Alive? && Holds(o.value.at, a, b, x, y);
      GreaterSound(World(at, answers), a, b, strict);
    }
    if GreaterLeft(at, a, b, strict, x, y) {
      var p, at' := GreaterKeeps(at, a, b, strict, x, y);
      assert BackGreater(World(at, p + []), a, b, strict) == Alive(World(at', []));
    }
  }

  // ----- different operands

  /** Excluding a bound takes exactly its value, if it is a bound, and nothing otherwise; an infinity takes none
      unless it is the end of the wrong side. */
  lemma ExcludeExact(at: seq<Interval>, a: nat, v: Int64, x: int)
    requires a < |at| && (Infinite(v) ==> at[a].low < MAX && MIN < at[a].high)
    ensures at[a].Has(x) && !(x == v && (at[a].low == v || at[a].high == v)) ==> Exclude(at, a, v).Alive?
    ensures Exclude(at, a, v).Alive? ==>
              var at' := Exclude(at, a, v).value;
              at' == at[a := at'[a]] && at'[a].Within(at[a]) &&
              (at'[a].Has(x) <==> at[a].Has(x) && !(x == v && (at[a].low == v || at[a].high == v)))
  {
  }

  /** One operand is a constant at an end of the other one. */
  predicate AtEnd(i: Interval, j: Interval) {
    i.IsConstant() && (i.low == j.low || i.low == j.high)
  }

  /** The pairs that are left of two nodes assumed to differ: without a common value all, with a constant that is an
      end those with a different value, and otherwise those that one order or the other leaves. */
  predicate DifferentLeft(at: seq<Interval>, a: nat, b: nat, x: int, y: int)
    requires Twin(at, a, b)
  {
    if Meet(at[a], at[b]).IsBottom() then Holds(at, a, b, x, y)
    else if AtEnd(at[a], at[b]) || AtEnd(at[b], at[a]) then Holds(at, a, b, x, y) && x != y
    else GreaterLeft(at, a, b, true, x, y) || GreaterLeft(at, b, a, true, y, x)
  }

  /** Two nodes assumed to differ: every pair that is left survives some answers. */
  lemma DifferentKeeps(at: seq<Interval>, a: nat, b: nat, x: int, y: int)
    returns (p: seq<nat>, at': seq<Interval>)
    requires Twin(at, a, b) && DifferentLeft(at, a, b, x, y)
    ensures forall rest: seq<nat> :: BackDifferent(World(at, p + rest), a, b) == Alive(World(at', rest))
    ensures Holds(at', a, b, x, y) && NarrowsTo(at, at', a, b)
  {
    var i, j := at[a], at[b];
    if Meet(i, j).IsBottom() {
      p, at' := [], at;
    } else if AtEnd(i, j) {
      ExcludeExact(at, b, i.low, y);
      p, at' := [], Exclude(at, b, i.low).value;
    } else if AtEnd(j, i) {
      ExcludeExact(at, a, j.low, x);
      p, at' := [], Exclude(at, a, j.low).value;
    } else if GreaterLeft(at, a, b, true, x, y) {
      p, at' := FlipKeeps(at, a, b, 1, a, b, x, y);
    } else {
      p, at' := FlipKeeps(at, a, b, 0, b, a, y, x);
    }
    if p == [] {
      assert forall rest: seq<nat> :: [] + rest == rest;
    }
  }

  lemma FlipKeeps(at: seq<Interval>, a: nat, b: nat, flip: nat, more: nat, less: nat, x: int, y: int)
    returns (p: seq<nat>, at': seq<Interval>)
    requires Twin(at, a, b) && flip < 2 && (if flip == 1 then more == a && less == b else more == b && less == a)
    requires GreaterLeft(at, more, less, true, x, y)
    requires !Meet(at[a], at[b]).IsBottom() && !AtEnd(at[a], at[b]) && !AtEnd(at[b], at[a])
    ensures p != []
    ensures forall rest: seq<nat> :: BackDifferent(World(at, p + rest), a, b) == Alive(World(at', rest))
    ensures Holds(at', more, less, x, y) && NarrowsTo(at, at', a, b)
  {
    hide GreaterLeft;
    var q;
    q, at' := GreaterKeeps(at, more, less, true, x, y);
    p := [flip] + q;
    forall rest: seq<nat> ensures BackDifferent(World(at, p + rest), a, b) == Alive(World(at', rest)) {
      hide BackGreater;
      assert p + rest == [flip] + (q + rest);
      PickFirst(flip, q + rest, 2);
    }
  }

  lemma EitherSound(w: World, a: nat, b: nat)
    requires Twin(w.at, a, b) && EitherOrder(w, a, b).Alive?
    ensures NarrowsTo(w.at, EitherOrder(w, a, b).value.at, a, b)
    ensures forall x, y :: Holds(EitherOrder(w, a, b).value.at, a, b, x, y) ==>
              GreaterLeft(w.at, a, b, true, x, y) || GreaterLeft(w.at, b, a, true, y, x)
  {
    hide GreaterLeft, BackGreater;
    var w1 := w.(answers := Rest(w.answers));
    if Pick(w.answers, 2) != 0 {
      GreaterSound(w1, a, b, true);
    } else {
      GreaterSound(w1, b, a, true);
      forall x, y | Holds(EitherOrder(w, a, b).value.at, a, b, x, y)
        ensures GreaterLeft(w.at, b, a, true, y, x)
      {
        assert Holds(EitherOrder(w, a, b).value.at, b, a, y, x);
      }
    }
  }

  /** Every branch only narrows the two nodes, and holds only pairs that are left; where both shared parts are cut, no
      equal pair is. */
  lemma DifferentSound(w: World, a: nat, b: nat)
    requires Twin(w.at, a, b) && BackDifferent(w, a, b).Alive?
    ensures NarrowsTo(w.at, BackDifferent(w, a, b).value.at, a, b)
    ensures forall x, y :: Holds(BackDifferent(w, a, b).value.at, a, b, x, y) ==> DifferentLeft(w.at, a, b, x, y)
    ensures IsCut(Common(w.at, a, b, true)) && IsCut(Common(w.at, b, a, true)) ==>
              forall x, y :: Holds(BackDifferent(w, a, b).value.at, a, b, x, y) ==> x != y
  {
    var i, j := w.at[a], w.at[b];
    if Meet(i, j).IsBottom() {
    } else if AtEnd(i, j) {
      forall y {
        ExcludeExact(w.at, b, i.low, y);
      }
    } else if AtEnd(j, i) {
      forall x {
        ExcludeExact(w.at, a, j.low, x);
      }
    } else {
      hide BackGreater, IsCut, CutReaches;
      EitherSound(w, a, b);
    }
  }

  ghost predicate DifferentSurvives(at: seq<Interval>, a: nat, b: nat, x: int, y: int)
    requires a < |at| && b < |at|
  {
    exists answers: seq<nat> ::
      var o := BackDifferent(World(at, answers), a, b);
      o.Alive? && Holds(o.value.at, a, b, x, y)
  }

  /** The branches hold precisely the pairs that are left, for all bounds and all numbers of shared values. */
  lemma DifferentExact(at: seq<Interval>, a: nat, b: nat, x: int, y: int)
    requires Twin(at, a, b)
    ensures DifferentSurvives(at, a, b, x, y) <==> DifferentLeft(at, a, b, x, y)
  {
    hide DifferentLeft;
    if DifferentSurvives(at, a, b, x, y) {
      var answers: seq<nat> :| var o := BackDifferent(World(at, answers), a, b);
                               o.Alive? && Holds(o.value.at, a, b, x, y);
      DifferentSound(World(at, answers), a, b);
    }
    if DifferentLeft(at, a, b, x, y) {
      var p, at' := DifferentKeeps(at, a, b, x, y);
      assert BackDifferent(World(at, p + []), a, b) == Alive(World(at', []));
    }
  }

  /** Two different values are left where few enough values are shared. */
  lemma UnequalLeft(at: seq<Interval>, a: nat, b: nat, x: int, y: int)
    requires Twin(at, a, b) && Holds(at, a, b, x, y) && x != y && Countable(Meet(at[a], at[b]))
    ensures DifferentLeft(at, a, b, x, y)
  {
    CommonComparable(at, a, b, true);
    CommonComparable(at, b, a, true);
    if x > y {
      OrderedLeft(at, a, b, true, x, y);
    } else {
      OrderedLeft(at, b, a, true, y, x);
    }
  }

  /** What is shared when the bounds are ordered is part of what was shared before. */
  lemma CommonComparable(at: seq<Interval>, a: nat, b: nat, strict: bool)
    requires Twin(at, a, b) && (Countable(Meet(at[a], at[b])) || Countable(Meet(at[b], at[a])))
    ensures var c := Common(at, a, b, strict);
            && Countable(c) && (strict ==> c.IsBottom() || Finite(c.low))
            && ((MIN < at[a].low || MIN < at[b].low) ==> c.IsBottom() || Finite(c.low))
  {
  }

  // ----- equal operands

  lemma BothConstantForm(at: seq<Interval>, a: nat, b: nat, common: Interval, i: Int32)
    requires Twin(at, a, b) && at[a] == common && at[b] == common && 0 <= i <= common.high - common.low
    requires common.IsOrdinary()
    ensures BothConstant(at, a, b, i) == Alive(at[a := Constant(common.low + i)][b := Constant(common.low + i)])
  {
    var c: Int64 := common.low + i;
    assert Add(common.low, i) == Alive(c);
    assert Intersect(at, a, Constant(c)) == Alive(at[a := Constant(c)]);
    assert Intersect(at[a := Constant(c)], b, Constant(c)) == Alive(at[a := Constant(c)][b := Constant(c)]);
  }

  lemma MeetBothForm(at: seq<Interval>, a: nat, b: nat, common: Interval)
    requires Twin(at, a, b) && common == Meet(at[a], at[b])
    ensures MeetBoth(at, a, b) ==
              if common.IsBottom() then Cancelled else Alive(at[a := common][b := common])
  {
    if !common.IsBottom() {
      assert Intersect(at, a, at[b]) == Alive(at[a := common]);
      assert Meet(at[b], common) == common;
    }
  }

  /** From 2 to 201 values between finite bounds. */
  predicate Droppable(common: Interval) {
    common.IsOrdinary() && 0 < common.high - common.low <= CHOOSE_BOUND
  }

  lemma PickConstantStep(w: World, a: nat, b: nat, d: Int64)
    requires a < |w.at| && b < |w.at| && Bounds.Sub(w.at[a].high, w.at[a].low) == Alive(d) && Correctable(d)
    ensures PickConstant(w, a, b) ==
              match BothConstant(w.at, a, b, Pick(w.answers, d))
              case Cancelled => Cancelled
              case Alive(at) => Alive(World(at, Rest(w.answers)))
  {
    hide BothConstant;
    assert Choose(w, ToInt32(d)) == Alive((Pick(w.answers, d), w.(answers := Rest(w.answers))));
  }

  lemma PickConstantForm(w: World, a: nat, b: nat, common: Interval)
    requires Twin(w.at, a, b) && w.at[a] == common && w.at[b] == common && !common.IsBottom()
    ensures !Droppable(common) ==> PickConstant(w, a, b) == Alive(w)
    ensures Droppable(common) ==>
              var c := Constant(common.low + Pick(w.answers, common.high - common.low));
              PickConstant(w, a, b) == Alive(World(w.at[a := c][b := c], Rest(w.answers)))
  {
    hide BothConstant;
    if Droppable(common) {
      var d: Int64 := common.high - common.low;
      PickConstantStep(w, a, b, d);
      BothConstantForm(w.at, a, b, common, Pick(w.answers, d));
    }
  }

  ghost predicate EqualSurvives(at: seq<Interval>, a: nat, b: nat, x: int, y: int)
    requires a < |at| && b < |at|
  {
    exists answers: seq<nat> ::
      var o := BackEqual(World(at, answers), a, b);
      o.Alive? && Holds(o.value.at, a, b, x, y)
  }

  /** What the common part keeps of a pair: of 2 to 201 common values the greatest is dropped. */
  predicate EqualKept(common: Interval, x: int, y: int) {
    common.Has(x) && common.Has(y) && (Droppable(common) ==> x == y < common.high)
  }

  lemma EqualBranch(w: World, a: nat, b: nat, x: int, y: int)
    requires Twin(w.at, a, b) && BackEqual(w, a, b).Alive?
    requires Holds(BackEqual(w, a, b).value.at, a, b, x, y)
    ensures EqualKept(Meet(w.at[a], w.at[b]), x, y)
  {
    var common := Meet(w.at[a], w.at[b]);
    MeetBothForm(w.at, a, b, common);
    PickConstantForm(w.(at := w.at[a := common][b := common]), a, b, common);
  }

  /** A pair that the common part keeps survives some answers. */
  lemma EqualKeeps(at: seq<Interval>, a: nat, b: nat, x: int, y: int) returns (p: seq<nat>, at': seq<Interval>)
    requires Twin(at, a, b) && EqualKept(Meet(at[a], at[b]), x, y)
    ensures forall rest: seq<nat> :: BackEqual(World(at, p + rest), a, b) == Alive(World(at', rest))
    ensures Holds(at', a, b, x, y) && NarrowsTo(at, at', a, b)
    ensures at'[a].Within(Meet(at[a], at[b])) && at'[b].Within(Meet(at[a], at[b]))
  {
    var common := Meet(at[a], at[b]);
    var at1 := at[a := common][b := common];
    MeetBothForm(at, a, b, common);
    if Droppable(common) {
      var i := x - common.low;
      p, at' := [i], at1[a := Constant(x)][b := Constant(x)];
      forall rest: seq<nat> ensures BackEqual(World(at, p + rest), a, b) == Alive(World(at', rest)) {
        hide MeetBoth, PickConstant;
        PickFirst(i, rest, common.high - common.low);
        PickConstantForm(World(at1, p + rest), a, b, common);
      }
    } else {
      p, at' := [], at1;
      forall rest: seq<nat> ensures BackEqual(World(at, p + rest), a, b) == Alive(World(at', rest)) {
        hide MeetBoth, PickConstant;
        assert p + rest == rest;
        PickConstantForm(World(at1, rest), a, b, common);
      }
    }
  }

  /** Two nodes assumed equal are reduced to their common values and, where there are few, to one of
      them; but the choice is one short, so the greatest of 2 to 201 common values is in no branch. */
  lemma EqualExact(at: seq<Interval>, a: nat, b: nat, x: int, y: int)
    requires Twin(at, a, b)
    ensures EqualSurvives(at, a, b, x, y) <==> EqualKept(Meet(at[a], at[b]), x, y)
  {
    if EqualSurvives(at, a, b, x, y) {
      var answers: seq<nat> :| var o := BackEqual(World(at, answers), a, b);
                               o.Alive? && Holds(o.value.at, a, b, x, y);
      EqualBranch(World(at, answers), a, b, x, y);
    }
    if EqualKept(Meet(at[a], at[b]), x, y) {
      var p, at' := EqualKeeps(at, a, b, x, y);
      assert BackEqual(World(at, p + []), a, b) == Alive(World(at', []));
    }
  }
}
