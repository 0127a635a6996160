/**
 What the whole product split keeps, for finite factors of any sign.  Which pairs survive depends on the starts and
 ends that the code chooses among; for every solution it comes down to one start and one end, the best ones.
 */
module SignedProducts {
  import opened Outcomes
  import opened Bounds
  import opened Intervals
  import opened Backward
  import opened Splits

  predicate Ordinary(b: Int64) {
    -MAX < b < MAX
  }

  /** A quotient as the code rounds it up: one more than the truncated one, unless it is exact. */
  function RoundUp(a: int, b: int): int
    requires b != 0
  {
    TruncDiv(a, b) + if TruncRem(a, b) != 0 then 1 else 0
  }

  lemma QuotientOrdinary(a: Int64, b: Int64)
    requires Ordinary(a) && b != 0
    ensures -MAX < TruncDiv(a, b) < MAX && -MAX < RoundUp(a, b) < MAX
    ensures Finite(b) ==> DivUp(a, b) == Alive(RoundUp(a, b)) && Div(a, b) == Alive(TruncDiv(a, b))
    ensures DivUp(a, b).Alive? && Div(a, b).Alive?
  {
    TruncDivMagnitude(a, b);
    if TruncRem(a, b) != 0 {
      HalfMagnitude(a, b);
    }
  }

  /** A quotient that is not exact is by 2 at least. */
  lemma HalfMagnitude(a: int, b: int)
    requires -MAX < a < MAX && b != 0 && TruncRem(a, b) != 0
    ensures TruncDiv(a, b) < MAX - 1
  {
    var m := if b > 0 then b else -b;
    var c := if a >= 0 then a else -a;
    if m == 1 {
      TruncDivSign(a, 1);
      TruncDivNegate(a, 1);
      assert c / 1 == c;
    } else {
      QuotientAnti(c, 2, m);
      TruncDivSign(a, m);
      TruncDivNegate(a, m);
    }
  }

  // ----- the starts

  function FirstStart(r: Interval, v: Interval): (s: Int64)
    requires Ordinary(r.low) && v.high != 0
    ensures Ordinary(s)
  {
    QuotientOrdinary(r.low, v.high);
    RoundUp(r.low, v.high)
  }

  function LastStart(r: Interval, v: Interval): (s: Int64)
    requires Ordinary(r.low) && v.low != 0
    ensures Ordinary(s)
  {
    QuotientOrdinary(r.low, v.low);
    RoundUp(r.low, v.low)
  }

  lemma CountAlive(low: Int64, high: Int64)
    requires Finite(low) && Finite(high)
    ensures CountOf(low, high).Alive?
  {
  }

  /** The starts are counted down from the last one, as many as the 32-bit count says. */
  ghost predicate IsStart(r: Interval, v: Interval, t: Int64, i: nat) {
    && Ordinary(r.low) && v.low != 0 && v.high != 0 && t != 0
    && CountOf(FirstStart(r, v), LastStart(r, v)).Alive?
    && i < CountOf(FirstStart(r, v), LastStart(r, v)).value
    && t == Clamp(LastStart(r, v) - i)
  }

  /** The operands after the correction that starts at `t`. */
  function RaisedLeft(r: Interval, u: Interval, v: Interval, t: Int64): Interval
    requires Ordinary(r.low) && v.high != 0
  {
    Interval(Max(Max(u.low, FirstStart(r, v)), t), u.high)
  }

  function RaisedRight(r: Interval, v: Interval, t: Int64): Interval
    requires Ordinary(r.low) && t != 0
  {
    QuotientOrdinary(r.low, t);
    Interval(Max(v.low, DivUp(r.low, t).value), v.high)
  }

  /** Both operands replaced, unless one has nothing left. */
  function Replaced(w: World, a: nat, b: nat, u: Interval, v: Interval): Outcome<World>
    requires a < |w.at| && b < |w.at|
  {
    if u.IsBottom() || v.IsBottom() then Cancelled else Alive(World(w.at[a := u][b := v], Rest(w.answers)))
  }

  lemma StartForm(w: World, r: nat, a: nat, b: nat)
    requires Trio(w.at, r, a, b) && Ordinary(w.at[r].low) && w.at[b].IsFinite()
    requires w.at[b].low != 0 && w.at[b].high != 0
    ensures var res, u, v := w.at[r], w.at[a], w.at[b];
            var n := CountOf(FirstStart(res, v), LastStart(res, v));
            && n.Alive?
            && (n.value < 1 ==> ProductLow(w, r, a, b) == Cancelled)
            && (n.value >= 1 ==>
                  var t := Clamp(LastStart(res, v) - Pick(w.answers, n.value));
                  ProductLow(w, r, a, b) ==
                    if t == 0 then Cancelled
                    else Replaced(w, a, b, RaisedLeft(res, u, v, t), RaisedRight(res, v, t)))
  {
    var res, u, v := w.at[r], w.at[a], w.at[b];
    var first, last := FirstStart(res, v), LastStart(res, v);
    QuotientOrdinary(res.low, v.low);
    QuotientOrdinary(res.low, v.high);
    CountAlive(first, last);
    hide CountOf, DivUp;
    var n := CountOf(first, last).value;
    if n >= 1 {
      var t := Clamp(last - Pick(w.answers, n));
      assert Sub(last, Pick(w.answers, n)) == Alive(t);
      var at1 := MeetLow(w.at, a, first);
      if t != 0 {
        FromForm(at1, r, a, b, t);
        assert at1[a := RaisedLeft(res, u, v, t)] == w.at[a := RaisedLeft(res, u, v, t)];
      }
    }
  }

  lemma FromForm(at: seq<Interval>, r: nat, a: nat, b: nat, t: Int64)
    requires Trio(at, r, a, b) && Ordinary(at[r].low) && t != 0
    ensures var u, v := Interval(Max(at[a].low, t), at[a].high), RaisedRight(at[r], at[b], t);
            ProductFrom(at, r, a, b, t) == if u.IsBottom() || v.IsBottom() then Cancelled else Alive(at[a := u][b := v])
  {
    QuotientOrdinary(at[r].low, t);
    hide DivUp;
  }

  // ----- the ends

  function FirstEnd(r: Interval, low: Int64, v: Interval): Int64
    requires Ordinary(r.high) && v.high != 0
  {
    QuotientOrdinary(r.high, v.high);
    Max(TruncDiv(r.high, v.high), low)
  }

  /** The ends are counted up from the first one. */
  ghost predicate IsEnd(r: Interval, u: Interval, v: Interval, e: Int64, j: nat) {
    && Ordinary(r.high) && v.high != 0 && e != 0
    && CountOf(FirstEnd(r, u.low, v), u.high).Alive?
    && j < CountOf(FirstEnd(r, u.low, v), u.high).value
    && e == Clamp(FirstEnd(r, u.low, v) + j)
  }

  function LoweredRight(r: Interval, v: Interval, e: Int64): Interval
    requires Ordinary(r.high) && e != 0
  {
    QuotientOrdinary(r.high, e);
    Interval(v.low, Min(v.high, Div(r.high, e).value))
  }

  lemma EndForm(w: World, r: nat, a: nat, b: nat)
    requires Trio(w.at, r, a, b) && Ordinary(w.at[r].high) && w.at[a].IsFinite() && Finite(w.at[b].high)
    requires w.at[b].high != 0
    ensures var res, u, v := w.at[r], w.at[a], w.at[b];
            var n := CountOf(FirstEnd(res, u.low, v), u.high);
            && n.Alive?
            && (n.value < 1 ==> ProductHigh(w, r, a, b) == Cancelled)
            && (n.value >= 1 ==>
                  var e := Clamp(FirstEnd(res, u.low, v) + Pick(w.answers, n.value));
                  ProductHigh(w, r, a, b) ==
                    if e == 0 then Cancelled
                    else Replaced(w, a, b, Interval(u.low, Min(u.high, e)), LoweredRight(res, v, e)))
  {
    var res, u, v := w.at[r], w.at[a], w.at[b];
    var first := FirstEnd(res, u.low, v);
    QuotientOrdinary(res.high, v.high);
    CountAlive(first, u.high);
    hide CountOf, Div;
    var n := CountOf(first, u.high).value;
    if n >= 1 {
      var e := Clamp(first + Pick(w.answers, n));
      assert Bounds.Add(first, Pick(w.answers, n)) == Alive(e);
      if e != 0 {
        UpToForm(w.at, r, a, b, e);
      }
    }
  }

  lemma UpToForm(at: seq<Interval>, r: nat, a: nat, b: nat, e: Int64)
    requires Trio(at, r, a, b) && Ordinary(at[r].high) && e != 0
    ensures var u, v := Interval(at[a].low, Min(at[a].high, e)), LoweredRight(at[r], at[b], e);
            ProductUpTo(at, r, a, b, e) == if u.IsBottom() || v.IsBottom() then Cancelled else Alive(at[a := u][b := v])
  {
    QuotientOrdinary(at[r].high, e);
    hide Div;
  }

  // ----- both corrections

  /** How far the product reaches below `r`, and how far above it; nowhere if `r` includes it. */
  function ProductGaps(r: Interval, u: Interval, v: Interval): Outcome<(Int64, Int64)> {
    var product := Times(u, v);
    if r.IncludesAll(product) then Alive((0, 0))
    else
      var low :- Sub(r.low, product.low);
      var high :- Sub(product.high, r.high);
      Alive((low, high))
  }

  /** A correction that is made is the whole way to the bound of the result. */
  lemma ProductGapsExact(r: Interval, u: Interval, v: Interval)
    requires ProductGaps(r, u, v).Alive?
    ensures var (low, high) := ProductGaps(r, u, v).value;
            && (Correctable(low) ==> Ordinary(r.low) && r.low == Times(u, v).low + low)
            && (Correctable(high) ==> Ordinary(r.high) && r.high == Times(u, v).high - high)
  {
    hide Times, Sub;
    FiniteExact(r.low, Times(u, v).low);
    FiniteExact(Times(u, v).high, r.high);
  }

  function LowStage(w: World, r: nat, a: nat, b: nat, low: Int64): Outcome<World>
    requires r < |w.at| && a < |w.at| && b < |w.at|
  {
    if Correctable(low) then ProductLow(w, r, a, b) else Alive(w)
  }

  function HighStage(w: World, r: nat, a: nat, b: nat, high: Int64): Outcome<World>
    requires r < |w.at| && a < |w.at| && b < |w.at|
  {
    if Correctable(high) then ProductHigh(w, r, a, b) else Alive(w)
  }

  lemma StagesForm(w: World, r: nat, a: nat, b: nat)
    requires r < |w.at| && a < |w.at| && b < |w.at|
    ensures var gaps := ProductGaps(w.at[r], w.at[a], w.at[b]);
            SplitProduct(w, r, a, b) ==
              if gaps.Cancelled? then Cancelled
              else
                match LowStage(w, r, a, b, gaps.value.0)
                case Cancelled => Cancelled
                case Alive(w1) => if |w1.at| == |w.at| then HighStage(w1, r, a, b, gaps.value.1) else Cancelled
  {
    hide Times, ProductLow, ProductHigh;
  }

  /** Some start that can be chosen keeps a pair; it leaves `u'` of the left operand. */
  ghost predicate KeptBelow(r: Interval, u: Interval, v: Interval, x: int, y: int, u': Interval) {
    exists t: Int64, i: nat ::
      IsStart(r, v, t, i) && u' == RaisedLeft(r, u, v, t) && u'.Has(x) && RaisedRight(r, v, t).Has(y)
  }

  /** Some end that can be chosen keeps a pair. */
  ghost predicate KeptAbove(r: Interval, u: Interval, v: Interval, x: int, y: int) {
    exists e: Int64, j: nat :: IsEnd(r, u, v, e, j) && x <= e && LoweredRight(r, v, e).Has(y)
  }

  /** Where corrections are due, some start and some end keep a pair, with `u'` of the left operand in between. */
  ghost predicate KeptVia(r: Interval, u: Interval, v: Interval, x: int, y: int, u': Interval) {
    ProductGaps(r, u, v).Alive? &&
    var (low, high) := ProductGaps(r, u, v).value;
    && (if Correctable(low) then KeptBelow(r, u, v, x, y, u') else u' == u)
    && (Correctable(high) ==> KeptAbove(r, u', v, x, y))
  }

  /** The starts and ends that can be chosen keep a pair. */
  ghost predicate Kept(r: Interval, u: Interval, v: Interval, x: int, y: int) {
    exists u': Interval :: KeptVia(r, u, v, x, y, u')
  }

  /** What the lower stage leaves of the operands: only their low bounds change. */
  ghost predicate OnlyLowsRaised(at: seq<Interval>, at': seq<Interval>, a: nat, b: nat) {
    NarrowsTo(at, at', a, b) && a < |at| && b < |at| && at'[a].high == at[a].high && at'[b].high == at[b].high
  }

  lemma LowSound(w: World, r: nat, a: nat, b: nat, x: int, y: int)
    requires Trio(w.at, r, a, b) && Ordinary(w.at[r].low) && w.at[b].IsFinite() && ProductLow(w, r, a, b).Alive?
    ensures var at' := ProductLow(w, r, a, b).value.at;
            && OnlyLowsRaised(w.at, at', a, b) && (w.at[a].IsFinite() ==> at'[a].IsFinite())
            && (Holds(at', a, b, x, y) ==> KeptBelow(w.at[r], w.at[a], w.at[b], x, y, at'[a]))
  {
    var res, u, v := w.at[r], w.at[a], w.at[b];
    StartForm(w, r, a, b);
    hide ProductLow, CountOf, FirstStart, LastStart;
    var i := Pick(w.answers, CountOf(FirstStart(res, v), LastStart(res, v)).value);
    var t := Clamp(LastStart(res, v) - i);
    assert IsStart(res, v, t, i);
  }

  /** The branch of one start. */
  lemma StartChosen(at: seq<Interval>, r: nat, a: nat, b: nat, t: Int64, i: nat, rest: seq<nat>)
    requires Trio(at, r, a, b) && Ordinary(at[r].low) && at[b].IsFinite() && IsStart(at[r], at[b], t, i)
    ensures ProductLow(World(at, [i] + rest), r, a, b) ==
              Replaced(World(at, [i] + rest), a, b, RaisedLeft(at[r], at[a], at[b], t), RaisedRight(at[r], at[b], t))
    ensures Rest([i] + rest) == rest
  {
    hide ProductLow, CountOf, RaisedLeft, RaisedRight, FirstStart, LastStart, Replaced;
    StartForm(World(at, [i] + rest), r, a, b);
    PickFirst(i, rest, CountOf(FirstStart(at[r], at[b]), LastStart(at[r], at[b])).value);
  }

  lemma LowKeeps(at: seq<Interval>, r: nat, a: nat, b: nat, x: int, y: int, u': Interval)
    returns (p: seq<nat>, at': seq<Interval>)
    requires Trio(at, r, a, b) && Ordinary(at[r].low) && at[b].IsFinite()
    requires KeptBelow(at[r], at[a], at[b], x, y, u')
    ensures forall rest: seq<nat> :: ProductLow(World(at, p + rest), r, a, b) == Alive(World(at', rest))
    ensures OnlyLowsRaised(at, at', a, b) && at'[a] == u' && Holds(at', a, b, x, y)
  {
    var res, u, v := at[r], at[a], at[b];
    var t: Int64, i: nat :|
      IsStart(res, v, t, i) && u' == RaisedLeft(res, u, v, t) && u'.Has(x) && RaisedRight(res, v, t).Has(y);
    p, at' := [i], at[a := u'][b := RaisedRight(res, v, t)];
    forall rest: seq<nat> ensures ProductLow(World(at, p + rest), r, a, b) == Alive(World(at', rest)) {
      hide ProductLow, RaisedLeft, RaisedRight, IsStart;
      StartChosen(at, r, a, b, t, i, rest);
    }
  }

  lemma HighSound(w: World, r: nat, a: nat, b: nat, x: int, y: int)
    requires Trio(w.at, r, a, b) && Ordinary(w.at[r].high) && w.at[a].IsFinite() && Finite(w.at[b].high)
    requires ProductHigh(w, r, a, b).Alive?
    ensures var at' := ProductHigh(w, r, a, b).value.at;
            NarrowsTo(w.at, at', a, b) && (Holds(at', a, b, x, y) ==> KeptAbove(w.at[r], w.at[a], w.at[b], x, y))
  {
    var res, u, v := w.at[r], w.at[a], w.at[b];
    EndForm(w, r, a, b);
    hide ProductHigh, CountOf, FirstEnd;
    var j := Pick(w.answers, CountOf(FirstEnd(res, u.low, v), u.high).value);
    var e := Clamp(FirstEnd(res, u.low, v) + j);
    assert IsEnd(res, u, v, e, j);
  }

  /** The branch of one end. */
  lemma EndChosen(at: seq<Interval>, r: nat, a: nat, b: nat, e: Int64, j: nat, rest: seq<nat>)
    requires Trio(at, r, a, b) && Ordinary(at[r].high) && at[a].IsFinite() && Finite(at[b].high)
    requires IsEnd(at[r], at[a], at[b], e, j)
    ensures ProductHigh(World(at, [j] + rest), r, a, b) ==
              Replaced(World(at, [j] + rest), a, b, Interval(at[a].low, Min(at[a].high, e)),
                       LoweredRight(at[r], at[b], e))
    ensures Rest([j] + rest) == rest
  {
    hide ProductHigh, CountOf, LoweredRight, FirstEnd, Replaced;
    EndForm(World(at, [j] + rest), r, a, b);
    PickFirst(j, rest, CountOf(FirstEnd(at[r], at[a].low, at[b]), at[a].high).value);
  }

  lemma HighKeeps(at: seq<Interval>, r: nat, a: nat, b: nat, x: int, y: int)
    returns (p: seq<nat>, at': seq<Interval>)
    requires Trio(at, r, a, b) && Ordinary(at[r].high) && at[a].IsFinite() && Finite(at[b].high)
    requires Holds(at, a, b, x, y) && KeptAbove(at[r], at[a], at[b], x, y)
    ensures forall rest: seq<nat> :: ProductHigh(World(at, p + rest), r, a, b) == Alive(World(at', rest))
    ensures NarrowsTo(at, at', a, b) && Holds(at', a, b, x, y)
  {
    var res, u, v := at[r], at[a], at[b];
    var e: Int64, j: nat :| IsEnd(res, u, v, e, j) && x <= e && LoweredRight(res, v, e).Has(y);
    p, at' := [j], at[a := Interval(u.low, Min(u.high, e))][b := LoweredRight(res, v, e)];
    forall rest: seq<nat> ensures ProductHigh(World(at, p + rest), r, a, b) == Alive(World(at', rest)) {
      hide ProductHigh, LoweredRight, IsEnd;
      EndChosen(at, r, a, b, e, j, rest);
    }
  }

  /** The two stages in a row, run on the answers of both. */
  lemma StagesChain(at: seq<Interval>, at1: seq<Interval>, at2: seq<Interval>, r: nat, a: nat, b: nat,
                    p1: seq<nat>, p2: seq<nat>, rest: seq<nat>)
    requires Trio(at, r, a, b) && |at1| == |at| && ProductGaps(at[r], at[a], at[b]).Alive?
    requires var (low, high) := ProductGaps(at[r], at[a], at[b]).value;
             && LowStage(World(at, p1 + (p2 + rest)), r, a, b, low) == Alive(World(at1, p2 + rest))
             && HighStage(World(at1, p2 + rest), r, a, b, high) == Alive(World(at2, rest))
    ensures SplitProduct(World(at, p1 + p2 + rest), r, a, b) == Alive(World(at2, rest))
  {
    hide LowStage, HighStage, SplitProduct, ProductGaps;
    assert p1 + p2 + rest == p1 + (p2 + rest);
    StagesForm(World(at, p1 + (p2 + rest)), r, a, b);
  }

  lemma LowStageKeeps(at: seq<Interval>, r: nat, a: nat, b: nat, x: int, y: int, low: Int64, u': Interval)
    returns (p: seq<nat>, at': seq<Interval>)
    requires Trio(at, r, a, b) && at[b].IsFinite() && Holds(at, a, b, x, y)
    requires Correctable(low) ==> Ordinary(at[r].low)
    requires if Correctable(low) then KeptBelow(at[r], at[a], at[b], x, y, u') else u' == at[a]
    ensures forall rest: seq<nat> :: LowStage(World(at, p + rest), r, a, b, low) == Alive(World(at', rest))
    ensures OnlyLowsRaised(at, at', a, b) && at'[a] == u' && Holds(at', a, b, x, y)
  {
    if Correctable(low) {
      p, at' := LowKeeps(at, r, a, b, x, y, u');
    } else {
      p, at' := [], at;
      assert forall rest: seq<nat> :: [] + rest == rest;
    }
  }

  lemma HighStageKeeps(at: seq<Interval>, r: nat, a: nat, b: nat, x: int, y: int, high: Int64)
    returns (p: seq<nat>, at': seq<Interval>)
    requires Trio(at, r, a, b) && at[a].IsFinite() && Finite(at[b].high) && Holds(at, a, b, x, y)
    requires Correctable(high) ==> Ordinary(at[r].high) && KeptAbove(at[r], at[a], at[b], x, y)
    ensures forall rest: seq<nat> :: HighStage(World(at, p + rest), r, a, b, high) == Alive(World(at', rest))
    ensures NarrowsTo(at, at', a, b) && Holds(at', a, b, x, y)
  {
    if Correctable(high) {
      p, at' := HighKeeps(at, r, a, b, x, y);
    } else {
      p, at' := [], at;
      assert forall rest: seq<nat> :: [] + rest == rest;
    }
  }

  /** An end cares only for the high bound of the right operand, and for its value. */
  lemma EndOfRaised(r: Interval, u: Interval, v: Interval, v': Interval, x: int, y: int)
    requires v'.high == v.high && v.Has(y) && v'.Has(y)
    ensures KeptAbove(r, u, v', x, y) <==> KeptAbove(r, u, v, x, y)
  {
    hide Div, CountOf;
    if KeptAbove(r, u, v', x, y) {
      var e: Int64, j: nat :| IsEnd(r, u, v', e, j) && x <= e && LoweredRight(r, v', e).Has(y);
      assert IsEnd(r, u, v, e, j) && LoweredRight(r, v, e).Has(y);
    }
    if KeptAbove(r, u, v, x, y) {
      var e: Int64, j: nat :| IsEnd(r, u, v, e, j) && x <= e && LoweredRight(r, v, e).Has(y);
      assert IsEnd(r, u, v', e, j) && LoweredRight(r, v', e).Has(y);
    }
  }

  lemma LowStageSound(w: World, r: nat, a: nat, b: nat, x: int, y: int, low: Int64)
    requires Trio(w.at, r, a, b) && w.at[b].IsFinite() && (Correctable(low) ==> Ordinary(w.at[r].low))
    requires LowStage(w, r, a, b, low).Alive?
    ensures var at' := LowStage(w, r, a, b, low).value.at;
            && OnlyLowsRaised(w.at, at', a, b) && (w.at[a].IsFinite() ==> at'[a].IsFinite())
            && (Holds(at', a, b, x, y) && Correctable(low) ==> KeptBelow(w.at[r], w.at[a], w.at[b], x, y, at'[a]))
            && (!Correctable(low) ==> at' == w.at)
  {
    if Correctable(low) {
      LowSound(w, r, a, b, x, y);
    }
  }

  lemma HighStageSound(w: World, r: nat, a: nat, b: nat, x: int, y: int, high: Int64)
    requires Trio(w.at, r, a, b) && w.at[a].IsFinite() && Finite(w.at[b].high)
    requires (Correctable(high) ==> Ordinary(w.at[r].high)) && HighStage(w, r, a, b, high).Alive?
    ensures var at' := HighStage(w, r, a, b, high).value.at;
            && NarrowsTo(w.at, at', a, b)
            && (Holds(at', a, b, x, y) && Correctable(high) ==> KeptAbove(w.at[r], w.at[a], w.at[b], x, y))
  {
    if Correctable(high) {
      HighSound(w, r, a, b, x, y);
    }
  }

  /** What a stage leaves is held before it. */
  lemma StillHeld(at: seq<Interval>, at': seq<Interval>, a: nat, b: nat, x: int, y: int)
    requires NarrowsTo(at, at', a, b) && Holds(at', a, b, x, y)
    ensures Holds(at, a, b, x, y)
    ensures at[a].IsFinite() ==> at'[a].IsFinite()
  {
    assert at'[a].Within(at[a]) && at'[b].Within(at[b]);
  }

  /** A pair that the starts and ends keep survives some answers. */
  lemma SplitKeeps(at: seq<Interval>, r: nat, a: nat, b: nat, x: int, y: int)
    returns (p: seq<nat>, at': seq<Interval>)
    requires Trio(at, r, a, b) && at[a].IsFinite() && at[b].IsFinite() && Holds(at, a, b, x, y)
    requires Kept(at[r], at[a], at[b], x, y)
    ensures forall rest: seq<nat> :: SplitProduct(World(at, p + rest), r, a, b) == Alive(World(at', rest))
    ensures Holds(at', a, b, x, y) && NarrowsTo(at, at', a, b)
  {
    hide ProductGaps, KeptBelow, KeptAbove, LowStage, HighStage, SplitProduct;
    var u' :| KeptVia(at[r], at[a], at[b], x, y, u');
    var (low, high) := ProductGaps(at[r], at[a], at[b]).value;
    ProductGapsExact(at[r], at[a], at[b]);
    var p1, at1 := LowStageKeeps(at, r, a, b, x, y, low, u');
    EndOfRaised(at[r], u', at[b], at1[b], x, y);
    StillHeld(at, at1, a, b, x, y);
    var p2, at2 := HighStageKeeps(at1, r, a, b, x, y, high);
    p, at' := p1 + p2, at2;
    NarrowsTrans(at, at1, at2, a, b);
    forall rest: seq<nat> ensures SplitProduct(World(at, p + rest), r, a, b) == Alive(World(at', rest)) {
      StagesChain(at, at1, at2, r, a, b, p1, p2, rest);
    }
  }

  /** The second stage narrows what the first one left. */
  lemma SecondSound(w: World, w1: World, r: nat, a: nat, b: nat, x: int, y: int, high: Int64)
    requires Trio(w.at, r, a, b) && w.at[b].IsFinite() && OnlyLowsRaised(w.at, w1.at, a, b) && w1.at[a].IsFinite()
    requires (Correctable(high) ==> Ordinary(w.at[r].high)) && HighStage(w1, r, a, b, high).Alive?
    requires Holds(HighStage(w1, r, a, b, high).value.at, a, b, x, y)
    ensures Holds(w1.at, a, b, x, y) && Holds(w.at, a, b, x, y)
    ensures Correctable(high) ==> KeptAbove(w.at[r], w1.at[a], w1.at[b], x, y)
  {
    hide HighStage, KeptAbove;
    HighStageSound(w1, r, a, b, x, y, high);
    StillHeld(w1.at, HighStage(w1, r, a, b, high).value.at, a, b, x, y);
    StillHeld(w.at, w1.at, a, b, x, y);
  }

  /** And no other pair survives any. */
  lemma SplitSound(w: World, r: nat, a: nat, b: nat, x: int, y: int)
    requires Trio(w.at, r, a, b) && w.at[a].IsFinite() && w.at[b].IsFinite() && SplitProduct(w, r, a, b).Alive?
    requires |SplitProduct(w, r, a, b).value.at| == |w.at| && Holds(SplitProduct(w, r, a, b).value.at, a, b, x, y)
    ensures Holds(w.at, a, b, x, y) && Kept(w.at[r], w.at[a], w.at[b], x, y)
  {
    hide ProductGaps, KeptBelow, KeptAbove, LowStage, HighStage, SplitProduct;
    StagesForm(w, r, a, b);
    ProductGapsExact(w.at[r], w.at[a], w.at[b]);
    var (low, high) := ProductGaps(w.at[r], w.at[a], w.at[b]).value;
    var w1 := LowStage(w, r, a, b, low).value;
    LowStageSound(w, r, a, b, x, y, low);
    SecondSound(w, w1, r, a, b, x, y, high);
    EndOfRaised(w.at[r], w1.at[a], w.at[b], w1.at[b], x, y);
    assert KeptVia(w.at[r], w.at[a], w.at[b], x, y, w1.at[a]);
  }
}
