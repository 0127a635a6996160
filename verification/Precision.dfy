/**
 What the whole backward operations leave, exactly: the intersections before a split leave just the
 operand values that take part in some solution, and of the pairs that explain a result just those
 survive some choice for which the operation fits.
 */
module Precision {
  import opened Outcomes
  import opened Bounds
  import opened Intervals
  import opened Backward
  import opened Splits
  import opened Orders
  import opened History
  import opened Keeping
  import opened Propagation
  import BestChoices
  import Products
  import SignedProducts

  // ----- sums and differences

  predicate Inhabited(at: seq<Interval>, r: nat, a: nat, b: nat) {
    && Trio(at, r, a, b) && at[r].IsOrdinary() && at[a].IsOrdinary() && at[b].IsOrdinary()
    && !at[r].IsBottom() && !at[a].IsBottom() && !at[b].IsBottom()
  }

  /** Operand values with a result that `r` can have. */
  predicate Solution(k: Kind, r: Interval, u: Interval, v: Interval, x: int, y: int) {
    u.Has(x) && v.Has(y) && r.Has(k.Result(x, y))
  }

  /** The interval of left operands that some right operand completes, with saturating bounds. */
  function LeftBox(k: Kind, r: Interval, v: Interval): Interval {
    if k.Sum? then Interval(Clamp(r.low - v.high), Clamp(r.high - v.low))
    else Interval(Clamp(r.low + v.low), Clamp(r.high + v.high))
  }

  /** The interval of right operands that some left operand completes. */
  function RightBox(k: Kind, r: Interval, u: Interval): Interval {
    if k.Sum? then Interval(Clamp(r.low - u.high), Clamp(r.high - u.low))
    else Interval(Clamp(u.low - r.high), Clamp(u.high - r.low))
  }

  /** A left operand value, and a right one, that take part in some solution. */
  ghost predicate LeftTakesPart(k: Kind, r: Interval, u: Interval, v: Interval, x: int) {
    exists y :: Solution(k, r, u, v, x, y)
  }

  ghost predicate RightTakesPart(k: Kind, r: Interval, u: Interval, v: Interval, y: int) {
    exists x :: Solution(k, r, u, v, x, y)
  }

  /** A left operand is in its part exactly when some right operand completes it. */
  lemma LeftCompletes(k: Kind, r: Interval, u: Interval, v: Interval, x: int)
    requires r.IsOrdinary() && u.IsOrdinary() && v.IsOrdinary() && !r.IsBottom() && !v.IsBottom()
    ensures Meet(u, LeftBox(k, r, v)).Has(x) <==> LeftTakesPart(k, r, u, v, x)
  {
    if u.Has(x) && LeftBox(k, r, v).Has(x) {
      var wanted := if k.Sum? then r.low - x else x - r.high;
      var y := if wanted < v.low then v.low else wanted;
      assert Solution(k, r, u, v, x, y);
    }
  }

  lemma RightCompletes(k: Kind, r: Interval, u: Interval, v: Interval, y: int)
    requires r.IsOrdinary() && u.IsOrdinary() && v.IsOrdinary() && !r.IsBottom() && !u.IsBottom()
    ensures Meet(v, RightBox(k, r, u)).Has(y) <==> RightTakesPart(k, r, u, v, y)
  {
    if v.Has(y) && RightBox(k, r, u).Has(y) {
      var wanted := if k.Sum? then r.low - y else r.low + y;
      var x := if wanted < u.low then u.low else wanted;
      assert Solution(k, r, u, v, x, y);
    }
  }

  lemma PartsForm(k: Kind, r: Interval, u: Interval, v: Interval)
    requires r.IsOrdinary() && u.IsOrdinary() && v.IsOrdinary()
    ensures LeftPart(k, r, v) == Alive(LeftBox(k, r, v))
    ensures RightPart(k, r, u) == Alive(RightBox(k, r, u))
  {
  }

  lemma MeetOrdinary(u: Interval, i: Interval)
    requires u.IsOrdinary() && !Meet(u, i).IsBottom()
    ensures Meet(u, i).IsOrdinary() && Meet(u, i).Within(u)
  {
  }

  /** The two intersections in a row: the second one uses what the first one left. */
  lemma NarrowForm(k: Kind, at: seq<Interval>, r: nat, a: nat, b: nat)
    requires Inhabited(at, r, a, b)
    ensures var u := Meet(at[a], LeftBox(k, at[r], at[b]));
            if u.IsBottom() then Narrow(k, at, r, a, b) == Cancelled
            else
              u.IsOrdinary() &&
              var v := Meet(at[b], RightBox(k, at[r], u));
              Narrow(k, at, r, a, b) == if v.IsBottom() then Cancelled else Alive(at[a := u][b := v])
  {
    hide Meet, Plus, Minus, LeftBox, RightBox;
    PartsForm(k, at[r], at[a], at[b]);
    var u := Meet(at[a], LeftBox(k, at[r], at[b]));
    if !u.IsBottom() {
      MeetOrdinary(at[a], LeftBox(k, at[r], at[b]));
      PartsForm(k, at[r], u, at[b]);
    }
  }

  /** With the first operand narrowed to `u`, the second one is narrowed to its own values of solutions. */
  lemma SecondCompletes(k: Kind, r: Interval, u0: Interval, u: Interval, v: Interval, y: int)
    requires r.IsOrdinary() && u.IsOrdinary() && v.IsOrdinary() && !r.IsBottom() && !u.IsBottom() && u.Within(u0)
    requires forall x :: u.Has(x) <==> LeftTakesPart(k, r, u0, v, x)
    ensures Meet(v, RightBox(k, r, u)).Has(y) <==> RightTakesPart(k, r, u0, v, y)
  {
    hide Meet, RightBox;
    RightCompletes(k, r, u, v, y);
    if RightTakesPart(k, r, u0, v, y) {
      var x :| Solution(k, r, u0, v, x, y);
      assert LeftTakesPart(k, r, u0, v, x) && Solution(k, r, u, v, x, y);
    }
    if RightTakesPart(k, r, u, v, y) {
      var x :| Solution(k, r, u, v, x, y);
      assert Solution(k, r, u0, v, x, y);
    }
  }

  /** The narrowed operands, with the values of solutions. */
  lemma BoxesComplete(k: Kind, r: Interval, u: Interval, v: Interval)
    requires r.IsOrdinary() && u.IsOrdinary() && v.IsOrdinary() && !r.IsBottom() && !u.IsBottom() && !v.IsBottom()
    ensures var u1 := Meet(u, LeftBox(k, r, v));
            && (forall x :: u1.Has(x) <==> LeftTakesPart(k, r, u, v, x))
            && (u1.IsOrdinary() && !u1.IsBottom() ==>
                  forall y :: Meet(v, RightBox(k, r, u1)).Has(y) <==> RightTakesPart(k, r, u, v, y))
  {
    hide LeftBox, RightBox, LeftTakesPart, RightTakesPart;
    var u1 := Meet(u, LeftBox(k, r, v));
    forall x
      ensures u1.Has(x) <==> LeftTakesPart(k, r, u, v, x)
    {
      LeftCompletes(k, r, u, v, x);
    }
    if u1.IsOrdinary() && !u1.IsBottom() {
      MeetOrdinary(u, LeftBox(k, r, v));
      forall y
        ensures Meet(v, RightBox(k, r, u1)).Has(y) <==> RightTakesPart(k, r, u, v, y)
      {
        SecondCompletes(k, r, u, u1, v, y);
      }
    }
  }

  /** Narrowing leaves exactly the values of each operand that take part in some solution, and is cancelled when
      there is none. */
  lemma NarrowExact(k: Kind, at: seq<Interval>, r: nat, a: nat, b: nat)
    requires Inhabited(at, r, a, b)
    ensures var o := Narrow(k, at, r, a, b);
            && (o.Alive? <==> exists x :: LeftTakesPart(k, at[r], at[a], at[b], x))
            && (o.Alive? ==> forall x :: o.value[a].Has(x) <==> LeftTakesPart(k, at[r], at[a], at[b], x))
            && (o.Alive? ==> forall y :: o.value[b].Has(y) <==> RightTakesPart(k, at[r], at[a], at[b], y))
  {
    NarrowForm(k, at, r, a, b);
    BoxesComplete(k, at[r], at[a], at[b]);
    hide Narrow, LeftBox, RightBox, Meet;
    var u := Meet(at[a], LeftBox(k, at[r], at[b]));
    if !u.IsBottom() {
      var v := Meet(at[b], RightBox(k, at[r], u));
      assert u.Has(u.low);
      var y :| Solution(k, at[r], at[a], at[b], u.low, y);
      assert RightTakesPart(k, at[r], at[a], at[b], y);
    }
  }

  // ----- any operation

  ghost predicate Survives(op: Op, at: seq<Interval>, r: nat, a: nat, b: nat, x: int, y: int)
    requires r < |at| && a < |at| && b < |at|
  {
    exists answers: seq<nat> ::
      var o := Back(op, World(at, answers), r, a, b);
      o.Alive? && Holds(o.value.at, a, b, x, y)
  }

  /** What leads to a narrowing that holds a pair keeps the pair. */
  lemma LeadsSurvives(op: Op, at: seq<Interval>, r: nat, a: nat, b: nat, p: seq<nat>, at': seq<Interval>,
                      x: int, y: int)
    requires r < |at| && a < |at| && b < |at| && BackLeads(op, at, r, a, b, p, at') && Holds(at', a, b, x, y)
    ensures Survives(op, at, r, a, b, x, y)
  {
    hide Back;
    assert Back(op, World(at, p + []), r, a, b) == Alive(World(at', []));
  }

  function OpOf(k: Kind): Op {
    if k.Sum? then Add else Sub
  }

  /** The whole operation is its two intersections, and then the split. */
  lemma NarrowThenSplit(k: Kind, w: World, r: nat, a: nat, b: nat)
    requires r < |w.at| && a < |w.at| && b < |w.at|
    ensures Back(OpOf(k), w, r, a, b) ==
              match Narrow(k, w.at, r, a, b)
              case Cancelled => Cancelled
              case Alive(at) => k.Split(w.(at := at), r, a, b)
  {
  }

  /** Only where the sum or difference fits does a branch keep a pair. */
  lemma SumSound(k: Kind, w: World, r: nat, a: nat, b: nat, x: int, y: int)
    requires Trio(w.at, r, a, b)
    requires var o := Back(OpOf(k), w, r, a, b); o.Alive? && Holds(o.value.at, a, b, x, y)
    ensures Holds(w.at, a, b, x, y) && SumFits(k, w.at, r, a, b)
    ensures var o := Narrow(k, w.at, r, a, b);
            Sided(w.at[r]) && SmallGaps(k, w.at[r], o.value[a], o.value[b]) ==> w.at[r].Has(k.Result(x, y))
  {
    hide SmallGaps, SplitFits, Meet;
    NarrowThenSplit(k, w, r, a, b);
    NarrowShrinks(k, w.at, r, a, b);
    var at1 := Narrow(k, w.at, r, a, b).value;
    hide SplitSum, SplitDifference, Narrow, Back;
    var at' := SplitSound(k, w.(at := at1), r, a, b);
    assert Holds(at1, a, b, x, y);
    assert at1[a].Within(w.at[a]) && at1[b].Within(w.at[b]);
  }

  lemma NarrowShrinks(k: Kind, at: seq<Interval>, r: nat, a: nat, b: nat)
    requires Trio(at, r, a, b) && Narrow(k, at, r, a, b).Alive?
    ensures NarrowsTo(at, Narrow(k, at, r, a, b).value, a, b)
  {
    hide Meet, Plus, Minus;
    MeetNarrows(at[a], (if k.Sum? then Minus(at[r], at[b]) else Plus(at[r], at[b])).value);
    var u := Meet(at[a], (if k.Sum? then Minus(at[r], at[b]) else Plus(at[r], at[b])).value);
    MeetNarrows(at[b], (if k.Sum? then Minus(at[r], u) else Minus(u, at[r])).value);
  }

  lemma MeetNarrows(u: Interval, i: Interval)
    requires !Meet(u, i).IsBottom()
    ensures Meet(u, i).Within(u)
  {
  }

  /** The whole of `bop_add` and `bop_sub`, for all bounds: a solution survives some choice if and only if what the
      intersections leave of the operands can be split. */
  lemma SumSurvives(k: Kind, at: seq<Interval>, r: nat, a: nat, b: nat, x: int, y: int)
    requires Trio(at, r, a, b) && Solution(k, at[r], at[a], at[b], x, y)
    ensures Survives(OpOf(k), at, r, a, b, x, y) <==> SumFits(k, at, r, a, b)
  {
    hide SumFits, Back;
    if SumFits(k, at, r, a, b) {
      var p, at' := SumKeeps(k, OpOf(k), at, r, a, b, x, y);
      LeadsSurvives(OpOf(k), at, r, a, b, p, at', x, y);
    }
    if Survives(OpOf(k), at, r, a, b, x, y) {
      var answers: seq<nat> :| var o := Back(OpOf(k), World(at, answers), r, a, b);
                               o.Alive? && Holds(o.value.at, a, b, x, y);
      SumSound(k, World(at, answers), r, a, b, x, y);
    }
  }

  /** Where the gaps that remain are small, precisely the solutions survive, if the split fits, and otherwise none. */
  lemma SumExact(k: Kind, at: seq<Interval>, r: nat, a: nat, b: nat, x: int, y: int)
    requires Trio(at, r, a, b) && Sided(at[r])
    requires var o := Narrow(k, at, r, a, b); o.Alive? ==> SmallGaps(k, at[r], o.value[a], o.value[b])
    ensures Survives(OpOf(k), at, r, a, b, x, y) <==>
              Solution(k, at[r], at[a], at[b], x, y) && SumFits(k, at, r, a, b)
  {
    hide SumFits, Back, SmallGaps;
    if Survives(OpOf(k), at, r, a, b, x, y) {
      var answers: seq<nat> :| var o := Back(OpOf(k), World(at, answers), r, a, b);
                               o.Alive? && Holds(o.value.at, a, b, x, y);
      NarrowThenSplit(k, World(at, answers), r, a, b);
      SumSound(k, World(at, answers), r, a, b, x, y);
    }
    if Solution(k, at[r], at[a], at[b], x, y) && SumFits(k, at, r, a, b) {
      SumSurvives(k, at, r, a, b, x, y);
    }
  }

  // ----- products

  /** Only where the product fits does a branch keep a solution. */
  lemma MulSound(w: World, r: nat, a: nat, b: nat, x: int, y: int)
    requires Trio(w.at, r, a, b) && Holds(w.at, a, b, x, y) && w.at[r].Has(x * y)
    requires var o := BackMul(w, r, a, b); o.Alive? && Holds(o.value.at, a, b, x, y)
    ensures MulFits(w.at[r], w.at[a], w.at[b], x, y)
  {
    var res, u, v := w.at[r], w.at[a], w.at[b];
    hide SplitProduct, SignedProducts.Kept, Over;
    if u.IsFinite() && v.IsFinite() {
      OverExcludesZero(res, u);
      var at1 := w.at[b := Meet(v, Over(res, u).value)];
      assert BackMul(w, r, a, b) == SplitProduct(w.(at := at1), r, a, b);
      SplitShrinks(w.(at := at1), r, a, b);
      SignedProducts.SplitSound(w.(at := at1), r, a, b, x, y);
    } else {
      OverExcludesZero(res, v);
      OverSound(res, v, x * y, y);
    }
  }

  lemma OverExcludesZero(l: Interval, r: Interval)
    requires Over(l, r).Alive?
    ensures !r.Includes(0)
  {
  }

  lemma SplitShrinks(w: World, r: nat, a: nat, b: nat)
    requires Trio(w.at, r, a, b) && SplitProduct(w, r, a, b).Alive?
    ensures |SplitProduct(w, r, a, b).value.at| == |w.at|
  {
  }

  /** The whole of `bop_mul`, for all bounds: a solution survives some choice if and only if the product fits.  With an
      infinite operand that is when the right operand excludes zero, and it or the result is finite; with finite ones,
      when the left operand excludes zero, and the starts and ends keep the pair. */
  lemma ProductSurvives(at: seq<Interval>, r: nat, a: nat, b: nat, x: int, y: int)
    requires Trio(at, r, a, b) && Holds(at, a, b, x, y) && at[r].Has(x * y)
    ensures Survives(Mul, at, r, a, b, x, y) <==> MulFits(at[r], at[a], at[b], x, y)
  {
    hide MulFits, BackMul;
    if MulFits(at[r], at[a], at[b], x, y) {
      var p, at' := MulKeeps(at, r, a, b, x, y);
      LeadsSurvives(Mul, at, r, a, b, p, at', x, y);
    }
    if Survives(Mul, at, r, a, b, x, y) {
      var answers: seq<nat> :| var o := Back(Mul, World(at, answers), r, a, b);
                               o.Alive? && Holds(o.value.at, a, b, x, y);
      MulSound(World(at, answers), r, a, b, x, y);
    }
  }

  /** The division before the split leaves the signs that the best choices count on. */
  lemma QuotientPrepares(r: Interval, u: Interval, v: Interval, x: int, y: int)
    requires u.IsFinite() && !u.Includes(0) && u.Has(x) && v.Has(y) && r.Has(x * y) && Over(r, u).Alive?
    requires v.Within(Over(r, u).value) && SignedProducts.ProductGaps(r, u, v).Alive?
    ensures BestChoices.Prepared(r, u, v, x)
  {
    SignedProducts.ProductGapsExact(r, u, v);
    OverSigns(r, u);
    TimesSigns(u, v);
    hide SignedProducts.ProductGaps, Times, Over;
  }

  lemma OverSigns(r: Interval, u: Interval)
    requires u.IsFinite() && !u.Includes(0) && !u.IsBottom() && !r.IsBottom() && Over(r, u).Alive?
    ensures r.low >= 0 && u.low > 0 ==> Over(r, u).value.low >= 0
    ensures r.low >= 0 && u.high < 0 ==> Over(r, u).value.high <= 0
  {
    DivSigns(r.low, u.low);
    DivSigns(r.low, u.high);
    DivSigns(r.high, u.low);
    DivSigns(r.high, u.high);
    hide Div;
  }

  lemma DivSigns(a: Int64, b: Int64)
    requires Finite(b) && b != 0
    ensures Div(a, b).Alive?
    ensures a >= 0 && b > 0 ==> Div(a, b).value >= 0
    ensures a >= 0 && b < 0 ==> Div(a, b).value <= 0
  {
  }

  lemma TimesSigns(u: Interval, v: Interval)
    requires !u.IsBottom() && !v.IsBottom()
    ensures (u.low > 0 && v.low >= 0) || (u.high < 0 && v.high <= 0) ==> Times(u, v).low >= 0
  {
    MulSigns(u.low, v.low);
    MulSigns(u.low, v.high);
    MulSigns(u.high, v.low);
    MulSigns(u.high, v.high);
    hide Bounds.Mul;
  }

  lemma MulSigns(a: Int64, b: Int64)
    ensures (a >= 0 && b >= 0) || (a <= 0 && b <= 0) ==> Bounds.Mul(a, b) >= 0
  {
    ProductSign(a, b);
  }

  /** Finite factors of any sign, with fewer than 2^31 starts and ends: a solution survives if and only if the left
      factor excludes zero and the best start and the best end, where corrections are due, keep it. */
  lemma FiniteProductExact(at: seq<Interval>, r: nat, a: nat, b: nat, x: int, y: int)
    requires Trio(at, r, a, b) && Holds(at, a, b, x, y) && at[r].Has(x * y)
    requires at[a].IsFinite() && at[b].IsFinite() && !at[a].Includes(0)
    ensures Over(at[r], at[a]).Alive?
    ensures var v1 := Meet(at[b], Over(at[r], at[a]).value);
            (SignedProducts.ProductGaps(at[r], at[a], v1).Alive? ==> BestChoices.FewChoices(at[r], at[a], v1)) ==>
              (Survives(Mul, at, r, a, b, x, y) <==> BestChoices.BestKept(at[r], at[a], v1, x, y))
  {
    hide Survives, Over, SignedProducts.Kept, SignedProducts.ProductGaps, BestChoices.FewChoices, BestChoices.BestKept;
    var res, u, v := at[r], at[a], at[b];
    QuotientKeeps(res, u, v, x, y);
    var v1 := Meet(v, Over(res, u).value);
    ProductSurvives(at, r, a, b, x, y);
    if SignedProducts.ProductGaps(res, u, v1).Alive? {
      QuotientWithin(v, Over(res, u).value, y);
      QuotientPrepares(res, u, v1, x, y);
      if BestChoices.FewChoices(res, u, v1) {
        BestChoices.KeptIffBest(res, u, v1, x, y);
      }
    } else {
      NeverKept(res, u, v1, x, y);
    }
  }

  lemma QuotientWithin(v: Interval, i: Interval, y: int)
    requires v.Has(y) && i.Has(y)
    ensures Meet(v, i).Within(i)
  {
  }

  lemma NeverKept(r: Interval, u: Interval, v: Interval, x: int, y: int)
    requires SignedProducts.ProductGaps(r, u, v).Cancelled?
    ensures !SignedProducts.Kept(r, u, v, x, y) && !BestChoices.BestKept(r, u, v, x, y)
  {
    hide SignedProducts.ProductGaps;
  }

  /** Where no correction is due, nothing is lost. */
  lemma UncorrectedSurvives(at: seq<Interval>, r: nat, a: nat, b: nat, x: int, y: int)
    requires Trio(at, r, a, b) && Holds(at, a, b, x, y) && at[r].Has(x * y)
    requires at[a].IsFinite() && at[b].IsFinite() && !at[a].Includes(0)
    requires var o := Over(at[r], at[a]);
             o.Alive? ==> var gaps := SignedProducts.ProductGaps(at[r], at[a], Meet(at[b], o.value));
             gaps.Alive? && !Correctable(gaps.value.0) && !Correctable(gaps.value.1)
    ensures Survives(Mul, at, r, a, b, x, y)
  {
    hide Survives, Over, SignedProducts.ProductGaps;
    QuotientKeeps(at[r], at[a], at[b], x, y);
    var v1 := Meet(at[b], Over(at[r], at[a]).value);
    assert SignedProducts.KeptVia(at[r], at[a], v1, x, y, at[a]);
    ProductSurvives(at, r, a, b, x, y);
  }

  /** A solution in positive numbers survives the whole of `bop_mul` if and only if the count of starts that the
      intersection leaves reaches it. */
  lemma ProductLostExactly(at: seq<Interval>, r: nat, a: nat, b: nat, x: int, y: int)
    requires Products.PositiveTriple(at, r, a, b) && Holds(at, a, b, x, y) && at[r].Has(x * y)
    ensures Over(at[r], at[a]).Alive? && Products.Positive(Meet(at[b], Over(at[r], at[a]).value))
    ensures Survives(Mul, at, r, a, b, x, y) <==>
              Products.DeepEnough(at[r], at[a], Meet(at[b], Over(at[r], at[a]).value), x)
  {
    hide Survives, Over, SignedProducts.Kept;
    QuotientKeeps(at[r], at[a], at[b], x, y);
    ProductSurvives(at, r, a, b, x, y);
    PositiveKept(at[r], at[a], Meet(at[b], Over(at[r], at[a]).value), x, y);
  }

  // ----- comparisons

  lemma OrderSettled(w: World, r: nat, a: nat, b: nat, negated: bool, outcome: bool)
    requires Compared(w.at, r, a, b) && w.at[r] == Constant(BoolValue(outcome))
    ensures BackOrder(w, r, a, b, negated) ==
              if outcome != negated then BackGreater(w, a, b, true) else BackGreater(w, b, a, false)
  {
    hide BackGreater, GreaterLeft;
    KnownForm(w.at[r], true);
    KnownForm(w.at[r], false);
    if outcome != negated && BackGreater(w, a, b, true).Alive? {
      GreaterSound(w, a, b, true);
    }
  }

  /** A settled comparison `x > y` leaves precisely the pairs that an order split leaves, for all bounds and all numbers
      of shared values. */
  lemma OrderExact(at: seq<Interval>, r: nat, a: nat, b: nat, negated: bool, outcome: bool, x: int, y: int)
    requires Compared(at, r, a, b) && at[r] == Constant(BoolValue(outcome))
    ensures (exists answers: seq<nat> ::
               var o := BackOrder(World(at, answers), r, a, b, negated);
               o.Alive? && Holds(o.value.at, a, b, x, y))
       <==> if outcome != negated then GreaterLeft(at, a, b, true, x, y) else GreaterLeft(at, b, a, false, y, x)
  {
    hide GreaterLeft, BackGreater, BackOrder;
    forall answers: seq<nat>
      ensures BackOrder(World(at, answers), r, a, b, negated) ==
                if outcome != negated then BackGreater(World(at, answers), a, b, true)
                else BackGreater(World(at, answers), b, a, false)
    {
      OrderSettled(World(at, answers), r, a, b, negated, outcome);
    }
    if outcome != negated {
      GreaterExact(at, a, b, true, x, y);
    } else {
      GreaterExact(at, b, a, false, y, x);
    }
  }

  lemma OrderSound(w: World, r: nat, a: nat, b: nat, negated: bool, x: int, y: int)
    requires Compared(w.at, r, a, b)
    requires var o := BackOrder(w, r, a, b, negated); o.Alive? && Holds(o.value.at, a, b, x, y)
    ensures OrderFits(w.at, r, a, b, negated, x, y)
  {
    hide GreaterLeft, BackGreater;
    KnownForm(w.at[r], true);
    KnownForm(w.at[r], false);
    if Known(w.at[r], !negated) {
      OrderSettled(w, r, a, b, negated, !negated);
      GreaterSound(w, a, b, true);
    } else if Known(w.at[r], negated) {
      OrderSettled(w, r, a, b, negated, negated);
      GreaterSound(w, b, a, false);
      assert Holds(BackGreater(w, b, a, false).value.at, b, a, y, x);
    }
  }

  lemma EqualitySound(w: World, r: nat, a: nat, b: nat, negated: bool, x: int, y: int)
    requires Compared(w.at, r, a, b)
    requires var o := BackEquality(w, r, a, b, negated); o.Alive? && Holds(o.value.at, a, b, x, y)
    ensures EqualityFits(w.at, r, a, b, negated, x, y)
  {
    hide DifferentLeft, BackDifferent, BackEqual, EqualKept;
    KnownForm(w.at[r], true);
    KnownForm(w.at[r], false);
    if Known(w.at[r], !negated) {
      EqualLeavesResult(w, r, a, b);
      EqualBranch(w, a, b, x, y);
    } else if Known(w.at[r], negated) {
      DifferentSound(w, a, b);
    }
  }

  lemma EqualLeavesResult(w: World, r: nat, a: nat, b: nat)
    requires Compared(w.at, r, a, b) && BackEqual(w, a, b).Alive?
    ensures BackEqual(w, a, b).value.at[r] == w.at[r]
  {
    var common := Meet(w.at[a], w.at[b]);
    MeetBothForm(w.at, a, b, common);
    PickConstantForm(w.(at := w.at[a := common][b := common]), a, b, common);
    hide MeetBoth, PickConstant;
  }

  /** Only where an operation fits does a branch keep a pair that explains the result. */
  lemma BackSound(op: Op, w: World, r: nat, a: nat, b: nat, x: int, y: int)
    requires Compared(w.at, r, a, b) && Holds(w.at, a, b, x, y) && w.at[r].Has(Eval(op, x, y))
    requires var o := Back(op, w, r, a, b); o.Alive? && Holds(o.value.at, a, b, x, y)
    ensures Fits(op, w.at, r, a, b, x, y)
  {
    hide SumFits, MulFits, OrderFits, EqualityFits, BackAdd, BackSub, BackMul, BackOrder, BackEquality;
    match op
    case Add =>
      assert Back(OpOf(Sum), w, r, a, b) == Back(op, w, r, a, b);
      SumSound(Sum, w, r, a, b, x, y);
    case Sub =>
      assert Back(OpOf(Difference), w, r, a, b) == Back(op, w, r, a, b);
      SumSound(Difference, w, r, a, b, x, y);
    case Mul => MulSound(w, r, a, b, x, y);
    case Eq => EqualitySound(w, r, a, b, false, x, y);
    case Ne => EqualitySound(w, r, a, b, true, x, y);
    case Slt => OrderSound(w, r, b, a, false, y, x);
    case Sgt => OrderSound(w, r, a, b, false, x, y);
    case Sle => OrderSound(w, r, a, b, true, x, y);
    case Sge => OrderSound(w, r, b, a, true, y, x);
  }

  /** Any operation on different nodes, for all bounds: operand values that explain the value of the result survive
      some choice if and only if the operation fits them. */
  lemma BackExact(op: Op, at: seq<Interval>, r: nat, a: nat, b: nat, x: int, y: int)
    requires Compared(at, r, a, b) && Holds(at, a, b, x, y) && at[r].Has(Eval(op, x, y))
    ensures Survives(op, at, r, a, b, x, y) <==> Fits(op, at, r, a, b, x, y)
  {
    hide Fits, Back;
    if Fits(op, at, r, a, b, x, y) {
      var p, at' := BackKeeps(op, at, r, a, b, x, y);
      LeadsSurvives(op, at, r, a, b, p, at', x, y);
    }
    if Survives(op, at, r, a, b, x, y) {
      var answers: seq<nat> :| var o := Back(op, World(at, answers), r, a, b);
                               o.Alive? && Holds(o.value.at, a, b, x, y);
      BackSound(op, World(at, answers), r, a, b, x, y);
    }
  }

  // ----- forward comparisons

  /** A comparison is decided if and only if no integer is in both operands, or they are the same constant; then it is
      what all their values give, and otherwise open. */
  lemma ForwardDecides(op: Op, u: Interval, v: Interval)
    requires Compares(op) && Proper(u) && Proper(v)
    ensures Forward(op, u, v).Alive?
    ensures var i := Forward(op, u, v).value;
            && (if Apart(u, v) || SameConstant(u, v) then i == Constant(0) || i == Constant(1) else i == Interval(0, 1))
            && (i.IsConstant() ==> forall x, y :: u.Spans(x) && v.Spans(y) ==> i == Constant(Eval(op, x, y)))
  {
    ComparisonDecides(u, v);
    ApartOrdered(u, v);
    hide Equal, Less, Greater, Apart;
  }

  /** Intervals without a common integer are one below the other. */
  lemma ApartOrdered(u: Interval, v: Interval)
    requires Proper(u) && Proper(v)
    ensures Apart(u, v) <==> AllBelow(u, v) || AllBelow(v, u)
  {
    FarSpanned(u);
    FarSpanned(v);
    var x: int := Max(u.low, v.low);
    assert (u.Spans(x) && v.Spans(x)) || u.high < v.low || v.high < u.low;
  }
}
