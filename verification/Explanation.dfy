/**
 How far an assumption is pushed down.  After it, every value left in an operand of any node that the assumption
 reaches is explained: some value of the other operand gives a result that the node can still have.  Reaching one
 operand only, or stopping early, would leave values without an explanation.
 */
module Explanation {
  import opened Outcomes
  import opened Bounds
  import opened Intervals
  import opened Backward
  import opened Splits
  import opened Orders
  import opened History
  import opened Keeping
  import opened Narrowing
  import opened Precision
  import opened Runs

  /** The interval stands for some integer. */
  predicate HasSome(i: Interval) {
    Max(i.low, -MAX + 1) <= Min(i.high, MAX - 1)
  }

  lemma SomeValue(i: Interval) returns (x: int)
    requires HasSome(i)
    ensures i.Has(x) && Proper(i)
  {
    x := Max(i.low, -MAX + 1);
  }

  lemma SpansMore(i: Interval, j: Interval, x: int)
    requires i.Within(j)
    ensures i.Spans(x) ==> j.Spans(x)
    ensures HasSome(i) ==> HasSome(j)
  {
  }

  // ----- what explains a value

  /** The operation gives a result that the node can have; for a comparison, the outcome that it is known to have. */
  predicate Gives(op: Op, r: Interval, x: int, y: int) {
    if Compares(op) then forall b :: r == Constant(BoolValue(b)) ==> Eval(op, x, y) == BoolValue(b)
    else r.Spans(Eval(op, x, y))
  }

  ghost predicate LeftExplained(op: Op, r: Interval, v: Interval, x: int) {
    exists y :: v.Spans(y) && Gives(op, r, x, y)
  }

  ghost predicate RightExplained(op: Op, r: Interval, u: Interval, y: int) {
    exists x :: u.Spans(x) && Gives(op, r, x, y)
  }

  /** A value between two quotients of spanned integers. */
  ghost predicate Around(r: Interval, v: Interval, x: int) {
    exists p: Int64, q: Int64 :: IsQuotient(r, v, p) && IsQuotient(r, v, q) && p <= x <= q
  }

  /** The values left in both operands, `u` and `v`, are explained by values of the other one, of `v0` and `u0`.  A
      product narrows one of its operands only, and to what lies between quotients. */
  ghost predicate Explained(op: Op, r: Interval, u: Interval, v: Interval, u0: Interval, v0: Interval) {
    if op.Mul? then
      (forall x :: u.Has(x) ==> Around(r, v0, x)) || (forall y :: v.Has(y) ==> Around(r, u0, y))
    else
      (forall x :: u.Has(x) ==> LeftExplained(op, r, v0, x)) && (forall y :: v.Has(y) ==> RightExplained(op, r, u0, y))
  }

  lemma AroundMore(r: Interval, v: Interval, v0: Interval, x: int)
    requires Around(r, v, x) && v.Within(v0)
    ensures Around(r, v0, x)
  {
    var p: Int64, q: Int64 :| IsQuotient(r, v, p) && IsQuotient(r, v, q) && p <= x <= q;
    assert IsQuotient(r, v0, p) && IsQuotient(r, v0, q) by {
      forall y ensures v.Spans(y) ==> v0.Spans(y) {
        SpansMore(v, v0, y);
      }
    }
  }

  /** An explanation stays one when operands narrow and when there is more to explain with. */
  lemma StillExplained(op: Op, r: Interval, u: Interval, v: Interval, u0: Interval, v0: Interval,
                       u': Interval, v': Interval, u1: Interval, v1: Interval)
    requires Explained(op, r, u, v, u0, v0)
    requires u'.Within(u) && v'.Within(v) && u0.Within(u1) && v0.Within(v1)
    ensures Explained(op, r, u', v', u1, v1)
  {
    hide Around, Gives;
    forall x ensures (u'.Has(x) ==> u.Has(x)) && (v'.Has(x) ==> v.Has(x)) {
    }
    forall y ensures (u0.Spans(y) ==> u1.Spans(y)) && (v0.Spans(y) ==> v1.Spans(y)) {
      SpansMore(u0, u1, y);
      SpansMore(v0, v1, y);
    }
    if op.Mul? {
      forall x ensures (Around(r, v0, x) ==> Around(r, v1, x)) && (Around(r, u0, x) ==> Around(r, u1, x)) {
        if Around(r, v0, x) {
          AroundMore(r, v0, v1, x);
        }
        if Around(r, u0, x) {
          AroundMore(r, u0, u1, x);
        }
      }
    }
  }

  // ----- sums and differences

  /** What the first operand is narrowed to has partners in the second one. */
  lemma LeftPartner(k: Kind, r: Interval, v: Interval, x: int)
    requires Proper(r) && Proper(v) && LeftPart(k, r, v).Alive? && LeftPart(k, r, v).value.Has(x)
    ensures exists y :: v.Spans(y) && r.Spans(k.Result(x, y))
  {
    var lo, hi := if k.Sum? then r.low - x else x - r.high, if k.Sum? then r.high - x else x - r.low;
    var noLo, noHi := if k.Sum? then r.low <= -MAX else r.high == MAX, if k.Sum? then r.high == MAX else r.low <= -MAX;
    var y := if v.low > -MAX && (noLo || lo <= v.low) then v.low
             else if !noLo then lo
             else if v.high < MAX && (noHi || v.high <= hi) then v.high
             else if !noHi then hi
             else 0;
    assert v.Spans(y) && r.Spans(k.Result(x, y));
  }

  lemma RightPartner(k: Kind, r: Interval, u: Interval, y: int)
    requires Proper(r) && Proper(u) && RightPart(k, r, u).Alive? && RightPart(k, r, u).value.Has(y)
    ensures exists x :: u.Spans(x) && r.Spans(k.Result(x, y))
  {
    var lo, hi := if k.Sum? then r.low - y else r.low + y, if k.Sum? then r.high - y else r.high + y;
    var x := if u.low > -MAX && (r.low <= -MAX || lo <= u.low) then u.low
             else if r.low > -MAX then lo
             else if u.high < MAX && (r.high == MAX || u.high <= hi) then u.high
             else if r.high < MAX then hi
             else 0;
    assert u.Spans(x) && r.Spans(k.Result(x, y));
  }

  lemma MeetHas(i: Interval, j: Interval, x: int)
    requires !Meet(i, j).IsBottom()
    ensures Meet(i, j).Has(x) ==> i.Has(x) && j.Has(x)
    ensures Meet(i, j).Within(i)
  {
  }

  /** What an operand is met with explains what is left of it; `w` is the second operand as the first meet leaves it. */
  lemma MeetsExplain(k: Kind, r: Interval, u: Interval, v: Interval, u1: Interval, w: Interval, v1: Interval)
    requires Proper(r) && Proper(v) && LeftPart(k, r, v).Alive? && u1 == Meet(u, LeftPart(k, r, v).value)
    requires HasSome(u1) && RightPart(k, r, u1).Alive? && v1 == Meet(w, RightPart(k, r, u1).value) && HasSome(v1)
    ensures forall x :: u1.Has(x) ==> LeftExplained(OpOf(k), r, v, x)
    ensures forall y :: v1.Has(y) ==> RightExplained(OpOf(k), r, u, y)
  {
    var i, j := LeftPart(k, r, v).value, RightPart(k, r, u1).value;
    MeetHas(u, i, 0);
    var z := SomeValue(u1);
    hide Meet, LeftPart, RightPart, HasSome;
    forall x | u1.Has(x)
      ensures LeftExplained(OpOf(k), r, v, x)
    {
      MeetHas(u, i, x);
      LeftPartner(k, r, v, x);
    }
    forall y | v1.Has(y)
      ensures RightExplained(OpOf(k), r, u, y)
    {
      MeetHas(w, j, y);
      RightPartner(k, r, u1, y);
      var x :| u1.Spans(x) && r.Spans(k.Result(x, y));
      SpansMore(u1, u, x);
      assert u.Spans(x) && Gives(OpOf(k), r, x, y);
    }
  }

  /** The two intersections explain what they leave. */
  lemma NarrowExplains(k: Kind, at: seq<Interval>, r: nat, a: nat, b: nat)
    requires r < |at| && a < |at| && b < |at| && r != a && r != b && Narrow(k, at, r, a, b).Alive?
    requires Proper(at[r]) && Proper(at[b])
    requires forall c <- [a, b] :: HasSome(Narrow(k, at, r, a, b).value[c])
    ensures var at1 := Narrow(k, at, r, a, b).value;
            && Shrinks(at, at1)
            && (forall k :: 0 <= k < |at| && k != a && k != b ==> at1[k] == at[k])
            && Explained(OpOf(k), at[r], at1[a], at1[b], at[a], at[b])
  {
    var i := LeftPart(k, at[r], at[b]).value;
    var mid := Intersect(at, a, i).value;
    assert mid == at[a := Meet(at[a], i)];
    var j := RightPart(k, at[r], mid[a]).value;
    var at1 := Intersect(mid, b, j).value;
    assert Narrow(k, at, r, a, b) == Alive(at1) && at1 == mid[b := Meet(mid[b], j)];
    MeetHas(at[a], i, 0);
    MeetHas(mid[b], j, 0);
    assert at1[a].Within(mid[a]);
    SpansMore(at1[a], mid[a], 0);
    hide Meet, Plus, Minus, Narrow, LeftPart, RightPart, HasSome, LeftExplained, RightExplained;
    MeetsExplain(k, at[r], at[a], at[b], mid[a], mid[b], at1[b]);
    assert forall x :: at1[a].Has(x) ==> mid[a].Has(x);
  }

  // ----- nothing else changes

  lemma StairOnly(side: Side, at: seq<Interval>, a: nat, b: nat, d: Int64, i: Int32, k: nat)
    requires a < |at| && b < |at| && k < |at| && k != a && k != b && Stair(side, at, a, b, d, i).Alive?
    ensures Stair(side, at, a, b, d, i).value[k] == at[k]
  {
    hide RaisedBy, RaisedByRest, LoweredBy, LoweredByRest;
  }

  lemma CorrectOnly(side: Side, w: World, a: nat, b: nat, d: Int64, k: nat)
    requires a < |w.at| && b < |w.at| && k < |w.at| && k != a && k != b && Correct(side, w, a, b, d).Alive?
    ensures Correct(side, w, a, b, d).value.at[k] == w.at[k]
  {
    hide Stair;
    if Correctable(d) {
      CorrectStep(side, w, a, b, d);
      StairOnly(side, w.at, a, b, d, Pick(w.answers, d + 1), k);
    }
  }

  /** The split of a sum or a difference narrows its operands and leaves all other nodes alone. */
  lemma SplitOnly(k: Kind, w: World, r: nat, a: nat, b: nat)
    requires r < |w.at| && a < |w.at| && b < |w.at| && k.Split(w, r, a, b).Alive?
    ensures Shrinks(w.at, k.Split(w, r, a, b).value.at)
    ensures forall j :: 0 <= j < |w.at| && j != a && j != b ==> k.Split(w, r, a, b).value.at[j] == w.at[j]
  {
    SplitForm(k, w, r, a, b);
    hide Correct, Gaps;
    var (low, high) := Gaps(k, w.at[r], w.at[a], w.at[b]).value;
    var w1 := Correct(k.Low(), w, a, b, low).value;
    var w2 := Correct(k.High(), w1, a, b, high).value;
    CorrectShrinks(k.Low(), w, a, b, low);
    CorrectShrinks(k.High(), w1, a, b, high);
    ShrinksOn(w.at, w1.at, w2.at);
    forall j | 0 <= j < |w.at| && j != a && j != b
      ensures w2.at[j] == w.at[j]
    {
      CorrectOnly(k.Low(), w, a, b, low, j);
      CorrectOnly(k.High(), w1, a, b, high, j);
    }
  }

  lemma ChoiceLeaves(w: World, low: Int64, high: Int64)
    ensures ChooseDown(w, low, high).Alive? ==> ChooseDown(w, low, high).value.1.at == w.at
    ensures ChooseUp(w, low, high).Alive? ==> ChooseUp(w, low, high).value.1.at == w.at
  {
    hide CountOf;
  }

  lemma ProductLowOnly(w: World, r: nat, a: nat, b: nat, j: nat)
    requires r < |w.at| && a < |w.at| && b < |w.at| && j < |w.at| && j != a && j != b && ProductLow(w, r, a, b).Alive?
    ensures ProductLow(w, r, a, b).value.at[j] == w.at[j]
  {
    hide DivUp, ChooseDown;
  }

  lemma ProductHighOnly(w: World, r: nat, a: nat, b: nat, j: nat)
    requires r < |w.at| && a < |w.at| && b < |w.at| && j < |w.at| && j != a && j != b && ProductHigh(w, r, a, b).Alive?
    ensures ProductHigh(w, r, a, b).value.at[j] == w.at[j]
  {
    hide Div, ChooseUp;
  }

  lemma SplitProductOnly(w: World, r: nat, a: nat, b: nat)
    requires r < |w.at| && a < |w.at| && b < |w.at| && SplitProduct(w, r, a, b).Alive?
    ensures forall j :: 0 <= j < |w.at| && j != a && j != b ==> SplitProduct(w, r, a, b).value.at[j] == w.at[j]
  {
    hide ProductLow, ProductHigh, Times;
    forall j | 0 <= j < |w.at| && j != a && j != b
      ensures SplitProduct(w, r, a, b).value.at[j] == w.at[j]
    {
      var product := Times(w.at[a], w.at[b]);
      if !w.at[r].IncludesAll(product) {
        var w1 := w;
        if Correctable(Bounds.Sub(w.at[r].low, product.low).value) {
          ProductLowOnly(w, r, a, b, j);
          w1 := ProductLow(w, r, a, b).value;
        }
        if Correctable(Bounds.Sub(product.high, w.at[r].high).value) {
          ProductHighOnly(w1, r, a, b, j);
        }
      }
    }
  }

  // ----- one operation

  lemma SumExplains(k: Kind, w: World, r: nat, a: nat, b: nat)
    requires r < |w.at| && a < |w.at| && b < |w.at| && r != a && r != b && Back(OpOf(k), w, r, a, b).Alive?
    requires Proper(w.at[r]) && Proper(w.at[b])
    requires forall c <- [a, b] :: HasSome(Back(OpOf(k), w, r, a, b).value.at[c])
    ensures var at' := Back(OpOf(k), w, r, a, b).value.at;
            && Explained(OpOf(k), w.at[r], at'[a], at'[b], w.at[a], w.at[b])
            && forall j :: 0 <= j < |w.at| && j != a && j != b ==> at'[j] == w.at[j]
  {
    NarrowThenSplit(k, w, r, a, b);
    hide Back, Narrow, Explained, SplitSum, SplitDifference, HasSome;
    var at1 := Narrow(k, w.at, r, a, b).value;
    var at' := Back(OpOf(k), w, r, a, b).value.at;
    SplitOnly(k, w.(at := at1), r, a, b);
    assert at'[a].Within(at1[a]) && at'[b].Within(at1[b]);
    SpansMore(at'[a], at1[a], 0);
    SpansMore(at'[b], at1[b], 0);
    assert HasSome(at'[a]) && HasSome(at'[b]) by {
      assert a in [a, b] && b in [a, b];
    }
    NarrowExplains(k, w.at, r, a, b);
    StillExplained(OpOf(k), w.at[r], at1[a], at1[b], w.at[a], w.at[b], at'[a], at'[b], w.at[a], w.at[b]);
  }

  /** Division narrows an operand of a product to what lies between quotients of the result by the other operand. */
  lemma OverAround(r: Interval, v: Interval, x: int)
    requires Proper(r) && Proper(v) && Over(r, v).Alive? && Over(r, v).value.Has(x)
    ensures Around(r, v, x)
  {
    OverTight(r, v);
    hide Over, IsQuotient;
  }

  /** What `bop_mul` leaves: an infinite operand narrows the left one, to what lies between quotients of the result by
      the right one; finite operands narrow the right one, to what lies between quotients by the left one. */
  lemma ProductNarrows(w: World, r: nat, a: nat, b: nat)
    requires r < |w.at| && a < |w.at| && b < |w.at| && BackMul(w, r, a, b).Alive?
    requires Proper(w.at[r]) && Proper(w.at[a]) && Proper(w.at[b])
    ensures var at' := BackMul(w, r, a, b).value.at;
            && (w.at[a].IsFinite() && w.at[b].IsFinite() ==>
                  forall y :: at'[b].Has(y) ==> w.at[b].Has(y) && Around(w.at[r], w.at[a], y))
            && (!(w.at[a].IsFinite() && w.at[b].IsFinite()) ==>
                  forall x :: at'[a].Has(x) ==> w.at[a].Has(x) && Around(w.at[r], w.at[b], x))
            && forall j :: 0 <= j < |w.at| && j != a && j != b ==> at'[j] == w.at[j]
  {
    hide Over, SplitProduct, Around, Meet;
    var res, u, v := w.at[r], w.at[a], w.at[b];
    var at' := BackMul(w, r, a, b).value.at;
    if u.IsFinite() && v.IsFinite() {
      var i := Over(res, u).value;
      var at1 := w.at[b := Meet(v, i)];
      assert BackMul(w, r, a, b) == SplitProduct(w.(at := at1), r, a, b);
      SplitProductShrinks(w.(at := at1), r, a, b);
      SplitProductOnly(w.(at := at1), r, a, b);
      assert at'[b].Within(at1[b]);
      forall y | at'[b].Has(y)
        ensures v.Has(y) && Around(res, u, y)
      {
        MeetHas(v, i, y);
        OverAround(res, u, y);
      }
    } else {
      var i := Over(res, v).value;
      assert at' == w.at[a := Meet(u, i)];
      forall x | at'[a].Has(x)
        ensures u.Has(x) && Around(res, v, x)
      {
        MeetHas(u, i, x);
        OverAround(res, v, x);
      }
    }
  }

  /** An order leaves values with a partner on the right side of them. */
  lemma OrderPartner(u: Interval, v: Interval, strict: bool, x: int, y: int)
    requires Proper(u) && Proper(v)
    ensures UpperPart(u, v, strict).Has(x) ==> exists z :: v.Spans(z) && Above(strict, x, z)
    ensures LowerPart(u, v, strict).Has(y) ==> exists z :: u.Spans(z) && Above(strict, z, y)
  {
    var low := if v.low > -MAX then v.low else if v.high < x then v.high else x - 1;
    var high := if u.high < MAX then u.high else if u.low > y then u.low else y + 1;
    if UpperPart(u, v, strict).Has(x) {
      assert v.Spans(low) && Above(strict, x, low);
    }
    if LowerPart(u, v, strict).Has(y) {
      assert u.Spans(high) && Above(strict, high, y);
    }
  }

  lemma LeftPairExplained(at: seq<Interval>, a: nat, b: nat, strict: bool, x: int, y: int)
    requires Twin(at, a, b) && Proper(at[a]) && Proper(at[b]) && GreaterLeft(at, a, b, strict, x, y)
    ensures exists z :: at[b].Spans(z) && Above(strict, x, z)
    ensures exists z :: at[a].Spans(z) && Above(strict, z, y)
  {
    OrderPartner(at[a], at[b], strict, x, y);
  }

  /** A settled order explains what it leaves. */
  lemma OrderFitsExplains(op: Op, at: seq<Interval>, r: nat, a: nat, b: nat, x: int, y: int)
    requires Compared(at, r, a, b) && Proper(at[a]) && Proper(at[b]) && Holds(at, a, b, x, y)
    requires (op.Slt? || op.Sgt? || op.Sle? || op.Sge?) && Fits(op, at, r, a, b, x, y)
    ensures LeftExplained(op, at[r], at[b], x) && RightExplained(op, at[r], at[a], y)
  {
    hide GreaterLeft, UpperPart, LowerPart;
    KnownForm(at[r], true);
    KnownForm(at[r], false);
    forall more, less, strict, p, q | more in {a, b} && less in {a, b} && more != less && strict in {true, false}
                                      && p in {x, y} && q in {x, y} && GreaterLeft(at, more, less, strict, p, q)
      ensures exists z :: at[less].Spans(z) && Above(strict, p, z)
      ensures exists z :: at[more].Spans(z) && Above(strict, z, q)
    {
      LeftPairExplained(at, more, less, strict, p, q);
    }
    assert at[a].Spans(x) && at[b].Spans(y);
    if at[r] != Constant(0) && at[r] != Constant(1) {
      assert Gives(op, at[r], x, y);
    }
  }

  /** A settled equality explains what it leaves. */
  lemma EqualityFitsExplains(op: Op, at: seq<Interval>, r: nat, a: nat, b: nat, x: int, y: int)
    requires Compared(at, r, a, b) && Proper(at[a]) && Proper(at[b]) && Holds(at, a, b, x, y)
    requires (op.Eq? || op.Ne?) && Fits(op, at, r, a, b, x, y)
    ensures LeftExplained(op, at[r], at[b], x) && RightExplained(op, at[r], at[a], y)
  {
    hide GreaterLeft, UpperPart, LowerPart;
    KnownForm(at[r], true);
    KnownForm(at[r], false);
    assert at[a].Spans(x) && at[b].Spans(y);
    var negated := op.Ne?;
    if Known(at[r], !negated) {
      assert at[b].Spans(x) && Gives(op, at[r], x, x);
      assert at[a].Spans(y) && Gives(op, at[r], y, y);
    } else if Known(at[r], negated) {
      if x != y {
        assert Gives(op, at[r], x, y);
      } else {
        assert GreaterLeft(at, a, b, true, x, y) || GreaterLeft(at, b, a, true, y, x) by {
          DifferentOfEqual(at, a, b, x);
        }
        if GreaterLeft(at, a, b, true, x, y) {
          LeftPairExplained(at, a, b, true, x, y);
          var z :| at[b].Spans(z) && Above(true, x, z);
          var z' :| at[a].Spans(z') && Above(true, z', y);
          assert Gives(op, at[r], x, z) && Gives(op, at[r], z', y);
        } else {
          LeftPairExplained(at, b, a, true, y, x);
          var z :| at[a].Spans(z) && Above(true, y, z);
          var z' :| at[b].Spans(z') && Above(true, z', x);
          assert Gives(op, at[r], x, z') && Gives(op, at[r], z, y);
        }
      }
    } else {
      assert Gives(op, at[r], x, y);
    }
  }

  /** Equal values are left of operands assumed to differ only by an order. */
  lemma DifferentOfEqual(at: seq<Interval>, a: nat, b: nat, x: int)
    requires Twin(at, a, b) && DifferentLeft(at, a, b, x, x)
    ensures GreaterLeft(at, a, b, true, x, x) || GreaterLeft(at, b, a, true, x, x)
  {
    hide GreaterLeft;
  }

  lemma ComparisonOnly(op: Op, w: World, r: nat, a: nat, b: nat)
    requires r < |w.at| && a < |w.at| && b < |w.at| && r != a && r != b && a != b && Compares(op)
    requires Proper(w.at[a]) && Proper(w.at[b]) && Back(op, w, r, a, b).Alive?
    ensures ShrinksOnly(w.at, Back(op, w, r, a, b).value.at, a, b)
  {
    hide BackGreater, BackEqual, BackDifferent;
    KnownForm(w.at[r], true);
    KnownForm(w.at[r], false);
    match op
    case Eq => EqualityOnly(w, r, a, b, false);
    case Ne => EqualityOnly(w, r, a, b, true);
    case Slt => OrderOnly(w, r, b, a, false);
    case Sgt => OrderOnly(w, r, a, b, false);
    case Sle => OrderOnly(w, r, a, b, true);
    case Sge => OrderOnly(w, r, b, a, true);
  }

  lemma EqualityOnly(w: World, r: nat, a: nat, b: nat, negated: bool)
    requires r < |w.at| && a < |w.at| && b < |w.at| && r != a && r != b && a != b
    requires Proper(w.at[a]) && Proper(w.at[b]) && BackEquality(w, r, a, b, negated).Alive?
    ensures ShrinksOnly(w.at, BackEquality(w, r, a, b, negated).value.at, a, b)
  {
    hide BackEqual, BackDifferent;
    KnownForm(w.at[r], true);
    KnownForm(w.at[r], false);
    if Known(w.at[r], !negated) {
      EqualShrinks(w, a, b);
    } else if Known(w.at[r], negated) {
      DifferentNarrows(w, a, b);
    }
  }

  lemma OrderOnly(w: World, r: nat, a: nat, b: nat, negated: bool)
    requires r < |w.at| && a < |w.at| && b < |w.at| && r != a && r != b && a != b
    requires Proper(w.at[a]) && Proper(w.at[b]) && BackOrder(w, r, a, b, negated).Alive?
    ensures ShrinksOnly(w.at, BackOrder(w, r, a, b, negated).value.at, a, b)
  {
    hide BackGreater;
    KnownForm(w.at[r], true);
    KnownForm(w.at[r], false);
    if Known(w.at[r], !negated) {
      GreaterNarrows(w, a, b, true);
    } else if Known(w.at[r], negated) {
      GreaterNarrows(w, b, a, false);
    }
  }

  lemma PairFits(op: Op, w: World, r: nat, a: nat, b: nat, x: int, y: int)
    requires Compared(w.at, r, a, b) && Compares(op)
    requires var o := Back(op, w, r, a, b); o.Alive? && Holds(o.value.at, a, b, x, y)
    ensures Fits(op, w.at, r, a, b, x, y)
  {
    hide OrderFits, EqualityFits, BackOrder, BackEquality;
    match op
    case Eq => EqualitySound(w, r, a, b, false, x, y);
    case Ne => EqualitySound(w, r, a, b, true, x, y);
    case Slt => OrderSound(w, r, b, a, false, y, x);
    case Sgt => OrderSound(w, r, a, b, false, x, y);
    case Sle => OrderSound(w, r, a, b, true, x, y);
    case Sge => OrderSound(w, r, b, a, true, y, x);
  }

  lemma PairExplained(op: Op, w: World, r: nat, a: nat, b: nat, x: int, y: int)
    requires Compared(w.at, r, a, b) && Compares(op) && Proper(w.at[a]) && Proper(w.at[b])
    requires Back(op, w, r, a, b).Alive? && Holds(Back(op, w, r, a, b).value.at, a, b, x, y) && Holds(w.at, a, b, x, y)
    ensures LeftExplained(op, w.at[r], w.at[b], x) && RightExplained(op, w.at[r], w.at[a], y)
  {
    hide Back, Fits, LeftExplained, RightExplained;
    PairFits(op, w, r, a, b, x, y);
    if op.Eq? || op.Ne? {
      EqualityFitsExplains(op, w.at, r, a, b, x, y);
    } else {
      OrderFitsExplains(op, w.at, r, a, b, x, y);
    }
  }

  lemma ComparisonExplains(op: Op, w: World, r: nat, a: nat, b: nat)
    requires r < |w.at| && a < |w.at| && b < |w.at| && r != a && r != b && a != b && Compares(op)
    requires Proper(w.at[a]) && Proper(w.at[b]) && Back(op, w, r, a, b).Alive?
    requires HasSome(Back(op, w, r, a, b).value.at[a]) && HasSome(Back(op, w, r, a, b).value.at[b])
    ensures var at' := Back(op, w, r, a, b).value.at;
            && Explained(op, w.at[r], at'[a], at'[b], w.at[a], w.at[b])
            && forall j :: 0 <= j < |w.at| && j != a && j != b ==> at'[j] == w.at[j]
  {
    var at' := Back(op, w, r, a, b).value.at;
    ComparisonOnly(op, w, r, a, b);
    assert at'[a].Within(w.at[a]) && at'[b].Within(w.at[b]);
    var x0 := SomeValue(at'[a]);
    var y0 := SomeValue(at'[b]);
    hide Back, HasSome, LeftExplained, RightExplained;
    forall x | at'[a].Has(x)
      ensures LeftExplained(op, w.at[r], w.at[b], x)
    {
      PairExplained(op, w, r, a, b, x, y0);
    }
    forall y | at'[b].Has(y)
      ensures RightExplained(op, w.at[r], w.at[a], y)
    {
      PairExplained(op, w, r, a, b, x0, y);
    }
  }

  /** Whatever the operation of a node, what it leaves of its operands is explained, and no other node changes. */
  lemma BackExplains(op: Op, w: World, r: nat, a: nat, b: nat)
    requires r < |w.at| && a < |w.at| && b < |w.at| && r != a && r != b && (Compares(op) ==> a != b)
    requires Proper(w.at[r]) && Proper(w.at[a]) && Proper(w.at[b]) && Back(op, w, r, a, b).Alive?
    requires HasSome(Back(op, w, r, a, b).value.at[a]) && HasSome(Back(op, w, r, a, b).value.at[b])
    ensures var at' := Back(op, w, r, a, b).value.at;
            && Explained(op, w.at[r], at'[a], at'[b], w.at[a], w.at[b])
            && forall j :: 0 <= j < |w.at| && j != a && j != b ==> at'[j] == w.at[j]
  {
    hide BackAdd, BackSub, BackMul, BackEquality, BackOrder, HasSome, Around, LeftExplained, RightExplained;
    match op
    case Add =>
      assert Back(OpOf(Sum), w, r, a, b) == Back(op, w, r, a, b);
      SumExplains(Sum, w, r, a, b);
    case Sub =>
      assert Back(OpOf(Difference), w, r, a, b) == Back(op, w, r, a, b);
      SumExplains(Difference, w, r, a, b);
    case Mul => ProductNarrows(w, r, a, b);
    case _ => ComparisonExplains(op, w, r, a, b);
  }

  // ----- a whole propagation

  /** Node `j` is `n` or below it. */
  predicate Reaches(g: seq<Shape>, n: nat, j: nat)
    requires WellFormed(g) && n < |g|
    decreases n
  {
    j == n || (g[n].Binary? && (Reaches(g, g[n].left, j) || Reaches(g, g[n].right, j)))
  }

  lemma {:induction false} ReachesOlder(g: seq<Shape>, n: nat, j: nat)
    requires WellFormed(g) && n < |g| && Reaches(g, n, j)
    ensures j <= n
    decreases n
  {
    if j != n {
      if Reaches(g, g[n].left, j) {
        ReachesOlder(g, g[n].left, j);
      } else {
        ReachesOlder(g, g[n].right, j);
      }
    }
  }

  /** What `at` has left in the operands of node `j` is explained by what `at0` had there. */
  ghost predicate NodeExplained(g: seq<Shape>, at0: seq<Interval>, at: seq<Interval>, j: nat)
    requires WellFormed(g) && |at0| == |at| == |g| && j < |g|
  {
    match g[j]
    case Leaf => true
    case Binary(op, left, right) => Explained(op, at[j], at[left], at[right], at0[left], at0[right])
  }

  lemma NodeStillExplained(g: seq<Shape>, at0: seq<Interval>, at: seq<Interval>, at': seq<Interval>, j: nat)
    requires WellFormed(g) && |at0| == |at| == |g| && j < |g|
    requires NodeExplained(g, at0, at, j) && Shrinks(at, at') && at'[j] == at[j]
    ensures NodeExplained(g, at0, at', j)
  {
    hide Explained;
    match g[j]
    case Leaf =>
    case Binary(op, left, right) =>
      assert at'[left].Within(at[left]) && at'[right].Within(at[right]);
      StillExplained(op, at[j], at[left], at[right], at0[left], at0[right],
                     at'[left], at'[right], at0[left], at0[right]);
  }

  ghost predicate AllHaveSome(at: seq<Interval>) {
    forall k :: 0 <= k < |at| ==> HasSome(at[k])
  }

  lemma AllHadSome(at: seq<Interval>, at': seq<Interval>)
    requires Shrinks(at, at') && AllHaveSome(at')
    ensures AllHaveSome(at) && forall k :: 0 <= k < |at| ==> Proper(at[k])
  {
    forall k | 0 <= k < |at|
      ensures HasSome(at[k]) && Proper(at[k])
    {
      assert at'[k].Within(at[k]) && HasSome(at'[k]);
    }
  }

  /** The node's own narrowing, seen from the intervals that there were at first. */
  lemma OwnExplained(g: seq<Shape>, at0: seq<Interval>, w: World, n: nat)
    requires WellFormed(g) && |at0| == |w.at| == |g| && n < |g| && g[n].Binary? && Shrinks(at0, w.at)
    requires Back(g[n].op, w, n, g[n].left, g[n].right).Alive?
    requires AllHaveSome(w.at) && AllHaveSome(Back(g[n].op, w, n, g[n].left, g[n].right).value.at)
    requires (forall k :: 0 <= k < |g| ==> Proper(w.at[k])) && (Compares(g[n].op) ==> g[n].left != g[n].right)
    ensures var at' := Back(g[n].op, w, n, g[n].left, g[n].right).value.at;
            && NodeExplained(g, at0, at', n)
            && forall j :: 0 <= j < |g| && j != g[n].left && j != g[n].right ==> at'[j] == w.at[j]
  {
    hide Back, Explained, HasSome;
    var op, left, right := g[n].op, g[n].left, g[n].right;
    var at' := Back(op, w, n, left, right).value.at;
    BackExplains(op, w, n, left, right);
    assert w.at[left].Within(at0[left]) && w.at[right].Within(at0[right]);
    StillExplained(op, at'[n], at'[left], at'[right], w.at[left], w.at[right],
                   at'[left], at'[right], at0[left], at0[right]);
  }

  /** After a propagation from `n`, every node that is reached, over shared histories as well, has its operands
      explained; nodes that are not reached, and `n` itself, are as they were. */
  lemma {:induction false} PropagateExplains(g: seq<Shape>, at0: seq<Interval>, w: World, n: nat)
    requires WellFormed(g) && |at0| == |w.at| == |g| && n < |g| && Shrinks(at0, w.at)
    requires Propagate(g, w, n).Alive? && Unwrapped(g, w, n) && AllHaveSome(Propagate(g, w, n).value.at)
    ensures var at' := Propagate(g, w, n).value.at;
            && Shrinks(w.at, at')
            && (forall j: nat :: j < |g| && Reaches(g, n, j) ==> NodeExplained(g, at0, at', j))
            && (forall j: nat :: j < |g| && (j >= n || !Reaches(g, n, j)) ==> at'[j] == w.at[j])
    decreases n
  {
    hide Back, Wrapping, NodeExplained;
    PropagateShrinks(g, w, n);
    match g[n]
    case Leaf =>
      assert NodeExplained(g, at0, w.at, n) by { LeafExplained(g, at0, w.at, n); }
    case Binary(op, left, right) =>
      var w1 := Back(op, w, n, left, right).value;
      var w2 := Propagate(g, w1, left).value;
      var w3 := Propagate(g, w2, right).value;
      StagesShrink(g, w, n, w1, w2, w3);
      AllHadSome(w2.at, w3.at);
      AllHadSome(w1.at, w2.at);
      AllHadSome(w.at, w1.at);
      OwnExplained(g, at0, w, n);
      ShrinksOn(at0, w.at, w1.at);
      PropagateExplains(g, at0, w1, left);
      ShrinksOn(at0, w1.at, w2.at);
      PropagateExplains(g, at0, w2, right);
      forall j: nat | j < |g| && Reaches(g, n, j)
        ensures NodeExplained(g, at0, w3.at, j)
      {
        if !Reaches(g, right, j) {
          if j == n {
            NodeStillExplained(g, at0, w1.at, w2.at, n);
          }
          NodeStillExplained(g, at0, w2.at, w3.at, j);
        }
      }
  }

  lemma LeafExplained(g: seq<Shape>, at0: seq<Interval>, at: seq<Interval>, j: nat)
    requires WellFormed(g) && |at0| == |at| == |g| && j < |g| && g[j].Leaf?
    ensures NodeExplained(g, at0, at, j)
  {
  }

  lemma StagesShrink(g: seq<Shape>, w: World, n: nat, w1: World, w2: World, w3: World)
    requires WellFormed(g) && |w.at| == |w1.at| == |w2.at| == |g| && n < |g| && g[n].Binary? && Unwrapped(g, w, n)
    requires Back(g[n].op, w, n, g[n].left, g[n].right) == Alive(w1)
    requires Propagate(g, w1, g[n].left) == Alive(w2) && Propagate(g, w2, g[n].right) == Alive(w3)
    ensures Shrinks(w.at, w1.at) && Shrinks(w1.at, w2.at) && Shrinks(w2.at, w3.at)
    ensures Compares(g[n].op) ==> g[n].left != g[n].right
    ensures Unwrapped(g, w1, g[n].left) && Unwrapped(g, w2, g[n].right)
  {
    hide Back, Wrapping, Propagate;
    BackShrinks(g[n].op, w, n, g[n].left, g[n].right);
    if Arithmetic(g[n].op) {
      NeverWrapping(g[n].op, w.at, n, g[n].left, g[n].right);
    }
    PropagateShrinks(g, w1, g[n].left);
    PropagateShrinks(g, w2, g[n].right);
  }

  /** After an assumption, in every branch in which all nodes still have values: the assumed node has the assumed
      value, and all that is left in the operands of any node that it reaches, on either side and over shared
      histories, is explained. */
  lemma AssumeExplains(g: seq<Shape>, w: World, n: nat, expected: bool)
    requires WellFormed(g) && |w.at| == |g| && n < |g| && Assume(g, w, n, expected).Alive?
    requires Unwrapped(g, w.(at := w.at[n := Meet(w.at[n], Constant(BoolValue(expected)))]), n)
    requires AllHaveSome(Assume(g, w, n, expected).value.at)
    ensures var at' := Assume(g, w, n, expected).value.at;
            && at'[n] == Constant(BoolValue(expected))
            && (forall j: nat :: j < |g| && Reaches(g, n, j) ==> NodeExplained(g, w.at, at', j))
            && (forall j: nat :: j < |g| && !Reaches(g, n, j) ==> at'[j] == w.at[j])
  {
    hide Propagate, Unwrapped, NodeExplained, AllHaveSome;
    var i := Constant(BoolValue(expected));
    IntersectShrinks(w.at, n, i);
    PropagateExplains(g, w.at, w.(at := Intersect(w.at, n, i).value), n);
  }

  /** The same for the step of a program that makes the assumption. */
  lemma StepExplains(s: Session, n: nat, expected: bool)
    requires s.Valid() && n < |s.g| && Step(s, AssumeThat(n, expected)).Alive?
    requires Unwrapped(s.g, s.w.(at := s.w.at[n := Meet(s.w.at[n], Constant(BoolValue(expected)))]), n)
    requires AllHaveSome(Step(s, AssumeThat(n, expected)).value.w.at)
    ensures var s' := Step(s, AssumeThat(n, expected)).value;
            && s'.g == s.g && s'.w.at[n] == Constant(BoolValue(expected))
            && forall j: nat :: j < |s.g| && Reaches(s.g, n, j) ==> NodeExplained(s.g, s.w.at, s'.w.at, j)
  {
    hide Assume, Unwrapped, NodeExplained, AllHaveSome;
    AssumeExplains(s.g, s.w, n, expected);
  }
}
