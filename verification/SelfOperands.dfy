/**
 Operations of a node with itself.  A correction then meets the same interval twice: both parts of a staircase fall on
 one operand, so that solutions are lost, and exactly which is told here, for all bounds.
 */
module SelfOperands {
  import opened Outcomes
  import opened Bounds
  import opened Intervals
  import opened Backward
  import opened Splits
  import opened History
  import opened Keeping
  import opened Precision
  import Narrowing

  // ----- sums

  lemma LowStair(at: seq<Interval>, a: nat, d: Int64, i: Int32) returns (low: Int64)
    requires a < |at| && Finite(at[a].low) && Correctable(d) && 0 <= i <= d
    ensures Stair(SumLow, at, a, a, d, i) == Alive(at[a := Interval(low, at[a].high)])
    ensures Clamp(at[a].low + d) <= low && (i == 0 ==> low == Clamp(at[a].low + d))
  {
    var u := at[a];
    Raised(u.low, d, i);
    var v := Interval(Clamp(u.low + i), u.high);
    assert MeetLow(at, a, v.low) == at[a := v];
    if Finite(v.low) {
      Raised(v.low, d, i);
    }
    low := if Infinite(v.low) || v.low + d >= MAX then MAX else Clamp(v.low + d - i);
    assert at[a := v][a := Interval(low, u.high)] == at[a := Interval(low, u.high)];
  }

  lemma HighStair(at: seq<Interval>, a: nat, d: Int64, i: Int32) returns (high: Int64)
    requires a < |at| && Finite(at[a].high) && Correctable(d) && 0 <= i <= d
    ensures Stair(SumHigh, at, a, a, d, i) == Alive(at[a := Interval(at[a].low, high)])
    ensures high <= Clamp(at[a].high - d) && (i == 0 ==> high == Clamp(at[a].high - d))
  {
    var u := at[a];
    Lowered(u.high, d, i);
    var v := Interval(u.low, Clamp(u.high - i));
    assert MeetHigh(at, a, v.high) == at[a := v];
    if Finite(v.high) {
      Lowered(v.high, d, i);
    }
    high := if Infinite(v.high) || v.high - d <= MIN then MIN else Clamp(v.high - d + i);
    assert at[a := v][a := Interval(u.low, high)] == at[a := Interval(u.low, high)];
  }

  lemma LowSelf(w: World, a: nat, d: Int64) returns (low: Int64)
    requires a < |w.at| && (Correctable(d) ==> Finite(w.at[a].low))
    ensures Correct(SumLow, w, a, a, d).Alive?
    ensures Correct(SumLow, w, a, a, d).value.at == w.at[a := Interval(low, w.at[a].high)]
    ensures if Correctable(d) then Clamp(w.at[a].low + d) <= low else low == w.at[a].low
    ensures w.answers == [] ==> Correct(SumLow, w, a, a, d).value.answers == []
    ensures w.answers == [] && Correctable(d) ==> low == Clamp(w.at[a].low + d)
  {
    low := w.at[a].low;
    if Correctable(d) {
      CorrectStep(SumLow, w, a, a, d);
      low := LowStair(w.at, a, d, Pick(w.answers, d + 1));
    }
  }

  lemma HighSelf(w: World, a: nat, d: Int64) returns (high: Int64)
    requires a < |w.at| && (Correctable(d) ==> Finite(w.at[a].high))
    ensures Correct(SumHigh, w, a, a, d).Alive?
    ensures Correct(SumHigh, w, a, a, d).value.at == w.at[a := Interval(w.at[a].low, high)]
    ensures if Correctable(d) then high <= Clamp(w.at[a].high - d) else high == w.at[a].high
    ensures w.answers == [] && Correctable(d) ==> high == Clamp(w.at[a].high - d)
  {
    high := w.at[a].high;
    if Correctable(d) {
      CorrectStep(SumHigh, w, a, a, d);
      high := HighStair(w.at, a, d, Pick(w.answers, d + 1));
    }
  }

  /** What a value added to itself must meet: it makes up for the whole of each gap alone. */
  predicate AloneEnough(r: Interval, u: Interval, x: int) {
    Gaps(Sum, r, u, u).Alive? &&
    var (low, high) := Gaps(Sum, r, u, u).value;
    && (Correctable(low) ==> x >= u.low + low)
    && (Correctable(high) ==> x <= u.high - high)
  }

  /** Splitting `x + x`: no branch keeps more than what each correction takes alone, and one keeps all of that. */
  lemma SumBranch(w: World, r: nat, a: nat, x: int)
    requires r < |w.at| && a < |w.at|
    ensures var o := Sum.Split(w, r, a, a);
            && (o.Alive? && Holds(o.value.at, a, a, x, x) ==> w.at[a].Has(x) && AloneEnough(w.at[r], w.at[a], x))
            && (w.answers == [] && w.at[a].Has(x) && AloneEnough(w.at[r], w.at[a], x) ==>
                  o.Alive? && Holds(o.value.at, a, a, x, x))
  {
    SplitForm(Sum, w, r, a, a);
    var u, res := w.at[a], w.at[r];
    if Gaps(Sum, res, u, u).Alive? {
      GapsStart(Sum, res, u, u);
      var (low, high) := Gaps(Sum, res, u, u).value;
      hide Gaps, Correct;
      var l := LowSelf(w, a, low);
      var w1 := Correct(SumLow, w, a, a, low).value;
      var h := HighSelf(w1, a, high);
    }
  }

  /** A value of a node added to itself survives `badd_` exactly if it makes up for the whole of each gap alone,
      though its double only needs half of it. */
  lemma SumExact(at: seq<Interval>, r: nat, a: nat, x: int)
    requires r < |at| && a < |at|
    ensures SplitSurvives(Sum, at, r, a, a, x, x) <==> at[a].Has(x) && AloneEnough(at[r], at[a], x)
  {
    hide AloneEnough;
    if SplitSurvives(Sum, at, r, a, a, x, x) {
      var answers: seq<nat> :| var o := Sum.Split(World(at, answers), r, a, a);
                               o.Alive? && Holds(o.value.at, a, a, x, x);
      SumBranch(World(at, answers), r, a, x);
    }
    var none: seq<nat> := [];
    SumBranch(World(at, none), r, a, x);
    var o := Sum.Split(World(at, none), r, a, a);
    assert o.Alive? && Holds(o.value.at, a, a, x, x) ==> SplitSurvives(Sum, at, r, a, a, x, x);
  }

  /** The whole of an operation on a node and itself is the split of what its intersections leave. */
  lemma WholeSurvives(k: Kind, at: seq<Interval>, r: nat, a: nat, x: int)
    requires r < |at| && a < |at|
    ensures Survives(OpOf(k), at, r, a, a, x, x) <==>
              Narrow(k, at, r, a, a).Alive? && SplitSurvives(k, Narrow(k, at, r, a, a).value, r, a, a, x, x)
  {
    hide Back, Narrow, SplitSum, SplitDifference;
    forall answers: seq<nat>
      ensures Back(OpOf(k), World(at, answers), r, a, a) ==
                match Narrow(k, at, r, a, a)
                case Cancelled => Cancelled
                case Alive(at1) => k.Split(World(at1, answers), r, a, a)
    {
      NarrowThenSplit(k, World(at, answers), r, a, a);
    }
    if Survives(OpOf(k), at, r, a, a, x, x) {
      var answers: seq<nat> :| var o := Back(OpOf(k), World(at, answers), r, a, a);
                               o.Alive? && Holds(o.value.at, a, a, x, x);
      assert k.Split(World(Narrow(k, at, r, a, a).value, answers), r, a, a).Alive?;
    }
    if Narrow(k, at, r, a, a).Alive? && SplitSurvives(k, Narrow(k, at, r, a, a).value, r, a, a, x, x) {
      var answers: seq<nat> :| var o := k.Split(World(Narrow(k, at, r, a, a).value, answers), r, a, a);
                               o.Alive? && Holds(o.value.at, a, a, x, x);
      assert Back(OpOf(k), World(at, answers), r, a, a).Alive?;
    }
  }

  /** The same for the whole of `bop_add`, with the gaps that the intersections leave. */
  lemma AddExact(at: seq<Interval>, r: nat, a: nat, x: int)
    requires r < |at| && a < |at|
    ensures Survives(Add, at, r, a, a, x, x) <==>
              var o := Narrow(Sum, at, r, a, a);
              o.Alive? && o.value[a].Has(x) && AloneEnough(o.value[r], o.value[a], x)
  {
    hide Narrow, AloneEnough;
    WholeSurvives(Sum, at, r, a, x);
    if Narrow(Sum, at, r, a, a).Alive? {
      SumExact(Narrow(Sum, at, r, a, a).value, r, a, x);
    }
  }

  // ----- differences

  lemma LowSlide(at: seq<Interval>, a: nat, d: Int64, i: Int32)
    requires a < |at| && at[a].IsFinite() && Correctable(d) && 0 <= i <= d
    ensures var u := at[a];
            var high := if u.high - d <= MIN then MIN else Clamp(u.high - d + i);
            Stair(DifferenceLow, at, a, a, d, i) == Alive(at[a := Interval(Clamp(u.low + i), high)])
  {
    var u := at[a];
    Raised(u.low, d, i);
    Lowered(u.high, d, i);
    var v, w := Interval(Clamp(u.low + i), u.high), if u.high - d <= MIN then MIN else Clamp(u.high - d + i);
    assert MeetLow(at, a, v.low) == at[a := v];
    assert at[a := v][a := Interval(v.low, w)] == at[a := Interval(v.low, w)];
  }

  lemma HighSlide(at: seq<Interval>, a: nat, d: Int64, j: Int32)
    requires a < |at| && at[a].IsFinite() && Correctable(d) && 0 <= j <= d
    ensures var u := at[a];
            var low := if u.low + d >= MAX then MAX else Clamp(u.low + d - j);
            Stair(DifferenceHigh, at, a, a, d, j) == Alive(at[a := Interval(low, Clamp(u.high - j))])
  {
    var u := at[a];
    Raised(u.low, d, j);
    Lowered(u.high, d, j);
    var v, w := Interval(u.low, Clamp(u.high - j)), if u.low + d >= MAX then MAX else Clamp(u.low + d - j);
    assert MeetHigh(at, a, v.high) == at[a := v];
    assert at[a := v][a := Interval(w, v.high)] == at[a := Interval(w, v.high)];
  }

  /** What a gap takes from the width of the node: nothing if it is not corrected. */
  function Taken(d: Int64): int {
    if Correctable(d) then d else 0
  }

  /** The window that the lower correction leaves has been moved up by the answer. */
  lemma LowWindow(w: World, a: nat, d: Int64) returns (i: int)
    requires a < |w.at| && (Correctable(d) ==> w.at[a].IsFinite())
    ensures Correct(DifferenceLow, w, a, a, d).Alive? && 0 <= i <= Taken(d)
    ensures i == if Correctable(d) then Pick(w.answers, d + 1) else 0
    ensures var o := Correct(DifferenceLow, w, a, a, d).value;
            && |o.at| == |w.at| && o.answers == (if Correctable(d) then Rest(w.answers) else w.answers)
            && o.at[a].low == Clamp(w.at[a].low + i)
            && o.at[a].high == (if w.at[a].high - Taken(d) <= MIN then MIN else Clamp(w.at[a].high - Taken(d) + i))
  {
    i := 0;
    if Correctable(d) {
      CorrectStep(DifferenceLow, w, a, a, d);
      i := Pick(w.answers, d + 1);
      LowSlide(w.at, a, d, i);
    }
  }

  /** And the upper one moves it down again. */
  lemma HighWindow(w: World, a: nat, d: Int64) returns (j: int)
    requires a < |w.at| && (Correctable(d) ==> w.at[a].IsFinite())
    ensures Correct(DifferenceHigh, w, a, a, d).Alive? && 0 <= j <= Taken(d)
    ensures j == if Correctable(d) then Pick(w.answers, d + 1) else 0
    ensures var o := Correct(DifferenceHigh, w, a, a, d).value;
            && |o.at| == |w.at|
            && o.at[a].low == (if w.at[a].low + Taken(d) >= MAX then MAX else Clamp(w.at[a].low + Taken(d) - j))
            && o.at[a].high == Clamp(w.at[a].high - j)
  {
    j := 0;
    if Correctable(d) {
      CorrectStep(DifferenceHigh, w, a, a, d);
      j := Pick(w.answers, d + 1);
      HighSlide(w.at, a, d, j);
    }
  }

  /** The node is at least as wide as both corrections together. */
  predicate WideEnough(r: Interval, u: Interval) {
    Gaps(Difference, r, u, u).Alive? &&
    var (low, high) := Gaps(Difference, r, u, u).value;
    Taken(low) + Taken(high) <= u.high - u.low
  }

  /** A correction of a difference of a node with itself is made only between finite bounds. */
  lemma SelfGapsFinite(r: Interval, u: Interval)
    requires Gaps(Difference, r, u, u).Alive?
    ensures var (low, high) := Gaps(Difference, r, u, u).value; Correctable(low) || Correctable(high) ==> u.IsFinite()
  {
    GapsStart(Difference, r, u, u);
    hide Gaps;
  }

  lemma DifferenceSound(w: World, r: nat, a: nat, x: int)
    requires r < |w.at| && a < |w.at|
    requires var o := Difference.Split(w, r, a, a); o.Alive? && Holds(o.value.at, a, a, x, x)
    ensures w.at[a].Has(x) && WideEnough(w.at[r], w.at[a])
  {
    SplitForm(Difference, w, r, a, a);
    SelfGapsFinite(w.at[r], w.at[a]);
    var (low, high) := Gaps(Difference, w.at[r], w.at[a], w.at[a]).value;
    hide Correct, Gaps;
    var i := LowWindow(w, a, low);
    var w1 := Correct(DifferenceLow, w, a, a, low).value;
    if w1.at[a].IsFinite() || !Correctable(high) {
      var j := HighWindow(w1, a, high);
    } else {
      Narrowing.CorrectShrinks(DifferenceHigh, w1, a, a, high);
      StillIn(w1.at, Correct(DifferenceHigh, w1, a, a, high).value.at, a, x);
    }
  }

  lemma StillIn(at: seq<Interval>, at': seq<Interval>, a: nat, x: int)
    requires Shrinks(at, at') && a < |at|
    ensures at'[a].Has(x) ==> at[a].Has(x)
  {
    assert at'[a].Within(at[a]);
  }

  lemma DifferenceKept(at: seq<Interval>, r: nat, a: nat, x: int) returns (answers: seq<nat>)
    requires r < |at| && a < |at| && at[a].Has(x) && WideEnough(at[r], at[a])
    ensures var o := Difference.Split(World(at, answers), r, a, a); o.Alive? && Holds(o.value.at, a, a, x, x)
  {
    var u := at[a];
    SelfGapsFinite(at[r], u);
    var (low, high) := Gaps(Difference, at[r], u, u).value;
    var dl, dh := Taken(low), Taken(high);
    var t := if x - u.high + dl > -dh then x - u.high + dl else -dh;
    var i: nat := if Correctable(low) && t > 0 then t else 0;
    var j: nat := if Correctable(high) && t <= i then i - t else 0;
    answers := (if Correctable(low) then [i] else []) + if Correctable(high) then [j] else [];
    var w := World(at, answers);
    SplitForm(Difference, w, r, a, a);
    hide Correct, Gaps;
    PickBoth(answers, low, high, i, j);
    var i' := LowWindow(w, a, low);
    var w1 := Correct(DifferenceLow, w, a, a, low).value;
    var j' := HighWindow(w1, a, high);
  }

  lemma PickBoth(answers: seq<nat>, low: Int64, high: Int64, i: nat, j: nat)
    requires i <= Taken(low) && j <= Taken(high)
    requires answers == (if Correctable(low) then [i] else []) + if Correctable(high) then [j] else []
    ensures Correctable(low) ==> Pick(answers, low + 1) == i
    ensures Correctable(high) ==> Pick(if Correctable(low) then Rest(answers) else answers, high + 1) == j
  {
    if Correctable(low) {
      PickFirst(i, if Correctable(high) then [j] else [], low + 1);
    }
    if Correctable(high) {
      PickFirst(j, [], high + 1);
      assert [j] + [] == [j];
      assert !Correctable(low) ==> answers == [j];
    }
  }

  /** `bsub_` on a node and itself is all or nothing: every value survives some choice if the node is at least as
      wide as both corrections together, and otherwise none does. */
  lemma DifferenceExact(at: seq<Interval>, r: nat, a: nat, x: int)
    requires r < |at| && a < |at|
    ensures SplitSurvives(Difference, at, r, a, a, x, x) <==> at[a].Has(x) && WideEnough(at[r], at[a])
  {
    hide WideEnough;
    if SplitSurvives(Difference, at, r, a, a, x, x) {
      var answers: seq<nat> :| var o := Difference.Split(World(at, answers), r, a, a);
                               o.Alive? && Holds(o.value.at, a, a, x, x);
      DifferenceSound(World(at, answers), r, a, x);
    }
    if at[a].Has(x) && WideEnough(at[r], at[a]) {
      var answers := DifferenceKept(at, r, a, x);
      assert Difference.Split(World(at, answers), r, a, a).Alive?;
    }
  }

  /** The same for the whole of `bop_sub`, on what its intersections leave. */
  lemma SubExact(at: seq<Interval>, r: nat, a: nat, x: int)
    requires r < |at| && a < |at|
    ensures Survives(Sub, at, r, a, a, x, x) <==>
              var o := Narrow(Difference, at, r, a, a);
              o.Alive? && o.value[a].Has(x) && WideEnough(o.value[r], o.value[a])
  {
    hide Narrow, WideEnough;
    WholeSurvives(Difference, at, r, a, x);
    if Narrow(Difference, at, r, a, a).Alive? {
      DifferenceExact(Narrow(Difference, at, r, a, a).value, r, a, x);
    }
  }
}
