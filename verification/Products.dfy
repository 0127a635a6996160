/** What the hyperbola split of a product keeps and what it rules out, for positive operands. */
module Products {
  import opened Outcomes
  import opened Bounds
  import opened Intervals
  import opened Backward
  import opened Splits

  /** Nonempty, with positive finite bounds. */
  predicate Positive(i: Interval) {
    0 < i.low <= i.high < MAX
  }

  predicate PositiveTriple(at: seq<Interval>, r: nat, a: nat, b: nat) {
    && r < |at| && a < |at| && b < |at| && r != a && r != b && a != b
    && Positive(at[r]) && Positive(at[a]) && Positive(at[b])
  }

  // ----- rounding

  function Ceil(a: int, b: int): int
    requires b > 0
  {
    if a % b == 0 then a / b else a / b + 1
  }

  lemma CeilBracket(a: int, b: int)
    requires a > 0 && b > 0
    ensures (Ceil(a, b) - 1) * b < a <= Ceil(a, b) * b
  {
    var q, m := a / b, a % b;
    assert a == q * b + m && 0 <= m < b;
    assert (q + 1) * b == q * b + b && (q - 1) * b == q * b - b;
  }

  /** `Ceil` is the least factor that reaches, `/` the greatest that stays within. */
  lemma {:induction false} CeilLeast(a: int, b: int, c: int)
    requires a > 0 && b > 0
    ensures c * b >= a <==> c >= Ceil(a, b)
  {
    CeilBracket(a, b);
    if c >= Ceil(a, b) {
      MulMono(Ceil(a, b), c, b);
    } else {
      MulMono(c, Ceil(a, b) - 1, b);
    }
  }

  lemma CeilRange(a: int, b: int)
    requires a > 0 && b > 0
    ensures 1 <= Ceil(a, b) <= a
  {
    CeilLeast(a, b, 0);
    CeilLeast(a, b, a);
    MulMono(1, b, a);
  }

  lemma {:induction false} FloorGreatest(a: int, b: int, c: int)
    requires a >= 0 && b > 0
    ensures c * b <= a <==> c <= a / b
    ensures 0 <= a / b <= a
  {
    var q := a / b;
    assert q * b <= a < (q + 1) * b;
    if c <= q {
      MulMono(c, q, b);
    } else {
      MulMono(q + 1, c, b);
    }
    QuotientAnti(a, 1, b);
  }

  lemma DivUpForm(a: Int64, b: Int64)
    requires 0 < a < MAX && 0 < b < MAX
    ensures DivUp(a, b) == Alive(Ceil(a, b))
  {
    CeilRange(a, b);
    assert TruncRem(a, b) == a % b;
  }

  lemma DivForm(a: Int64, b: Int64)
    requires 0 < a < MAX && 0 < b < MAX
    ensures Div(a, b) == Alive(a / b)
  {
  }

  // ----- the two halves of the split, in integers

  lemma {:induction false} ProductMono(a: int, b: int, x: int, y: int)
    requires 0 <= a <= x && 0 <= b <= y
    ensures a * b <= x * y
  {
    MulMono(a, x, b);
    MulMono(b, y, x);
  }

  /** Starting `a` at `t`, and `b` where the product with `t` reaches `rLow`. */
  function From(u: Interval, v: Interval, rLow: Int64, t: Int64): (Interval, Interval)
    requires 0 < rLow < MAX && 0 < t
  {
    CeilRange(rLow, t);
    (Interval(Max(u.low, t), u.high), Interval(Max(v.low, Ceil(rLow, t)), v.high))
  }

  function UpTo(u: Interval, v: Interval, rHigh: Int64, t: Int64): (Interval, Interval)
    requires 0 < rHigh < MAX && 0 < t
  {
    FloorGreatest(rHigh, t, 0);
    (Interval(u.low, Min(u.high, t)), Interval(v.low, Min(v.high, rHigh / t)))
  }

  lemma ProductFromForm(at: seq<Interval>, r: nat, a: nat, b: nat, t: Int64)
    requires Trio(at, r, a, b) && 0 < at[r].low < MAX && 0 < t < MAX
    ensures var (u, v) := From(at[a], at[b], at[r].low, t);
            ProductFrom(at, r, a, b, t) ==
              if u.IsBottom() || v.IsBottom() then Cancelled else Alive(at[a := u][b := v])
  {
    DivUpForm(at[r].low, t);
  }

  lemma ProductUpToForm(at: seq<Interval>, r: nat, a: nat, b: nat, t: Int64)
    requires Trio(at, r, a, b) && 0 < at[r].high < MAX && 0 < t < MAX
    ensures var (u, v) := UpTo(at[a], at[b], at[r].high, t);
            ProductUpTo(at, r, a, b, t) ==
              if u.IsBottom() || v.IsBottom() then Cancelled else Alive(at[a := u][b := v])
  {
    DivForm(at[r].high, t);
  }

  /** Every corner of a lower branch reaches the result's lower bound. */
  lemma FromReaches(u: Interval, v: Interval, rLow: Int64, t: Int64, x: int, y: int)
    requires 0 < rLow < MAX && 0 < t && From(u, v, rLow, t).0.low <= x && From(u, v, rLow, t).1.low <= y
    ensures x * y >= rLow
  {
    CeilLeast(rLow, t, Ceil(rLow, t));
    CeilRange(rLow, t);
    ProductMono(t, Ceil(rLow, t), x, y);
    assert Ceil(rLow, t) * t == t * Ceil(rLow, t);
  }

  /** Every corner of an upper branch stays within the result's upper bound. */
  lemma UpToStays(u: Interval, v: Interval, rHigh: Int64, t: Int64, x: int, y: int)
    requires 0 < rHigh < MAX && 0 < t && 0 <= x <= UpTo(u, v, rHigh, t).0.high && 0 <= y <= UpTo(u, v, rHigh, t).1.high
    ensures x * y <= rHigh
  {
    FloorGreatest(rHigh, t, rHigh / t);
    ProductMono(x, y, t, rHigh / t);
    assert rHigh / t * t == t * (rHigh / t);
  }

  // ----- choosing where to cut

  lemma CountForm(low: Int64, high: Int64)
    requires 0 < low <= high < MAX
    ensures CountOf(low, high) == Alive(ToInt32(high - low + 1))
    ensures ToInt32(high - low + 1) <= high - low + 1
    ensures high - low + 1 < 0x8000_0000 ==> ToInt32(high - low + 1) == high - low + 1
  {
  }

  /** The values a choice between `low` and `high` can come to: those whose distance from the start
      of the count is below the count, which is a 32-bit number. */
  lemma ChooseDownForm(w: World, low: Int64, high: Int64)
    requires 0 < low <= high < MAX
    ensures ToInt32(high - low + 1) < 1 ==> ChooseDown(w, low, high) == Cancelled
    ensures ToInt32(high - low + 1) >= 1 ==>
              high - Pick(w.answers, ToInt32(high - low + 1)) >= low &&
              ChooseDown(w, low, high) ==
                Alive((high - Pick(w.answers, ToInt32(high - low + 1)), w.(answers := Rest(w.answers))))
  {
    CountForm(low, high);
  }

  lemma ChooseUpForm(w: World, low: Int64, high: Int64)
    requires 0 < low <= high < MAX
    ensures ToInt32(high - low + 1) < 1 ==> ChooseUp(w, low, high) == Cancelled
    ensures ToInt32(high - low + 1) >= 1 ==>
              low + Pick(w.answers, ToInt32(high - low + 1)) <= high &&
              ChooseUp(w, low, high) ==
                Alive((low + Pick(w.answers, ToInt32(high - low + 1)), w.(answers := Rest(w.answers))))
  {
    CountForm(low, high);
  }

  // ----- the lower correction

  /** The greatest and the least place where the first operand can start. */
  function LastStart(r: Interval, v: Interval): (s: Int64)
    requires Positive(r) && Positive(v)
    ensures 1 <= s <= r.low
  {
    CeilRange(r.low, v.low);
    Ceil(r.low, v.low)
  }

  function FirstStart(r: Interval, v: Interval): (s: Int64)
    requires Positive(r) && Positive(v)
    ensures 1 <= s <= LastStart(r, v)
  {
    CeilRange(r.low, v.high);
    CeilAnti(r.low, v.low, v.high);
    Ceil(r.low, v.high)
  }

  lemma CeilAnti(a: int, b: int, c: int)
    requires a > 0 && 0 < b <= c
    ensures Ceil(a, c) <= Ceil(a, b)
  {
    CeilRange(a, b);
    CeilLeast(a, b, Ceil(a, b));
    MulMonoRight(Ceil(a, b), b, c);
    CeilLeast(a, c, Ceil(a, b));
  }

  lemma MulMonoRight(c: int, a: int, b: int)
    requires a <= b && c >= 0
    ensures c * a <= c * b
  {
  }

  /** The number of starts, as the 32-bit `int` that the choice is made among. */
  function Starts(r: Interval, v: Interval): Int32
    requires Positive(r) && Positive(v)
  {
    ToInt32(LastStart(r, v) - FirstStart(r, v) + 1)
  }

  function ChosenStart(answers: seq<nat>, r: Interval, v: Interval): (t: Int64)
    requires Positive(r) && Positive(v) && Starts(r, v) >= 1
    ensures FirstStart(r, v) <= t <= LastStart(r, v)
  {
    CountForm(FirstStart(r, v), LastStart(r, v));
    LastStart(r, v) - Pick(answers, Starts(r, v))
  }

  lemma ProductLowStep(w: World, r: nat, a: nat, b: nat, first: Int64, last: Int64, choice: Outcome<(Int64, World)>)
    requires PositiveTriple(w.at, r, a, b)
    requires DivUp(w.at[r].low, w.at[b].low) == Alive(last) && DivUp(w.at[r].low, w.at[b].high) == Alive(first)
    requires choice == ChooseDown(w.(at := MeetLow(w.at, a, first)), first, last)
    ensures choice.Cancelled? ==> ProductLow(w, r, a, b) == Cancelled
    ensures choice.Alive? ==>
              ProductLow(w, r, a, b) ==
                match ProductFrom(MeetLow(w.at, a, first), r, a, b, choice.value.0)
                case Cancelled => Cancelled
                case Alive(at) => Alive(choice.value.1.(at := at))
  {
  }

  /** The lower correction, with its rounding and its choice worked out. */
  function LowBranch(w: World, r: nat, a: nat, b: nat): Outcome<World>
    requires PositiveTriple(w.at, r, a, b)
  {
    if Starts(w.at[r], w.at[b]) < 1 then Cancelled
    else
      var (u, v) := From(w.at[a], w.at[b], w.at[r].low, ChosenStart(w.answers, w.at[r], w.at[b]));
      if u.IsBottom() || v.IsBottom() then Cancelled
      else Alive(World(w.at[a := u][b := v], Rest(w.answers)))
  }

  lemma ProductLowForm(w: World, r: nat, a: nat, b: nat)
    requires PositiveTriple(w.at, r, a, b)
    ensures ProductLow(w, r, a, b) == LowBranch(w, r, a, b)
  {
    hide ProductLow, ProductFrom, DivUp, ChooseDown, From, MeetLow, Ceil;
    var res, v := w.at[r], w.at[b];
    var first, last := FirstStart(res, v), LastStart(res, v);
    DivUpForm(res.low, v.low);
    DivUpForm(res.low, v.high);
    var w1 := w.(at := MeetLow(w.at, a, first));
    ChooseDownForm(w1, first, last);
    ProductLowStep(w, r, a, b, first, last, ChooseDown(w1, first, last));
    if Starts(res, v) >= 1 {
      LaterStart(w.at, r, a, b, first, ChosenStart(w.answers, res, v));
    }
  }

  /** Raising `a` to an earlier start first makes no difference. */
  lemma LaterStart(at: seq<Interval>, r: nat, a: nat, b: nat, first: Int64, t: Int64)
    requires Trio(at, r, a, b) && 0 < at[r].low < MAX && 0 < first <= t < MAX
    ensures var (u, v) := From(at[a], at[b], at[r].low, t);
            ProductFrom(MeetLow(at, a, first), r, a, b, t) ==
              if u.IsBottom() || v.IsBottom() then Cancelled else Alive(at[a := u][b := v])
  {
    var at1 := MeetLow(at, a, first);
    ProductFromForm(at1, r, a, b, t);
    var (u, v) := From(at[a], at[b], at[r].low, t);
    assert at1[a := u][b := v] == at[a := u][b := v];
  }

  /** How far down from the last start a value of the first operand lies. */
  function Depth(r: Interval, v: Interval, x: int): int
    requires Positive(r) && Positive(v)
  {
    if x < LastStart(r, v) then LastStart(r, v) - x else 0
  }

  /** A pair that reaches the lower bound is kept by the start at its own distance. */
  lemma FromKeeps(r: Interval, u: Interval, v: Interval, x: int, y: int)
    requires Positive(r) && Positive(u) && Positive(v) && u.Has(x) && v.Has(y) && x * y >= r.low
    ensures FirstStart(r, v) <= LastStart(r, v) - Depth(r, v, x)
    ensures var (u', v') := From(u, v, r.low, LastStart(r, v) - Depth(r, v, x)); u'.Has(x) && v'.Has(y)
  {
    var t := LastStart(r, v) - Depth(r, v, x);
    if x < LastStart(r, v) {
      MulMonoRight(x, y, v.high);
      CeilLeast(r.low, v.high, x);
      assert x * y == y * x;
    } else {
      CeilLeast(r.low, v.low, LastStart(r, v));
      MulMonoRight(LastStart(r, v), v.low, y);
      assert y * t == t * y;
    }
    CeilLeast(r.low, t, y);
  }

  /** A start keeps only values at or above it. */
  lemma FromDepth(r: Interval, u: Interval, v: Interval, answers: seq<nat>, x: int, y: int)
    requires Positive(r) && Positive(u) && Positive(v) && Starts(r, v) >= 1
    requires var (u', v') := From(u, v, r.low, ChosenStart(answers, r, v)); u'.Has(x) && v'.Has(y)
    ensures u.Has(x) && v.Has(y) && x * y >= r.low && Depth(r, v, x) < Starts(r, v)
  {
    FromReaches(u, v, r.low, ChosenStart(answers, r, v), x, y);
  }

  // ----- the upper correction

  function FirstEnd(r: Interval, u: Interval, v: Interval): (s: Int64)
    requires Positive(r) && Positive(u) && Positive(v)
    ensures 1 <= s < MAX
  {
    FloorGreatest(r.high, v.high, 0);
    Max(r.high / v.high, u.low)
  }

  /** The upper correction is needed and small: the greatest product exceeds `r` by 1 to 200. */
  predicate SmallExcess(r: Interval, u: Interval, v: Interval) {
    r.high < u.high * v.high <= r.high + CHOOSE_BOUND && u.high * v.high < MAX
  }

  /** Then there are at most 201 ends to choose among. */
  lemma {:induction false} EndsRange(r: Interval, u: Interval, v: Interval)
    requires Positive(r) && Positive(u) && Positive(v) && SmallExcess(r, u, v)
    ensures FirstEnd(r, u, v) <= u.high <= FirstEnd(r, u, v) + CHOOSE_BOUND
  {
    FloorGreatest(r.high, v.high, u.high);
    FloorGreatest(r.high, v.high, u.high - CHOOSE_BOUND);
    MulMono(1, v.high, CHOOSE_BOUND);
    assert (u.high - CHOOSE_BOUND) * v.high == u.high * v.high - CHOOSE_BOUND * v.high;
  }

  function ChosenEnd(answers: seq<nat>, r: Interval, u: Interval, v: Interval): (t: Int64)
    requires Positive(r) && Positive(u) && Positive(v) && SmallExcess(r, u, v)
    ensures FirstEnd(r, u, v) <= t <= u.high
  {
    EndsRange(r, u, v);
    FirstEnd(r, u, v) + Pick(answers, u.high - FirstEnd(r, u, v) + 1)
  }

  lemma ProductHighStep(w: World, r: nat, a: nat, b: nat, first: Int64, choice: Outcome<(Int64, World)>)
    requires PositiveTriple(w.at, r, a, b)
    requires Div(w.at[r].high, w.at[b].high).Alive?
    requires first == Max(Div(w.at[r].high, w.at[b].high).value, w.at[a].low)
    requires choice == ChooseUp(w, first, w.at[a].high)
    ensures choice.Cancelled? ==> ProductHigh(w, r, a, b) == Cancelled
    ensures choice.Alive? ==>
              ProductHigh(w, r, a, b) ==
                match ProductUpTo(w.at, r, a, b, choice.value.0)
                case Cancelled => Cancelled
                case Alive(at) => Alive(choice.value.1.(at := at))
  {
  }

  /** The upper correction, with its rounding and its choice worked out. */
  function HighBranch(w: World, r: nat, a: nat, b: nat): Outcome<World>
    requires PositiveTriple(w.at, r, a, b) && SmallExcess(w.at[r], w.at[a], w.at[b])
  {
    var (u, v) := UpTo(w.at[a], w.at[b], w.at[r].high, ChosenEnd(w.answers, w.at[r], w.at[a], w.at[b]));
    if u.IsBottom() || v.IsBottom() then Cancelled
    else Alive(World(w.at[a := u][b := v], Rest(w.answers)))
  }

  lemma ProductHighForm(w: World, r: nat, a: nat, b: nat)
    requires PositiveTriple(w.at, r, a, b) && SmallExcess(w.at[r], w.at[a], w.at[b])
    ensures ProductHigh(w, r, a, b) == HighBranch(w, r, a, b)
  {
    hide ProductHigh, ProductUpTo, ChooseUp, UpTo, Div, Pick, Rest, CountOf, ToInt32;
    var res, u, v := w.at[r], w.at[a], w.at[b];
    var first := FirstEnd(res, u, v);
    EndsRange(res, u, v);
    DivForm(res.high, v.high);
    CountForm(first, u.high);
    ChooseUpForm(w, first, u.high);
    ProductHighStep(w, r, a, b, first, ChooseUp(w, first, u.high));
    ProductUpToForm(w.at, r, a, b, ChosenEnd(w.answers, res, u, v));
  }

  /** A pair within the upper bound is kept by the end at its own first value. */
  lemma UpToKeeps(r: Interval, u: Interval, v: Interval, x: int, y: int)
    requires Positive(r) && Positive(u) && Positive(v) && u.Has(x) && v.Has(y) && x * y <= r.high
    ensures var t := if x < FirstEnd(r, u, v) then FirstEnd(r, u, v) else x;
            var (u', v') := UpTo(u, v, r.high, t); u'.Has(x) && v'.Has(y)
  {
    var t := if x < FirstEnd(r, u, v) then FirstEnd(r, u, v) else x;
    if x < FirstEnd(r, u, v) {
      FloorGreatest(r.high, v.high, t);
      MulMonoRight(t, y, v.high);
    }
    assert y * t == t * y;
    FloorGreatest(r.high, t, y);
  }

  // ----- both corrections

  /** The lower correction is needed and small: the least product misses `r` by 1 to 200. */
  predicate SmallDefect(r: Interval, u: Interval, v: Interval) {
    r.low - CHOOSE_BOUND <= u.low * v.low < r.low
  }

  /** Neither correction is too large to be made. */
  predicate SmallMisses(r: Interval, u: Interval, v: Interval) {
    u.low * v.low >= r.low - CHOOSE_BOUND && (u.high * v.high <= r.high || SmallExcess(r, u, v))
  }

  lemma TimesPositive(u: Interval, v: Interval)
    requires Positive(u) && Positive(v)
    ensures Times(u, v) == Interval(Clamp(u.low * v.low), Clamp(u.high * v.high))
  {
    ProductMono(u.low, v.low, u.low, v.high);
    ProductMono(u.low, v.low, u.high, v.low);
    ProductMono(u.low, v.high, u.high, v.high);
    ProductMono(u.high, v.low, u.high, v.high);
  }

  lemma DefectGap(b: Int64, p: int)
    requires 0 < b < MAX && p >= 1
    ensures Sub(b, Clamp(p)).Alive?
    ensures Correctable(Sub(b, Clamp(p)).value) <==> b - CHOOSE_BOUND <= p < b
  {
  }

  lemma ExcessGap(b: Int64, p: int)
    requires 0 < b < MAX && p >= 1
    ensures Sub(Clamp(p), b).Alive?
    ensures Correctable(Sub(Clamp(p), b).value) <==> b < p <= b + CHOOSE_BOUND && p < MAX
  {
  }

  function LowStage(w: World, r: nat, a: nat, b: nat): Outcome<World>
    requires PositiveTriple(w.at, r, a, b)
  {
    if SmallDefect(w.at[r], w.at[a], w.at[b]) then LowBranch(w, r, a, b) else Alive(w)
  }

  function HighStage(w: World, r: nat, a: nat, b: nat): Outcome<World>
    requires PositiveTriple(w.at, r, a, b)
  {
    if SmallExcess(w.at[r], w.at[a], w.at[b]) then HighBranch(w, r, a, b) else Alive(w)
  }

  /** The split as its two stages: the second starts from highs that the first leaves alone. */
  lemma SplitProductForm(w: World, r: nat, a: nat, b: nat)
    requires PositiveTriple(w.at, r, a, b)
    ensures SplitProduct(w, r, a, b) ==
              var low := if SmallDefect(w.at[r], w.at[a], w.at[b]) then ProductLow(w, r, a, b) else Alive(w);
              if low.Cancelled? then Cancelled
              else if SmallExcess(w.at[r], w.at[a], w.at[b]) then ProductHigh(low.value, r, a, b)
              else low
  {
    var res, u, v := w.at[r], w.at[a], w.at[b];
    TimesPositive(u, v);
    ProductMono(1, 1, u.low, v.low);
    ProductMono(1, 1, u.high, v.high);
    DefectGap(res.low, u.low * v.low);
    ExcessGap(res.high, u.high * v.high);
  }

  /** The box a lower correction leaves. */
  lemma FromBranch(r: Interval, u: Interval, v: Interval, t: Int64)
    requires Positive(r) && Positive(u) && Positive(v) && 0 < t
    requires !From(u, v, r.low, t).0.IsBottom() && !From(u, v, r.low, t).1.IsBottom()
    ensures var (u', v') := From(u, v, r.low, t);
            Positive(u') && Positive(v') && u'.Within(u) && v'.Within(v) && u'.low * v'.low >= r.low
  {
    FromReaches(u, v, r.low, t, From(u, v, r.low, t).0.low, From(u, v, r.low, t).1.low);
  }

  lemma UpToBranch(r: Interval, u: Interval, v: Interval, t: Int64)
    requires Positive(r) && Positive(u) && Positive(v) && 0 < t
    requires !UpTo(u, v, r.high, t).0.IsBottom() && !UpTo(u, v, r.high, t).1.IsBottom()
    ensures var (u', v') := UpTo(u, v, r.high, t);
            Positive(u') && Positive(v') && u'.Within(u) && v'.Within(v) && u'.high * v'.high <= r.high
  {
    UpToStays(u, v, r.high, t, UpTo(u, v, r.high, t).0.high, UpTo(u, v, r.high, t).1.high);
  }

  lemma UpdateNarrows(at: seq<Interval>, a: nat, b: nat, u: Interval, v: Interval)
    requires a < |at| && b < |at| && a != b && u.Within(at[a]) && v.Within(at[b])
    ensures NarrowsTo(at, at[a := u][b := v], a, b)
  {
  }

  /** Every lower branch is a narrower box whose least product reaches the result. */
  lemma LowSound(w: World, r: nat, a: nat, b: nat) returns (at': seq<Interval>)
    requires PositiveTriple(w.at, r, a, b) && LowBranch(w, r, a, b).Alive?
    ensures at' == LowBranch(w, r, a, b).value.at
    ensures PositiveTriple(at', r, a, b) && NarrowsTo(w.at, at', a, b)
    ensures at'[a].high == w.at[a].high && at'[b].high == w.at[b].high
    ensures at'[a].low * at'[b].low >= w.at[r].low
    ensures forall x, y :: Holds(at', a, b, x, y) ==> Depth(w.at[r], w.at[b], x) < Starts(w.at[r], w.at[b])
  {
    var res, u, v := w.at[r], w.at[a], w.at[b];
    var t := ChosenStart(w.answers, res, v);
    var (u', v') := From(u, v, res.low, t);
    at' := w.at[a := u'][b := v'];
    FromBranch(res, u, v, t);
    UpdateNarrows(w.at, a, b, u', v');
    forall x, y | Holds(at', a, b, x, y)
      ensures Depth(res, v, x) < Starts(res, v)
    {
      FromDepth(res, u, v, w.answers, x, y);
    }
  }

  /** Every upper branch is a narrower box whose greatest product stays within the result. */
  lemma HighSound(w: World, r: nat, a: nat, b: nat) returns (at': seq<Interval>)
    requires PositiveTriple(w.at, r, a, b) && SmallExcess(w.at[r], w.at[a], w.at[b])
    requires HighBranch(w, r, a, b).Alive?
    ensures at' == HighBranch(w, r, a, b).value.at
    ensures PositiveTriple(at', r, a, b) && NarrowsTo(w.at, at', a, b)
    ensures at'[a].low == w.at[a].low && at'[b].low == w.at[b].low
    ensures at'[a].high * at'[b].high <= w.at[r].high
  {
    var res, u, v := w.at[r], w.at[a], w.at[b];
    var t := ChosenEnd(w.answers, res, u, v);
    var (u', v') := UpTo(u, v, res.high, t);
    at' := w.at[a := u'][b := v'];
    UpToBranch(res, u, v, t);
    UpdateNarrows(w.at, a, b, u', v');
  }

  /** The pair survives the lower correction: it is not needed, or the choice goes down far enough. */
  predicate DeepEnough(r: Interval, u: Interval, v: Interval, x: int)
    requires Positive(r) && Positive(v)
  {
    SmallDefect(r, u, v) ==> Depth(r, v, x) < Starts(r, v)
  }

  lemma LowStageSound(w: World, r: nat, a: nat, b: nat) returns (at': seq<Interval>)
    requires PositiveTriple(w.at, r, a, b) && LowStage(w, r, a, b).Alive?
    ensures at' == LowStage(w, r, a, b).value.at
    ensures PositiveTriple(at', r, a, b) && NarrowsTo(w.at, at', a, b)
    ensures at'[a].high == w.at[a].high && at'[b].high == w.at[b].high
    ensures SmallDefect(w.at[r], w.at[a], w.at[b]) ==> at'[a].low * at'[b].low >= w.at[r].low
    ensures forall x, y :: Holds(at', a, b, x, y) ==> DeepEnough(w.at[r], w.at[a], w.at[b], x)
  {
    if SmallDefect(w.at[r], w.at[a], w.at[b]) {
      at' := LowSound(w, r, a, b);
    } else {
      at' := w.at;
    }
  }

  lemma HighStageSound(w: World, r: nat, a: nat, b: nat) returns (at': seq<Interval>)
    requires PositiveTriple(w.at, r, a, b) && HighStage(w, r, a, b).Alive?
    ensures at' == HighStage(w, r, a, b).value.at
    ensures PositiveTriple(at', r, a, b) && NarrowsTo(w.at, at', a, b)
    ensures at'[a].low == w.at[a].low && at'[b].low == w.at[b].low
    ensures SmallExcess(w.at[r], w.at[a], w.at[b]) ==> at'[a].high * at'[b].high <= w.at[r].high
  {
    if SmallExcess(w.at[r], w.at[a], w.at[b]) {
      at' := HighSound(w, r, a, b);
    } else {
      at' := w.at;
    }
  }

  lemma BoxAgrees(r: Interval, u: Interval, v: Interval, u': Interval, v': Interval, x: int, y: int)
    requires Positive(r) && Positive(u) && Positive(v) && u'.Within(u) && v'.Within(v)
    requires u'.Has(x) && v'.Has(y) && SmallMisses(r, u, v)
    requires SmallDefect(r, u, v) ==> u'.low * v'.low >= r.low
    requires SmallExcess(r, u, v) ==> u'.high * v'.high <= r.high
    ensures r.Has(x * y)
  {
    ProductMono(u.low, v.low, u'.low, v'.low);
    ProductMono(u'.low, v'.low, x, y);
    ProductMono(x, y, u'.high, v'.high);
    ProductMono(u'.high, v'.high, u.high, v.high);
  }

  lemma SplitProductStages(w: World, r: nat, a: nat, b: nat)
    requires PositiveTriple(w.at, r, a, b)
    ensures LowStage(w, r, a, b).Cancelled? ==> SplitProduct(w, r, a, b) == Cancelled
    ensures LowStage(w, r, a, b).Alive? ==>
              var w1 := LowStage(w, r, a, b).value;
              PositiveTriple(w1.at, r, a, b) && SplitProduct(w, r, a, b) == HighStage(w1, r, a, b)
  {
    SplitProductForm(w, r, a, b);
    ProductLowForm(w, r, a, b);
    if LowStage(w, r, a, b).Alive? {
      var at1 := LowStageSound(w, r, a, b);
      var w1 := LowStage(w, r, a, b).value;
      if SmallExcess(w1.at[r], w1.at[a], w1.at[b]) {
        ProductHighForm(w1, r, a, b);
      }
    }
  }

  /** Every branch of the split is a narrower box of the operands; where the corrections are small
      it holds only pairs whose product the result can have. */
  lemma ProductSound(w: World, r: nat, a: nat, b: nat) returns (at': seq<Interval>)
    requires PositiveTriple(w.at, r, a, b) && SplitProduct(w, r, a, b).Alive?
    ensures at' == SplitProduct(w, r, a, b).value.at
    ensures NarrowsTo(w.at, at', a, b) && PositiveTriple(at', r, a, b)
    ensures SmallDefect(w.at[r], w.at[a], w.at[b]) ==> at'[a].low * at'[b].low >= w.at[r].low
    ensures SmallExcess(w.at[r], w.at[a], w.at[b]) ==> at'[a].high * at'[b].high <= w.at[r].high
    ensures forall x, y :: Holds(at', a, b, x, y) ==> DeepEnough(w.at[r], w.at[a], w.at[b], x)
    ensures SmallMisses(w.at[r], w.at[a], w.at[b]) ==>
              forall x, y :: Holds(at', a, b, x, y) ==> w.at[r].Has(x * y)
  {
    var res, u, v := w.at[r], w.at[a], w.at[b];
    SplitProductStages(w, r, a, b);
    var at1 := LowStageSound(w, r, a, b);
    at' := HighStageSound(LowStage(w, r, a, b).value, r, a, b);
    NarrowsTrans(w.at, at1, at', a, b);
    forall x, y | Holds(at', a, b, x, y)
      ensures DeepEnough(res, u, v, x) && (SmallMisses(res, u, v) ==> res.Has(x * y))
    {
      assert Holds(at1, a, b, x, y);
      if SmallMisses(res, u, v) {
        BoxAgrees(res, u, v, at'[a], at'[b], x, y);
      }
    }
  }

  // ----- nothing is lost

  lemma LowStageKeeps(at: seq<Interval>, r: nat, a: nat, b: nat, x: int, y: int)
    returns (p: seq<nat>, at': seq<Interval>)
    requires PositiveTriple(at, r, a, b) && Holds(at, a, b, x, y) && x * y >= at[r].low
    requires DeepEnough(at[r], at[a], at[b], x)
    ensures forall rest: seq<nat> :: LowStage(World(at, p + rest), r, a, b) == Alive(World(at', rest))
    ensures Holds(at', a, b, x, y) && NarrowsTo(at, at', a, b) && PositiveTriple(at', r, a, b)
    ensures at'[a].high == at[a].high && at'[b].high == at[b].high
  {
    var res, u, v := at[r], at[a], at[b];
    if SmallDefect(res, u, v) {
      var i := Depth(res, v, x);
      var t := LastStart(res, v) - i;
      FromKeeps(res, u, v, x, y);
      var (u', v') := From(u, v, res.low, t);
      p, at' := [i], at[a := u'][b := v'];
      FromBranch(res, u, v, t);
      UpdateNarrows(at, a, b, u', v');
      forall rest: seq<nat> ensures LowStage(World(at, p + rest), r, a, b) == Alive(World(at', rest)) {
        PickFirst(i, rest, Starts(res, v));
      }
    } else {
      p, at' := [], at;
      assert forall rest: seq<nat> :: [] + rest == rest;
    }
  }

  lemma HighStageKeeps(at: seq<Interval>, r: nat, a: nat, b: nat, x: int, y: int)
    returns (p: seq<nat>, at': seq<Interval>)
    requires PositiveTriple(at, r, a, b) && Holds(at, a, b, x, y) && x * y <= at[r].high
    ensures forall rest: seq<nat> :: HighStage(World(at, p + rest), r, a, b) == Alive(World(at', rest))
    ensures Holds(at', a, b, x, y) && NarrowsTo(at, at', a, b) && PositiveTriple(at', r, a, b)
  {
    var res, u, v := at[r], at[a], at[b];
    if SmallExcess(res, u, v) {
      EndsRange(res, u, v);
      var first := FirstEnd(res, u, v);
      var t := if x < first then first else x;
      UpToKeeps(res, u, v, x, y);
      var (u', v') := UpTo(u, v, res.high, t);
      var i := t - first;
      p, at' := [i], at[a := u'][b := v'];
      UpToBranch(res, u, v, t);
      UpdateNarrows(at, a, b, u', v');
      forall rest: seq<nat> ensures HighStage(World(at, p + rest), r, a, b) == Alive(World(at', rest)) {
        PickFirst(i, rest, u.high - first + 1);
      }
    } else {
      p, at' := [], at;
      assert forall rest: seq<nat> :: [] + rest == rest;
    }
  }

  lemma StagesChain(at: seq<Interval>, at1: seq<Interval>, at2: seq<Interval>, r: nat, a: nat, b: nat,
                    p1: seq<nat>, p2: seq<nat>, rest: seq<nat>)
    requires PositiveTriple(at, r, a, b) && PositiveTriple(at1, r, a, b)
    requires LowStage(World(at, p1 + (p2 + rest)), r, a, b) == Alive(World(at1, p2 + rest))
    requires HighStage(World(at1, p2 + rest), r, a, b) == Alive(World(at2, rest))
    ensures SplitProduct(World(at, p1 + p2 + rest), r, a, b) == Alive(World(at2, rest))
  {
    hide LowStage, HighStage, SplitProduct;
    assert p1 + p2 + rest == p1 + (p2 + rest);
    SplitProductStages(World(at, p1 + (p2 + rest)), r, a, b);
  }

  /** A pair whose product the result can have survives some answers. */
  lemma ProductKeeps(at: seq<Interval>, r: nat, a: nat, b: nat, x: int, y: int)
    returns (p: seq<nat>, at': seq<Interval>)
    requires PositiveTriple(at, r, a, b) && Holds(at, a, b, x, y) && at[r].Has(x * y)
    requires DeepEnough(at[r], at[a], at[b], x)
    ensures forall rest: seq<nat> :: SplitProduct(World(at, p + rest), r, a, b) == Alive(World(at', rest))
    ensures Holds(at', a, b, x, y) && NarrowsTo(at, at', a, b)
  {
    var p1, at1 := LowStageKeeps(at, r, a, b, x, y);
    var p2, at2 := HighStageKeeps(at1, r, a, b, x, y);
    p, at' := p1 + p2, at2;
    NarrowsTrans(at, at1, at2, a, b);
    forall rest: seq<nat> ensures SplitProduct(World(at, p + rest), r, a, b) == Alive(World(at', rest)) {
      StagesChain(at, at1, at2, r, a, b, p1, p2, rest);
    }
  }

  ghost predicate ProductSurvives(at: seq<Interval>, r: nat, a: nat, b: nat, x: int, y: int)
    requires r < |at| && a < |at| && b < |at|
  {
    exists answers: seq<nat> ::
      var o := SplitProduct(World(at, answers), r, a, b);
      o.Alive? && Holds(o.value.at, a, b, x, y)
  }

  /** The hyperbola split is exact but for one thing: where the corrections are small, the branches
      hold precisely the pairs whose product the result can have, except those the 32-bit count of
      starts does not reach. */
  lemma ProductExact(at: seq<Interval>, r: nat, a: nat, b: nat, x: int, y: int)
    requires PositiveTriple(at, r, a, b) && SmallMisses(at[r], at[a], at[b])
    ensures ProductSurvives(at, r, a, b, x, y) <==>
              Holds(at, a, b, x, y) && at[r].Has(x * y) && DeepEnough(at[r], at[a], at[b], x)
  {
    if ProductSurvives(at, r, a, b, x, y) {
      var answers: seq<nat> :| var o := SplitProduct(World(at, answers), r, a, b);
                               o.Alive? && Holds(o.value.at, a, b, x, y);
      var at' := ProductSound(World(at, answers), r, a, b);
    }
    if Holds(at, a, b, x, y) && at[r].Has(x * y) && DeepEnough(at[r], at[a], at[b], x) {
      var p, at' := ProductKeeps(at, r, a, b, x, y);
      assert SplitProduct(World(at, p + []), r, a, b) == Alive(World(at', []));
    }
  }

  /** While there are fewer than 2^31 starts, the choice reaches every pair that agrees. */
  lemma CountReaches(r: Interval, u: Interval, v: Interval, x: int, y: int)
    requires Positive(r) && Positive(u) && Positive(v) && u.Has(x) && v.Has(y) && x * y >= r.low
    requires LastStart(r, v) - FirstStart(r, v) + 1 < 0x8000_0000
    ensures DeepEnough(r, u, v, x)
  {
    FromKeeps(r, u, v, x, y);
  }
}
