/**
 What the case splits of the backward operations keep and what they rule out.  For each operation:
 every branch is a box of the operands as they were, the branches together hold every pair of
 operand values that agrees with the result, and they hold no other pair while nothing to correct
 is too large to split.
 */
module Splits {
  import opened Outcomes
  import opened Bounds
  import opened Intervals
  import opened Backward

  /** Nodes `a` and `b` can have the values `x` and `y`. */
  predicate Holds(at: seq<Interval>, a: nat, b: nat, x: int, y: int) {
    a < |at| && b < |at| && at[a].Has(x) && at[b].Has(y)
  }

  /** Three different nodes: a result and its two operands. */
  predicate Trio(at: seq<Interval>, r: nat, a: nat, b: nat) {
    r < |at| && a < |at| && b < |at| && r != a && r != b && a != b
  }

  /** No interval got wider. */
  ghost predicate Shrinks(at: seq<Interval>, at': seq<Interval>) {
    |at'| == |at| && forall k | 0 <= k < |at| :: at'[k].Within(at[k])
  }

  /** Only `a` and `b` changed, and they only lost values. */
  ghost predicate NarrowsTo(at: seq<Interval>, at': seq<Interval>, a: nat, b: nat) {
    Shrinks(at, at') && forall k | 0 <= k < |at| && k != a && k != b :: at'[k] == at[k]
  }

  lemma NarrowsTrans(at: seq<Interval>, at1: seq<Interval>, at2: seq<Interval>, a: nat, b: nat)
    requires NarrowsTo(at, at1, a, b) && NarrowsTo(at1, at2, a, b)
    ensures NarrowsTo(at, at2, a, b)
  {
    forall k | 0 <= k < |at| ensures at2[k].Within(at[k]) {
      assert at1[k].Within(at[k]);
    }
  }

  // ----- answers

  lemma PickFirst(k: nat, rest: seq<nat>, n: int)
    requires k < n
    ensures Pick([k] + rest, n) == k && Rest([k] + rest) == rest
  {
  }

  // ----- stairs

  /** What a correction by `d` demands of the values of operands `u` and `v`. */
  predicate Demanded(side: Side, u: Interval, v: Interval, d: Int64, x: int, y: int) {
    match side
    case SumLow => x + y >= u.low + v.low + d
    case SumHigh => x + y <= u.high + v.high - d
    case DifferenceLow => x - y >= u.low - v.high + d
    case DifferenceHigh => x - y <= u.high - v.low - d
  }

  /** The bound of the second operand that the correction starts from does not saturate. */
  predicate Unsaturated(side: Side, v: Interval, d: Int64) {
    if RaisesB(side) then v.low + d < MAX else v.high - d > MIN
  }

  function StartA(side: Side, u: Interval): Int64 {
    if FromLow(side) then u.low else u.high
  }

  function StartB(side: Side, v: Interval): Int64 {
    if RaisesB(side) then v.low else v.high
  }

  /** The two bounds that a correction moves are finite. */
  predicate CanStart(side: Side, u: Interval, v: Interval) {
    Finite(StartA(side, u)) && Finite(StartB(side, v))
  }

  /** The two bounds that a correction leaves alone. */
  predicate OtherBoundsKept(side: Side, u: Interval, v: Interval, u': Interval, v': Interval) {
    && (if FromLow(side) then u'.high == u.high else u'.low == u.low)
    && (if RaisesB(side) then v'.high == v.high else v'.low == v.low)
  }

  /** What is left of `a` when it takes `i` of a correction. */
  function ShareOfA(side: Side, v: Interval, i: nat): Interval {
    if FromLow(side) then Interval(Clamp(v.low + i), v.high) else Interval(v.low, Clamp(v.high - i))
  }

  /** What is left of `b` when it takes the rest of a correction by `d`. */
  function ShareOfB(side: Side, v: Interval, d: Int64, i: nat): Interval
    requires i <= d
  {
    if RaisesB(side) then
      Interval(if v.low + d >= MAX then MAX else Clamp(v.low + d - i), v.high)
    else
      Interval(v.low, if v.high - d <= MIN then MIN else Clamp(v.high - d + i))
  }

  lemma Raised(v: Int64, d: Int64, i: nat)
    requires Finite(v) && i <= d <= CHOOSE_BOUND
    ensures RaisedBy(v, i) == Alive(Clamp(v + i)) && v <= Clamp(v + i)
    ensures RaisedByRest(v, d, i) == Alive(if v + d >= MAX then MAX else Clamp(v + d - i))
  {
  }

  lemma Lowered(v: Int64, d: Int64, i: nat)
    requires Finite(v) && i <= d <= CHOOSE_BOUND
    ensures LoweredBy(v, i) == Alive(Clamp(v - i)) && Clamp(v - i) <= v
    ensures LoweredByRest(v, d, i) == Alive(if v - d <= MIN then MIN else Clamp(v - d + i))
  {
  }

  lemma StairForm(side: Side, at: seq<Interval>, a: nat, b: nat, d: Int64, i: Int32)
    requires a < |at| && b < |at| && a != b && CanStart(side, at[a], at[b])
    requires Correctable(d) && 0 <= i <= d
    ensures Stair(side, at, a, b, d, i) == Alive(at[a := ShareOfA(side, at[a], i)][b := ShareOfB(side, at[b], d, i)])
  {
    if FromLow(side) {
      Raised(at[a].low, d, i);
    } else {
      Lowered(at[a].high, d, i);
    }
    RestForm(side, at[a := ShareOfA(side, at[a], i)], b, d, i);
  }

  lemma RestForm(side: Side, at: seq<Interval>, b: nat, d: Int64, i: Int32)
    requires b < |at| && Finite(StartB(side, at[b])) && Correctable(d) && 0 <= i <= d
    ensures RaisesB(side) ==> RaisedByRest(at[b].low, d, i).Alive?
    ensures RaisesB(side) ==>
              MeetLow(at, b, RaisedByRest(at[b].low, d, i).value) == at[b := ShareOfB(side, at[b], d, i)]
    ensures !RaisesB(side) ==> LoweredByRest(at[b].high, d, i).Alive?
    ensures !RaisesB(side) ==>
              MeetHigh(at, b, LoweredByRest(at[b].high, d, i).value) == at[b := ShareOfB(side, at[b], d, i)]
  {
    if RaisesB(side) {
      Raised(at[b].low, d, i);
    } else {
      Lowered(at[b].high, d, i);
    }
  }

  lemma StairNarrows(side: Side, at: seq<Interval>, a: nat, b: nat, d: Int64, i: Int32)
    requires a < |at| && b < |at| && a != b && CanStart(side, at[a], at[b])
    requires Correctable(d) && 0 <= i <= d
    ensures Stair(side, at, a, b, d, i).Alive?
    ensures NarrowsTo(at, Stair(side, at, a, b, d, i).value, a, b)
  {
    StairForm(side, at, a, b, d, i);
    assert ShareOfA(side, at[a], i).Within(at[a]);
    assert ShareOfB(side, at[b], d, i).Within(at[b]);
  }

  lemma SharesSound(side: Side, u: Interval, v: Interval, d: Int64, i: nat, x: int, y: int)
    requires CanStart(side, u, v) && Correctable(d) && i <= d
    requires ShareOfA(side, u, i).Has(x) && ShareOfB(side, v, d, i).Has(y)
    ensures u.Has(x) && v.Has(y)
    ensures Demanded(side, u, v, d, x, y) && Unsaturated(side, v, d)
  {
  }

  /** The stair on which a pair of values that meets the demand is kept. */
  function StairOf(side: Side, u: Interval, d: Int64, x: int): int {
    var offset: int := if FromLow(side) then x - u.low else u.high - x;
    if offset < d then offset else d
  }

  lemma SharesKeep(side: Side, u: Interval, v: Interval, d: Int64, x: int, y: int)
    requires u.Has(x) && v.Has(y) && CanStart(side, u, v) && Correctable(d)
    requires Demanded(side, u, v, d, x, y) && Unsaturated(side, v, d)
    ensures 0 <= StairOf(side, u, d, x) <= d
    ensures ShareOfA(side, u, StairOf(side, u, d, x)).Has(x)
    ensures ShareOfB(side, v, d, StairOf(side, u, d, x)).Has(y)
  {
  }

  // ----- one correction

  function Shared(side: Side, at: seq<Interval>, a: nat, b: nat, d: Int64, i: nat): seq<Interval>
    requires a < |at| && b < |at| && i <= d
  {
    at[a := ShareOfA(side, at[a], i)][b := ShareOfB(side, at[b], d, i)]
  }

  /** A correction is one stair, at the place the environment picks. */
  lemma CorrectStep(side: Side, w: World, a: nat, b: nat, d: Int64)
    requires a < |w.at| && b < |w.at| && Correctable(d)
    ensures Correct(side, w, a, b, d) ==
              match Stair(side, w.at, a, b, d, Pick(w.answers, d + 1))
              case Cancelled => Cancelled
              case Alive(at) => Alive(World(at, Rest(w.answers)))
  {
    assert Choose(w, ToInt32(d + 1)) == Alive((Pick(w.answers, d + 1), w.(answers := Rest(w.answers))));
  }

  lemma CorrectForm(side: Side, w: World, a: nat, b: nat, d: Int64)
    requires a < |w.at| && b < |w.at| && a != b && CanStart(side, w.at[a], w.at[b]) && Correctable(d)
    ensures Correct(side, w, a, b, d) ==
              Alive(World(Shared(side, w.at, a, b, d, Pick(w.answers, d + 1)), Rest(w.answers)))
  {
    CorrectStep(side, w, a, b, d);
    StairForm(side, w.at, a, b, d, Pick(w.answers, d + 1));
  }

  lemma CorrectSound(side: Side, w: World, a: nat, b: nat, d: Int64) returns (at': seq<Interval>)
    requires a < |w.at| && b < |w.at| && a != b && (Correctable(d) ==> CanStart(side, w.at[a], w.at[b]))
    ensures Correct(side, w, a, b, d).Alive? && at' == Correct(side, w, a, b, d).value.at
    ensures NarrowsTo(w.at, at', a, b) && OtherBoundsKept(side, w.at[a], w.at[b], at'[a], at'[b])
    ensures forall x, y :: Holds(at', a, b, x, y) ==> Holds(w.at, a, b, x, y)
    ensures Correctable(d) ==> forall x, y :: Holds(at', a, b, x, y) ==>
              Demanded(side, w.at[a], w.at[b], d, x, y) && Unsaturated(side, w.at[b], d)
  {
    if Correctable(d) {
      var i := Pick(w.answers, d + 1);
      CorrectForm(side, w, a, b, d);
      StairForm(side, w.at, a, b, d, i);
      StairNarrows(side, w.at, a, b, d, i);
      at' := Shared(side, w.at, a, b, d, i);
      forall x, y | Holds(at', a, b, x, y)
        ensures Holds(w.at, a, b, x, y)
        ensures Demanded(side, w.at[a], w.at[b], d, x, y) && Unsaturated(side, w.at[b], d)
      {
        SharesSound(side, w.at[a], w.at[b], d, i, x, y);
      }
    } else {
      at' := w.at;
    }
  }

  /** Some answers keep a pair of values that meets the demand, whatever is asked afterwards. */
  lemma CorrectKeeps(side: Side, at: seq<Interval>, a: nat, b: nat, d: Int64, x: int, y: int)
    returns (p: seq<nat>, at': seq<Interval>)
    requires a != b && Holds(at, a, b, x, y) && (Correctable(d) ==> CanStart(side, at[a], at[b]))
    requires Correctable(d) ==> Demanded(side, at[a], at[b], d, x, y) && Unsaturated(side, at[b], d)
    ensures forall rest: seq<nat> :: Correct(side, World(at, p + rest), a, b, d) == Alive(World(at', rest))
    ensures Holds(at', a, b, x, y)
    ensures NarrowsTo(at, at', a, b) && OtherBoundsKept(side, at[a], at[b], at'[a], at'[b])
  {
    if Correctable(d) {
      SharesKeep(side, at[a], at[b], d, x, y);
      var i := StairOf(side, at[a], d, x);
      StairForm(side, at, a, b, d, i);
      StairNarrows(side, at, a, b, d, i);
      p, at' := [i], Shared(side, at, a, b, d, i);
      forall rest: seq<nat> ensures Correct(side, World(at, p + rest), a, b, d) == Alive(World(at', rest)) {
        PickFirst(i, rest, d + 1);
        CorrectForm(side, World(at, p + rest), a, b, d);
      }
    } else {
      p, at' := [], at;
      assert forall rest: seq<nat> :: [] + rest == rest;
    }
  }

  // ----- both corrections of a sum or a difference

  datatype Kind = Sum | Difference {
    function Low(): Side {
      if Sum? then SumLow else DifferenceLow
    }

    function High(): Side {
      if Sum? then SumHigh else DifferenceHigh
    }

    function Sign(): int {
      if Sum? then 1 else -1
    }

    function Result(x: int, y: int): int {
      if Sum? then x + y else x - y
    }

    function Forward(u: Interval, v: Interval): Outcome<Interval> {
      if Sum? then Plus(u, v) else Minus(u, v)
    }

    /** `badd_` or `bsub_` */
    function Split(w: World, r: nat, a: nat, b: nat): Outcome<World>
      requires r < |w.at| && a < |w.at| && b < |w.at|
    {
      if Sum? then SplitSum(w, r, a, b) else SplitDifference(w, r, a, b)
    }
  }

  /** How far the forward result reaches below `r`, and how far above it; nowhere if they are one constant.
      There is no answer when both reach the same infinity, which is then subtracted from itself. */
  function Gaps(k: Kind, r: Interval, u: Interval, v: Interval): Outcome<(Int64, Int64)> {
    var forward :- k.Forward(u, v);
    if Equal(forward, r) == True then Alive((0, 0))
    else
      var low :- Sub(r.low, forward.low);
      var high :- Sub(forward.high, r.high);
      Alive((low, high))
  }

  /** A finite result of saturating arithmetic is that of the integers. */
  lemma FiniteExact(x: Int64, y: Int64)
    ensures Add(x, y).Alive? && Finite(Add(x, y).value) ==> Finite(x) && Finite(y) && Add(x, y).value == x + y
    ensures Sub(x, y).Alive? && Finite(Sub(x, y).value) ==> Finite(x) && -MAX < y < MAX && Sub(x, y).value == x - y
  {
  }

  /** A correction that is made starts from finite bounds, and is the whole way to the bound of the result. */
  lemma GapsStart(k: Kind, r: Interval, u: Interval, v: Interval)
    requires Gaps(k, r, u, v).Alive?
    ensures var (low, high) := Gaps(k, r, u, v).value;
            && (Correctable(low) ==> CanStart(k.Low(), u, v) &&
                                     r.low == StartA(k.Low(), u) + k.Sign() * StartB(k.Low(), v) + low)
            && (Correctable(high) ==> CanStart(k.High(), u, v) &&
                                      r.high == StartA(k.High(), u) + k.Sign() * StartB(k.High(), v) - high)
  {
    hide Add, Sub;
    var forward := k.Forward(u, v).value;
    FiniteExact(r.low, forward.low);
    FiniteExact(forward.high, r.high);
    FiniteExact(u.low, v.low);
    FiniteExact(u.high, v.high);
    FiniteExact(u.low, v.high);
    FiniteExact(u.high, v.low);
  }

  /** No correction that is made starts from a bound of the second operand that saturates. */
  predicate SplitFits(k: Kind, r: Interval, u: Interval, v: Interval) {
    Gaps(k, r, u, v).Alive? &&
    var (low, high) := Gaps(k, r, u, v).value;
    && (Correctable(low) ==> Unsaturated(k.Low(), v, low))
    && (Correctable(high) ==> Unsaturated(k.High(), v, high))
  }

  /** Both corrections are small enough to be split, if they are needed at all. */
  predicate SmallGaps(k: Kind, r: Interval, u: Interval, v: Interval) {
    Gaps(k, r, u, v).Alive? && Gaps(k, r, u, v).value.0 <= CHOOSE_BOUND && Gaps(k, r, u, v).value.1 <= CHOOSE_BOUND
  }

  predicate MeetsDemands(k: Kind, u: Interval, v: Interval, low: Int64, high: Int64, x: int, y: int) {
    && (Correctable(low) ==> Demanded(k.Low(), u, v, low, x, y))
    && (Correctable(high) ==> Demanded(k.High(), u, v, high, x, y))
  }

  /** Agreeing with the result meets the demands. */
  lemma AgreementMeets(k: Kind, r: Interval, u: Interval, v: Interval, x: int, y: int)
    requires Gaps(k, r, u, v).Alive? && u.Has(x) && v.Has(y) && r.Has(k.Result(x, y))
    ensures var (low, high) := Gaps(k, r, u, v).value; MeetsDemands(k, u, v, low, high, x, y)
  {
    GapsStart(k, r, u, v);
    hide Gaps;
  }

  /** Where there is no gap below, no result is below either. */
  lemma NoneBelow(k: Kind, r: Interval, u: Interval, v: Interval, x: int, y: int)
    requires u.Has(x) && v.Has(y) && Sided(r) && Gaps(k, r, u, v).Alive? && Gaps(k, r, u, v).value.0 <= 0
    ensures r.low <= k.Result(x, y) && -MAX < k.Result(x, y)
  {
  }

  lemma NoneAbove(k: Kind, r: Interval, u: Interval, v: Interval, x: int, y: int)
    requires u.Has(x) && v.Has(y) && Sided(r) && Gaps(k, r, u, v).Alive? && Gaps(k, r, u, v).value.1 <= 0
    ensures k.Result(x, y) <= r.high && k.Result(x, y) < MAX
  {
  }

  /** For small gaps, meeting the demands is agreeing with the result. */
  lemma DemandsAgree(k: Kind, r: Interval, u: Interval, v: Interval, x: int, y: int)
    requires u.Has(x) && v.Has(y) && Sided(r) && SmallGaps(k, r, u, v)
    requires var (low, high) := Gaps(k, r, u, v).value; MeetsDemands(k, u, v, low, high, x, y)
    ensures r.Has(k.Result(x, y))
  {
    GapsStart(k, r, u, v);
    var (low, high) := Gaps(k, r, u, v).value;
    if low <= 0 {
      NoneBelow(k, r, u, v, x, y);
    }
    if high <= 0 {
      NoneAbove(k, r, u, v, x, y);
    }
    hide Gaps;
  }

  /** A low and then a high correction. */
  function Corrections(k: Kind, w: World, a: nat, b: nat, low: Int64, high: Int64): Outcome<World>
    requires a < |w.at| && b < |w.at|
  {
    var w :- Correct(k.Low(), w, a, b, low);
    Correct(k.High(), w, a, b, high)
  }

  /** The high correction starts from bounds that the low one leaves alone. */
  lemma HighUnaffected(k: Kind, u: Interval, v: Interval, u': Interval, v': Interval, d: Int64, x: int, y: int)
    requires OtherBoundsKept(k.Low(), u, v, u', v')
    ensures CanStart(k.High(), u', v') <==> CanStart(k.High(), u, v)
    ensures Demanded(k.High(), u', v', d, x, y) <==> Demanded(k.High(), u, v, d, x, y)
    ensures Unsaturated(k.High(), v', d) <==> Unsaturated(k.High(), v, d)
  {
  }

  /** What two corrections by `low` and `high` demand of a pair of operand values. */
  predicate BothDemanded(k: Kind, u: Interval, v: Interval, low: Int64, high: Int64, x: int, y: int) {
    && (Correctable(low) ==> Demanded(k.Low(), u, v, low, x, y) && Unsaturated(k.Low(), v, low))
    && (Correctable(high) ==> Demanded(k.High(), u, v, high, x, y) && Unsaturated(k.High(), v, high))
  }

  /** Every correction that is made starts from finite bounds. */
  predicate BothStart(k: Kind, u: Interval, v: Interval, low: Int64, high: Int64) {
    (Correctable(low) ==> CanStart(k.Low(), u, v)) && (Correctable(high) ==> CanStart(k.High(), u, v))
  }

  lemma CorrectionsSound(k: Kind, w: World, a: nat, b: nat, low: Int64, high: Int64) returns (at': seq<Interval>)
    requires a < |w.at| && b < |w.at| && a != b && BothStart(k, w.at[a], w.at[b], low, high)
    ensures Corrections(k, w, a, b, low, high).Alive? && at' == Corrections(k, w, a, b, low, high).value.at
    ensures NarrowsTo(w.at, at', a, b)
    ensures forall x, y :: Holds(at', a, b, x, y) ==>
              Holds(w.at, a, b, x, y) && BothDemanded(k, w.at[a], w.at[b], low, high, x, y)
  {
    var at1 := CorrectSound(k.Low(), w, a, b, low);
    HighUnaffected(k, w.at[a], w.at[b], at1[a], at1[b], high, 0, 0);
    at' := CorrectSound(k.High(), Correct(k.Low(), w, a, b, low).value, a, b, high);
    NarrowsTrans(w.at, at1, at', a, b);
    forall x, y | Holds(at', a, b, x, y)
      ensures Holds(w.at, a, b, x, y) && BothDemanded(k, w.at[a], w.at[b], low, high, x, y)
    {
      assert Holds(at1, a, b, x, y);
      HighUnaffected(k, w.at[a], w.at[b], at1[a], at1[b], high, x, y);
    }
  }

  /** Two corrections in a row, run on the answers of both. */
  lemma CorrectionsChain(k: Kind, at: seq<Interval>, at1: seq<Interval>, at2: seq<Interval>, a: nat, b: nat,
                         low: Int64, high: Int64, p1: seq<nat>, p2: seq<nat>, rest: seq<nat>)
    requires a < |at| && b < |at| && |at1| == |at|
    requires Correct(k.Low(), World(at, p1 + (p2 + rest)), a, b, low) == Alive(World(at1, p2 + rest))
    requires Correct(k.High(), World(at1, p2 + rest), a, b, high) == Alive(World(at2, rest))
    ensures Corrections(k, World(at, (p1 + p2) + rest), a, b, low, high) == Alive(World(at2, rest))
  {
    hide Correct;
    assert (p1 + p2) + rest == p1 + (p2 + rest);
  }

  lemma CorrectionsKeep(k: Kind, at: seq<Interval>, a: nat, b: nat, low: Int64, high: Int64, x: int, y: int)
    returns (p: seq<nat>, at': seq<Interval>)
    requires a != b && Holds(at, a, b, x, y) && BothStart(k, at[a], at[b], low, high)
    requires BothDemanded(k, at[a], at[b], low, high, x, y)
    ensures forall rest: seq<nat> :: Corrections(k, World(at, p + rest), a, b, low, high) == Alive(World(at', rest))
    ensures Holds(at', a, b, x, y) && NarrowsTo(at, at', a, b)
  {
    var p1, at1 := CorrectKeeps(k.Low(), at, a, b, low, x, y);
    HighUnaffected(k, at[a], at[b], at1[a], at1[b], high, x, y);
    var p2, at2 := CorrectKeeps(k.High(), at1, a, b, high, x, y);
    p, at' := p1 + p2, at2;
    NarrowsTrans(at, at1, at2, a, b);
    forall rest: seq<nat> ensures Corrections(k, World(at, p + rest), a, b, low, high) == Alive(World(at', rest)) {
      CorrectionsChain(k, at, at1, at2, a, b, low, high, p1, p2, rest);
    }
  }

  /** The split is two corrections by the gaps. */
  lemma SplitForm(k: Kind, w: World, r: nat, a: nat, b: nat)
    requires r < |w.at| && a < |w.at| && b < |w.at|
    ensures k.Split(w, r, a, b) ==
              match Gaps(k, w.at[r], w.at[a], w.at[b])
              case Cancelled => Cancelled
              case Alive((low, high)) => Corrections(k, w, a, b, low, high)
  {
  }

  /** Every branch of a split is a narrower box, and it is empty of pairs unless the split fits.
      For small gaps it holds only pairs that agree with the result. */
  lemma SplitSound(k: Kind, w: World, r: nat, a: nat, b: nat) returns (at': seq<Interval>)
    requires Trio(w.at, r, a, b) && k.Split(w, r, a, b).Alive?
    ensures at' == k.Split(w, r, a, b).value.at && NarrowsTo(w.at, at', a, b)
    ensures forall x, y :: Holds(at', a, b, x, y) ==>
              Holds(w.at, a, b, x, y) && SplitFits(k, w.at[r], w.at[a], w.at[b])
    ensures Sided(w.at[r]) && SmallGaps(k, w.at[r], w.at[a], w.at[b]) ==>
              forall x, y :: Holds(at', a, b, x, y) ==> w.at[r].Has(k.Result(x, y))
  {
    hide Gaps, Corrections;
    var u, v, res := w.at[a], w.at[b], w.at[r];
    SplitForm(k, w, r, a, b);
    GapsStart(k, res, u, v);
    var (low, high) := Gaps(k, res, u, v).value;
    at' := CorrectionsSound(k, w, a, b, low, high);
    forall x, y | Holds(at', a, b, x, y) && Sided(res) && SmallGaps(k, res, u, v)
      ensures res.Has(k.Result(x, y))
    {
      DemandsAgree(k, res, u, v, x, y);
    }
  }

  /** A pair of values that agrees with the result survives some answers. */
  lemma SplitKeeps(k: Kind, at: seq<Interval>, r: nat, a: nat, b: nat, x: int, y: int)
    returns (p: seq<nat>, at': seq<Interval>)
    requires Trio(at, r, a, b) && Holds(at, a, b, x, y) && at[r].Has(k.Result(x, y))
    requires SplitFits(k, at[r], at[a], at[b])
    ensures forall rest: seq<nat> :: k.Split(World(at, p + rest), r, a, b) == Alive(World(at', rest))
    ensures Holds(at', a, b, x, y) && NarrowsTo(at, at', a, b)
  {
    hide Gaps, Corrections;
    AgreementMeets(k, at[r], at[a], at[b], x, y);
    GapsStart(k, at[r], at[a], at[b]);
    var (low, high) := Gaps(k, at[r], at[a], at[b]).value;
    p, at' := CorrectionsKeep(k, at, a, b, low, high, x, y);
    forall rest: seq<nat> ensures k.Split(World(at, p + rest), r, a, b) == Alive(World(at', rest)) {
      SplitForm(k, World(at, p + rest), r, a, b);
    }
  }

  /** Some branch of a split keeps the pair. */
  ghost predicate SplitSurvives(k: Kind, at: seq<Interval>, r: nat, a: nat, b: nat, x: int, y: int)
    requires r < |at| && a < |at| && b < |at|
  {
    exists answers: seq<nat> ::
      var o := k.Split(World(at, answers), r, a, b);
      o.Alive? && Holds(o.value.at, a, b, x, y)
  }

  /** The staircase is exact: over all answers, the branches hold precisely the pairs of operand
      values whose sum (or difference) the result can have.  The one exception is a correction that
      starts from a saturating bound: then no branch holds any pair at all. */
  lemma SplitExact(k: Kind, at: seq<Interval>, r: nat, a: nat, b: nat, x: int, y: int)
    requires Trio(at, r, a, b) && Sided(at[r]) && SmallGaps(k, at[r], at[a], at[b])
    ensures SplitSurvives(k, at, r, a, b, x, y) <==>
              Holds(at, a, b, x, y) && at[r].Has(k.Result(x, y)) && SplitFits(k, at[r], at[a], at[b])
  {
    hide SmallGaps, SplitFits;
    if SplitSurvives(k, at, r, a, b, x, y) {
      var answers: seq<nat> :| var o := k.Split(World(at, answers), r, a, b);
                               o.Alive? && Holds(o.value.at, a, b, x, y);
      var at' := SplitSound(k, World(at, answers), r, a, b);
    }
    if Holds(at, a, b, x, y) && at[r].Has(k.Result(x, y)) && SplitFits(k, at[r], at[a], at[b]) {
      var p, at' := SplitKeeps(k, at, r, a, b, x, y);
      assert k.Split(World(at, p + []), r, a, b) == Alive(World(at', []));
    }
  }

  /** Without any limit on the gaps, what agrees is lost exactly where a correction saturates, or result and forward
      result reach the same infinity. */
  lemma SplitLosesNothing(k: Kind, at: seq<Interval>, r: nat, a: nat, b: nat, x: int, y: int)
    requires Trio(at, r, a, b) && Holds(at, a, b, x, y) && at[r].Has(k.Result(x, y))
    ensures SplitSurvives(k, at, r, a, b, x, y) <==> SplitFits(k, at[r], at[a], at[b])
  {
    hide SplitFits;
    if SplitSurvives(k, at, r, a, b, x, y) {
      var answers: seq<nat> :| var o := k.Split(World(at, answers), r, a, b);
                               o.Alive? && Holds(o.value.at, a, b, x, y);
      var at' := SplitSound(k, World(at, answers), r, a, b);
    }
    if SplitFits(k, at[r], at[a], at[b]) {
      var p, at' := SplitKeeps(k, at, r, a, b, x, y);
      assert k.Split(World(at, p + []), r, a, b) == Alive(World(at', []));
    }
  }
}
