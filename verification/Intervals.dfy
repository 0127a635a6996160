/**
 Intervals over saturating bounds, the values they stand for, and the soundness of the forward
 operations: the result of an operation holds every result its operands' values can have.
 */
module Intervals {
  import opened Outcomes
  import opened Bounds

  datatype Tristate = False | True | Maybe {
    function Not(): Tristate {
      match this
      case False => True
      case True => False
      case Maybe => Maybe
    }

    /** The truth values a tristate stands for. */
    predicate Covers(b: bool) {
      Maybe? || (True? <==> b)
    }
  }

  datatype Interval = Interval(low: Int64, high: Int64) {

    predicate IsBottom() {
      high < low
    }

    predicate IsConstant() {
      low == high
    }

    predicate IsFinite() {
      Finite(low) && Finite(high)
    }

    /** Both bounds are integers that an interval can stand for. */
    predicate IsOrdinary() {
      -MAX < low < MAX && -MAX < high < MAX
    }

    predicate Includes(b: Int64) {
      low <= b <= high
    }

    predicate IncludesAll(i: Interval) {
      low <= i.low && i.high <= high
    }

    predicate Intersects(i: Interval) {
      !(i.low < low && i.high < low) && !(low < i.low && high < i.low)
    }

    /** The number of values between the bounds as the program's unsigned 64-bit arithmetic has it. */
    function Size(): nat {
      (high - low + 1) % 0x1_0000_0000_0000_0000
    }

    /** The integers an interval stands for.  The values at the two ends of the 64-bit range are
        infinities (and -MAX negates to one), so no integer there is ever meant. */
    predicate Has(x: int) {
      -MAX < x < MAX && low <= x <= high
    }

    /** The integers an interval spans when an infinite end has no limit; -MAX, which negates to an infinity, is an end
        without limit as well. */
    predicate Spans(x: int) {
      (low <= -MAX || low <= x) && (high == MAX || x <= high)
    }

    predicate Within(i: Interval) {
      i.low <= low && high <= i.high
    }
  }

  /** An infinite end is on its own side.  Every interval that stands for some integer is like that. */
  predicate Sided(i: Interval) {
    i.low < MAX && -MAX < i.high
  }

  const TOP := Interval(MIN, MAX)

  function Constant(c: Int64): Interval {
    Interval(c, c)
  }

  function BoolValue(b: bool): Int64 {
    if b then 1 else 0
  }

  function OfTristate(t: Tristate): Interval {
    match t
    case False => Constant(0)
    case True => Constant(1)
    case Maybe => Interval(0, 1)
  }

  function Meet(l: Interval, r: Interval): Interval {
    if l.IsBottom() then l
    else if r.IsBottom() then r
    else Interval(Max(l.low, r.low), Min(l.high, r.high))
  }

  function Join(l: Interval, r: Interval): Interval {
    if l.IsBottom() then r
    else if r.IsBottom() then l
    else Interval(Min(l.low, r.low), Max(l.high, r.high))
  }

  function Plus(l: Interval, r: Interval): Outcome<Interval> {
    var low :- Add(l.low, r.low);
    var high :- Add(l.high, r.high);
    Alive(Interval(low, high))
  }

  function Minus(l: Interval, r: Interval): Outcome<Interval> {
    var low :- Sub(l.low, r.high);
    var high :- Sub(l.high, r.low);
    Alive(Interval(low, high))
  }

  /** The least and the greatest of four corner values. */
  function Hull(a: Int64, b: Int64, c: Int64, d: Int64): Interval {
    Interval(Min(Min(a, b), Min(c, d)), Max(Max(a, b), Max(c, d)))
  }

  function Times(l: Interval, r: Interval): Interval {
    Hull(Mul(l.low, r.low), Mul(l.low, r.high), Mul(l.high, r.low), Mul(l.high, r.high))
  }

  /** A divisor that may be zero cancels the branch.  (So does, here, the machine fault of an
      empty divisor with a zero bound, which ends the branch as well.) */
  function Over(l: Interval, r: Interval): Outcome<Interval> {
    if r.Includes(0) || r.low == 0 || r.high == 0 then Cancelled
    else
      var a :- Div(l.low, r.low);
      var b :- Div(l.low, r.high);
      var c :- Div(l.high, r.low);
      var d :- Div(l.high, r.high);
      Alive(Hull(a, b, c, d))
  }

  function Equal(l: Interval, r: Interval): Tristate {
    if l.IsConstant() && r.IsConstant() && r.low == l.low then True
    else if l.Intersects(r) then Maybe
    else False
  }

  function Less(l: Interval, r: Interval): Tristate {
    if l.IsConstant() && r.IsConstant() then (if l.low < r.low then True else False)
    else if l.high < r.low then True
    else if l.low > r.high then False
    else Maybe
  }

  function Greater(l: Interval, r: Interval): Tristate {
    if l.IsConstant() && r.IsConstant() then (if l.low > r.low then True else False)
    else if l.low > r.high then True
    else if l.high < r.low then False
    else Maybe
  }

  // ----- meet and join

  /** Meet is intersection; join contains both sides and is the least interval that does. */
  lemma MeetJoinExact(l: Interval, r: Interval, x: int)
    ensures Meet(l, r).Has(x) <==> l.Has(x) && r.Has(x)
    ensures l.Has(x) || r.Has(x) ==> Join(l, r).Has(x)
    ensures forall i: Interval :: !l.IsBottom() && !r.IsBottom() && l.Within(i) && r.Within(i) ==> Join(l, r).Within(i)
  {
  }

  // ----- addition and subtraction

  /** Adding never meets opposite infinities between inhabited intervals, and loses no sum. */
  lemma PlusSound(l: Interval, r: Interval, x: int, y: int)
    requires l.Has(x) && r.Has(y)
    ensures Plus(l, r).Alive?
    ensures -MAX < x + y < MAX ==> Plus(l, r).value.Has(x + y)
  {
  }

  lemma MinusSound(l: Interval, r: Interval, x: int, y: int)
    requires l.Has(x) && r.Has(y)
    ensures Minus(l, r).Alive?
    ensures -MAX < x - y < MAX ==> Minus(l, r).value.Has(x - y)
  {
  }

  // ----- multiplication

  /** Multiplying by a bound keeps or reverses the order, whatever saturates. */
  lemma {:induction false} MulMonotone(a: Int64, b: Int64, c: Int64)
    requires a <= b
    ensures c >= 0 ==> Mul(a, c) <= Mul(b, c)
    ensures c <= 0 ==> Mul(b, c) <= Mul(a, c)
  {
    ProductSign(a, c);
    ProductSign(b, c);
    if c >= 0 {
      MulMono(a, b, c);
    } else {
      var m: int := 0 - c;
      MulMono(a, b, m);
      assert a * m == -(a * c) && b * m == -(b * c);
    }
  }

  lemma MulCommutes(a: Int64, b: Int64)
    ensures Mul(a, b) == Mul(b, a)
  {
  }

  predicate Between(x: int, a: int, b: int) {
    a <= x <= b || b <= x <= a
  }

  lemma MulBetween(a: Int64, x: Int64, b: Int64, c: Int64)
    requires a <= x <= b
    ensures Between(Mul(x, c), Mul(a, c), Mul(b, c))
  {
    MulMonotone(a, x, c);
    MulMonotone(x, b, c);
  }

  /** The saturated corner products enclose the product of any two bounds between. */
  lemma {:induction false} CornersEnclose(l: Interval, r: Interval, x: Int64, y: Int64)
    requires l.Includes(x) && r.Includes(y)
    ensures Times(l, r).Includes(Mul(x, y))
  {
    MulBetween(l.low, x, l.high, y);
    MulBetween(r.low, y, r.high, l.low);
    MulBetween(r.low, y, r.high, l.high);
    MulCommutes(l.low, y);
    MulCommutes(l.high, y);
    MulCommutes(l.low, r.low);
    MulCommutes(l.low, r.high);
    MulCommutes(l.high, r.low);
    MulCommutes(l.high, r.high);
  }

  /** The saturated corner products enclose every product of members. */
  lemma TimesSound(l: Interval, r: Interval, x: int, y: int)
    requires l.Has(x) && r.Has(y)
    ensures -MAX < x * y < MAX ==> Times(l, r).Has(x * y)
  {
    CornersEnclose(l, r, x, y);
  }

  lemma AddMonotone(a: Int64, b: Int64, a': Int64, b': Int64)
    requires a' <= a && b' <= b && Add(a, b).Alive? && Add(a', b').Alive?
    ensures Add(a', b').value <= Add(a, b).value
  {
  }

  /** Narrower operands have a narrower sum and difference. */
  lemma SumMonotone(l: Interval, r: Interval, l': Interval, r': Interval, x: int, y: int)
    requires l.Has(x) && r.Has(y) && l.Within(l') && r.Within(r')
    ensures Plus(l, r).Alive? && Plus(l', r').Alive? && Plus(l, r).value.Within(Plus(l', r').value)
    ensures Minus(l, r).Alive? && Minus(l', r').Alive? && Minus(l, r).value.Within(Minus(l', r').value)
  {
    PlusSound(l, r, x, y);
    PlusSound(l', r', x, y);
    MinusSound(l, r, x, y);
    MinusSound(l', r', x, y);
    hide Add;
    AddMonotone(l.low, r.low, l'.low, r'.low);
    AddMonotone(l'.high, r'.high, l.high, r.high);
    AddMonotone(l.low, Neg(r.high), l'.low, Neg(r'.high));
    AddMonotone(l'.high, Neg(r'.low), l.high, Neg(r.low));
  }

  /** And a narrower product. */
  lemma TimesMonotone(l: Interval, r: Interval, l': Interval, r': Interval)
    requires !l.IsBottom() && !r.IsBottom() && l.Within(l') && r.Within(r')
    ensures Times(l, r).Within(Times(l', r'))
  {
    hide Mul;
    CornersEnclose(l', r', l.low, r.low);
    CornersEnclose(l', r', l.low, r.high);
    CornersEnclose(l', r', l.high, r.low);
    CornersEnclose(l', r', l.high, r.high);
  }

  // ----- division

  lemma {:induction false} QuotientMono(a: int, b: int, d: int)
    requires 0 <= a <= b && d > 0
    ensures a / d <= b / d
  {
    if a / d > b / d {
      MulMono(b / d + 1, a / d, d);
    }
  }

  lemma {:induction false} QuotientAnti(a: int, d: int, e: int)
    requires a >= 0 && 0 < d <= e
    ensures 0 <= a / e <= a / d
  {
    if a / e > a / d {
      MulMono(d, e, a / e);
      MulMono(a / d + 1, a / e, d);
    }
  }

  lemma TruncDivMonotone(a: int, b: int, d: int)
    requires a <= b && d != 0
    ensures d > 0 ==> TruncDiv(a, d) <= TruncDiv(b, d)
    ensures d < 0 ==> TruncDiv(b, d) <= TruncDiv(a, d)
  {
    var m := if d > 0 then d else -d;
    TruncDivSign(a, m);
    TruncDivSign(b, m);
    if a >= 0 {
      QuotientMono(a, b, m);
    } else if b < 0 {
      QuotientMono(-b, -a, m);
    }
    TruncDivNegate(a, m);
    TruncDivNegate(b, m);
  }

  lemma TruncDivSign(a: int, m: int)
    requires m > 0
    ensures a >= 0 ==> TruncDiv(a, m) == a / m >= 0
    ensures a <= 0 ==> TruncDiv(a, m) == -(-a / m) <= 0
  {
  }

  lemma TruncDivNegate(a: int, m: int)
    requires m > 0
    ensures TruncDiv(a, -m) == -TruncDiv(a, m)
  {
  }

  /** Division by a bound keeps or reverses the order of the dividends. */
  lemma DivBetween(a: Int64, x: Int64, b: Int64, c: Int64)
    requires a <= x <= b && Finite(c) && c != 0
    ensures Div(a, c).Alive? && Div(x, c).Alive? && Div(b, c).Alive?
    ensures Between(Div(x, c).value, Div(a, c).value, Div(b, c).value)
  {
    TruncDivInt64OrInfinite(a, c);
    TruncDivInt64OrInfinite(x, c);
    TruncDivInt64OrInfinite(b, c);
    TruncDivMonotone(a, x, c);
    TruncDivMonotone(x, b, c);
  }

  lemma TruncDivInt64OrInfinite(a: Int64, c: Int64)
    requires c != 0
    ensures Finite(a) ==> MIN <= TruncDiv(a, c) <= MAX
  {
    if Finite(a) {
      TruncDivInt64(a, c);
    }
  }

  /** A quotient lies between the quotients by the two ends of a divisor range without zero. */
  lemma DivisorBetween(a: Int64, r: Interval, y: int)
    requires r.Has(y) && !r.Includes(0)
    requires Finite(a) || r.IsFinite()
    ensures Div(a, r.low).Alive? && Div(a, y).Alive? && Div(a, r.high).Alive?
    ensures Between(Div(a, y).value, Div(a, r.low).value, Div(a, r.high).value)
  {
    var m := if a >= 0 then a as int else 0 - a;
    if y > 0 {
      QuotientAnti(m, r.low, y);
      QuotientAnti(m, y, r.high);
    } else {
      QuotientAnti(m, 0 - r.high, -y);
      QuotientAnti(m, -y, 0 - r.low);
    }
  }

  /** Division by a range without zero survives exactly when the two operands do not both reach
      an infinity; then it encloses every truncated quotient of members. */
  lemma {:induction false} OverSound(l: Interval, r: Interval, x: int, y: int)
    requires l.Has(x) && r.Has(y) && !r.Includes(0)
    ensures Over(l, r).Alive? <==> l.IsFinite() || r.IsFinite()
    ensures Over(l, r).Alive? ==> Over(l, r).value.Has(TruncDiv(x, y))
  {
    TruncDivMagnitude(x, y);
    if l.IsFinite() || r.IsFinite() {
      DivBetween(l.low, x, l.high, y);
      DivisorBetween(l.low, r, y);
      DivisorBetween(l.high, r, y);
    }
  }

  lemma TruncDivMagnitude(x: int, y: int)
    requires -MAX < x < MAX && y != 0
    ensures -MAX < TruncDiv(x, y) < MAX
  {
    var m := if y > 0 then y else -y;
    QuotientAnti(if x >= 0 then x else -x, 1, m);
    TruncDivSign(x, m);
    TruncDivNegate(x, m);
  }

  // ----- no value is added: every bound of a result is itself a result

  /** Not empty, with every infinite end on its own side. */
  predicate Proper(i: Interval) {
    Sided(i) && !i.IsBottom()
  }

  const FAR := 2 * MAX * MAX

  /** A bound far enough out for an infinity: no result of it and a bound comes back into 64 bits, except by zero. */
  function Far(b: Int64): int {
    if b == MAX then FAR else if b == MIN then -FAR else b
  }

  lemma FarSpanned(i: Interval)
    requires Proper(i)
    ensures i.Spans(Far(i.low)) && i.Spans(Far(i.high))
  {
  }

  ghost predicate IsSum(l: Interval, r: Interval, b: Int64) {
    exists x, y :: l.Spans(x) && r.Spans(y) && b == Clamp(x + y)
  }

  ghost predicate IsDifference(l: Interval, r: Interval, b: Int64) {
    exists x, y :: l.Spans(x) && r.Spans(y) && b == Clamp(x - y)
  }

  ghost predicate IsProduct(l: Interval, r: Interval, b: Int64) {
    exists x, y :: l.Spans(x) && r.Spans(y) && b == Clamp(x * y)
  }

  ghost predicate IsQuotient(l: Interval, r: Interval, b: Int64) {
    exists x, y :: l.Spans(x) && r.Spans(y) && y != 0 && b == Clamp(TruncDiv(x, y))
  }

  /** Addition is as narrow as an interval can be: both its bounds are saturated sums. */
  lemma PlusTight(l: Interval, r: Interval)
    requires Proper(l) && Proper(r)
    ensures Plus(l, r).Alive? && IsSum(l, r, Plus(l, r).value.low) && IsSum(l, r, Plus(l, r).value.high)
  {
    FarSpanned(l);
    FarSpanned(r);
    assert Plus(l, r).value.low == Clamp(Far(l.low) + Far(r.low));
    assert Plus(l, r).value.high == Clamp(Far(l.high) + Far(r.high));
  }

  lemma MinusTight(l: Interval, r: Interval)
    requires Proper(l) && Proper(r)
    ensures Minus(l, r).Alive?
    ensures IsDifference(l, r, Minus(l, r).value.low) && IsDifference(l, r, Minus(l, r).value.high)
  {
    FarSpanned(l);
    FarSpanned(r);
    var far := -FAR;
    if r.low == -MAX {
      assert r.Spans(far) && Minus(l, r).value.high == Clamp(Far(l.high) - far);
    }
    assert Minus(l, r).value.low == Clamp(Far(l.low) - Far(r.high));
    assert r.low != -MAX ==> Minus(l, r).value.high == Clamp(Far(l.high) - Far(r.low));
  }

  lemma {:induction false} CornerIsProduct(a: Int64, b: Int64)
    ensures Mul(a, b) == Clamp(Far(a) * Far(b))
  {
    if a != 0 && b != 0 && (Infinite(a) || Infinite(b)) {
      FarProduct(Far(a), Far(b));
    }
  }

  /** The product of two integers, one of them far out and none zero, is far out as well. */
  lemma FarProduct(x: int, y: int)
    requires x != 0 && y != 0
    requires x == FAR || x == -FAR || y == FAR || y == -FAR
    ensures (x > 0) == (y > 0) ==> x * y >= FAR
    ensures (x > 0) != (y > 0) ==> x * y <= -FAR
  {
    var m, n := if x > 0 then x else -x, if y > 0 then y else -y;
    MulMono(1, m, n);
    MulMono(1, n, m);
    assert x * y == if (x > 0) == (y > 0) then m * n else -(m * n);
    assert m * n == n * m;
  }

  /** Both bounds of a product are saturated products. */
  lemma TimesTight(l: Interval, r: Interval)
    requires Proper(l) && Proper(r)
    ensures IsProduct(l, r, Times(l, r).low) && IsProduct(l, r, Times(l, r).high)
  {
    FarSpanned(l);
    FarSpanned(r);
    forall a: Int64, b: Int64 | a in {l.low, l.high} && b in {r.low, r.high}
      ensures IsProduct(l, r, Mul(a, b))
    {
      CornerIsProduct(a, b);
    }
  }

  /** An integer far out divided by a bound stays beyond all bounds. */
  lemma FarQuotient(b: int)
    requires -MAX <= b <= MAX && b != 0
    ensures b > 0 ==> TruncDiv(FAR, b) >= MAX && TruncDiv(-FAR, b) <= MIN
    ensures b < 0 ==> TruncDiv(FAR, b) <= MIN && TruncDiv(-FAR, b) >= MAX
  {
    var n := if b > 0 then b else -b;
    QuotientAnti(FAR, n, MAX);
    assert FAR / MAX == 2 * MAX;
    TruncDivSign(FAR, n);
    TruncDivSign(-FAR, n);
    TruncDivNegate(FAR, n);
    TruncDivNegate(-FAR, n);
  }

  lemma QuotientByFar(a: int)
    requires MIN < a < MAX
    ensures TruncDiv(a, FAR) == 0 && TruncDiv(a, -FAR) == 0
  {
    TruncDivSign(a, FAR);
    TruncDivNegate(a, FAR);
  }

  lemma CornerIsQuotient(a: Int64, b: Int64)
    requires b != 0 && (Finite(a) || Finite(b))
    ensures Div(a, b).Alive? && Div(a, b).value == Clamp(TruncDiv(Far(a), Far(b)))
  {
    if Infinite(b) {
      QuotientByFar(a);
    } else if Infinite(a) {
      FarQuotient(b);
    } else {
      TruncDivInt64(a, b);
    }
    hide TruncDiv;
  }

  /** Both bounds of a quotient are saturated quotients. */
  lemma OverTight(l: Interval, r: Interval)
    requires Proper(l) && Proper(r) && Over(l, r).Alive?
    ensures IsQuotient(l, r, Over(l, r).value.low) && IsQuotient(l, r, Over(l, r).value.high)
  {
    FarSpanned(l);
    FarSpanned(r);
    forall a: Int64, b: Int64 | a in {l.low, l.high} && b in {r.low, r.high}
      ensures b != 0 && Div(a, b).Alive? && IsQuotient(l, r, Div(a, b).value)
    {
      CornerIsQuotient(a, b);
    }
  }

  // ----- comparisons

  lemma ComparisonSound(l: Interval, r: Interval, x: int, y: int)
    requires l.Has(x) && r.Has(y)
    ensures Equal(l, r).Covers(x == y)
    ensures Less(l, r).Covers(x < y)
    ensures Greater(l, r).Covers(x > y)
  {
  }

  /** No integer is in both intervals. */
  ghost predicate Apart(l: Interval, r: Interval) {
    forall x :: !(l.Spans(x) && r.Spans(x))
  }

  ghost predicate AllBelow(l: Interval, r: Interval) {
    forall x, y :: l.Spans(x) && r.Spans(y) ==> x < y
  }

  predicate SameConstant(l: Interval, r: Interval) {
    l.IsConstant() && l == r
  }

  /** Each answer is given exactly when it can be: equality is certain for one constant and excluded for intervals
      apart; an order is certain, or excluded, when all values of one side are below those of the other, and
      excluded for one constant. */
  lemma ComparisonDecides(l: Interval, r: Interval)
    requires Proper(l) && Proper(r)
    ensures Equal(l, r).True? <==> SameConstant(l, r)
    ensures Equal(l, r).False? <==> Apart(l, r)
    ensures Less(l, r).True? <==> AllBelow(l, r)
    ensures Less(l, r).False? <==> AllBelow(r, l) || SameConstant(l, r)
    ensures Greater(l, r).True? <==> AllBelow(r, l)
    ensures Greater(l, r).False? <==> AllBelow(l, r) || SameConstant(l, r)
  {
    FarSpanned(l);
    FarSpanned(r);
    var x: int := Max(l.low, r.low);
    assert Equal(l, r).Maybe? ==> l.Spans(x) && r.Spans(x);
    assert SameConstant(l, r) ==> l.Spans(l.low) && r.Spans(l.low);
  }

  /** Only what is open stays open. */
  lemma NotDecides(t: Tristate)
    ensures t.Not().Maybe? <==> t.Maybe?
    ensures OfTristate(t).IsConstant() <==> !t.Maybe?
  {
  }

  lemma NotSound(t: Tristate, b: bool)
    requires t.Covers(b)
    ensures t.Not().Covers(!b)
    ensures OfTristate(t).Has(BoolValue(b))
  {
  }
}
