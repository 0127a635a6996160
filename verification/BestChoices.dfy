/**
 Which starts and ends a product split needs.  Of all that can be chosen, one start and one end are the best for a
 solution: if they lose it, so do all others.  They depend on the signs of the bounds of the result alone.
 */
module BestChoices {
  import opened Outcomes
  import opened Bounds
  import opened Intervals
  import opened Backward
  import opened SignedProducts
  import Products

  // ----- the best start

  /** For a positive bound the last start up to `x`, for a negative one the first start, or 1 if that is not beyond. */
  function BestStart(r: Interval, v: Interval, x: int): int
    requires Ordinary(r.low) && v.low != 0 && v.high != 0
  {
    if r.low > 0 then (if x < LastStart(r, v) then x else LastStart(r, v))
    else if FirstStart(r, v) <= 0 < x then 1
    else FirstStart(r, v)
  }

  /** `t` lies between the first and the last start, and neither it nor the quotient by it excludes the pair. */
  predicate StartWorks(r: Interval, v: Interval, x: int, y: int, t: int)
    requires Ordinary(r.low) && v.low != 0 && v.high != 0
  {
    FirstStart(r, v) <= t <= LastStart(r, v) && t != 0 && t <= x && RoundUp(r.low, t) <= y
  }

  lemma RoundUpPositive(a: int, b: int)
    requires a > 0 && b > 0
    ensures RoundUp(a, b) == RoundUp(-a, -b) == Products.Ceil(a, b)
  {
    assert TruncRem(a, b) == a % b;
    assert TruncRem(-a, -b) == -(a % b) by {
      assert TruncDiv(-a, -b) == a / b;
      assert a / b * -b == -(a / b * b);
    }
  }

  lemma RoundUpByOne(a: int)
    ensures RoundUp(a, 1) == a
  {
  }

  /** A quotient of different signs that is rounded up to `-z` or less had a magnitude of `z` at least. */
  lemma RoundUpOpposite(a: int, m: int, z: int)
    requires a > 0 && m > 0 && z > 0 && RoundUp(a, -m) <= -z
    ensures m * z <= a
  {
    assert TruncDiv(a, -m) == -(a / m);
    Products.FloorGreatest(a, m, z);
    assert z * m == m * z;
  }

  /** With both factors and the quotient positive, a later start asks less of the other factor. */
  lemma LaterStartAsksLess(a: int, s: int, t: int)
    requires a > 0 && 0 < s <= t
    ensures RoundUp(a, t) <= RoundUp(a, s)
  {
    RoundUpPositive(a, s);
    RoundUpPositive(a, t);
    Products.CeilAnti(a, s, t);
  }

  /** With all of them negative, an earlier one does. */
  lemma EarlierStartAsksLess(a: int, s: int, t: int)
    requires a < 0 && s <= t < 0
    ensures RoundUp(a, s) <= RoundUp(a, t)
  {
    RoundUpPositive(-a, -s);
    RoundUpPositive(-a, -t);
    Products.CeilAnti(-a, -t, -s);
  }

  /** Two negative factors: only the start at the value itself can work. */
  lemma OnlyItself(a: int, x: int, y: int, t: int)
    requires a > 0 && x * y >= a && t <= x < 0 && RoundUp(a, t) <= y
    ensures t == x && x * y == a
  {
    var m, n, z := -t, -x, -y;
    if y >= 0 {
      ProductSign(x, y);
      assert false;
    }
    RoundUpOpposite(a, m, z);
    assert n * z == x * y;
    MulMono(n, m, z);
    assert m * z == n * z;
    if n < m {
      MulMono(n + 1, m, z);
      assert false;
    }
  }

  /** The signs that the division before the split leaves, as far as they matter. */
  predicate SignsFit(r: Interval, v: Interval, x: int) {
    (x > 0 && r.low > 0 ==> v.low >= 0) && (x > 0 && r.low < 0 ==> v.low < 0)
  }

  /** If any start works, the best one does. */
  lemma BestStartWorks(r: Interval, v: Interval, x: int, y: int, t: int)
    requires Ordinary(r.low) && r.low != 0 && v.low != 0 && v.high != 0 && v.low <= y <= v.high
    requires x != 0 && x * y >= r.low && SignsFit(r, v, x) && StartWorks(r, v, x, y, t)
    ensures StartWorks(r, v, x, y, BestStart(r, v, x))
  {
    var first, last := FirstStart(r, v), LastStart(r, v);
    if r.low > 0 {
      if x < 0 {
        OnlyItself(r.low, x, y, t);
      } else {
        FirstPositive(r, v);
        LaterStartAsksLess(r.low, t, BestStart(r, v, x));
      }
    } else if x < 0 {
      EarlierStartAsksLess(r.low, first, t);
    } else {
      NegativeStarts(r, v);
      LeastReached(r.low, x, y);
      RoundUpByOne(r.low);
    }
  }

  lemma FirstPositive(r: Interval, v: Interval)
    requires Ordinary(r.low) && r.low > 0 && 0 < v.low <= v.high
    ensures 1 <= FirstStart(r, v)
  {
    RoundUpPositive(r.low, v.high);
    Products.CeilRange(r.low, v.high);
  }

  /** Below a negative bound and with a negative low end, the last start is positive, and the first one is at most 1
      unless it is not before the last. */
  lemma NegativeStarts(r: Interval, v: Interval)
    requires Ordinary(r.low) && r.low < 0 && v.low < 0 && v.low <= v.high && v.high != 0
    ensures 1 <= LastStart(r, v)
    ensures FirstStart(r, v) <= 1 || LastStart(r, v) <= FirstStart(r, v)
  {
    var a: int, m: int, n: int := 0 - r.low, 0 - v.low, 0 - v.high;
    RoundUpPositive(a, m);
    Products.CeilRange(a, m);
    if v.high < 0 {
      RoundUpPositive(a, n);
      Products.CeilAnti(a, n, m);
    } else {
      TruncDivSign(r.low, v.high);
    }
  }

  lemma LeastReached(a: int, x: int, y: int)
    requires a < 0 < x && x * y >= a
    ensures y >= a
  {
    if y < a {
      MulMono(1, x, -y);
    }
  }

  // ----- the best end

  /** For a positive bound the first end from `x` on, otherwise the last one. */
  function BestEnd(r: Interval, u: Interval, v: Interval, x: int): int
    requires Ordinary(r.high) && v.high != 0
  {
    var q := TruncDiv(r.high, v.high);
    if r.high > 0 then (if x < q then q else x) else u.high
  }

  /** `e` lies between the quotient and the high bound, and neither it nor the quotient by it excludes the pair. */
  predicate EndWorks(r: Interval, u: Interval, v: Interval, x: int, y: int, e: int)
    requires Ordinary(r.high) && v.high != 0
  {
    TruncDiv(r.high, v.high) <= e <= u.high && e != 0 && x <= e && y <= TruncDiv(r.high, e)
  }

  /** Dividing by more of the same sign brings a quotient down if the dividend is positive, and up if it is not. */
  lemma QuotientByMore(a: int, d: int, e: int)
    requires d <= e && (0 < d || e < 0)
    ensures a >= 0 ==> TruncDiv(a, e) <= TruncDiv(a, d)
    ensures a <= 0 ==> TruncDiv(a, d) <= TruncDiv(a, e)
  {
    var m := if a >= 0 then a else -a;
    if d > 0 {
      QuotientAnti(m, d, e);
      TruncDivSign(a, d);
      TruncDivSign(a, e);
    } else {
      QuotientAnti(m, -e, -d);
      TruncDivSign(a, -d);
      TruncDivSign(a, -e);
      TruncDivNegate(a, -d);
      TruncDivNegate(a, -e);
    }
  }

  /** If any end works, the best one does. */
  lemma BestEndWorks(r: Interval, u: Interval, v: Interval, x: int, y: int, e: int)
    requires Ordinary(r.high) && v.high != 0 && u.Has(x) && !u.Includes(0) && EndWorks(r, u, v, x, y, e)
    ensures EndWorks(r, u, v, x, y, BestEnd(r, u, v, x))
  {
    if r.high > 0 {
      QuotientByMore(r.high, BestEnd(r, u, v, x), e);
    } else {
      QuotientByMore(r.high, e, u.high);
    }
  }

  // ----- what can be chosen comes down to them

  /** Counting from one bound to another fits 32 bits. */
  predicate FewBetween(low: int, high: int) {
    -0x8000_0000 < high - low + 1 < 0x8000_0000
  }

  predicate FewStarts(r: Interval, v: Interval) {
    Ordinary(r.low) && v.low != 0 && v.high != 0 ==> FewBetween(FirstStart(r, v), LastStart(r, v))
  }

  predicate FewEnds(r: Interval, u: Interval, v: Interval) {
    Ordinary(r.high) && v.high != 0 ==> FewBetween(FirstEnd(r, u.low, v), u.high)
  }

  predicate BestBelow(r: Interval, v: Interval, x: int, y: int) {
    Ordinary(r.low) && v.low != 0 && v.high != 0 && StartWorks(r, v, x, y, BestStart(r, v, x))
  }

  predicate BestAbove(r: Interval, u: Interval, v: Interval, x: int, y: int) {
    Ordinary(r.high) && v.high != 0 && EndWorks(r, u, v, x, y, BestEnd(r, u, v, x))
  }

  /** The choices that are made have fewer than 2^31 alternatives. */
  predicate FewChoices(r: Interval, u: Interval, v: Interval)
    requires ProductGaps(r, u, v).Alive?
  {
    var (low, high) := ProductGaps(r, u, v).value;
    (Correctable(low) ==> FewStarts(r, v)) && (Correctable(high) ==> FewEnds(r, u, v))
  }

  /** Where corrections are due, the best start and the best end keep the pair. */
  predicate BestKept(r: Interval, u: Interval, v: Interval, x: int, y: int) {
    ProductGaps(r, u, v).Alive? &&
    var (low, high) := ProductGaps(r, u, v).value;
    (Correctable(low) ==> BestBelow(r, v, x, y)) && (Correctable(high) ==> BestAbove(r, u, v, x, y))
  }

  lemma CountExact(low: Int64, high: Int64)
    requires Ordinary(low) && Ordinary(high) && FewBetween(low, high)
    ensures CountOf(low, high) == Alive(high - low + 1)
  {
  }

  /** The starts that can be chosen are those between the first and the last one. */
  lemma StartChoosable(r: Interval, v: Interval, t: Int64)
    requires Ordinary(r.low) && v.low != 0 && v.high != 0 && FewBetween(FirstStart(r, v), LastStart(r, v))
    ensures (exists i: nat :: IsStart(r, v, t, i)) <==> FirstStart(r, v) <= t <= LastStart(r, v) && t != 0
  {
    hide FirstStart, LastStart, CountOf;
    CountExact(FirstStart(r, v), LastStart(r, v));
    if FirstStart(r, v) <= t <= LastStart(r, v) && t != 0 {
      assert IsStart(r, v, t, LastStart(r, v) - t);
    }
  }

  lemma KeptByStart(r: Interval, u: Interval, v: Interval, x: int, y: int, t: Int64)
    requires Ordinary(r.low) && v.low != 0 && v.high != 0 && FewBetween(FirstStart(r, v), LastStart(r, v))
    requires u.Has(x) && v.Has(y) && StartWorks(r, v, x, y, t)
    ensures KeptBelow(r, u, v, x, y, RaisedLeft(r, u, v, t))
  {
    StartChoosable(r, v, t);
    QuotientOrdinary(r.low, t);
    hide FirstStart, LastStart, CountOf, DivUp, RoundUp;
    var i: nat :| IsStart(r, v, t, i);
    assert RaisedLeft(r, u, v, t).Has(x) && RaisedRight(r, v, t).Has(y);
  }

  lemma StartOfKept(r: Interval, u: Interval, v: Interval, x: int, y: int, u': Interval) returns (t: Int64)
    requires Ordinary(r.low) && v.low != 0 && v.high != 0 && FewBetween(FirstStart(r, v), LastStart(r, v))
    requires KeptBelow(r, u, v, x, y, u')
    ensures StartWorks(r, v, x, y, t)
  {
    var s: Int64, i: nat :|
      IsStart(r, v, s, i) && u' == RaisedLeft(r, u, v, s) && u'.Has(x) && RaisedRight(r, v, s).Has(y);
    t := s;
    StartChoosable(r, v, t);
    QuotientOrdinary(r.low, t);
  }

  lemma FirstEndOrdinary(r: Interval, low: Int64, v: Interval)
    requires Ordinary(r.high) && v.high != 0 && low < MAX
    ensures Ordinary(FirstEnd(r, low, v))
  {
    QuotientOrdinary(r.high, v.high);
  }

  lemma EndChoosable(r: Interval, u: Interval, v: Interval, e: Int64)
    requires Ordinary(r.high) && v.high != 0 && u.low < MAX && Ordinary(u.high)
    requires FewBetween(FirstEnd(r, u.low, v), u.high)
    ensures (exists j: nat :: IsEnd(r, u, v, e, j)) <==> FirstEnd(r, u.low, v) <= e <= u.high && e != 0
  {
    FirstEndOrdinary(r, u.low, v);
    hide FirstEnd, CountOf;
    CountExact(FirstEnd(r, u.low, v), u.high);
    if FirstEnd(r, u.low, v) <= e <= u.high && e != 0 {
      assert IsEnd(r, u, v, e, e - FirstEnd(r, u.low, v));
    }
  }

  /** The first stage may raise the low bound of the left operand, as long as it keeps the value. */
  lemma FewAfter(r: Interval, u: Interval, v: Interval, u': Interval, x: int)
    requires Ordinary(r.high) && v.high != 0 && FewBetween(FirstEnd(r, u.low, v), u.high)
    requires u'.Within(u) && u'.high == u.high && u'.Has(x)
    ensures FewBetween(FirstEnd(r, u'.low, v), u'.high)
  {
  }

  lemma KeptByEnd(r: Interval, u: Interval, v: Interval, x: int, y: int, e: Int64)
    requires Ordinary(r.high) && v.high != 0 && Ordinary(u.high) && FewBetween(FirstEnd(r, u.low, v), u.high)
    requires u.Has(x) && v.Has(y) && EndWorks(r, u, v, x, y, e)
    ensures KeptAbove(r, u, v, x, y)
  {
    EndChoosable(r, u, v, e);
    QuotientOrdinary(r.high, e);
    var j: nat :| IsEnd(r, u, v, e, j);
    assert LoweredRight(r, v, e).Has(y);
  }

  lemma EndOfKept(r: Interval, u: Interval, v: Interval, x: int, y: int) returns (e: Int64)
    requires Ordinary(r.high) && v.high != 0 && Ordinary(u.high) && u.low < MAX
    requires FewBetween(FirstEnd(r, u.low, v), u.high) && KeptAbove(r, u, v, x, y)
    ensures EndWorks(r, u, v, x, y, e)
  {
    var s: Int64, j: nat :| IsEnd(r, u, v, s, j) && x <= s && LoweredRight(r, v, s).Has(y);
    e := s;
    EndChoosable(r, u, v, e);
    QuotientOrdinary(r.high, e);
  }

  /** What the first correction leaves of the left operand still has the value, and the same high bound. */
  lemma RaisedKeeps(r: Interval, u: Interval, v: Interval, x: int, y: int, u': Interval)
    requires KeptBelow(r, u, v, x, y, u')
    ensures u'.Within(u) && u'.high == u.high && u'.Has(x)
  {
    hide FirstStart, LastStart, RaisedRight;
  }

  lemma BestOfKept(r: Interval, u: Interval, v: Interval, x: int, y: int, u': Interval)
    requires v.Has(y) && x != 0 && x * y >= r.low && r.low != 0 && SignsFit(r, v, x) && FewStarts(r, v)
    requires KeptBelow(r, u, v, x, y, u')
    ensures BestBelow(r, v, x, y)
  {
    hide FirstStart, LastStart, StartWorks, BestStart;
    var t := StartOfKept(r, u, v, x, y, u');
    BestStartWorks(r, v, x, y, t);
  }

  lemma KeptOfBest(r: Interval, u: Interval, v: Interval, x: int, y: int) returns (u': Interval)
    requires u.Has(x) && v.Has(y) && FewStarts(r, v) && BestBelow(r, v, x, y)
    ensures KeptBelow(r, u, v, x, y, u')
  {
    var t: Int64 := BestStart(r, v, x);
    u' := RaisedLeft(r, u, v, t);
    hide BestStart;
    KeptByStart(r, u, v, x, y, t);
  }

  lemma BestEndKept(r: Interval, u: Interval, v: Interval, x: int, y: int, u': Interval)
    requires u.Has(x) && v.Has(y) && !u.Includes(0) && Ordinary(r.high) && Ordinary(u.high)
    requires u'.Within(u) && u'.high == u.high && u'.Has(x) && FewEnds(r, u, v)
    ensures KeptAbove(r, u', v, x, y) <==> BestAbove(r, u, v, x, y)
  {
    hide FirstEnd;
    if v.high != 0 {
      FewAfter(r, u, v, u', x);
      if KeptAbove(r, u', v, x, y) {
        var e := EndOfKept(r, u', v, x, y);
        BestEndWorks(r, u, v, x, y, e);
      }
      if EndWorks(r, u, v, x, y, BestEnd(r, u, v, x)) {
        var e: Int64 := BestEnd(r, u, v, x);
        KeptByEnd(r, u', v, x, y, e);
      }
    }
  }

  /** What the lower correction meets after the division: a bound that is not zero, and fitting signs. */
  predicate Prepared(r: Interval, u: Interval, v: Interval, x: int)
    requires ProductGaps(r, u, v).Alive?
  {
    Correctable(ProductGaps(r, u, v).value.0) ==> r.low != 0 && SignsFit(r, v, x)
  }

  /** A solution is kept if and only if the best start and the best end keep it. */
  lemma KeptIffBest(r: Interval, u: Interval, v: Interval, x: int, y: int)
    requires u.IsFinite() && !u.Includes(0) && u.Has(x) && v.Has(y) && r.Has(x * y)
    requires ProductGaps(r, u, v).Alive? && FewChoices(r, u, v) && Prepared(r, u, v, x)
    ensures Kept(r, u, v, x, y) <==> BestKept(r, u, v, x, y)
  {
    ProductGapsExact(r, u, v);
    hide ProductGaps, FewStarts, FewEnds, SignsFit, BestBelow, BestAbove, KeptBelow, KeptAbove;
    var (low, high) := ProductGaps(r, u, v).value;
    if Kept(r, u, v, x, y) {
      var u' :| KeptVia(r, u, v, x, y, u');
      if Correctable(low) {
        BestOfKept(r, u, v, x, y, u');
        RaisedKeeps(r, u, v, x, y, u');
      }
      if Correctable(high) {
        BestEndKept(r, u, v, x, y, u');
      }
    }
    if BestKept(r, u, v, x, y) {
      var u' := u;
      if Correctable(low) {
        u' := KeptOfBest(r, u, v, x, y);
        RaisedKeeps(r, u, v, x, y, u');
      }
      if Correctable(high) {
        BestEndKept(r, u, v, x, y, u');
      }
      assert KeptVia(r, u, v, x, y, u');
    }
  }

  lemma NegativeProduct(x: int, y: int)
    requires x < 0 < y
    ensures x * y < 0
  {
  }

  /** Two negative factors, where the low bound is corrected: only a product that is that bound can be kept. */
  lemma NegativeFactorsKept(r: Interval, u: Interval, v: Interval, x: int, y: int)
    requires ProductGaps(r, u, v).Alive? && Correctable(ProductGaps(r, u, v).value.0)
    requires u.high < 0 < r.low && u.Has(x) && r.Has(x * y) && Kept(r, u, v, x, y)
    ensures x * y == r.low
  {
    ProductGapsExact(r, u, v);
    hide ProductGaps, FirstStart, LastStart, CountOf;
    var u' :| KeptVia(r, u, v, x, y, u');
    var t: Int64, i: nat :|
      IsStart(r, v, t, i) && u' == RaisedLeft(r, u, v, t) && u'.Has(x) && RaisedRight(r, v, t).Has(y);
    QuotientOrdinary(r.low, t);
    if Finite(t) {
      OnlyItself(r.low, x, y, t);
    } else {
      assert DivUp(r.low, t) == Alive(1);
      NegativeProduct(x, y);
    }
  }
}
