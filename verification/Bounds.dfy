/**
 Interval bounds: 64-bit signed integers whose two extreme values stand for the infinities.
 The functions give the meaning of the arithmetic over the integers; class `Bound` holds the
 compound operators as the program computes them, in 64 bits and without a wider type.
 */
module Bounds {
  import opened Outcomes

  const MAX: int := 0x7fff_ffff_ffff_ffff
  const MIN: int := -0x8000_0000_0000_0000

  type Int64 = x: int | MIN <= x <= MAX

  predicate Infinite(x: Int64) {
    x == MAX || x == MIN
  }

  predicate Finite(x: Int64) {
    !Infinite(x)
  }

  function Min(x: Int64, y: Int64): Int64 {
    if y < x then y else x
  }

  function Max(x: Int64, y: Int64): Int64 {
    if x < y then y else x
  }

  /** An integer brought into 64 bits by saturation. */
  function Clamp(x: int): Int64 {
    if x >= MAX then MAX else if x <= MIN then MIN else x
  }

  /** Division that truncates toward zero, as the program's `/` does. */
  function TruncDiv(x: int, y: int): (q: int)
    requires y != 0
  {
    if x >= 0 then (if y > 0 then x / y else -(x / -y))
    else (if y > 0 then -(-x / y) else -x / -y)
  }

  /** Remainder of truncating division: it has the sign of the dividend. */
  function TruncRem(x: int, y: int): int
    requires y != 0
  {
    x - TruncDiv(x, y) * y
  }

  function Neg(x: Int64): Int64 {
    if x == MIN then MAX else if x == MAX then MIN else -x
  }

  /** Saturating sum; opposite infinities have none. */
  function Add(x: Int64, y: Int64): Outcome<Int64> {
    if Infinite(x) && Infinite(y) && x != y then Cancelled
    else if Infinite(x) then Alive(x)
    else if Infinite(y) then Alive(y)
    else Alive(Clamp(x + y))
  }

  function Sub(x: Int64, y: Int64): Outcome<Int64> {
    Add(x, Neg(y))
  }

  /** Saturating product; zero absorbs even an infinity. */
  function Mul(x: Int64, y: Int64): Int64 {
    if x == 0 || y == 0 then 0
    else if Finite(x) && Finite(y) then Clamp(x * y)
    else if (x > 0) == (y > 0) then MAX
    else MIN
  }

  /** Truncating quotient; an infinity is divided by its divisor's sign alone, so even by zero. */
  function Div(x: Int64, y: Int64): Outcome<Int64>
    requires y != 0 || Infinite(x)
  {
    if Infinite(x) && Infinite(y) then Cancelled
    else if Infinite(y) then Alive(0)
    else if Infinite(x) then Alive(if y < 0 then Neg(x) else x)
    else TruncDivInt64(x, y); Alive(TruncDiv(x, y))
  }

  function Rem(x: Int64, y: Int64): Int64
    requires y != 0
  {
    if Finite(x) && Finite(y) then TruncRemInt64(x, y); TruncRem(x, y) else x
  }

  /** `++` on a 64-bit value, with the wrap-around written out. */
  function Increment(x: Int64): Int64 {
    if x == MAX then MIN else x + 1
  }

  function Decrement(x: Int64): Int64 {
    if x == MIN then MAX else x - 1
  }

  lemma TruncDivInt64(x: Int64, y: Int64)
    requires y != 0 && Finite(x)
    ensures MIN <= TruncDiv(x, y) <= MAX
  {
  }

  lemma TruncRemInt64(x: Int64, y: Int64)
    requires y != 0 && Finite(x)
    ensures MIN <= TruncRem(x, y) <= MAX
  {
  }

  // ----- truncating division, against multiplication

  lemma MulMono(a: int, b: int, c: int)
    requires a <= b && c >= 0
    ensures a * c <= b * c
  {
  }

  lemma {:induction false} DivUnique(x: int, y: int, q: int)
    requires y > 0 && q * y <= x < (q + 1) * y
    ensures x / y == q
  {
    var k := x / y;
    if k < q {
      MulMono(k + 1, q, y);
    } else if k > q {
      MulMono(q + 1, k, y);
    }
  }

  /** For positive operands the test `a > max / b` is exactly "the product exceeds max". */
  lemma {:induction false} ExceedsQuotient(a: int, b: int, m: int)
    requires b > 0 && m >= 0
    ensures a > m / b <==> a * b > m
  {
    var q := m / b;
    assert q * b <= m < (q + 1) * b;
    if a > q {
      MulMono(q + 1, a, b);
    } else {
      MulMono(a, q, b);
    }
  }

  datatype Overflow = NoOverflow | Upward | Downward

  /** The overflow test of `+=`.  Every intermediate value is a 64-bit one. */
  method SumOverflow(a: Int64, b: Int64) returns (o: Overflow)
    requires Finite(a) && Finite(b)
    ensures o == if a + b >= MAX then Upward else if a + b <= MIN then Downward else NoOverflow
  {
    if b > 0 && a > 0 {
      var rest: Int64 := MAX - a;
      return if b >= rest then Upward else NoOverflow;
    }
    if b < 0 && a < 0 {
      var rest: Int64 := MIN - a;
      return if b <= rest then Downward else NoOverflow;
    }
    return NoOverflow;
  }

  lemma ProductSign(a: int, b: int)
    ensures (a > 0 && b > 0) || (a < 0 && b < 0) ==> a * b > 0
    ensures (a > 0 && b < 0) || (a < 0 && b > 0) ==> a * b < 0
  {
    if a < 0 && b < 0 {
      assert a * b == -a * -b;
    } else if a < 0 && b > 0 {
      assert a * b == -(-a * b);
    } else if a > 0 && b < 0 {
      assert a * b == -(a * -b);
    }
  }

  lemma AboveLimit(a: int, b: int)
    requires a > 0 && b > 0
    ensures 0 <= TruncDiv(MAX, b) <= MAX
    ensures a > TruncDiv(MAX, b) <==> a * b > MAX
  {
    ExceedsQuotient(a, b, MAX);
  }

  lemma BelowLimit(a: int, b: int)
    requires a < 0 && b > 0
    ensures MIN <= TruncDiv(MIN, b) <= 0
    ensures a < TruncDiv(MIN, b) <==> a * b < MIN
  {
    ExceedsQuotient(-a, b, -MIN);
    assert -a * b == -(a * b);
  }

  /** The overflow test of `*=`: negations and quotients stay within 64 bits. */
  method ProductOverflow(a: Int64, b: Int64) returns (o: Overflow)
    requires Finite(a) && Finite(b) && a != 0 && b != 0
    ensures o == if a * b > MAX then Upward else if a * b < MIN then Downward else NoOverflow
  {
    ProductSign(a, b);
    if a < 0 {
      if b < 0 {
        var negA: Int64, negB: Int64 := -a, -b;
        AboveLimit(negA, negB);
        assert negA * negB == a * b;
        var limit: Int64 := TruncDiv(MAX, negB);
        if negA > limit { return Upward; }
      }
      if b > 0 {
        BelowLimit(a, b);
        var limit: Int64 := TruncDiv(MIN, b);
        if a < limit { return Downward; }
      }
    }
    if a > 0 {
      if b < 0 {
        BelowLimit(b, a);
        var limit: Int64 := TruncDiv(MIN, a);
        if b < limit { return Downward; }
      }
      if b > 0 {
        AboveLimit(a, b);
        var limit: Int64 := TruncDiv(MAX, b);
        if a > limit { return Upward; }
      }
    }
    return NoOverflow;
  }

  /** A bound whose compound operators work in place. */
  class Bound {
    var value: Int64

    constructor (v: Int64)
      ensures value == v
    {
      value := v;
    }

    /** `+=`; false when the branch is cancelled. */
    method AddAssign(o: Int64) returns (alive: bool)
      modifies this
      ensures alive == Add(old(value), o).Alive?
      ensures value == if alive then Add(old(value), o).value else old(value)
    {
      if Finite(value) && Finite(o) {
        var ov := SumOverflow(value, o);
        if ov != NoOverflow {
          value := if ov == Upward then MAX else MIN;
        } else {
          value := value + o;
        }
      } else if Finite(value) && Infinite(o) {
        value := o;
      } else if Infinite(value) && Finite(o) {
      } else if Infinite(o) && value != o {
        return false;
      }
      return true;
    }

    /** `-=` */
    method SubAssign(o: Int64) returns (alive: bool)
      modifies this
      ensures alive == Sub(old(value), o).Alive?
      ensures value == if alive then Sub(old(value), o).value else old(value)
    {
      alive := AddAssign(Neg(o));
    }

    /** `*=` */
    method MulAssign(o: Int64)
      modifies this
      ensures value == Mul(old(value), o)
    {
      if o == 0 {
        value := 0;
      } else if value == 0 {
      } else if Finite(value) && Finite(o) {
        var ov := ProductOverflow(value, o);
        if ov != NoOverflow {
          value := if ov == Upward then MAX else MIN;
        } else {
          value := value * o;
        }
      } else {
        value := if (value > 0) != (o > 0) then MIN else MAX;
      }
    }

    /** `/=`; dividing a finite bound by zero is the caller's fault in the program too. */
    method DivAssign(o: Int64) returns (alive: bool)
      requires o != 0 || Infinite(value)
      modifies this
      ensures alive == Div(old(value), o).Alive?
      ensures value == if alive then Div(old(value), o).value else old(value)
    {
      if Finite(value) && Finite(o) {
        TruncDivInt64(value, o);
        value := TruncDiv(value, o);
      } else if Finite(value) && Infinite(o) {
        value := 0;
      } else if Infinite(value) && Finite(o) {
        if o < 0 {
          value := Neg(value);
        }
      } else {
        return false;
      }
      return true;
    }
  }
}
