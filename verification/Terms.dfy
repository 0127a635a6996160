/** Abstract values as terms over whole bytes, the numbers they denote, and little-endian arithmetic. */
module Terms {

  type Octet = x: int | 0 <= x < 256

  /** An abstract value of some bytes, a lifted byte, or an operation on values. */
  datatype Term = Value(id: nat, bytes: nat) | Byte(octet: Octet) | Concat(high: Term, low: Term)
                | Trunc(t: Term, bits: nat)

  function Pow(base: nat, exponent: nat): nat {
    if exponent == 0 then 1 else base * Pow(base, exponent - 1)
  }

  /** The width of a term in bytes. */
  function Width(t: Term): nat {
    match t
    case Value(_, bytes) => bytes
    case Byte(_) => 1
    case Concat(high, low) => Width(high) + Width(low)
    case Trunc(_, bits) => bits / 8
  }

  lemma {:induction false} PowPositive(base: nat, n: nat)
    requires base > 0
    ensures Pow(base, n) > 0
  {
    if n > 0 {
      PowPositive(base, n - 1);
    }
  }

  /** The number a term stands for when `env` gives the abstract values. */
  function Denote(t: Term, env: nat -> nat): nat {
    PowPositive(256, if t.Concat? then Width(t.low) else if t.Value? then t.bytes else 0);
    PowPositive(2, if t.Trunc? then t.bits else 0);
    match t
    case Value(id, bytes) => env(id) % Pow(256, bytes)
    case Byte(octet) => octet
    case Concat(high, low) => Denote(high, env) * Pow(256, Width(low)) + Denote(low, env)
    case Trunc(t, bits) => Denote(t, env) % Pow(2, bits)
  }

  /** Byte number `k` of `v`, counted from the least significant. */
  function Digit(v: nat, k: nat): Octet {
    if k == 0 then v % 256 else Digit(v / 256, k - 1)
  }

  /** `v` without its `k` least significant bytes. */
  function Shift(v: nat, k: nat): nat {
    if k == 0 then v else Shift(v, k - 1) / 256
  }

  lemma {:induction false} ShiftIn(v: nat, k: nat)
    ensures Shift(v, k + 1) == Shift(v / 256, k)
  {
    if k > 0 {
      ShiftIn(v, k - 1);
    }
  }

  lemma {:induction false} DigitShift(v: nat, k: nat)
    ensures Digit(v, k) == Shift(v, k) % 256
  {
    if k > 0 {
      DigitShift(v / 256, k - 1);
      ShiftIn(v, k - 1);
    }
  }

  /** The `k` least significant bytes of `v`, put together again. */
  function Low(v: nat, k: nat): nat {
    if k == 0 then 0 else v % 256 + 256 * Low(v / 256, k - 1)
  }

  lemma {:induction false} LowIsRemainder(v: nat, k: nat)
    ensures Pow(256, k) > 0 && Low(v, k) == v % Pow(256, k)
  {
    PowPositive(256, k);
    if k > 0 {
      LowIsRemainder(v / 256, k - 1);
      SplitRemainder(v, Pow(256, k - 1));
    }
  }

  lemma SplitRemainder(v: nat, p: nat)
    requires p > 0
    ensures v % (256 * p) == v % 256 + 256 * (v / 256 % p)
  {
    var h, l := v / 256, v % 256;
    var q, r := h / p, h % p;
    assert h == q * p + r;
    assert 256 * (q * p) == q * (256 * p);
    assert v == q * (256 * p) + (256 * r + l);
    assert 0 <= 256 * r + l < 256 * p;
    RemainderOf(v, 256 * p, q, 256 * r + l);
  }

  lemma RemainderOf(v: int, d: int, q: int, r: int)
    requires d > 0 && v == q * d + r && 0 <= r < d
    ensures v % d == r
  {
    var k := v / d - q;
    assert v == (v / d) * d + v % d;
    assert k * d == r - v % d by {
      assert k * d == (v / d) * d - q * d;
    }
    if k >= 1 {
      AtLeast(k, d);
    } else if k <= -1 {
      AtLeast(-k, d);
    }
  }

  lemma SmallRemainder(v: nat, d: nat)
    requires v < d
    ensures v % d == v
  {
    RemainderOf(v, d, 0, v);
  }

  lemma AtLeast(k: int, d: int)
    requires k >= 1 && d >= 0
    ensures k * d >= d
  {
    assert (k - 1) * d >= 0;
  }

  lemma {:induction false} PowOfBytes(k: nat)
    ensures Pow(2, 8 * k) == Pow(256, k)
  {
    if k > 0 {
      PowOfBytes(k - 1);
      var n := 8 * k;
      assert Pow(2, n) == 2 * Pow(2, n - 1) == 4 * Pow(2, n - 2) == 8 * Pow(2, n - 3) == 16 * Pow(2, n - 4);
      assert Pow(2, n - 4) == 2 * Pow(2, n - 5) == 4 * Pow(2, n - 6) == 8 * Pow(2, n - 7) == 16 * Pow(2, n - 8);
    }
  }

  lemma {:induction false} PowAdd(base: nat, i: nat, j: nat)
    ensures Pow(base, i + j) == Pow(base, i) * Pow(base, j)
  {
    if i > 0 {
      PowAdd(base, i - 1, j);
      assert base * (Pow(base, i - 1) * Pow(base, j)) == base * Pow(base, i - 1) * Pow(base, j);
    }
  }

  lemma PowWord()
    ensures Pow(2, 64) == 0x1_0000_0000_0000_0000
  {
    PowOfBytes(8);
    PowAdd(256, 4, 4);
    assert Pow(256, 4) == 256 * Pow(256, 3) == 65536 * Pow(256, 2) == 0x1_0000_0000;
  }

  /** Truncating to `8 * k` bits keeps exactly the `k` least significant bytes. */
  lemma TruncKeepsBytes(t: Term, k: nat, env: nat -> nat)
    ensures Denote(Trunc(t, 8 * k), env) == Low(Denote(t, env), k)
  {
    PowOfBytes(k);
    LowIsRemainder(Denote(t, env), k);
  }
}
