/**
 * Java's 32-bit `int` arithmetic, as the operator lambdas of the speechlet use it:
 * `+`, `-` and `*` keep the low 32 bits of the exact result (two's complement,
 * Java Language Specification sections 15.18.2 and 15.17.1), and `/` rounds the
 * exact quotient toward zero and throws on a zero divisor (section 15.17.2).
 */
module JavaInt {
  import opened Outcomes

  const TwoTo32: int := 0x1_0000_0000
  const MinValue: int := -0x8000_0000
  const MaxValue: int := 0x7fff_ffff

  predicate InRange(x: int) {
    MinValue <= x <= MaxValue
  }

  /** The values of a Java `int`. */
  type Int32 = x: int | InRange(x)

  function Abs(x: int): nat {
    if x < 0 then -x else x
  }

  /** The `int` that Java keeps of an exact integer result: the one congruent to it modulo 2^32. */
  function Wrap(x: int): (r: Int32)
    ensures (x - r) % TwoTo32 == 0
    ensures InRange(x) ==> r == x
  {
    var m := x % TwoTo32;
    if m <= MaxValue then m else m - TwoTo32
  }

  /** Wrap is the only `int` congruent to the exact result, so it is Java's answer and no other. */
  lemma WrapUnique(x: int, y: int)
    requires InRange(y) && (x - y) % TwoTo32 == 0
    ensures y == Wrap(x)
  {
  }

  /** Abs distributes over multiplication. */
  lemma AbsMul(x: int, y: int)
    ensures Abs(x * y) == Abs(x) * Abs(y)
  {
  }

  /**
   * Exact integer division rounding toward zero: the quotient of largest magnitude
   * whose product with the divisor does not exceed the dividend in magnitude,
   * positive when the operands have the same sign and negative otherwise.
   */
  function TruncDiv(a: int, b: int): (q: int)
    requires b != 0
    ensures Abs(q * b) <= Abs(a) < Abs(q * b) + Abs(b)
    ensures q == 0 || (q > 0 <==> ((a > 0) == (b > 0)))
  {
    var n, d := Abs(a), Abs(b);
    var m := n / d;
    DivBounds(n, d);
    if (a < 0) == (b < 0) then
      AbsMul(m, b);
      assert Abs(m) == m;
      m
    else
      AbsMul(-m, b);
      assert Abs(-m) == m;
      -m
  }

  /** Euclidean division of naturals, which agrees with truncation, bounds its quotient. */
  lemma DivBounds(n: nat, d: nat)
    requires d > 0
    ensures (n / d) * d <= n < (n / d) * d + d
    ensures n / d > 0 ==> n >= d
  {
  }

  /** The two postconditions of TruncDiv single out its quotient: no other integer meets them. */
  lemma TruncDivUnique(a: int, b: int, q: int)
    requires b != 0
    requires Abs(q * b) <= Abs(a) < Abs(q * b) + Abs(b)
    requires q == 0 || (q > 0 <==> ((a > 0) == (b > 0)))
    ensures q == TruncDiv(a, b)
  {
    var t := TruncDiv(a, b);
    AbsMul(q, b);
    AbsMul(t, b);
    var n, d := Abs(a), Abs(b);
    FloorUnique(n, d, Abs(q));
    FloorUnique(n, d, Abs(t));
  }

  /** k is the floor of n / d exactly when k * d <= n < (k + 1) * d. */
  lemma FloorUnique(n: nat, d: nat, k: nat)
    requires d > 0
    requires k * d <= n < k * d + d
    ensures k == n / d
  {
    var f := n / d;
    assert f * d <= n < f * d + d;
    if k < f {
      MulMono(k + 1, f, d);
    } else if f < k {
      MulMono(f + 1, k, d);
    }
  }

  lemma MulMono(x: nat, y: nat, d: nat)
    requires x <= y
    ensures x * d <= y * d
  {
  }

  /** Java's `a + b` on `int`. */
  function Add(a: Int32, b: Int32): (r: Int32)
    ensures (a + b - r) % TwoTo32 == 0
    ensures InRange(a + b) ==> r == a + b
  {
    Wrap(a + b)
  }

  /** Java's `a - b` on `int`. */
  function Sub(a: Int32, b: Int32): (r: Int32)
    ensures (a - b - r) % TwoTo32 == 0
    ensures InRange(a - b) ==> r == a - b
  {
    Wrap(a - b)
  }

  /** Java's `a * b` on `int`. */
  function Mul(a: Int32, b: Int32): (r: Int32)
    ensures (a * b - r) % TwoTo32 == 0
    ensures InRange(a * b) ==> r == a * b
  {
    Wrap(a * b)
  }

  /**
   * Java's `a / b` on `int`: ArithmeticException for a zero divisor, otherwise the
   * truncated quotient, which is exact except for MinValue / -1 (where it wraps).
   */
  function Div(a: Int32, b: Int32): (r: Result<Int32>)
    ensures r.Failure? <==> b == 0
    ensures r.Failure? ==> r.error == ArithmeticException
    ensures r.Success? && !(a == MinValue && b == -1) ==> r.value == TruncDiv(a, b)
  {
    if b == 0 then Failure(ArithmeticException)
    else
      var q := TruncDiv(a, b);
      assert !(a == MinValue && b == -1) ==> InRange(q) by {
        if !(a == MinValue && b == -1) {
          QuotientInRange(a, b);
        }
      }
      Success(Wrap(q))
  }

  /** A truncated quotient of two `int`s is an `int` unless it is MinValue / -1. */
  lemma QuotientInRange(a: Int32, b: Int32)
    requires b != 0 && !(a == MinValue && b == -1)
    ensures InRange(TruncDiv(a, b))
  {
    var q := TruncDiv(a, b);
    var n, d, k := Abs(a), Abs(b), Abs(q);
    AbsMul(q, b);
    assert InRange(a);
    assert k * d <= n <= -MinValue;
    MulMono(1, d, k);
    assert k <= -MinValue;
    if k == -MinValue {
      if d >= 2 {
        MulMono(2, d, k);
        assert false;
      }
      assert d == 1 && n == -MinValue;
      assert a == MinValue;
    }
  }

  /** The overflowing cases Java defines rather than rejects. */
  lemma OverflowExamples()
    ensures Add(MaxValue, 1) == MinValue
    ensures Sub(MinValue, 1) == MaxValue
    ensures Mul(0x1_0000, 0x1_0000) == 0
    ensures Div(MinValue, -1) == Success(MinValue)
  {
  }

  /** Truncation differs from Dafny's Euclidean `/` on a negative dividend. */
  lemma TruncationExamples()
    ensures TruncDiv(-7, 2) == -3 && -7 / 2 == -4
    ensures TruncDiv(7, -2) == -3 && TruncDiv(-7, -2) == 3
  {
  }
}
