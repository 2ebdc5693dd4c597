/** Integer division as the two source languages define it. Dafny's own `/`
    and `%` are Euclidean; Python's `//` and `%` round toward negative
    infinity and Go's `/` truncates toward zero. The three agree when both
    operands are non-negative and the divisor is positive. Also the
    increment of the program's shared ID counters. */
module Arith {

  /** `atomic.AddInt64(&counter, 1)` on an ID counter: the returned ID is
      the new counter value, above every ID handed out before it. */
  function NextID(counter: int): (next: int)
    ensures next > counter
  {
    counter + 1
  }

  /** Python's `a // b`. */
  function FloorDiv(a: int, b: int): (q: int)
    requires b != 0
    ensures b > 0 ==> q * b <= a < q * b + b
    ensures b < 0 ==> q * b + b < a <= q * b
  {
    if b > 0 then a / b else (-a) / (-b)
  }

  /** Python's `a % b`: takes the sign of the divisor. */
  function FloorMod(a: int, b: int): (r: int)
    requires b != 0
    ensures FloorDiv(a, b) * b + r == a
    ensures b > 0 ==> 0 <= r < b
    ensures b < 0 ==> b < r <= 0
  {
    a - FloorDiv(a, b) * b
  }

  function Abs(a: int): nat {
    if a < 0 then -a else a
  }

  /** Go's `a / b` on integers. */
  function TruncDiv(a: int, b: int): (q: int)
    requires b != 0
    ensures Abs(q) * Abs(b) <= Abs(a) < Abs(q) * Abs(b) + Abs(b)
    ensures q > 0 ==> (a > 0 <==> b > 0)
    ensures q < 0 ==> (a > 0 <==> b < 0)
  {
    var m := Abs(a) / Abs(b);
    QuotientBounds(Abs(a), Abs(b));
    if (a < 0) == (b < 0) then m else -m
  }

  /** The quotient of a natural number by a positive one. */
  lemma QuotientBounds(x: nat, y: int)
    requires y > 0
    ensures 0 <= x / y && (x / y) * y <= x < (x / y) * y + y
    ensures x / y > 0 ==> x >= y
  {
    var m, r := x / y, x % y;
    assert x == m * y + r;
    if m > 0 {
      MulAtLeast(m, y);
    }
  }

  /** Floor and truncation differ only for a negative, inexact quotient. */
  lemma FloorTruncAgree(a: int, b: int)
    requires b != 0
    requires (a >= 0 && b > 0) || (a <= 0 && b < 0)
    ensures FloorDiv(a, b) == TruncDiv(a, b)
  {
  }

  /** Euclidean division is determined by quotient and remainder. */
  lemma {:induction false} DivUnique(a: int, b: int, q: int, m: int)
    requires b > 0 && a == q * b + m && 0 <= m < b
    ensures a / b == q && a % b == m
  {
    var q', m' := a / b, a % b;
    var d := q' - q;
    assert d * b == m - m' by {
      assert a == q' * b + m';
    }
    if d >= 1 {
      MulAtLeast(d, b);
    } else if d <= -1 {
      MulAtLeast(-d, b);
    }
  }

  lemma MulAtLeast(x: int, b: int)
    requires x >= 1 && b > 0
    ensures x * b >= b
  {
    assert x * b == (x - 1) * b + b;
  }
}
