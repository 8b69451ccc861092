/** Rust's `i32` and the arithmetic the calculator applies to it. */
module I32 {

  const MIN: int := -0x8000_0000
  const MAX: int := 0x7fff_ffff

  predicate InRange(x: int) {
    MIN <= x <= MAX
  }

  type i32 = x: int | InRange(x)

  function Abs(x: int): nat {
    if x < 0 then -x else x
  }

  /** Division rounding toward zero, as Rust's `/` on integers does
      (Dafny's own `/` is Euclidean). The result is characterised by the
      remainder it leaves: smaller than the divisor in magnitude and never
      of the opposite sign to the dividend. */
  function TruncDiv(a: int, b: int): (q: int)
    requires b != 0
    ensures Abs(a - q * b) < Abs(b)
    ensures a - q * b == 0 || (a - q * b < 0 <==> a < 0)
  {
    if a >= 0 then
      if b > 0 then a / b else -(a / -b)
    else
      if b > 0 then -((-a) / b) else (-a) / (-b)
  }

  /** The remainder condition pins the quotient down: no other integer
      leaves a remainder with the same two properties. */
  lemma TruncDivUnique(a: int, b: int, q: int)
    requires b != 0
    requires Abs(a - q * b) < Abs(b)
    requires a - q * b == 0 || (a - q * b < 0 <==> a < 0)
    ensures q == TruncDiv(a, b)
  {
    var q0 := TruncDiv(a, b);
    var r, r0 := a - q * b, a - q0 * b;
    Distribute(q0, q, b);
    assert Abs(r - r0) < Abs(b);
    if q != q0 {
      AbsProduct(q0 - q, b);
      assert false;
    }
  }

  lemma Distribute(x: int, y: int, b: int)
    ensures (x - y) * b == x * b - y * b
  {
  }

  lemma AbsProduct(k: int, b: int)
    requires k != 0 && b != 0
    ensures Abs(k * b) >= Abs(b)
  {
    if k > 0 {
      if b > 0 { assert k * b >= b; } else { assert k * b <= b; }
    } else {
      if b > 0 { assert k * b <= -b; } else { assert k * b >= -b; }
    }
  }
}
