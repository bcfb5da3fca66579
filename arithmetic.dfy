/** calculate of main.go:124-140: integer + - * / ; Go's `/` truncates toward zero. */
module Arithmetic {
  import opened Results

  function Abs(x: int): nat {
    if x < 0 then -x else x
  }

  /** Go's integer quotient: the quotient of the magnitudes, negated when the
      signs differ. Its remainder is smaller than the divisor and has the sign
      of the dividend. */
  function TruncDiv(a: int, b: int): (q: int)
    requires b != 0
    ensures Abs(a - q * b) < Abs(b)
    ensures a - q * b == 0 || (a - q * b < 0 <==> a < 0)
  {
    var m := Abs(a) / Abs(b);
    assert Abs(a) - m * Abs(b) < Abs(b);
    if (a < 0) == (b < 0) then m else -m
  }

  lemma AbsOfProduct(x: int, y: int)
    ensures Abs(x * y) == Abs(x) * Abs(y)
  {
    if x < 0 && y >= 0 {
      assert x * y == -(Abs(x) * y);
    } else if x >= 0 && y < 0 {
      assert x * y == -(x * Abs(y));
    } else if x < 0 && y < 0 {
      assert x * y == Abs(x) * Abs(y);
    }
  }

  /** A multiple of `b` smaller than `b` in magnitude is zero. */
  lemma SmallMultipleIsZero(d: int, b: int)
    requires b != 0 && Abs(d * b) < Abs(b)
    ensures d == 0
  {
    AbsOfProduct(d, b);
    var x: int, y: int := Abs(d), Abs(b);
    var z := x - 1;
    assert x * y == z * y + y;
    assert z >= 0 ==> z * y >= 0;
  }

  /** Only one quotient has the remainder of TruncDiv: so that is what TruncDiv is. */
  lemma TruncDivUnique(a: int, b: int, q: int)
    requires b != 0
    requires Abs(a - q * b) < Abs(b)
    requires a - q * b == 0 || (a - q * b < 0 <==> a < 0)
    ensures q == TruncDiv(a, b)
  {
    var t := TruncDiv(a, b);
    var r, rt := a - q * b, a - t * b;
    assert (t - q) * b == r - rt;
    assert Abs(r - rt) < Abs(b);
    SmallMultipleIsZero(t - q, b);
  }

  /** The operation named by `op` (main.go:124-140). */
  function Calculate(a: int, b: int, op: string): Result<int> {
    match op
    case "+" => Ok(a + b)
    case "-" => Ok(a - b)
    case "*" => Ok(a * b)
    case "/" => if b == 0 then Err(DivisionByZero) else Ok(TruncDiv(a, b))
    case _ => Err(UnsupportedOperator(op))
  }

  /** calculate fails exactly on a zero divisor and on an unknown operator. */
  lemma CalculateFails(a: int, b: int, op: string)
    ensures Calculate(a, b, op).Err? <==> (op == "/" && b == 0) || op !in {"+", "-", "*", "/"}
    ensures op == "/" && b == 0 ==> Calculate(a, b, op) == Err(DivisionByZero)
    ensures op !in {"+", "-", "*", "/"} ==> Calculate(a, b, op) == Err(UnsupportedOperator(op))
  {
  }

  /** Subtraction undoes addition, and division undoes multiplication by a non-zero number. */
  lemma CalculateInverses(a: int, b: int)
    ensures Calculate(Calculate(a, b, "+").value, b, "-") == Ok(a)
    ensures b != 0 ==> Calculate(Calculate(a, b, "*").value, b, "/") == Ok(a)
  {
    if b != 0 {
      TruncDivUnique(a * b, b, a);
    }
  }

  /** For non-negative operands Go's quotient is Dafny's (Euclidean) one. */
  lemma TruncDivOfNaturals(a: nat, b: nat)
    requires b != 0
    ensures Calculate(a, b, "/") == Ok(a / b)
  {
  }
}
