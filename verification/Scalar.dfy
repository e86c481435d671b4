/**
 The signed helpers emitted beside a program, `arithmetic::scalar`.  They reduce signed operations to
 unsigned magnitudes, with a refusal at every narrowing step.  Each is proved equal to the integer
 rounding it stands for, over every pair or triple of machine integers.
 */
module Scalar {
  import opened Patterns
  import opened Ir
  import opened Wide

  type i128 = x: int | I128.least <= x <= I128.most

  function UnsignedMagnitude(value: i128): u128 {
    if value < 0 then -(value + 1) + 1 else value
  }

  function SignedMagnitude(value: u128, negative: bool): Option<int> {
    if negative && value == I128.most + 1 then Some(I128.least)
    else if value > I128.most then None
    else if negative then Some(0 - value)
    else Some(value)
  }

  function Multiply(a: i128, b: i128): Option<int> { Narrow(I128, a * b) }

  function Divide(up: bool, a: i128, b: i128): Option<int> {
    if b == 0 then None else
      var x, y := UnsignedMagnitude(a), UnsignedMagnitude(b);
      var negative := (a < 0) != (b < 0);
      var q, r := x / y, x % y;
      var rounded := if r != 0 && up != negative then q + 1 else q;
      if rounded >= SCALE then None else
        assert q >= 0 by { QuotientOf(x, y); }
        SignedMagnitude(rounded, negative)
  }

  function MulDiv(up: bool, a: i128, b: i128, den: i128): Option<int> {
    if a < 0 || b < 0 || den <= 0 then None else
      match if up then CeilingValue(a, b, den) else FloorValue(a, b, den)
      case None => None
      case Some(q) => SignedMagnitude(q, false)
  }

  function SignedMulDivFloor(a: i128, b: i128, den: i128): Option<int> {
    if den <= 0 then None else
      var negative := (a < 0) != (b < 0);
      var x, y := UnsignedMagnitude(a), UnsignedMagnitude(b);
      match if negative then CeilingValue(x, y, den) else FloorValue(x, y, den)
      case None => None
      case Some(q) => SignedMagnitude(q, negative)
  }

  function ProductsGe(a: i128, b: i128, c: i128, d: i128, e: i128, f: i128): Option<bool> {
    if a < 0 || b < 0 || c < 0 || d < 0 || e < 0 || f < 0 then None
    else Some(a * b * c >= d * e * f)
  }

  lemma MagnitudeNarrows(value: u128, negative: bool)
    ensures SignedMagnitude(value, negative) == Narrow(I128, if negative then 0 - value else value)
  {
  }

  /** Rounding a magnitude up or down, by the sign of the quotient, rounds the quotient down. */
  lemma FloorBySign(p: int, d: int)
    requires d > 0
    ensures FloorDiv(p, d) == if p < 0 then -((-p + d - 1) / d) else p / d
    ensures CeilDiv(p, d) == if p < 0 then -(-p / d) else (p + d - 1) / d
  {
    FloorOfNegated(p, d);
    FloorOfNegated(-p, d);
    assert - -p == p;
  }

  /** The floor is the negated ceiling of the negated dividend. */
  lemma FloorOfNegated(p: int, d: int)
    requires d > 0
    ensures p / d == -((-p + d - 1) / d)
  {
    var up := (-p + d - 1) / d;
    QuotientOf(-p + d - 1, d);
    Negate(up, d);
    QuotientIs(p, d, -up);
  }

  lemma Negate(q: int, d: int)
    ensures -q * d == -(q * d) && (-q + 1) * d == -(q * d) + d && (q + 1) * d == q * d + d
  {
  }

  /** Rounding a magnitude away from or toward zero, by the sign, rounds up or down. */
  lemma MagnitudeRounds(up: bool, negative: bool, x: int, y: int)
    requires x >= 0 && y > 0
    ensures var c := if negative then -x else x;
      var rounded := if x % y != 0 && up != negative then x / y + 1 else x / y;
      (if negative then -rounded else rounded) == if up then CeilDiv(c, y) else FloorDiv(c, y)
  {
    FloorBySign(if negative then -x else x, y);
    CeilingByFloor(x, y);
    assert x == x / y * y + x % y;
  }

  /** Division rounds to the requested side, for every sign of both operands. */
  lemma DivideRounds(up: bool, a: i128, b: i128)
    ensures Divide(up, a, b) ==
      if b == 0 then None else Narrow(I128, if up then CeilDiv(a, b) else FloorDiv(a, b))
  {
    if b != 0 {
      var x: int, y: int := UnsignedMagnitude(a), UnsignedMagnitude(b);
      var negative := (a < 0) != (b < 0);
      MagnitudeRounds(up, negative, x, y);
      QuotientOf(x, y);
      var rounded := if x % y != 0 && up != negative then x / y + 1 else x / y;
      if rounded < SCALE { MagnitudeNarrows(rounded, negative); }
    }
  }

  lemma MulDivRounds(up: bool, a: i128, b: i128, den: i128)
    ensures MulDiv(up, a, b, den) ==
      if a < 0 || b < 0 || den <= 0 then None
      else Narrow(I128, if up then CeilDiv(a * b, den) else FloorDiv(a * b, den))
  {
    if a >= 0 && b >= 0 && den > 0 {
      MulBound(a, b, a, b);
      FloorBySign(a * b, den);
      QuotientOf(a * b, den);
      QuotientOf(a * b + den - 1, den);
    }
  }

  /** An unsigned overflow never hides a signed quotient that would fit. */
  lemma SignedMulDivRounds(a: i128, b: i128, den: i128)
    ensures SignedMulDivFloor(a, b, den) ==
      if den <= 0 then None else Narrow(I128, FloorDiv(a * b, den))
  {
    if den > 0 {
      var negative := (a < 0) != (b < 0);
      var x: int, y: int := UnsignedMagnitude(a), UnsignedMagnitude(b);
      var m := x * y;
      MulBound(0, 0, x, y);
      assert a * b == if negative then -m else m;
      FloorBySign(a * b, den);
      QuotientOf(m, den);
      QuotientOf(m + den - 1, den);
      var q := if negative then (m + den - 1) / den else m / den;
      assert FloorDiv(a * b, den) == if negative then -q else q by {
        if m == 0 { assert a * b == 0; }
      }
      if q < SCALE { MagnitudeNarrows(q, negative); }
    }
  }
}
