/**
 Fixed-width unsigned intermediates of the emitted arithmetic helpers: exact two- and three-limb
 products of 128-bit operands, built from 64-bit halves, and a 128-round quotient search.  Every
 intermediate value has the type `u128`, so the proofs also show that no step overflows.
 */
module Wide {
  import opened Patterns

  const RADIX: int := 0x1_0000_0000_0000_0000
  const SCALE: int := 0x1_0000_0000_0000_0000_0000_0000_0000_0000

  type u128 = x: int | 0 <= x < SCALE

  /** A two-limb and a three-limb number, least significant limb first. */
  datatype Limbs2 = Limbs2(l0: u128, l1: u128) {
    function Number(): int { l1 * SCALE + l0 }
  }
  datatype Limbs3 = Limbs3(l0: u128, l1: u128, l2: u128) {
    function Number(): int { l2 * SCALE * SCALE + l1 * SCALE + l0 }
  }

  /** floor(a*b/den), refused for a zero divisor or a quotient outside 128 bits. */
  function FloorValue(a: u128, b: u128, den: u128): Option<u128> {
    if den == 0 || a * b / den >= SCALE then None else Some(a * b / den)
  }

  /** ceil(a*b/den), refused for a zero divisor or a quotient outside 128 bits. */
  function CeilingValue(a: u128, b: u128, den: u128): Option<u128> {
    if den == 0 then None else
      var q := (a * b + den - 1) / den;
      if q >= SCALE then None else
        assert q >= 0 by { MulBound(0, 0, a, b); QuotientOf(a * b + den - 1, den); }
        Some(q)
  }

  lemma MulBound(x: int, y: int, m: int, n: int)
    requires 0 <= x <= m && 0 <= y <= n
    ensures 0 <= x * y <= m * n
  {
    assert x * y <= m * y <= m * n;
  }

  lemma MulOrder(x: int, y: int, k: int)
    requires k > 0
    ensures x < y ==> x * k < y * k
    ensures x <= y ==> x * k <= y * k
  {
  }

  lemma QuotientOf(p: int, d: int)
    requires d > 0
    ensures p / d * d <= p < (p / d + 1) * d
    ensures p >= 0 ==> p / d >= 0
  {
    assert p == p / d * d + p % d;
  }

  /** The quotient is the only number whose multiple brackets the dividend. */
  lemma QuotientIs(p: int, d: int, q: int)
    requires d > 0 && q * d <= p < (q + 1) * d
    ensures p / d == q
  {
    QuotientOf(p, d);
    if p / d < q { MulOrder(p / d + 1, q, d); }
    if p / d > q { MulOrder(q + 1, p / d, d); }
  }

  lemma SchoolProduct(a0: int, a1: int, b0: int, b1: int)
    ensures (a1 * RADIX + a0) * (b1 * RADIX + b0)
         == a1 * b1 * SCALE + (a0 * b1 + a1 * b0) * RADIX + a0 * b0
  {
  }

  /** Exact product of two 128-bit numbers. */
  method Multiply(a: u128, b: u128) returns (r: Limbs2)
    ensures r.Number() == a * b
  {
    var a0, a1 := a % RADIX, a / RADIX;
    var b0, b1 := b % RADIX, b / RADIX;
    MulBound(a0, b0, RADIX - 1, RADIX - 1);
    MulBound(a0, b1, RADIX - 1, RADIX - 1);
    MulBound(a1, b0, RADIX - 1, RADIX - 1);
    MulBound(a1, b1, RADIX - 1, RADIX - 1);
    SchoolProduct(a0, a1, b0, b1);
    var p00: u128, p01: u128, p10: u128, p11: u128 := a0 * b0, a0 * b1, a1 * b0, a1 * b1;
    var middle: u128 := p00 / RADIX + p01 % RADIX + p10 % RADIX;
    var high: u128 := p11 + p01 / RADIX + p10 / RADIX + middle / RADIX;
    var low: u128 := p00 % RADIX + (middle % RADIX) * RADIX;
    r := Limbs2(low, high);
  }

  lemma ThreeFactors(a: int, b: int, c: int, f0: int, f1: int, l0: int, l1: int, h0: int, h1: int)
    requires f1 * SCALE + f0 == a * b
    requires l1 * SCALE + l0 == f0 * c
    requires h1 * SCALE + h0 == f1 * c
    ensures h1 * SCALE * SCALE + (l1 + h0) * SCALE + l0 == a * b * c
  {
    calc {
      a * b * c;
      (f1 * SCALE + f0) * c;
      f1 * c * SCALE + f0 * c;
      (h1 * SCALE + h0) * SCALE + l1 * SCALE + l0;
    }
  }

  /** Exact product of three 128-bit numbers, keeping all 384 bits. */
  method MultiplyThree(a: u128, b: u128, c: u128) returns (r: Limbs3)
    ensures r.Number() == a * b * c
  {
    var first := Multiply(a, b);
    var low := Multiply(first.l0, c);
    var high := Multiply(first.l1, c);
    ThreeFactors(a, b, c, first.l0, first.l1, low.l0, low.l1, high.l0, high.l1);
    MulBound(first.l1, c, SCALE - 1, SCALE - 1);
    var room: u128 := SCALE - 1 - high.l0;
    var middle: u128, carry: u128;
    if low.l1 > room {
      middle, carry := low.l1 - room - 1, 1;
    } else {
      middle, carry := low.l1 + high.l0, 0;
    }
    var top: u128 := high.l1 + carry;
    r := Limbs3(low.l0, middle, top);
  }

  method LessEqual(left: Limbs2, right: Limbs2) returns (r: bool)
    ensures r <==> left.Number() <= right.Number()
  {
    if left.l1 == right.l1 {
      r := left.l0 <= right.l0;
    } else {
      r := left.l1 < right.l1;
    }
  }

  /** Exact comparison of two three-factor products. */
  method ProductsGe(a: u128, b: u128, c: u128, d: u128, e: u128, f: u128) returns (r: bool)
    ensures r <==> a * b * c >= d * e * f
  {
    var left := MultiplyThree(a, b, c);
    var right := MultiplyThree(d, e, f);
    if left.l2 != right.l2 {
      r := left.l2 > right.l2;
    } else if left.l1 != right.l1 {
      r := left.l1 > right.l1;
    } else {
      r := left.l0 >= right.l0;
    }
  }

  function Pow2(n: nat): (p: nat)
    ensures p >= 1
  {
    if n == 0 then 1 else 2 * Pow2(n - 1)
  }

  lemma Pow2Add(m: nat, n: nat)
    ensures Pow2(m + n) == Pow2(m) * Pow2(n)
  {
    if m > 0 { Pow2Add(m - 1, n); }
  }

  lemma Pow2Double(n: nat, half: nat, p: nat)
    requires Pow2(half) == p && n == half + half
    ensures Pow2(n) == p * p
  {
    Pow2Add(half, half);
  }

  lemma Pow2Top(n: nat)
    requires n == 127
    ensures Pow2(n) == SCALE / 2
  {
    var n2 := n - 125;
    var n4, n8, n16, n32, n64 := 2 * n2, 4 * n2, 8 * n2, 16 * n2, 32 * n2;
    assert Pow2(n2) == 2 * Pow2(n2 - 1) == 4 * Pow2(n2 - 2);
    Pow2Double(n4, n2, 4);
    Pow2Double(n8, n4, 16);
    Pow2Double(n16, n8, 256);
    Pow2Double(n32, n16, 65536);
    Pow2Double(n64, n32, 0x1_0000_0000);
    Pow2Double(n + 1, n64, RADIX);
  }

  /** floor(a*b/den) by a search over the quotient's bits, most significant first. */
  method MulDivFloor(a: u128, b: u128, den: u128) returns (r: Option<u128>)
    ensures r == FloorValue(a, b, den)
  {
    if den == 0 { return None; }
    var product := Multiply(a, b);
    ghost var p := a * b;
    if product.l1 >= den {
      MulOrder(den, product.l1, SCALE);
      QuotientOf(p, den);
      MulOrder(p / den + 1, SCALE, den);
      return None;
    }
    MulOrder(product.l1 + 1, den, SCALE);
    var quotient: u128, bit: u128, remaining := 0, SCALE / 2, 128;
    Pow2Top(remaining - 1);
    while remaining > 0
      invariant 0 <= remaining <= 128
      invariant quotient * den <= p
      invariant remaining > 0 ==> bit == Pow2(remaining - 1)
      invariant remaining > 0 ==> quotient + 2 * bit <= SCALE && p < (quotient + 2 * bit) * den
      invariant remaining == 0 ==> p < (quotient + 1) * den
    {
      var trial: u128 := quotient + bit;
      var tried := Multiply(trial, den);
      var fits := LessEqual(tried, product);
      if fits {
        quotient := trial;
      }
      assert quotient + bit <= SCALE && p < (quotient + bit) * den;
      remaining := remaining - 1;
      if remaining > 0 {
        bit := bit / 2;
      }
    }
    QuotientIs(p, den, quotient);
    r := Some(quotient);
  }

  lemma CeilingByFloor(p: int, d: int)
    requires d > 0
    ensures (p + d - 1) / d == p / d + if p / d * d == p then 0 else 1
  {
    QuotientOf(p, d);
    QuotientIs(p + d - 1, d, p / d + if p / d * d == p then 0 else 1);
  }

  /** ceil(a*b/den): the floor, plus one unless it is exact. */
  method MulDivCeil(a: u128, b: u128, den: u128) returns (r: Option<u128>)
    ensures r == CeilingValue(a, b, den)
  {
    var floor := MulDivFloor(a, b, den);
    if den > 0 { CeilingByFloor(a * b, den); }
    if floor == None { return None; }
    var quotient := floor.value;
    var product := Multiply(a, b);
    var floorProduct := Multiply(quotient, den);
    if product.l0 == floorProduct.l0 && product.l1 == floorProduct.l1 {
      r := Some(quotient);
    } else if quotient == SCALE - 1 {
      r := None;
    } else {
      r := Some(quotient + 1);
    }
  }
}
