/** What each instruction means, by the property its value has and no other number does. */
module Instructions {
  import opened Patterns
  import opened Ir
  import opened Wide

  /** The largest multiple not above, for a divisor of either sign. */
  predicate Floors(z: int, a: int, b: int) {
    if b > 0 then z * b <= a < (z + 1) * b else b < 0 && (z + 1) * b < a <= z * b
  }

  /** The smallest multiple not below. */
  predicate Ceils(z: int, a: int, b: int) {
    if b > 0 then (z - 1) * b < a <= z * b else b < 0 && z * b <= a < (z - 1) * b
  }

  lemma FloorIs(z: int, a: int, b: int)
    requires b != 0
    ensures FloorDiv(a, b) == z <==> Floors(z, a, b)
  {
    var p, d := if b > 0 then a else -a, if b > 0 then b else -b;
    QuotientOf(p, d);
    NegatedMultiple(z, d);
    NegatedMultiple(z + 1, d);
    if z * d <= p < (z + 1) * d { QuotientIs(p, d, z); }
  }

  lemma NegatedMultiple(z: int, d: int)
    ensures z * -d == -(z * d)
  {
  }

  lemma CeilingIs(z: int, a: int, b: int)
    requires b != 0
    ensures CeilDiv(a, b) == z <==> Ceils(z, a, b)
  {
    FloorIs(-z, -a, b);
    NegatedFactor(z, b);
    NegatedFactor(z - 1, b);
  }

  lemma NegatedFactor(z: int, b: int)
    ensures -z * b == -(z * b)
  {
  }

  predicate Says(z: int, fact: bool) { (z == 1 && fact) || (z == 0 && !fact) }

  predicate AllNatural(x: seq<int>) { forall j :: 0 <= j < |x| ==> x[j] >= 0 }

  predicate InWidth(w: Width, z: int) { w.least <= z <= w.most }

  /** `z` is what the instruction makes of its operands. */
  predicate Means(w: Width, code: Code, x: seq<int>, z: int)
    requires |x| == code.Arity()
  {
    match code
    case Add => InWidth(w, z) && z - x[1] == x[0]
    case Sub => InWidth(w, z) && z + x[1] == x[0]
    case Mul => InWidth(w, z) && z == x[1] * x[0]
    case DivFloor => InWidth(w, z) && Floors(z, x[0], x[1])
    case DivCeil => InWidth(w, z) && Ceils(z, x[0], x[1])
    case MulDivFloor => InWidth(w, z) && AllNatural(x) && x[2] != 0 && Floors(z, x[0] * x[1], x[2])
    case MulDivCeil => InWidth(w, z) && AllNatural(x) && x[2] != 0 && Ceils(z, x[0] * x[1], x[2])
    case SignedMulDivFloor => InWidth(w, z) && x[2] > 0 && Floors(z, x[0] * x[1], x[2])
    case ProductsGe => AllNatural(x) && Says(z, x[3] * x[4] * x[5] <= x[0] * x[1] * x[2])
    case Eq => Says(z, !(x[0] < x[1]) && !(x[1] < x[0]))
    case Lt => Says(z, x[1] - x[0] > 0)
    case And => Says(z, x == [1, 1])
    case Not => Says(z, x == [0])
    case Select => (x[0] == 1 ==> z == x[1]) && (x[0] != 1 ==> z == x[2])
  }

  lemma DivisionMeans(w: Width, code: Code, x: seq<int>, z: int)
    requires |x| == code.Arity() && (code.DivFloor? || code.DivCeil?)
    ensures CodeValue(w, code, x) == Some(z) <==> Means(w, code, x, z)
  {
    hide FloorDiv;
    hide CeilDiv;
    if x[1] != 0 {
      FloorIs(z, x[0], x[1]);
      CeilingIs(z, x[0], x[1]);
      hide Floors;
      hide Ceils;
    }
  }

  lemma FusedMeans(w: Width, code: Code, x: seq<int>, z: int)
    requires |x| == code.Arity() && (code.MulDivFloor? || code.MulDivCeil? || code.SignedMulDivFloor?)
    ensures CodeValue(w, code, x) == Some(z) <==> Means(w, code, x, z)
  {
    hide FloorDiv;
    hide CeilDiv;
    hide Floors;
    hide Ceils;
    assert AllNatural(x) <==> x[0] >= 0 && x[1] >= 0 && x[2] >= 0;
    if x[2] > 0 {
      FloorIs(z, x[0] * x[1], x[2]);
      CeilingIs(z, x[0] * x[1], x[2]);
    }
  }

  lemma ProductsMean(w: Width, x: seq<int>, z: int)
    requires |x| == 6
    ensures CodeValue(w, ProductsGe, x) == Some(z) <==> Means(w, ProductsGe, x, z)
  {
    assert AllNatural(x) <==> x[0] >= 0 && x[1] >= 0 && x[2] >= 0 && x[3] >= 0 && x[4] >= 0 && x[5] >= 0;
  }

  /** An instruction has a value exactly when some number means it, and that number is the value. */
  lemma InstructionMeans(w: Width, code: Code, x: seq<int>, z: int)
    requires |x| == code.Arity()
    ensures CodeValue(w, code, x) == Some(z) <==> Means(w, code, x, z)
  {
    match code
    case DivFloor | DivCeil => DivisionMeans(w, code, x, z);
    case MulDivFloor | MulDivCeil | SignedMulDivFloor => FusedMeans(w, code, x, z);
    case ProductsGe => ProductsMean(w, x, z);
    case And => assert x == [x[0], x[1]];
    case Not => assert x == [x[0]];
    case _ =>
  }
}
