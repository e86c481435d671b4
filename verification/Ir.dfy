/**
 Finite programs: a list of eager instructions over integers, with declared input and output
 domains.  Every node is evaluated in order; a node whose value leaves the integer width, or whose
 operands it refuses, makes the whole evaluation fail, whether or not its value is used.
 */
module Ir {
  import opened Patterns

  /** The integer width of a program profile. */
  datatype Width = Width(least: int, most: int)

  const I128 := Width(-0x8000_0000_0000_0000_0000_0000_0000_0000, 0x7fff_ffff_ffff_ffff_ffff_ffff_ffff_ffff)
  const I64 := Width(-0x8000_0000_0000_0000, 0x7fff_ffff_ffff_ffff)

  function Narrow(w: Width, z: int): Option<int> {
    if w.least <= z <= w.most then Some(z) else None
  }

  datatype Domain = Domain(boolean: bool, min: int, max: int) {
    predicate Has(z: int) { min <= z <= max }
  }

  /** A Boolean domain is zero and one. */
  predicate BooleanRange(d: Domain) { d.boolean ==> d.min == 0 && d.max == 1 }

  datatype Code =
    | Add | Sub | Mul | DivFloor | DivCeil | MulDivFloor | MulDivCeil | SignedMulDivFloor
    | ProductsGe | Eq | Lt | And | Not | Select
  {
    function Arity(): nat {
      match this
      case Not => 1
      case MulDivFloor | MulDivCeil | SignedMulDivFloor | Select => 3
      case ProductsGe => 6
      case _ => 2
    }

    /** The instructions that call the arithmetic helper module. */
    predicate CallsHelper() {
      Mul? || DivFloor? || DivCeil? || MulDivFloor? || MulDivCeil? || SignedMulDivFloor? || ProductsGe?
    }
  }

  datatype Op = Input(i: nat) | Int(z: int) | Bool(b: bool) | Apply(code: Code, args: seq<nat>)

  datatype Program = Program(inputs: seq<Domain>, outputs: seq<Domain>, nodes: seq<Op>, roots: seq<nat>)

  predicate Below(refs: seq<nat>, k: nat) {
    forall j :: 0 <= j < |refs| ==> refs[j] < k
  }

  /** An instruction at position `k` reads only earlier nodes and existing inputs. */
  predicate ScopedOp(op: Op, k: nat, inputs: nat) {
    match op
    case Input(i) => i < inputs
    case Apply(code, args) => |args| == code.Arity() && Below(args, k)
    case _ => true
  }

  predicate Scoped(nodes: seq<Op>, inputs: nat) {
    forall k :: 0 <= k < |nodes| ==> ScopedOp(nodes[k], k, inputs)
  }

  predicate WellScoped(p: Program) {
    Scoped(p.nodes, |p.inputs|) && |p.roots| == |p.outputs| && Below(p.roots, |p.nodes|)
  }

  function Flag(b: bool): int { if b then 1 else 0 }

  /** Rounding toward negative infinity, for a divisor of either sign. */
  function FloorDiv(a: int, b: int): int
    requires b != 0
  {
    if b > 0 then a / b else (-a) / (-b)
  }

  /** Rounding toward positive infinity. */
  function CeilDiv(a: int, b: int): int
    requires b != 0
  {
    -FloorDiv(-a, b)
  }

  /** The value of an instruction on its operands, or `None` where it refuses. */
  function CodeValue(w: Width, code: Code, x: seq<int>): Option<int>
    requires |x| == code.Arity()
  {
    match code
    case Add => Narrow(w, x[0] + x[1])
    case Sub => Narrow(w, x[0] - x[1])
    case Mul => Narrow(w, x[0] * x[1])
    case DivFloor => if x[1] == 0 then None else Narrow(w, FloorDiv(x[0], x[1]))
    case DivCeil => if x[1] == 0 then None else Narrow(w, CeilDiv(x[0], x[1]))
    case MulDivFloor =>
      if x[0] < 0 || x[1] < 0 || x[2] <= 0 then None else Narrow(w, FloorDiv(x[0] * x[1], x[2]))
    case MulDivCeil =>
      if x[0] < 0 || x[1] < 0 || x[2] <= 0 then None else Narrow(w, CeilDiv(x[0] * x[1], x[2]))
    case SignedMulDivFloor => if x[2] <= 0 then None else Narrow(w, FloorDiv(x[0] * x[1], x[2]))
    case ProductsGe =>
      if x[0] < 0 || x[1] < 0 || x[2] < 0 || x[3] < 0 || x[4] < 0 || x[5] < 0 then None
      else Some(Flag(x[0] * x[1] * x[2] >= x[3] * x[4] * x[5]))
    case Eq => Some(Flag(x[0] == x[1]))
    case Lt => Some(Flag(x[0] < x[1]))
    case And => Some(Flag(x[0] == 1 && x[1] == 1))
    case Not => Some(Flag(x[0] == 0))
    case Select => Some(if x[0] == 1 then x[1] else x[2])
  }

  function Project(vs: seq<int>, refs: seq<nat>): (r: seq<int>)
    requires Below(refs, |vs|)
    ensures |r| == |refs| && forall j :: 0 <= j < |r| ==> r[j] == vs[refs[j]]
  {
    seq(|refs|, j requires 0 <= j < |refs| => vs[refs[j]])
  }

  function OpValue(w: Width, op: Op, vs: seq<int>, input: seq<int>): Option<int>
    requires ScopedOp(op, |vs|, |input|)
  {
    match op
    case Input(i) => Some(input[i])
    case Int(z) => Some(z)
    case Bool(b) => Some(Flag(b))
    case Apply(code, args) => CodeValue(w, code, Project(vs, args))
  }

  /** The values of all nodes, or `None` if any of them refuses. */
  function NodeValues(w: Width, nodes: seq<Op>, input: seq<int>): (r: Option<seq<int>>)
    requires Scoped(nodes, |input|)
    ensures r.Some? ==> |r.value| == |nodes|
  {
    if nodes == [] then Some([]) else
      var k := |nodes| - 1;
      match NodeValues(w, nodes[..k], input)
      case None => None
      case Some(vs) =>
        match OpValue(w, nodes[k], vs, input)
        case None => None
        case Some(v) => Some(vs + [v])
  }

  predicate InDomains(ds: seq<Domain>, zs: seq<int>) {
    |zs| == |ds| && forall j :: 0 <= j < |ds| ==> ds[j].Has(zs[j])
  }

  /** Taking the last domain apart. */
  lemma DomainsStep(ds: seq<Domain>, zs: seq<int>)
    requires |ds| == |zs| > 0
    ensures var k := |ds| - 1; InDomains(ds, zs) <==> InDomains(ds[..k], zs[..k]) && ds[k].Has(zs[k])
  {
    var k := |ds| - 1;
    hide Domain.Has;
    if InDomains(ds[..k], zs[..k]) && ds[k].Has(zs[k]) {
      forall j | 0 <= j < |ds|
        ensures ds[j].Has(zs[j])
      {
        if j < k { assert ds[..k][j].Has(zs[..k][j]); }
      }
    }
    if InDomains(ds, zs) {
      forall j | 0 <= j < k
        ensures ds[..k][j].Has(zs[..k][j])
      {
        assert ds[j].Has(zs[j]);
      }
    }
  }

  /** The transition a program denotes: outputs, or a refusal of the input, a node or an output. */
  function Eval(w: Width, p: Program, input: seq<int>): Option<seq<int>>
    requires WellScoped(p)
  {
    if !InDomains(p.inputs, input) then None else
      match NodeValues(w, p.nodes, input)
      case None => None
      case Some(vs) =>
        var out := Project(vs, p.roots);
        if InDomains(p.outputs, out) then Some(out) else None
  }

  /** Evaluating a prefix of the nodes gives the prefix of the values. */
  lemma {:induction false} PrefixValues(w: Width, nodes: seq<Op>, j: nat, input: seq<int>)
    requires Scoped(nodes, |input|) && j <= |nodes|
    requires NodeValues(w, nodes, input).Some?
    ensures NodeValues(w, nodes[..j], input) == Some(NodeValues(w, nodes, input).value[..j])
  {
    if j == |nodes| {
      assert nodes[..j] == nodes;
      assert NodeValues(w, nodes, input).value[..j] == NodeValues(w, nodes, input).value;
    } else {
      var k := |nodes| - 1;
      PrefixValues(w, nodes[..k], j, input);
      assert nodes[..k][..j] == nodes[..j];
      var vs := NodeValues(w, nodes[..k], input).value;
      assert NodeValues(w, nodes, input).value[..j] == vs[..j];
    }
  }
}
