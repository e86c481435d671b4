/**
 The kind check of captured programs: every node is Boolean or integer, operands have exact kinds,
 references go backward.  A program that passes evaluates its Boolean nodes to zero or one.
 */
module Kinds {
  import opened Patterns
  import opened Ir

  /** The kind of a result from the kinds of the operands; true is Boolean. */
  function ResultKind(code: Code, ks: seq<bool>): Option<bool>
    requires |ks| == code.Arity()
  {
    match code
    case Add | Sub => if !ks[0] && !ks[1] then Some(false) else None
    case Lt => if !ks[0] && !ks[1] then Some(true) else None
    case Eq => if ks[0] == ks[1] then Some(true) else None
    case And => if ks[0] && ks[1] then Some(true) else None
    case Not => if ks[0] then Some(true) else None
    case Select => if ks[0] && ks[1] == ks[2] then Some(ks[1]) else None
    case _ => None
  }

  function OpKind(w: Width, inputs: seq<Domain>, ks: seq<bool>, op: Op): Option<bool> {
    match op
    case Input(i) => if i < |inputs| then Some(inputs[i].boolean) else None
    case Int(z) => if w.least <= z <= w.most then Some(false) else None
    case Bool(_) => Some(true)
    case Apply(code, args) =>
      if |args| == code.Arity() && Below(args, |ks|)
      then ResultKind(code, seq(|args|, j requires 0 <= j < |args| => ks[args[j]]))
      else None
  }

  function KindsOf(w: Width, inputs: seq<Domain>, nodes: seq<Op>): (r: Option<seq<bool>>)
    ensures r.Some? ==> |r.value| == |nodes|
  {
    if nodes == [] then Some([]) else
      var k := |nodes| - 1;
      match KindsOf(w, inputs, nodes[..k])
      case None => None
      case Some(ks) =>
        match OpKind(w, inputs, ks, nodes[k])
        case None => None
        case Some(kind) => Some(ks + [kind])
  }

  predicate RootKinds(ks: seq<bool>, roots: seq<nat>, outputs: seq<Domain>) {
    |roots| == |outputs| && forall j :: 0 <= j < |roots| ==> roots[j] < |ks| && ks[roots[j]] == outputs[j].boolean
  }

  predicate Checked(w: Width, p: Program) {
    var ks := KindsOf(w, p.inputs, p.nodes);
    ks.Some? && RootKinds(ks.value, p.roots, p.outputs)
  }

  // ---------------------------------------------------------------- kinds as a table

  const INT := false
  const BOOL := true

  /** The operand kinds an instruction takes, each with the kind of its result. */
  function Signatures(code: Code): set<(seq<bool>, bool)> {
    match code
    case Add | Sub => {([INT, INT], INT)}
    case Lt => {([INT, INT], BOOL)}
    case Eq => {([INT, INT], BOOL), ([BOOL, BOOL], BOOL)}
    case And => {([BOOL, BOOL], BOOL)}
    case Not => {([BOOL], BOOL)}
    case Select => {([BOOL, INT, INT], INT), ([BOOL, BOOL, BOOL], BOOL)}
    case _ => {}
  }

  lemma ResultKindIs(code: Code, ks: seq<bool>, kind: bool)
    requires |ks| == code.Arity()
    ensures ResultKind(code, ks) == Some(kind) <==> (ks, kind) in Signatures(code)
  {
    match |ks|
    case 1 => assert ks == [ks[0]];
    case 2 => assert ks == [ks[0], ks[1]];
    case 3 => assert ks == [ks[0], ks[1], ks[2]];
    case _ =>
  }

  /** Node `j` has its kind: of its input, of a literal in the width, or by a signature from earlier nodes. */
  predicate HasKind(w: Width, inputs: seq<Domain>, nodes: seq<Op>, ks: seq<bool>, j: nat)
    requires j < |nodes| == |ks|
  {
    match nodes[j]
    case Input(i) => i < |inputs| && ks[j] == inputs[i].boolean
    case Int(z) => w.least <= z <= w.most && ks[j] == INT
    case Bool(_) => ks[j] == BOOL
    case Apply(code, args) =>
      && |args| == code.Arity() && Below(args, j)
      && (seq(|args|, n requires 0 <= n < |args| => ks[args[n]]), ks[j]) in Signatures(code)
  }

  predicate AllHaveKinds(w: Width, inputs: seq<Domain>, nodes: seq<Op>, ks: seq<bool>) {
    |ks| == |nodes| && forall j :: 0 <= j < |nodes| ==> HasKind(w, inputs, nodes, ks, j)
  }

  lemma LastHasKind(w: Width, inputs: seq<Domain>, nodes: seq<Op>, ks: seq<bool>)
    requires |ks| == |nodes| > 0
    ensures var k := |nodes| - 1;
      OpKind(w, inputs, ks[..k], nodes[k]) == Some(ks[k]) <==> HasKind(w, inputs, nodes, ks, k)
  {
    var k := |nodes| - 1;
    if nodes[k].Apply? && |nodes[k].args| == nodes[k].code.Arity() && Below(nodes[k].args, k) {
      var args := nodes[k].args;
      var xs := seq(|args|, n requires 0 <= n < |args| => ks[args[n]]);
      assert xs == seq(|args|, n requires 0 <= n < |args| => ks[..k][args[n]]);
      ResultKindIs(nodes[k].code, xs, ks[k]);
      hide ResultKind;
      hide Signatures;
    }
  }

  lemma EarlierHasKind(w: Width, inputs: seq<Domain>, nodes: seq<Op>, ks: seq<bool>, j: nat)
    requires j < |nodes| - 1 && |ks| == |nodes|
    ensures var k := |nodes| - 1;
      HasKind(w, inputs, nodes[..k], ks[..k], j) <==> HasKind(w, inputs, nodes, ks, j)
  {
    var k := |nodes| - 1;
    if nodes[j].Apply? && Below(nodes[j].args, j) {
      var args := nodes[j].args;
      assert seq(|args|, n requires 0 <= n < |args| => ks[args[n]])
        == seq(|args|, n requires 0 <= n < |args| => ks[..k][args[n]]);
      hide Signatures;
    }
  }

  /** The check assigns kinds exactly when every node has its kind, and then they are those. */
  lemma {:induction false} KindsAre(w: Width, inputs: seq<Domain>, nodes: seq<Op>, ks: seq<bool>)
    ensures KindsOf(w, inputs, nodes) == Some(ks) <==> AllHaveKinds(w, inputs, nodes, ks)
  {
    hide OpKind;
    hide HasKind;
    if |ks| == |nodes| > 0 {
      var k := |nodes| - 1;
      KindsAre(w, inputs, nodes[..k], ks[..k]);
      LastHasKind(w, inputs, nodes, ks);
      assert ks == ks[..k] + [ks[k]];
      forall j | 0 <= j < k
        ensures HasKind(w, inputs, nodes[..k], ks[..k], j) <==> HasKind(w, inputs, nodes, ks, j)
      {
        EarlierHasKind(w, inputs, nodes, ks, j);
      }
      if KindsOf(w, inputs, nodes) == Some(ks) {
        var before := KindsOf(w, inputs, nodes[..k]).value;
        assert ks[..k] == before;
      }
    }
  }

  lemma CheckedMeans(w: Width, p: Program)
    ensures Checked(w, p) <==>
      exists ks: seq<bool> :: AllHaveKinds(w, p.inputs, p.nodes, ks) && RootKinds(ks, p.roots, p.outputs)
  {
    var r := KindsOf(w, p.inputs, p.nodes);
    if r.Some? { KindsAre(w, p.inputs, p.nodes, r.value); }
    forall ks: seq<bool> | AllHaveKinds(w, p.inputs, p.nodes, ks)
      ensures r == Some(ks)
    {
      KindsAre(w, p.inputs, p.nodes, ks);
    }
  }

  /** The check as it runs: one kind appended per node, refused at the first node that does not fit. */
  method TypeCheck(w: Width, p: Program) returns (ok: bool)
    ensures ok == Checked(w, p)
    ensures ok <==> exists ks: seq<bool> :: AllHaveKinds(w, p.inputs, p.nodes, ks) && RootKinds(ks, p.roots, p.outputs)
  {
    CheckedMeans(w, p);
    hide AllHaveKinds;
    var kinds, index := [], 0;
    while index < |p.nodes|
      invariant 0 <= index <= |p.nodes| && |kinds| == index
      invariant KindsOf(w, p.inputs, p.nodes[..index]) == Some(kinds)
    {
      var kind := OpKind(w, p.inputs, kinds, p.nodes[index]);
      assert p.nodes[..index + 1][..index] == p.nodes[..index];
      if kind.None? {
        RefusalStays(w, p.inputs, p.nodes, index + 1);
        return false;
      }
      kinds, index := kinds + [kind.value], index + 1;
    }
    assert p.nodes[..index] == p.nodes;
    return RootKinds(kinds, p.roots, p.outputs);
  }

  lemma {:induction false} RefusalStays(w: Width, inputs: seq<Domain>, nodes: seq<Op>, k: nat)
    requires k <= |nodes| && KindsOf(w, inputs, nodes[..k]).None?
    ensures KindsOf(w, inputs, nodes).None?
    decreases |nodes| - k
  {
    if k == |nodes| { assert nodes[..k] == nodes; }
    else {
      assert nodes[..k + 1][..k] == nodes[..k];
      RefusalStays(w, inputs, nodes, k + 1);
    }
  }

  /** A prefix of a checked program has the prefix of its kinds. */
  lemma {:induction false} PrefixKinds(w: Width, inputs: seq<Domain>, nodes: seq<Op>, j: nat)
    requires j <= |nodes| && KindsOf(w, inputs, nodes).Some?
    ensures KindsOf(w, inputs, nodes[..j]) == Some(KindsOf(w, inputs, nodes).value[..j])
  {
    hide OpKind;
    if j == |nodes| {
      assert nodes[..j] == nodes;
      assert KindsOf(w, inputs, nodes).value[..j] == KindsOf(w, inputs, nodes).value;
    } else {
      var k := |nodes| - 1;
      PrefixKinds(w, inputs, nodes[..k], j);
      assert nodes[..k][..j] == nodes[..j];
      var ks := KindsOf(w, inputs, nodes[..k]).value;
      assert KindsOf(w, inputs, nodes).value[..j] == ks[..j];
    }
  }

  /** The node at `j` was checked against the kinds before it. */
  lemma NodeKind(w: Width, inputs: seq<Domain>, nodes: seq<Op>, j: nat)
    requires j < |nodes| && KindsOf(w, inputs, nodes).Some?
    ensures var ks := KindsOf(w, inputs, nodes).value; OpKind(w, inputs, ks[..j], nodes[j]) == Some(ks[j])
  {
    hide OpKind;
    PrefixKinds(w, inputs, nodes, j + 1);
    var ks := KindsOf(w, inputs, nodes).value;
    assert nodes[..j + 1][..j] == nodes[..j];
    assert ks[..j + 1][j] == ks[j] && ks[..j + 1][..j] == ks[..j];
    PrefixKinds(w, inputs, nodes, j);
  }

  /** A checked program is well scoped. */
  lemma CheckedScoped(w: Width, p: Program)
    requires KindsOf(w, p.inputs, p.nodes).Some?
    ensures Scoped(p.nodes, |p.inputs|)
    ensures Checked(w, p) ==> WellScoped(p)
  {
    forall k | 0 <= k < |p.nodes|
      ensures ScopedOp(p.nodes[k], k, |p.inputs|)
    {
      NodeKind(w, p.inputs, p.nodes, k);
    }
  }

  /** A Boolean input ranges over zero and one, and every bound fits the width. */
  predicate Declared(w: Width, ds: seq<Domain>) {
    forall i :: 0 <= i < |ds| ==>
      w.least <= ds[i].min <= ds[i].max <= w.most && BooleanRange(ds[i])
  }

  /** A value of its kind. */
  predicate OfKind(w: Width, kind: bool, v: int) { w.least <= v <= w.most && (kind ==> v == 0 || v == 1) }

  predicate AllFit(w: Width, ks: seq<bool>, vs: seq<int>) {
    |ks| == |vs| && forall k :: 0 <= k < |vs| ==> OfKind(w, ks[k], vs[k])
  }

  /** One instruction on operands of their kinds gives a value of its kind. */
  lemma OpFits(w: Width, inputs: seq<Domain>, ks: seq<bool>, op: Op, vs: seq<int>, input: seq<int>)
    requires w.least <= 0 && 1 <= w.most
    requires AllFit(w, ks, vs) && Declared(w, inputs) && InDomains(inputs, input)
    requires OpKind(w, inputs, ks, op).Some? && ScopedOp(op, |vs|, |input|) && OpValue(w, op, vs, input).Some?
    ensures OfKind(w, OpKind(w, inputs, ks, op).value, OpValue(w, op, vs, input).value)
  {
    match op
    case Input(i) => assert inputs[i].Has(input[i]);
    case Int(_) =>
    case Bool(_) =>
    case Apply(code, args) =>
      if code.Select? {
        assert OfKind(w, ks[args[1]], vs[args[1]]);
        assert OfKind(w, ks[args[2]], vs[args[2]]);
      }
  }

  /** Kind soundness: on every input of the domain, every node's value has the checked kind. */
  lemma {:induction false} KindsAreSound(w: Width, inputs: seq<Domain>, nodes: seq<Op>, input: seq<int>)
    requires w.least <= 0 && 1 <= w.most
    requires Declared(w, inputs) && InDomains(inputs, input)
    requires KindsOf(w, inputs, nodes).Some?
    requires Scoped(nodes, |input|) && NodeValues(w, nodes, input).Some?
    ensures AllFit(w, KindsOf(w, inputs, nodes).value, NodeValues(w, nodes, input).value)
  {
    hide OpKind;
    hide OpValue;
    hide Declared;
    hide InDomains;
    hide ScopedOp;
    if nodes != [] {
      var k := |nodes| - 1;
      assert nodes == nodes[..k] + [nodes[k]];
      KindsAreSound(w, inputs, nodes[..k], input);
      OpFits(w, inputs, KindsOf(w, inputs, nodes[..k]).value, nodes[k], NodeValues(w, nodes[..k], input).value, input);
    }
  }

  /** A sum or difference of these values leaves the width. */
  predicate Leaves(w: Width, op: Op, vs: seq<int>) {
    && op.Apply? && (op.code.Add? || op.code.Sub?) && |op.args| == 2 && Below(op.args, |vs|)
    && var a, b := vs[op.args[0]], vs[op.args[1]];
       Narrow(w, if op.code.Add? then a + b else a - b).None?
  }

  lemma OnlySumsRefuse(w: Width, inputs: seq<Domain>, ks: seq<bool>, op: Op, vs: seq<int>, input: seq<int>)
    requires |ks| == |vs| && OpKind(w, inputs, ks, op).Some? && ScopedOp(op, |vs|, |input|)
    ensures OpValue(w, op, vs, input).None? <==> Leaves(w, op, vs)
  {
  }

  /** The nodes before `k` have values and node `k` is a sum that leaves the width. */
  predicate TrapsAt(w: Width, nodes: seq<Op>, input: seq<int>, k: nat)
    requires Scoped(nodes, |input|) && k < |nodes|
  {
    NodeValues(w, nodes[..k], input).Some? && Leaves(w, nodes[k], NodeValues(w, nodes[..k], input).value)
  }

  /** A checked program refuses an input exactly when some sum, taken or not, is the first to leave the width. */
  lemma {:induction false} RefusesExactlyAtASum(w: Width, inputs: seq<Domain>, nodes: seq<Op>, input: seq<int>)
    requires KindsOf(w, inputs, nodes).Some? && Scoped(nodes, |input|)
    ensures NodeValues(w, nodes, input).None? <==> exists k :: 0 <= k < |nodes| && TrapsAt(w, nodes, input, k)
    ensures forall i, j :: 0 <= i < j < |nodes| && TrapsAt(w, nodes, input, i) ==> !TrapsAt(w, nodes, input, j)
  {
    hide OpKind;
    hide OpValue;
    hide Leaves;
    if nodes != [] {
      var n := |nodes| - 1;
      var init := nodes[..n];
      RefusesExactlyAtASum(w, inputs, init, input);
      forall k | 0 <= k < n
        ensures TrapsAt(w, init, input, k) <==> TrapsAt(w, nodes, input, k)
      {
        assert init[..k] == nodes[..k];
      }
      assert forall k :: 0 <= k < n && TrapsAt(w, nodes, input, k) ==> NodeValues(w, init, input).None?;
      assert NodeValues(w, init, input).None? ==> exists k :: 0 <= k < n && TrapsAt(w, nodes, input, k);
      if NodeValues(w, init, input).Some? {
        assert TrapsAt(w, nodes, input, n) <==> Leaves(w, nodes[n], NodeValues(w, init, input).value);
        OnlySumsRefuse(w, inputs, KindsOf(w, inputs, init).value, nodes[n], NodeValues(w, init, input).value, input);
      }
    }
  }
}
