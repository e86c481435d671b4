/**
 What acceptance means: the accepted text, run as Rust, computes exactly the program's transition on
 every input, refusals included.  The text must also compile, and the decoder alone does not force
 that: it reads `v07` as node seven, any character between `input` and `len()`, and integers of any
 size.  The theorems below give the exact condition.
 */
module Meaning {
  import opened Digits
  import opened Patterns
  import opened Ir
  import opened RustText
  import opened RustGrammar
  import opened Emitted

  // ---------------------------------------------------------------- when an accepted text compiles

  /** Domain bounds and integer literals fit the machine integer. */
  predicate Ranged(p: Program) {
    && (forall i :: 0 <= i < |p.inputs| ==> DomainRanged(p.inputs[i]))
    && (forall i :: 0 <= i < |p.outputs| ==> DomainRanged(p.outputs[i]))
    && (forall i :: 0 <= i < |p.nodes| ==> LiteralRanged(p.nodes[i]))
  }
  predicate DomainRanged(d: Domain) {
    I128.least <= d.min <= I128.most && I128.least <= d.max <= I128.most
  }
  predicate LiteralRanged(op: Op) { op.Int? ==> I128.least <= op.z <= I128.most }

  predicate AllCanonical(names: seq<string>) {
    forall j :: 0 <= j < |names| ==> Canonical(names[j])
  }

  predicate LetSpelled(l: Let) {
    l.Valid() && Canonical(l.name) && AllCanonical(l.rhs.Operands())
  }

  /** No variable is written with a leading zero, and `len` is a method of `input`. */
  predicate Spelled(s: Source) {
    && s.dot == "."
    && (forall i :: 0 <= i < |s.lets| ==> LetSpelled(s.lets[i]))
    && (forall i :: 0 <= i < |s.outs| ==> Canonical(s.outs[i].target))
  }

  lemma InScope(lets: seq<Let>, k: nat, j: nat)
    requires j < k <= |lets|
    ensures lets[j].name in Scope(lets[..k])
  {
    assert lets[..k][j] == lets[j];
  }

  lemma ScopeIndex(lets: seq<Let>, k: nat, name: string) returns (j: nat)
    requires k <= |lets| && name in Scope(lets[..k])
    ensures j < k && lets[j].name == name
  {
    j :| 0 <= j < |lets[..k]| && lets[..k][j].name == name;
  }

  /** Each node's own discard line forces its name to be the canonical one. */
  lemma NameCanonical(s: Source, p: Program, helpers: bool, i: nat)
    requires Denotes(s, p, helpers) && i < |s.lets| && LetCompiles(s.lets, i, helpers)
    ensures s.lets[i].name == Print(i)
  {
    assert LetOk(s.lets[i], p, i);
    var j := ScopeIndex(s.lets, i + 1, s.lets[i].discard);
    assert LetOk(s.lets[j], p, j);
    ValueOfPrint(i);
  }

  lemma CompiledIsSpelled(s: Source, p: Program, helpers: bool)
    requires Denotes(s, p, helpers) && Compiles(s, helpers)
    ensures Spelled(s)
  {
    forall i | 0 <= i < |s.lets|
      ensures s.lets[i].name == Print(i) && LetSpelled(s.lets[i])
    {
      assert LetCompiles(s.lets, i, helpers);
      NameCanonical(s, p, helpers, i);
      var names := s.lets[i].rhs.Operands();
      forall j | 0 <= j < |names|
        ensures Canonical(names[j])
      {
        var k := ScopeIndex(s.lets, i, names[j]);
        assert LetCompiles(s.lets, k, helpers);
        NameCanonical(s, p, helpers, k);
      }
    }
    forall i | 0 <= i < |s.outs|
      ensures Canonical(s.outs[i].target)
    {
      assert s.lets[..|s.lets|] == s.lets;
      var k := ScopeIndex(s.lets, |s.lets|, s.outs[i].target);
    }
  }

  /** A canonical spelling of an earlier node is that node's name. */
  lemma CanonicalInScope(s: Source, p: Program, helpers: bool, name: string, k: nat)
    requires Denotes(s, p, helpers) && Spelled(s)
    requires k <= |s.lets| && Canonical(name) && Value(name) < k
    ensures name in Scope(s.lets[..k]) && s.lets[Value(name)].name == name
  {
    var j := Value(name);
    assert LetOk(s.lets[j], p, j) && LetSpelled(s.lets[j]);
    PrintOfValue(name);
    PrintOfValue(s.lets[j].name);
    InScope(s.lets, k, j);
  }

  lemma SpelledLetCompiles(s: Source, p: Program, helpers: bool, i: nat)
    requires Denotes(s, p, helpers) && Spelled(s) && Ranged(p) && i < |s.lets|
    ensures LetCompiles(s.lets, i, helpers)
  {
    var l := s.lets[i];
    assert LetOk(l, p, i) && LetSpelled(l) && LiteralRanged(p.nodes[i]);
    OperandsAreNumerals(l.rhs);
    var names := l.rhs.Operands();
    forall n | n in names
      ensures n in Scope(s.lets[..i])
    {
      var j :| 0 <= j < |names| && names[j] == n;
      assert p.nodes[i].args[j] == Value(n);
      CanonicalInScope(s, p, helpers, n, i);
    }
    PrintOfValue(l.name);
    InScope(s.lets, i + 1, i);
  }

  lemma SpelledCompiles(s: Source, p: Program, helpers: bool)
    requires Denotes(s, p, helpers) && Spelled(s) && Ranged(p)
    ensures Compiles(s, helpers)
  {
    hide LetCompiles;
    hide LetOk;
    forall i | 0 <= i < |s.lets|
      ensures LetCompiles(s.lets, i, helpers)
    {
      SpelledLetCompiles(s, p, helpers, i);
    }
    assert s.lets[..|s.lets|] == s.lets;
    forall i | 0 <= i < |s.outs|
      ensures InRange(s.outs[i].lo) && InRange(s.outs[i].hi) && s.outs[i].target in Scope(s.lets)
    {
      assert DomainRanged(p.outputs[i]) && GuardOk(s.outs[i], p.outputs[i], p.roots[i]);
      CanonicalInScope(s, p, helpers, s.outs[i].target, |s.lets|);
    }
    forall i | 0 <= i < |s.ins|
      ensures InRange(s.ins[i].lo) && InRange(s.ins[i].hi)
    {
      assert DomainRanged(p.inputs[i]) && GuardOk(s.ins[i], p.inputs[i], i);
    }
    forall n | n in s.result
      ensures n in Scope(s.lets)
    {
      var j :| 0 <= j < |s.result| && s.result[j] == n;
      ValueOfPrint(p.roots[j]);
      CanonicalInScope(s, p, helpers, n, |s.lets|);
    }
  }

  /** A compiling text keeps every bound and literal inside the machine integer, and so did the program. */
  lemma CompiledIsRanged(s: Source, p: Program, helpers: bool)
    requires Denotes(s, p, helpers) && Compiles(s, helpers)
    ensures Ranged(p)
  {
    forall i | 0 <= i < |p.inputs|
      ensures DomainRanged(p.inputs[i])
    {
      assert GuardOk(s.ins[i], p.inputs[i], i);
    }
    forall i | 0 <= i < |p.outputs|
      ensures DomainRanged(p.outputs[i])
    {
      assert GuardOk(s.outs[i], p.outputs[i], p.roots[i]);
    }
    forall i | 0 <= i < |p.nodes|
      ensures LiteralRanged(p.nodes[i])
    {
      assert LetOk(s.lets[i], p, i) && LetCompiles(s.lets, i, helpers);
    }
  }

  /** An accepted text compiles exactly when it is spelled canonically and the program fits the machine integer. */
  lemma CompilesIffSpelled(s: Source, p: Program, helpers: bool)
    requires Denotes(s, p, helpers)
    ensures Compiles(s, helpers) <==> Spelled(s) && Ranged(p)
  {
    assert s.Valid();
    hide Compiles;
    hide Spelled;
    hide Denotes;
    hide Ranged;
    if Compiles(s, helpers) {
      CompiledIsSpelled(s, p, helpers);
      CompiledIsRanged(s, p, helpers);
    }
    if Spelled(s) && Ranged(p) { SpelledCompiles(s, p, helpers); }
  }

  // ---------------------------------------------------------------- what the statements compute

  /** The Rust expression of an instruction computes its value, and refuses where it refuses. */
  lemma ComputeIsValue(code: Code, x: seq<i128>)
    requires |x| == code.Arity()
    ensures Compute(code, x) == match CodeValue(I128, code, x) case None => Return case Some(v) => Checked(Some(v))
    ensures !Compute(code, x).Panic?
  {
    match code
    case DivFloor => Scalar.DivideRounds(false, x[0], x[1]);
    case DivCeil => Scalar.DivideRounds(true, x[0], x[1]);
    case MulDivFloor => Scalar.MulDivRounds(false, x[0], x[1], x[2]);
    case MulDivCeil => Scalar.MulDivRounds(true, x[0], x[1], x[2]);
    case SignedMulDivFloor => Scalar.SignedMulDivRounds(x[0], x[1], x[2]);
    case _ =>
  }

  /** What the words of an alternative say is what its instruction computes on its operands. */
  lemma RhsIsCompute(r: Rhs, env: Env, input: seq<i128>)
    requires r.Valid() && r.form >= 2 && Bound(r.Operands(), env)
    ensures |r.Operands()| == r.Code().Arity()
    ensures RunRhs(r, env, input) == Compute(r.Code(), Lookup(r.Operands(), env))
  {
    OperandsAreNumerals(r);
    var names := r.Operands();
    var x := Lookup(names, env);
    assert forall j :: 0 <= j < |names| ==> names[j] in env && x[j] == env[names[j]];
    match r.form
    case 2 => assert names[0] == r.caps[0] && names[1] == r.caps[2];
    case 4 => assert names[0] == r.caps[1] && names[1] == r.caps[2];
    case 5 => assert names[0] == r.caps[1] && names[1] == r.caps[2] && names[2] == r.caps[3];
    case 8 => assert names[0] == r.caps[0] && names[1] == r.caps[2];
    case _ =>
  }

  /** The environment holds exactly the values of the nodes so far, under their names. */
  ghost predicate Holds(env: Env, lets: seq<Let>, vs: seq<int>) {
    |lets| == |vs| && forall j :: 0 <= j < |vs| ==> lets[j].name in env && env[lets[j].name] == vs[j]
  }

  lemma OperandsHold(s: Source, p: Program, helpers: bool, i: nat, env: Env, vs: seq<int>)
    requires Denotes(s, p, helpers) && Spelled(s) && i < |s.lets| && s.lets[i].rhs.form >= 2
    requires Holds(env, s.lets[..i], vs)
    ensures p.nodes[i].Apply? && ScopedOp(p.nodes[i], i, |p.inputs|)
    ensures Bound(s.lets[i].rhs.Operands(), env)
    ensures Lookup(s.lets[i].rhs.Operands(), env) == Project(vs, p.nodes[i].args)
  {
    var l := s.lets[i];
    assert LetOk(l, p, i) && LetSpelled(l);
    OperandsAreNumerals(l.rhs);
    var names, args := l.rhs.Operands(), p.nodes[i].args;
    forall j | 0 <= j < |names|
      ensures names[j] in env && env[names[j]] == vs[args[j]]
    {
      CanonicalInScope(s, p, helpers, names[j], i);
      assert s.lets[..i][args[j]] == s.lets[args[j]];
    }
  }

  /** One eager node: the statement computes the instruction. */
  lemma RhsMeans(s: Source, p: Program, helpers: bool, i: nat, env: Env, vs: seq<int>, input: seq<i128>)
    requires Denotes(s, p, helpers) && Spelled(s) && Ranged(p) && i < |s.lets| && |input| == |p.inputs|
    requires Holds(env, s.lets[..i], vs)
    ensures ScopedOp(p.nodes[i], i, |input|)
    ensures RunRhs(s.lets[i].rhs, env, input) ==
      match OpValue(I128, p.nodes[i], vs, input) case None => Return case Some(v) => Checked(Some(v))
    ensures !RunRhs(s.lets[i].rhs, env, input).Panic?
  {
    var l := s.lets[i];
    assert LetOk(l, p, i) && LiteralRanged(p.nodes[i]);
    OperandsAreNumerals(l.rhs);
    if l.rhs.form >= 2 {
      OperandsHold(s, p, helpers, i, env, vs);
      RhsIsCompute(l.rhs, env, input);
      ComputeIsValue(l.rhs.Code(), Lookup(l.rhs.Operands(), env));
    }
  }

  lemma NamesDistinct(s: Source, p: Program, helpers: bool, i: nat, j: nat)
    requires Denotes(s, p, helpers) && j < i < |s.lets|
    ensures s.lets[i].name != s.lets[j].name
  {
    assert LetOk(s.lets[i], p, i) && LetOk(s.lets[j], p, j);
  }

  lemma NodesStep(nodes: seq<Op>, k: nat, input: seq<int>)
    requires Scoped(nodes, |input|) && k < |nodes|
    ensures Scoped(nodes[..k], |input|) && Scoped(nodes[..k + 1], |input|)
    ensures NodeValues(I128, nodes[..k + 1], input) ==
      match NodeValues(I128, nodes[..k], input)
      case None => None
      case Some(vs) =>
        match OpValue(I128, nodes[k], vs, input)
        case None => None
        case Some(v) => Some(vs + [v])
  {
    hide OpValue;
    assert nodes[..k + 1][..k] == nodes[..k];
  }

  lemma LetsStep(lets: seq<Let>, k: nat, input: seq<i128>)
    requires (forall i :: 0 <= i < |lets| ==> lets[i].Valid()) && k < |lets|
    ensures RunLets(lets[..k + 1], input) ==
      match RunLets(lets[..k], input)
      case Return => Return
      case Panic => Panic
      case Go(env) =>
        match RunRhs(lets[k].rhs, env, input)
        case Return => Return
        case Panic => Panic
        case Go(v) => Go(env[lets[k].name := v])
  {
    hide RunRhs;
    hide Let.Valid;
    assert lets[..k + 1][..k] == lets[..k];
  }

  lemma HoldsNext(lets: seq<Let>, i: nat, env: Env, vs: seq<int>, v: i128)
    requires i < |lets| && Holds(env, lets[..i], vs)
    requires forall j :: 0 <= j < i ==> lets[i].name != lets[j].name
    ensures Holds(env[lets[i].name := v], lets[..i + 1], vs + [v])
  {
    assert forall j :: 0 <= j < i ==> lets[..i + 1][j] == lets[..i][j] == lets[j];
  }

  /** The `let` statements compute the nodes: the same values, or a refusal at the same node. */
  lemma {:induction false} LetsMean(s: Source, p: Program, helpers: bool, k: nat, input: seq<i128>)
    requires Denotes(s, p, helpers) && Spelled(s) && Ranged(p) && k <= |s.lets| && |input| == |p.inputs|
    ensures Scoped(p.nodes[..k], |input|)
    ensures match NodeValues(I128, p.nodes[..k], input)
      case None => RunLets(s.lets[..k], input) == Return
      case Some(vs) => RunLets(s.lets[..k], input).Go? && Holds(RunLets(s.lets[..k], input).value, s.lets[..k], vs)
  {
    DenotesScoped(s, p, helpers);
    if k > 0 {
      var i := k - 1;
      LetsMean(s, p, helpers, i, input);
      hide Spelled;
      hide Ranged;
      hide Holds;
      hide OpValue;
      hide RunRhs;
      hide RunLets;
      hide NodeValues;
      hide LetOk;
      hide GuardOk;
      NodesStep(p.nodes, i, input);
      LetsStep(s.lets, i, input);
      if NodeValues(I128, p.nodes[..i], input).Some? {
        var vs, env := NodeValues(I128, p.nodes[..i], input).value, RunLets(s.lets[..i], input).value;
        RhsMeans(s, p, helpers, i, env, vs, input);
        if OpValue(I128, p.nodes[i], vs, input).Some? {
          forall j | 0 <= j < i
            ensures s.lets[i].name != s.lets[j].name
          {
            NamesDistinct(s, p, helpers, i, j);
          }
          HoldsNext(s.lets, i, env, vs, RunRhs(s.lets[i].rhs, env, input).value);
        }
      }
    }
  }

  lemma DenotesScoped(s: Source, p: Program, helpers: bool)
    requires Denotes(s, p, helpers)
    ensures WellScoped(p)
  {
    forall k | 0 <= k < |p.nodes|
      ensures ScopedOp(p.nodes[k], k, |p.inputs|)
    {
      assert LetOk(s.lets[k], p, k);
    }
  }

  lemma GuardAdmits(g: Guard, d: Domain, target: nat, z: int)
    requires GuardOk(g, d, target)
    ensures g.Valid() && Value(g.target) == target && (g.Admits(z) <==> d.Has(z))
  {
  }

  ghost predicate GuardsOk(ins: seq<Guard>, ds: seq<Domain>) {
    |ins| == |ds| && forall i :: 0 <= i < |ins| ==> ins[i].Valid() && GuardOk(ins[i], ds[i], i)
  }

  /** The input guards admit exactly the declared domains. */
  lemma {:induction false} InsMean(ins: seq<Guard>, ds: seq<Domain>, input: seq<i128>)
    requires GuardsOk(ins, ds) && |ds| <= |input|
    ensures RunIns(ins, input) == if InDomains(ds, input[..|ds|]) then Go(()) else Return
  {
    hide GuardOk;
    hide Guard.Valid;
    hide Guard.Admits;
    hide Domain.Has;
    if ins != [] {
      var k := |ins| - 1;
      InsMean(ins[..k], ds[..k], input);
      GuardAdmits(ins[k], ds[k], k, input[k]);
      DomainsStep(ds, input[..|ds|]);
      assert input[..|ds|][..k] == input[..k];
    }
  }

  ghost predicate OutGuardsOk(outs: seq<Guard>, ds: seq<Domain>, env: Env, zs: seq<int>) {
    && |outs| == |ds| == |zs|
    && forall i :: 0 <= i < |outs| ==> OutGuardOk(outs[i], ds[i], env, zs[i])
  }
  ghost predicate OutGuardOk(g: Guard, d: Domain, env: Env, z: int) {
    g.Valid() && GuardOk(g, d, Value(g.target)) && g.target in env && env[g.target] == z
  }

  /** The output guards admit exactly the declared domains. */
  lemma {:induction false} OutsMean(outs: seq<Guard>, ds: seq<Domain>, env: Env, zs: seq<int>)
    requires OutGuardsOk(outs, ds, env, zs) && forall i :: 0 <= i < |outs| ==> outs[i].Valid()
    ensures RunOuts(outs, env) == if InDomains(ds, zs) then Go(()) else Return
  {
    if outs != [] {
      var k := |outs| - 1;
      assert OutGuardOk(outs[k], ds[k], env, zs[k]);
      GuardAdmits(outs[k], ds[k], Value(outs[k].target), zs[k]);
      hide OutGuardOk;
      hide GuardOk;
      hide Guard.Valid;
      hide Guard.Admits;
      hide Domain.Has;
      OutsMean(outs[..k], ds[..k], env, zs[..k]);
      DomainsStep(ds, zs);
    }
  }

  lemma TargetHolds(s: Source, p: Program, helpers: bool, i: nat, env: Env, vs: seq<int>)
    requires Denotes(s, p, helpers) && Spelled(s) && i < |s.outs| && Holds(env, s.lets, vs)
    ensures s.outs[i].target in env && env[s.outs[i].target] == vs[p.roots[i]]
    ensures s.result[i] in env && env[s.result[i]] == vs[p.roots[i]]
  {
    assert GuardOk(s.outs[i], p.outputs[i], p.roots[i]);
    assert s.lets[..|s.lets|] == s.lets;
    CanonicalInScope(s, p, helpers, s.outs[i].target, |s.lets|);
    ValueOfPrint(p.roots[i]);
    CanonicalInScope(s, p, helpers, s.result[i], |s.lets|);
  }

  lemma ResultMeans(s: Source, p: Program, helpers: bool, env: Env, vs: seq<int>)
    requires Denotes(s, p, helpers) && Spelled(s) && Holds(env, s.lets, vs)
    ensures Below(p.roots, |vs|) && Bound(s.result, env) && Lookup(s.result, env) == Project(vs, p.roots)
  {
    forall i | 0 <= i < |s.outs|
      ensures s.result[i] in env && env[s.result[i]] == vs[p.roots[i]]
    {
      TargetHolds(s, p, helpers, i, env, vs);
    }
  }

  /** The result of a call in terms of the program's transition. */
  function Returned(o: Option<seq<int>>): Flow<seq<int>> {
    match o case None => Return case Some(out) => Go(out)
  }

  lemma OutsHold(s: Source, p: Program, helpers: bool, env: Env, vs: seq<int>)
    requires Denotes(s, p, helpers) && Spelled(s) && Holds(env, s.lets, vs) && Below(p.roots, |vs|)
    ensures OutGuardsOk(s.outs, p.outputs, env, Project(vs, p.roots))
  {
    forall i | 0 <= i < |s.outs|
      ensures OutGuardOk(s.outs[i], p.outputs[i], env, Project(vs, p.roots)[i])
    {
      assert GuardOk(s.outs[i], p.outputs[i], p.roots[i]);
      TargetHolds(s, p, helpers, i, env, vs);
    }
  }

  /** After the nodes, the output guards and the result project the roots. */
  lemma EndMeans(s: Source, p: Program, helpers: bool, env: Env, vs: seq<int>)
    requires Denotes(s, p, helpers) && Spelled(s) && Holds(env, s.lets, vs)
    ensures Below(p.roots, |vs|) && Bound(s.result, env) && Lookup(s.result, env) == Project(vs, p.roots)
    ensures RunOuts(s.outs, env) == if InDomains(p.outputs, Project(vs, p.roots)) then Go(()) else Return
  {
    ResultMeans(s, p, helpers, env, vs);
    OutsHold(s, p, helpers, env, vs);
    assert s.Valid();
    hide Holds;
    hide Spelled;
    hide OutGuardsOk;
    OutsMean(s.outs, p.outputs, env, Project(vs, p.roots));
  }

  /** The source's sections, ready for the section lemmas. */
  lemma Sections(s: Source, p: Program, helpers: bool)
    requires Denotes(s, p, helpers)
    ensures s.Valid() && WellScoped(p) && GuardsOk(s.ins, p.inputs) && Value(s.count) == |p.inputs|
    ensures |s.lets| == |p.nodes|
  {
    DenotesScoped(s, p, helpers);
    hide GuardOk;
  }

  /** A canonically spelled accepted text computes the program on every input vector. */
  lemma SpelledMeans(s: Source, p: Program, helpers: bool, input: seq<i128>)
    requires Denotes(s, p, helpers) && Spelled(s) && Ranged(p)
    ensures WellScoped(p) && Run(s, input) == Returned(Eval(I128, p, input))
  {
    Sections(s, p, helpers);
    hide Denotes;
    hide Spelled;
    hide Ranged;
    hide GuardsOk;
    hide Holds;
    hide RunLets;
    hide RunIns;
    hide RunOuts;
    hide NodeValues;
    hide InDomains;
    if |input| == |p.inputs| {
      InsMean(s.ins, p.inputs, input);
      assert input[..|p.inputs|] == input;
      LetsMean(s, p, helpers, |s.lets|, input);
      assert s.lets[..|s.lets|] == s.lets && p.nodes[..|p.nodes|] == p.nodes;
      if NodeValues(I128, p.nodes, input).Some? {
        EndMeans(s, p, helpers, RunLets(s.lets, input).value, NodeValues(I128, p.nodes, input).value);
      }
    } else {
      NotInDomains(p.inputs, input);
    }
  }

  lemma NotInDomains(ds: seq<Domain>, zs: seq<int>)
    requires |ds| != |zs|
    ensures !InDomains(ds, zs)
  {
  }

  // ---------------------------------------------------------------- the main theorems

  /**
   The translation validator is sound.  If the decoder accepts the lines for a program, then whatever
   function these lines are the text of, if it compiles, it returns on every input vector exactly what
   the program denotes: the same outputs, and `None` for every refused input, node or output.
   */
  lemma AcceptedTextComputesProgram(lines: seq<string>, p: Program, helpers: bool, s: Source, input: seq<i128>)
    requires Accepts(lines, p, helpers)
    requires s.Valid() && Lines(s) == lines && Compiles(s, helpers)
    ensures WellScoped(p) && Run(s, input) == Returned(Eval(I128, p, input))
  {
    hide Lines;
    hide Compiles;
    hide LetOk;
    hide GuardOk;
    var t: Source :| Denotes(t, p, helpers) && Lines(t) == lines;
    LinesInjective(s, t);
    CompilesIffSpelled(s, p, helpers);
    SpelledMeans(s, p, helpers, input);
  }

  /** Any two accepted, compiling texts for one program are interchangeable. */
  lemma AcceptedTextsAgree(a: seq<string>, b: seq<string>, p: Program, s: Source, t: Source, input: seq<i128>,
                           ha: bool, hb: bool)
    requires Accepts(a, p, ha) && Accepts(b, p, hb)
    requires s.Valid() && Lines(s) == a && Compiles(s, ha)
    requires t.Valid() && Lines(t) == b && Compiles(t, hb)
    ensures Run(s, input) == Run(t, input)
  {
    AcceptedTextComputesProgram(a, p, ha, s, input);
    AcceptedTextComputesProgram(b, p, hb, t, input);
  }
}
