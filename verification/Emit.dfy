/**
 The Rust emitter, and the round trip through the decoder: every well-formed program has an accepted
 text, the emitted one, and the emitted text compiles and computes the program.
 */
module Emit {
  import opened Digits
  import opened Patterns
  import opened Ir
  import opened RustText
  import opened Emitted
  import opened Meaning

  /** The right-hand side the emitter writes for an instruction. */
  function EmitRhs(op: Op): Rhs
    requires op.Apply? ==> |op.args| == op.code.Arity()
  {
    match op
    case Input(i) => Rhs(0, [Print(i)])
    case Int(z) => Rhs(1, [PrintSigned(z)])
    case Bool(b) => Rhs(1, [PrintSigned(Flag(b))])
    case Apply(code, args) => EmitCode(code, PrintAll(args))
  }

  function EmitCode(code: Code, v: seq<string>): Rhs
    requires |v| == code.Arity()
  {
    match code
    case Add => Rhs(2, [v[0], "add", v[1]])
    case Sub => Rhs(2, [v[0], "sub", v[1]])
    case Mul => Rhs(3, v)
    case DivFloor => Rhs(4, ["false"] + v)
    case DivCeil => Rhs(4, ["true"] + v)
    case MulDivFloor => Rhs(5, ["false"] + v)
    case MulDivCeil => Rhs(5, ["true"] + v)
    case SignedMulDivFloor => Rhs(6, v)
    case ProductsGe => Rhs(7, v)
    case Eq => Rhs(8, [v[0], "==", v[1]])
    case Lt => Rhs(8, [v[0], "<", v[1]])
    case And => Rhs(9, v)
    case Not => Rhs(10, v)
    case Select => Rhs(11, v)
  }

  lemma EmitCodeIs(code: Code, v: seq<string>)
    requires |v| == code.Arity() && forall j :: 0 <= j < |v| ==> Numeral(v[j])
    ensures EmitCode(code, v).Valid() && EmitCode(code, v).form >= 2
    ensures EmitCode(code, v).Code() == code && EmitCode(code, v).Operands() == v
  {
    var r := EmitCode(code, v);
    var g := Form(r.form).groups;
    match code
    case Add | Sub | Eq | Lt => assert r.caps[0] == v[0] && r.caps[2] == v[1];
    case DivFloor | DivCeil | MulDivFloor | MulDivCeil => assert r.caps[1..] == v;
    case _ =>
  }

  lemma EmitRhsIs(op: Op, k: nat, inputs: nat)
    requires ScopedOp(op, k, inputs)
    ensures EmitRhs(op).Valid() && Agrees(Denote(EmitRhs(op)), op)
    ensures AllCanonical(EmitRhs(op).Operands())
  {
    match op
    case Input(i) => ValueOfPrint(i);
    case Int(z) => ValueOfPrintSigned(z);
    case Bool(b) => ValueOfPrintSigned(Flag(b));
    case Apply(code, args) =>
      EmitCodeIs(code, PrintAll(args));
      hide EmitCode;
      var r := EmitRhs(op);
      forall j | 0 <= j < |args|
        ensures Numbers(r.Operands())[j] == args[j]
      {
        ValueOfPrint(args[j]);
      }
      assert Numbers(r.Operands()) == args;
  }

  function EmitGuard(d: Domain, target: nat): Guard {
    Guard(PrintSigned(d.min), PrintSigned(d.max), Print(target))
  }

  lemma EmitGuardIs(d: Domain, target: nat)
    requires BooleanRange(d)
    ensures GuardOk(EmitGuard(d, target), d, target)
  {
    ValueOfPrintSigned(d.min);
    ValueOfPrintSigned(d.max);
    ValueOfPrint(target);
  }

  function EmitLet(op: Op, i: nat): Let
    requires op.Apply? ==> |op.args| == op.code.Arity()
  {
    Let(Print(i), EmitRhs(op), Print(i))
  }

  predicate BooleanDomains(p: Program) {
    && (forall i :: 0 <= i < |p.inputs| ==> BooleanRange(p.inputs[i]))
    && (forall i :: 0 <= i < |p.outputs| ==> BooleanRange(p.outputs[i]))
  }

  function EmitGuards(ds: seq<Domain>, targets: seq<nat>): (r: seq<Guard>)
    requires |ds| == |targets|
    ensures |r| == |ds| && forall i :: 0 <= i < |r| ==> r[i] == EmitGuard(ds[i], targets[i])
  {
    seq(|ds|, i requires 0 <= i < |ds| => EmitGuard(ds[i], targets[i]))
  }

  function EmitLets(p: Program): (r: seq<Let>)
    requires WellScoped(p)
    ensures |r| == |p.nodes|
    ensures forall i :: 0 <= i < |r| ==> ScopedOp(p.nodes[i], i, |p.inputs|) && r[i] == EmitLet(p.nodes[i], i)
  {
    seq(|p.nodes|, i requires 0 <= i < |p.nodes| =>
      assert ScopedOp(p.nodes[i], i, |p.inputs|); EmitLet(p.nodes[i], i))
  }

  function Upto(n: nat): (r: seq<nat>)
    ensures |r| == n && forall i :: 0 <= i < n ==> r[i] == i
  {
    seq(n, i => i)
  }

  /** The emitted function.  `profile` is the digit of the program's profile. */
  function EmitSource(p: Program, profile: string): Source
    requires WellScoped(p)
  {
    Source(profile, Print(|p.outputs|), ".", Print(|p.inputs|), EmitGuards(p.inputs, Upto(|p.inputs|)),
           EmitLets(p), EmitGuards(p.outputs, p.roots), PrintAll(p.roots))
  }

  lemma EmitLetIs(p: Program, i: nat)
    requires WellScoped(p) && i < |p.nodes|
    ensures ScopedOp(p.nodes[i], i, |p.inputs|)
    ensures LetOk(EmitLet(p.nodes[i], i), p, i) && LetSpelled(EmitLet(p.nodes[i], i))
  {
    assert ScopedOp(p.nodes[i], i, |p.inputs|);
    EmitRhsIs(p.nodes[i], i, |p.inputs|);
    hide EmitRhs;
    ValueOfPrint(i);
  }

  lemma EmittedGuards(ds: seq<Domain>, targets: seq<nat>)
    requires |ds| == |targets| && forall i :: 0 <= i < |ds| ==> BooleanRange(ds[i])
    ensures forall i :: 0 <= i < |ds| ==>
      EmitGuards(ds, targets)[i].Valid() && GuardOk(EmitGuards(ds, targets)[i], ds[i], targets[i])
    ensures forall i :: 0 <= i < |ds| ==> Canonical(EmitGuards(ds, targets)[i].target)
  {
    forall i | 0 <= i < |ds|
      ensures GuardOk(EmitGuards(ds, targets)[i], ds[i], targets[i])
      ensures Canonical(EmitGuards(ds, targets)[i].target)
    {
      EmitGuardIs(ds[i], targets[i]);
    }
  }

  lemma EmittedLets(p: Program)
    requires WellScoped(p)
    ensures forall i :: 0 <= i < |p.nodes| ==>
      EmitLets(p)[i].Valid() && LetOk(EmitLets(p)[i], p, i) && LetSpelled(EmitLets(p)[i])
  {
    hide EmitLet;
    hide WellScoped;
    forall i | 0 <= i < |p.nodes|
      ensures EmitLets(p)[i].Valid() && LetOk(EmitLets(p)[i], p, i) && LetSpelled(EmitLets(p)[i])
    {
      EmitLetIs(p, i);
    }
  }

  /** The emitted function spells its program, canonically. */
  lemma EmittedDenotes(p: Program, profile: string, helpers: bool)
    requires WellScoped(p) && BooleanDomains(p) && Fits(OneOf("1234"), profile) && (UsesHelper(p.nodes) ==> helpers)
    ensures Denotes(EmitSource(p, profile), p, helpers) && Spelled(EmitSource(p, profile))
  {
    ValueOfPrint(|p.outputs|);
    ValueOfPrint(|p.inputs|);
    EmittedGuards(p.inputs, Upto(|p.inputs|));
    EmittedGuards(p.outputs, p.roots);
    EmittedLets(p);
    hide Print;
    hide EmitGuards;
    hide EmitLets;
    hide GuardOk;
    hide LetOk;
    hide LetSpelled;
    hide Let.Valid;
    hide Guard.Valid;
    hide UsesHelper;
  }

  /** Decoding what was printed gives back the program: the emitted text is accepted for it. */
  lemma EmittedTextIsAccepted(p: Program, profile: string, helpers: bool)
    requires WellScoped(p) && BooleanDomains(p) && Fits(OneOf("1234"), profile) && (UsesHelper(p.nodes) ==> helpers)
    ensures EmitSource(p, profile).Valid() && Accepts(Lines(EmitSource(p, profile)), p, helpers)
  {
    EmittedDenotes(p, profile, helpers);
    hide EmitSource;
    hide Lines;
  }

  /** The emitter is correct: its text compiles and computes the program on every input vector. */
  lemma EmittedTextComputesProgram(p: Program, profile: string, helpers: bool, input: seq<i128>)
    requires WellScoped(p) && BooleanDomains(p) && Ranged(p)
    requires Fits(OneOf("1234"), profile) && (UsesHelper(p.nodes) ==> helpers)
    ensures var s := EmitSource(p, profile);
      s.Valid() && Compiles(s, helpers) && Run(s, input) == Returned(Eval(I128, p, input))
  {
    EmittedDenotes(p, profile, helpers);
    hide EmitSource;
    var s := EmitSource(p, profile);
    CompilesIffSpelled(s, p, helpers);
    SpelledMeans(s, p, helpers, input);
  }

  /** A program has an accepted text exactly when it is well formed. */
  lemma AcceptableIffWellFormed(p: Program)
    ensures (exists lines, helpers :: Accepts(lines, p, helpers)) <==> WellScoped(p) && BooleanDomains(p)
  {
    if lines, helpers :| Accepts(lines, p, helpers) {
      var s: Source :| Denotes(s, p, helpers) && Lines(s) == lines;
      DenotesScoped(s, p, helpers);
      forall i | 0 <= i < |p.inputs|
        ensures BooleanRange(p.inputs[i])
      {
        assert GuardOk(s.ins[i], p.inputs[i], i);
      }
      forall i | 0 <= i < |p.outputs|
        ensures BooleanRange(p.outputs[i])
      {
        assert GuardOk(s.outs[i], p.outputs[i], p.roots[i]);
      }
    }
    if WellScoped(p) && BooleanDomains(p) {
      EmittedTextIsAccepted(p, "1", true);
    }
  }

  // ---------------------------------------------------------------- accepted texts that do not compile

  /** One constant node, with the node's name and the character before `len()` left open. */
  function Constant(name: string, dot: string): Source {
    Source("1", "1", dot, "0", [], [Let(name, Rhs(1, ["0"]), "0")], [Guard("0", "0", "0")], ["0"])
  }

  lemma ConstantDenotes(name: string, dot: string)
    requires name == "0" || name == "00"
    requires Fits(Dot, dot)
    ensures Denotes(Constant(name, dot), Program([], [Domain(false, 0, 0)], [Int(0)], [0]), false)
  {
    var p := Program([], [Domain(false, 0, 0)], [Int(0)], [0]);
    var s := Constant(name, dot);
    assert Value("0"[..0]) == 0 && Value("1"[..0]) == 0;
    assert name == "00" ==> name[..1] == "0";
    assert Fits(Form(1).groups[0], "0") && Rhs(1, ["0"]).Valid();
    assert Print(0) == "0" && p.nodes[0] == Int(0) && s.lets[0].rhs == Rhs(1, ["0"]);
    assert SignedValue("0") == 0 && Denote(Rhs(1, ["0"])) == Int(0);
    assert LetOk(s.lets[0], p, 0);
    assert GuardOk(s.outs[0], p.outputs[0], 0);
    assert PrintAll([0])[0] == "0" && s.result == PrintAll([0]);
  }

  /** A text the decoder accepts for a program and the compiler refuses. */
  ghost predicate Uncompilable(s: Source, p: Program) {
    Denotes(s, p, false) && Accepts(Lines(s), p, false) && !Compiles(s, false)
  }

  lemma ConstantFails(name: string, dot: string)
    requires (name == "0" && dot != ".") || (name == "00" && dot == ".")
    requires Fits(Dot, dot)
    ensures Uncompilable(Constant(name, dot), Program([], [Domain(false, 0, 0)], [Int(0)], [0]))
  {
    ConstantDenotes(name, dot);
    var s, p := Constant(name, dot), Program([], [Domain(false, 0, 0)], [Int(0)], [0]);
    hide Lines;
    hide Denotes;
    hide Compiles;
    hide Ranged;
    CompilesIffSpelled(s, p, false);
    assert !Spelled(s) by {
      assert !Canonical("00");
      assert !LetSpelled(Constant("00", ".").lets[0]);
    }
  }

  /** The decoder bounds no literal: this program has an accepted, canonically spelled text. */
  function Oversized(): Program { Program([], [], [Int(I128.most + 1)], []) }

  function OversizedText(): Source { EmitSource(Oversized(), "1") }

  lemma OversizedFails()
    ensures Uncompilable(OversizedText(), Oversized()) && Spelled(OversizedText())
  {
    var p := Oversized();
    var s := OversizedText();
    EmittedDenotes(p, "1", false);
    EmittedTextIsAccepted(p, "1", false);
    hide EmitSource;
    hide Denotes;
    hide Lines;
    hide Compiles;
    hide Spelled;
    assert !LiteralRanged(p.nodes[0]);
    CompilesIffSpelled(s, p, false);
  }

  /**
   Acceptance alone does not give a compiling text: with a leading zero in a variable's name, with any
   other character for the dot, or with a literal outside the machine integer, the decoder accepts a
   text that rustc refuses.
   */
  lemma AcceptedButNotCompiling()
    ensures var p := Program([], [Domain(false, 0, 0)], [Int(0)], [0]);
      && Uncompilable(Constant("00", "."), p)
      && forall dot :: Fits(Dot, dot) && dot != "." ==> Uncompilable(Constant("0", dot), p)
    ensures Uncompilable(OversizedText(), Oversized()) && Spelled(OversizedText())
  {
    hide OversizedText;
    hide Uncompilable;
    hide Spelled;
    OversizedFails();
    ConstantFails("00", ".");
    forall dot | Fits(Dot, dot) && dot != "."
      ensures Uncompilable(Constant("0", dot), Program([], [Domain(false, 0, 0)], [Int(0)], [0]))
    {
      ConstantFails("0", dot);
    }
  }
}
