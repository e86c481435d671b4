/**
 The closed Rust subset of an emitted transition function: its concrete text, line by line, and its
 meaning as Rust.  Names and numerals keep their spelling here, because `v7` and `v07` are different
 Rust identifiers although both spell the number seven.
 */
module RustText {
  import opened Digits
  import opened Patterns
  import opened Ir
  import Scalar

  type i128 = Scalar.i128

  // ---------------------------------------------------------------- expressions

  const FORMS := 12

  /** The alternatives of the expression grammar, in the order they are tried. */
  function Form(k: nat): Pattern
    requires k < FORMS
  {
    match k
    case 0 => Pattern(["input[", "]"], [Num])
    case 1 => Pattern(["", "_i128"], [Integer])
    case 2 => Pattern(["v", ".checked_", "(v", ")?"], [Num, Choice("add", "sub"), Num])
    case 3 => Pattern(["arithmetic::scalar::multiply(v", ",v", ")?"], [Num, Num])
    case 4 => Pattern(["arithmetic::scalar::divide(", ",v", ",v", ")?"], [Choice("false", "true"), Num, Num])
    case 5 => Pattern(["arithmetic::scalar::mul_div(", ",v", ",v", ",v", ")?"],
                      [Choice("false", "true"), Num, Num, Num])
    case 6 => Pattern(["arithmetic::scalar::signed_mul_div_floor(v", ",v", ",v", ")?"], [Num, Num, Num])
    case 7 => Pattern(["i128::from(arithmetic::scalar::products_ge(v", ",v", ",v", ",v", ",v", ",v", ")?)"],
                      [Num, Num, Num, Num, Num, Num])
    case 8 => Pattern(["i128::from(v", " ", " v", ")"], [Num, Choice("==", "<"), Num])
    case 9 => Pattern(["i128::from(v", " == 1 && v", " == 1)"], [Num, Num])
    case 10 => Pattern(["i128::from(v", " == 0)"], [Num])
    case 11 => Pattern(["if v", " == 1 { v", " } else { v", " }"], [Num, Num, Num])
  }

  /** A right-hand side: an alternative and the text of its groups. */
  datatype Rhs = Rhs(form: nat, caps: seq<string>) {
    predicate Valid() { form < FORMS && Fillable(Form(form), caps) }

    function Text(): string
      requires Valid()
    {
      Fill(Form(form), caps)
    }

    /** The spellings of the node variables it reads, without the leading `v`. */
    function Operands(): seq<string>
      requires Valid()
    {
      match form
      case 0 | 1 => []
      case 2 | 8 => [caps[0], caps[2]]
      case 4 | 5 => caps[1..]
      case _ => caps
    }

    /** The instruction of every alternative that reads nodes. */
    function Code(): Ir.Code
      requires Valid() && form >= 2
    {
      match form
      case 2 => if caps[1] == "add" then Add else Sub
      case 3 => Mul
      case 4 => if caps[0] == "true" then DivCeil else DivFloor
      case 5 => if caps[0] == "true" then MulDivCeil else MulDivFloor
      case 6 => SignedMulDivFloor
      case 7 => ProductsGe
      case 8 => if caps[1] == "==" then Eq else Lt
      case 9 => And
      case 10 => Not
      case 11 => Select
    }
  }

  lemma FormDeterministic(k: nat)
    requires k < FORMS
    ensures Deterministic(Form(k))
  {
    hide Form;
    hide Deterministic;
    match k
    case 0 | 1 => AtomDeterministic(k);
    case 2 => SumDeterministic();
    case 3 | 4 => ShortCallDeterministic(k);
    case 5 => MulDivDeterministic();
    case 6 => SignedDeterministic();
    case 7 => ProductsDeterministic();
    case 8 => ComparisonDeterministic();
    case 9 | 10 => LogicDeterministic(k);
    case 11 => SelectDeterministic();
  }

  lemma AtomDeterministic(k: nat)
    requires k == 0 || k == 1
    ensures Deterministic(Form(k))
  {
  }

  lemma SumDeterministic()
    ensures Deterministic(Form(2))
  {
  }

  lemma ComparisonDeterministic()
    ensures Deterministic(Form(8))
  {
  }

  lemma LogicDeterministic(k: nat)
    requires k == 9 || k == 10
    ensures Deterministic(Form(k))
  {
  }

  lemma SelectDeterministic()
    ensures Deterministic(Form(11))
  {
  }

  lemma ShortCallDeterministic(k: nat)
    requires k == 3 || k == 4
    ensures Deterministic(Form(k))
  {
  }

  lemma MulDivDeterministic()
    ensures Deterministic(Form(5))
  {
  }

  lemma SignedDeterministic()
    ensures Deterministic(Form(6))
  {
  }

  lemma ProductsDeterministic()
    ensures Deterministic(Form(7))
  {
  }

  /** Where each alternative's groups are, and that its operands are numerals. */
  lemma OperandsAreNumerals(r: Rhs)
    requires r.Valid()
    ensures forall j :: 0 <= j < |r.Operands()| ==> Numeral(r.Operands()[j])
    ensures r.form == 0 ==> |r.caps| == 1 && Numeral(r.caps[0])
    ensures r.form == 1 ==> |r.caps| == 1 && CanonicalSigned(r.caps[0]) && SignedNumeral(r.caps[0])
    ensures r.form >= 2 ==> |r.Operands()| == r.Code().Arity()
  {
    var g := Form(r.form).groups;
    forall j | 0 <= j < |g|
      ensures Fits(g[j], r.caps[j])
    {
    }
  }

  // ---------------------------------------------------------------- meaning of an expression

  /** Running a fragment: a value, an early `return None`, or a panic. */
  datatype Flow<+T> = Go(value: T) | Return | Panic

  type Env = map<string, i128>

  function Checked(o: Option<int>): Flow<i128> {
    match o
    case None => Return
    case Some(z) => if I128.least <= z <= I128.most then Go(z) else Panic
  }

  /** `checked_add` and `checked_sub`. */
  function Sum(a: int, b: int): Option<int> { Narrow(I128, a + b) }

  function Difference(a: int, b: int): Option<int> { Narrow(I128, a - b) }

  /** What the Rust expression of each alternative computes on the values of its operands. */
  function Compute(code: Code, x: seq<i128>): Flow<i128>
    requires |x| == code.Arity()
  {
    match code
    case Add => Checked(Sum(x[0], x[1]))
    case Sub => Checked(Difference(x[0], x[1]))
    case Mul => Checked(Scalar.Multiply(x[0], x[1]))
    case DivFloor => Checked(Scalar.Divide(false, x[0], x[1]))
    case DivCeil => Checked(Scalar.Divide(true, x[0], x[1]))
    case MulDivFloor => Checked(Scalar.MulDiv(false, x[0], x[1], x[2]))
    case MulDivCeil => Checked(Scalar.MulDiv(true, x[0], x[1], x[2]))
    case SignedMulDivFloor => Checked(Scalar.SignedMulDivFloor(x[0], x[1], x[2]))
    case ProductsGe =>
      (match Scalar.ProductsGe(x[0], x[1], x[2], x[3], x[4], x[5])
       case None => Return
       case Some(b) => Go(if b then 1 else 0))
    case Eq => Go(if x[0] == x[1] then 1 else 0)
    case Lt => Go(if x[0] < x[1] then 1 else 0)
    case And => Go(if x[0] == 1 && x[1] == 1 then 1 else 0)
    case Not => Go(if x[0] == 0 then 1 else 0)
    case Select => Go(if x[0] == 1 then x[1] else x[2])
  }

  predicate Bound(names: seq<string>, env: Env) {
    forall j :: 0 <= j < |names| ==> names[j] in env
  }

  function Lookup(names: seq<string>, env: Env): (x: seq<i128>)
    requires Bound(names, env)
    ensures |x| == |names| && forall j :: 0 <= j < |x| ==> x[j] == env[names[j]]
  {
    seq(|names|, j requires 0 <= j < |names| => env[names[j]])
  }

  function Truth(b: bool): Flow<i128> { Go(if b then 1 else 0) }

  /** Running a right-hand side, alternative by alternative, on the words and names it was written with. */
  function RunRhs(r: Rhs, env: Env, input: seq<i128>): Flow<i128>
    requires r.Valid()
  {
    OperandsAreNumerals(r);
    var c := r.caps;
    match r.form
    case 0 => var i := Value(c[0]); if i < |input| then Go(input[i]) else Panic
    case 1 => Checked(Some(SignedValue(c[0])))
    case 2 =>
      if c[0] !in env || c[2] !in env then Panic
      else if c[1] == "add" then Checked(Sum(env[c[0]], env[c[2]]))
      else Checked(Difference(env[c[0]], env[c[2]]))
    case 3 =>
      if c[0] !in env || c[1] !in env then Panic else Checked(Scalar.Multiply(env[c[0]], env[c[1]]))
    case 4 =>
      if c[1] !in env || c[2] !in env then Panic else Checked(Scalar.Divide(c[0] == "true", env[c[1]], env[c[2]]))
    case 5 =>
      if c[1] !in env || c[2] !in env || c[3] !in env then Panic
      else Checked(Scalar.MulDiv(c[0] == "true", env[c[1]], env[c[2]], env[c[3]]))
    case 6 =>
      if c[0] !in env || c[1] !in env || c[2] !in env then Panic
      else Checked(Scalar.SignedMulDivFloor(env[c[0]], env[c[1]], env[c[2]]))
    case 7 =>
      if !Bound(c, env) then Panic else
        (match Scalar.ProductsGe(env[c[0]], env[c[1]], env[c[2]], env[c[3]], env[c[4]], env[c[5]])
         case None => Return
         case Some(b) => Truth(b))
    case 8 =>
      if c[0] !in env || c[2] !in env then Panic
      else if c[1] == "==" then Truth(env[c[0]] == env[c[2]]) else Truth(env[c[0]] < env[c[2]])
    case 9 => if c[0] !in env || c[1] !in env then Panic else Truth(env[c[0]] == 1 && env[c[1]] == 1)
    case 10 => if c[0] !in env then Panic else Truth(env[c[0]] == 0)
    case 11 =>
      if c[0] !in env || c[1] !in env || c[2] !in env then Panic
      else if env[c[0]] == 1 then Go(env[c[1]]) else Go(env[c[2]])
  }

  // ---------------------------------------------------------------- statements and the function

  datatype Let = Let(name: string, rhs: Rhs, discard: string) {
    predicate Valid() { Numeral(name) && rhs.Valid() && Numeral(discard) }
  }

  datatype Guard = Guard(lo: string, hi: string, target: string) {
    predicate Valid() { SignedNumeral(lo) && SignedNumeral(hi) && Numeral(target) }
    predicate Admits(z: int)
      requires Valid()
    {
      SignedValue(lo) <= z <= SignedValue(hi)
    }
  }

  /** One emitted function.  `dot` is the character between `input` and `len()`. */
  datatype Source = Source(
    profile: string, arity: string, dot: string, count: string,
    ins: seq<Guard>, lets: seq<Let>, outs: seq<Guard>, result: seq<string>)
  {
    predicate Valid() {
      && Fits(OneOf("1234"), profile) && Numeral(arity) && Fits(Dot, dot) && Numeral(count)
      && (forall i :: 0 <= i < |ins| ==> ins[i].Valid())
      && (forall i :: 0 <= i < |lets| ==> lets[i].Valid())
      && (forall i :: 0 <= i < |outs| ==> outs[i].Valid())
      && (forall i :: 0 <= i < |result| ==> Numeral(result[i]))
    }
  }

  function HeaderPattern(): Pattern {
    Pattern(["// Generated from zeno-fcis/finite-i128/", ". Pure code; no commit authority."], [OneOf("1234")])
  }
  const DOCUMENTATION := "/// Evaluates the generated finite program; no commit authority."
  const ATTRIBUTE := "#[rustfmt::skip]"
  function SignaturePattern(): Pattern {
    Pattern(["pub fn transition(input: &[i128]) -> Option<[i128; ", "]> {"], [Num])
  }
  function CountPattern(): Pattern {
    Pattern(["    if input", "len() != ", " { return None; }"], [Dot, Num])
  }
  function InPattern(): Pattern {
    Pattern(["    if !(", "_i128..=", "_i128).contains(&input[", "]) { return None; }"], [Signed, Signed, Num])
  }
  function OutPattern(): Pattern {
    Pattern(["    if !(", "_i128..=", "_i128).contains(&v", ") { return None; }"], [Signed, Signed, Num])
  }
  /** The last group holds the right-hand side and the final semicolon. */
  function LetPattern(): Pattern {
    Pattern(["    let v", ": i128 = ", ""], [Num, Tail])
  }

  function InLine(g: Guard): string { Fill(InPattern(), [g.lo, g.hi, g.target]) }
  function OutLine(g: Guard): string { Fill(OutPattern(), [g.lo, g.hi, g.target]) }
  function LetLine(l: Let): string
    requires l.Valid()
  {
    Fill(LetPattern(), [l.name, l.rhs.Text() + ";"])
  }
  function DiscardLine(name: string): string { "    let _ = v" + name + ";" }

  function Names(names: seq<string>): string {
    if names == [] then "" else "v" + names[0] + "," + Names(names[1..])
  }
  function ResultLine(names: seq<string>): string { "    Some([" + Names(names) + "])" }

  function Preamble(s: Source): (r: seq<string>)
    ensures |r| == 5
  {
    [Fill(HeaderPattern(), [s.profile]), DOCUMENTATION, ATTRIBUTE,
     Fill(SignaturePattern(), [s.arity]), Fill(CountPattern(), [s.dot, s.count])]
  }

  /** The text of the function, one string per line. */
  function Lines(s: Source): seq<string>
    requires s.Valid()
  {
    Preamble(s) + InLines(s.ins) + LetLines(s.lets) + OutLines(s.outs) + [ResultLine(s.result), "}"]
  }

  function InLines(ins: seq<Guard>): (r: seq<string>)
    ensures |r| == |ins| && forall i :: 0 <= i < |r| ==> r[i] == InLine(ins[i])
  {
    seq(|ins|, i requires 0 <= i < |ins| => InLine(ins[i]))
  }

  function OutLines(outs: seq<Guard>): (r: seq<string>)
    ensures |r| == |outs| && forall i :: 0 <= i < |r| ==> r[i] == OutLine(outs[i])
  {
    seq(|outs|, i requires 0 <= i < |outs| => OutLine(outs[i]))
  }

  function LetLines(lets: seq<Let>): (r: seq<string>)
    requires forall i :: 0 <= i < |lets| ==> lets[i].Valid()
    ensures |r| == 2 * |lets|
  {
    if lets == [] then [] else
      var k := |lets| - 1;
      LetLines(lets[..k]) + [LetLine(lets[k]), DiscardLine(lets[k].discard)]
  }

  /** Each `let` takes two lines, itself and its discard. */
  lemma {:induction false} LetLinesAt(lets: seq<Let>, i: nat)
    requires (forall j :: 0 <= j < |lets| ==> lets[j].Valid()) && i < |lets|
    ensures LetLines(lets)[2 * i] == LetLine(lets[i]) && LetLines(lets)[2 * i + 1] == DiscardLine(lets[i].discard)
  {
    hide LetLine;
    hide DiscardLine;
    hide Let.Valid;
    var k := |lets| - 1;
    if i < k {
      LetLinesAt(lets[..k], i);
      assert lets[..k][i] == lets[i];
    }
  }

  /** Names in scope after a list of `let` statements. */
  function Scope(lets: seq<Let>): set<string> {
    set i | 0 <= i < |lets| :: lets[i].name
  }

  predicate InRange(text: string)
    requires SignedNumeral(text)
  {
    I128.least <= SignedValue(text) <= I128.most
  }

  predicate LetCompiles(lets: seq<Let>, i: nat, helpers: bool)
    requires i < |lets| && lets[i].Valid()
  {
    OperandsAreNumerals(lets[i].rhs);
    && (forall n :: n in lets[i].rhs.Operands() ==> n in Scope(lets[..i]))
    && (lets[i].rhs.form == 1 ==> InRange(lets[i].rhs.caps[0]))
    && (lets[i].rhs.form >= 2 && lets[i].rhs.Code().CallsHelper() ==> helpers)
    && lets[i].discard in Scope(lets[..i + 1])
  }

  /** What the Rust compiler demands: resolved names, literals in range, matching array length. */
  predicate Compiles(s: Source, helpers: bool)
    requires s.Valid()
  {
    && s.dot == "."
    && (forall i :: 0 <= i < |s.ins| ==> InRange(s.ins[i].lo) && InRange(s.ins[i].hi))
    && (forall i :: 0 <= i < |s.lets| ==> LetCompiles(s.lets, i, helpers))
    && (forall i :: 0 <= i < |s.outs| ==>
        InRange(s.outs[i].lo) && InRange(s.outs[i].hi) && s.outs[i].target in Scope(s.lets))
    && (forall n :: n in s.result ==> n in Scope(s.lets))
    && Value(s.arity) == |s.result|
  }

  /** Running the `let` statements in order. */
  function RunLets(lets: seq<Let>, input: seq<i128>): Flow<Env>
    requires forall i :: 0 <= i < |lets| ==> lets[i].Valid()
  {
    if lets == [] then Go(map[]) else
      var k := |lets| - 1;
      assert lets[k].Valid();
      match RunLets(lets[..k], input)
      case Return => Return
      case Panic => Panic
      case Go(env) =>
        match RunRhs(lets[k].rhs, env, input)
        case Return => Return
        case Panic => Panic
        case Go(v) => Go(env[lets[k].name := v])
  }

  function RunIns(ins: seq<Guard>, input: seq<i128>): Flow<()>
    requires forall i :: 0 <= i < |ins| ==> ins[i].Valid()
  {
    if ins == [] then Go(()) else
      var k := |ins| - 1;
      assert ins[k].Valid();
      match RunIns(ins[..k], input)
      case Return => Return
      case Panic => Panic
      case Go(_) =>
        if Value(ins[k].target) >= |input| then Panic
        else if ins[k].Admits(input[Value(ins[k].target)]) then Go(()) else Return
  }

  function RunOuts(outs: seq<Guard>, env: Env): Flow<()>
    requires forall i :: 0 <= i < |outs| ==> outs[i].Valid()
  {
    if outs == [] then Go(()) else
      var k := |outs| - 1;
      assert outs[k].Valid();
      match RunOuts(outs[..k], env)
      case Return => Return
      case Panic => Panic
      case Go(_) =>
        if outs[k].target !in env then Panic
        else if outs[k].Admits(env[outs[k].target]) then Go(()) else Return
  }

  /** Calling the emitted function: the returned array, `None` as `Return`, or a panic. */
  function Run(s: Source, input: seq<i128>): Flow<seq<int>>
    requires s.Valid()
  {
    if |input| != Value(s.count) then Return else
      match RunIns(s.ins, input)
      case Return => Return
      case Panic => Panic
      case Go(_) =>
        match RunLets(s.lets, input)
        case Return => Return
        case Panic => Panic
        case Go(env) =>
          match RunOuts(s.outs, env)
          case Return => Return
          case Panic => Panic
          case Go(_) => if Bound(s.result, env) then Go(Lookup(s.result, env)) else Panic
  }
}
