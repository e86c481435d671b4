/**
 The translation validator for emitted arithmetic programs: a decoder that accepts a source text for
 a program only if the text, read line by line in a closed grammar, spells exactly that program.
 */
module Emitted {
  import opened Digits
  import opened Patterns
  import opened Ir
  import opened RustText
  import opened RustGrammar

  // ---------------------------------------------------------------- what a text spells

  function Numbers(names: seq<string>): (r: seq<nat>)
    requires forall j :: 0 <= j < |names| ==> Numeral(names[j])
    ensures |r| == |names| && forall j :: 0 <= j < |r| ==> Numeral(names[j]) && r[j] == Value(names[j])
  {
    seq(|names|, j requires 0 <= j < |names| => assert Numeral(names[j]); Value(names[j]))
  }

  /** The instruction a right-hand side spells. */
  function Denote(r: Rhs): Op
    requires r.Valid()
  {
    OperandsAreNumerals(r);
    if r.form == 0 then Input(Value(r.caps[0]))
    else if r.form == 1 then Int(SignedValue(r.caps[0]))
    else Apply(r.Code(), Numbers(r.Operands()))
  }

  /** A Boolean literal spells like the integer 0 or 1; the annotation comes from the program. */
  predicate Agrees(op: Op, expected: Op) {
    if expected.Bool? then op == Int(Flag(expected.b)) else op == expected
  }

  predicate GuardOk(g: Guard, d: Domain, target: nat) {
    g.Valid() && SignedValue(g.lo) == d.min && SignedValue(g.hi) == d.max && BooleanRange(d)
    && Value(g.target) == target
  }

  predicate LetOk(l: Let, p: Program, i: nat)
    requires i < |p.nodes|
  {
    && l.Valid() && Value(l.name) == i && l.discard == Print(i)
    && Agrees(Denote(l.rhs), p.nodes[i]) && ScopedOp(p.nodes[i], i, |p.inputs|)
  }

  function PrintAll(refs: seq<nat>): (r: seq<string>)
    ensures |r| == |refs| && forall j :: 0 <= j < |r| ==> r[j] == Print(refs[j])
  {
    seq(|refs|, j requires 0 <= j < |refs| => Print(refs[j]))
  }

  predicate UsesHelper(nodes: seq<Op>) {
    exists i :: 0 <= i < |nodes| && nodes[i].Apply? && nodes[i].code.CallsHelper()
  }

  /** The function `s` spells the program `p`, node by node, guard by guard and root by root. */
  predicate Denotes(s: Source, p: Program, helpers: bool) {
    && s.Valid() && Value(s.arity) == |p.outputs| && Value(s.count) == |p.inputs|
    && |s.ins| == |p.inputs| && (forall i :: 0 <= i < |s.ins| ==> GuardOk(s.ins[i], p.inputs[i], i))
    && |s.lets| == |p.nodes| && (forall i :: 0 <= i < |s.lets| ==> LetOk(s.lets[i], p, i))
    && |s.outs| == |p.outputs| == |p.roots| && Below(p.roots, |p.nodes|)
    && (forall i :: 0 <= i < |s.outs| ==> GuardOk(s.outs[i], p.outputs[i], p.roots[i]))
    && s.result == PrintAll(p.roots)
    && (UsesHelper(p.nodes) ==> helpers)
  }

  /** The decoder's acceptance, without reference to how it scans. */
  ghost predicate Accepts(lines: seq<string>, p: Program, helpers: bool) {
    exists s: Source :: Denotes(s, p, helpers) && Lines(s) == lines
  }

  // ---------------------------------------------------------------- reading one line

  function ReadGuard(pattern: Pattern, line: string): Option<Guard>
    requires |pattern.text| == |pattern.groups| + 1
  {
    match Match(pattern, line)
    case Some(caps) => if |caps| == 3 then Some(Guard(caps[0], caps[1], caps[2])) else None
    case None => None
  }

  lemma ReadIn(line: string, g: Guard)
    ensures ReadGuard(InPattern(), line) == Some(g) <==> g.Valid() && line == InLine(g)
    ensures ReadGuard(OutPattern(), line) == Some(g) <==> g.Valid() && line == OutLine(g)
  {
    hide Match;
    hide Fill;
    var caps := [g.lo, g.hi, g.target];
    GuardPatterns(g);
    MatchIsFill(InPattern(), caps, line);
    MatchIsFill(OutPattern(), caps, line);
    ThreeCaps(Match(InPattern(), line), g);
    ThreeCaps(Match(OutPattern(), line), g);
  }

  lemma ThreeCaps(m: Option<seq<string>>, g: Guard)
    requires m.Some? ==> |m.value| == 3
    ensures m == Some([g.lo, g.hi, g.target]) <==> m.Some? && Guard(m.value[0], m.value[1], m.value[2]) == g
  {
    if m.Some? { assert m.value == [m.value[0], m.value[1], m.value[2]]; }
  }

  /** The variable and right-hand side of a `let` line. */
  function ReadLet(line: string): Option<(string, Rhs)> {
    match Match(LetPattern(), line)
    case None => None
    case Some(caps) =>
      if |caps| != 2 || caps[1] == "" || caps[1][|caps[1]| - 1] != ';' then None
      else match FirstForm(caps[1][..|caps[1]| - 1], 0)
        case None => None
        case Some(r) => Some((caps[0], r))
  }

  lemma ReadLetIs(line: string, name: string, r: Rhs)
    ensures ReadLet(line) == Some((name, r)) <==>
      Numeral(name) && r.Valid() && line == Fill(LetPattern(), [name, r.Text() + ";"])
  {
    hide Match;
    hide Fill;
    if ReadLet(line) == Some((name, r)) {
      var caps := Match(LetPattern(), line).value;
      var body := caps[1][..|caps[1]| - 1];
      ExpressionIsItsText(body, r);
      assert caps[1] == r.Text() + ";" && caps == [name, caps[1]];
      LetPatternFits(name, caps[1]);
      MatchIsFill(LetPattern(), caps, line);
    }
    if Numeral(name) && r.Valid() && line == Fill(LetPattern(), [name, r.Text() + ";"]) {
      var caps := [name, r.Text() + ";"];
      LetPatternFits(name, caps[1]);
      MatchIsFill(LetPattern(), caps, line);
      assert caps[1][..|caps[1]| - 1] == r.Text();
      ExpressionIsItsText(r.Text(), r);
    }
  }

  /** `(pattern)` with one numeric group, as in the signature. */
  function ReadCount(pattern: Pattern, at: nat, line: string): Option<nat>
    requires |pattern.text| == |pattern.groups| + 1 && at < |pattern.groups| && pattern.groups[at] == Num
  {
    match Match(pattern, line)
    case None => None
    case Some(caps) => if Numeral(caps[at]) then Some(Value(caps[at])) else None
  }

  // ---------------------------------------------------------------- acceptance by position

  predicate PreambleOk(lines: seq<string>, p: Program)
    requires |lines| >= 5
  {
    && Match(HeaderPattern(), lines[0]).Some? && lines[1] == DOCUMENTATION && lines[2] == ATTRIBUTE
    && ReadCount(SignaturePattern(), 0, lines[3]) == Some(|p.outputs|)
    && ReadCount(CountPattern(), 1, lines[4]) == Some(|p.inputs|)
  }

  /** The number of lines of an accepted text. */
  function Length(p: Program): nat { 5 + |p.inputs| + 2 * |p.nodes| + |p.outputs| + 2 }

  predicate InOk(lines: seq<string>, p: Program, i: nat)
    requires i < |p.inputs| && 5 + i < |lines|
  {
    var g := ReadGuard(InPattern(), lines[5 + i]);
    g.Some? && GuardOk(g.value, p.inputs[i], i)
  }

  predicate OutLineOk(line: string, p: Program, i: nat)
    requires i < |p.outputs|
  {
    var g := ReadGuard(OutPattern(), line);
    g.Some? && i < |p.roots| && GuardOk(g.value, p.outputs[i], p.roots[i]) && p.roots[i] < |p.nodes|
  }

  predicate OutOk(lines: seq<string>, p: Program, i: nat)
    requires i < |p.outputs| && 5 + |p.inputs| + 2 * |p.nodes| + i < |lines|
  {
    OutLineOk(lines[5 + |p.inputs| + 2 * |p.nodes| + i], p, i)
  }

  predicate NodeLineOk(line: string, next: string, p: Program, i: nat)
    requires i < |p.nodes|
  {
    var r := ReadLet(line);
    && r.Some? && Numeral(r.value.0) && r.value.1.Valid()
    && next == DiscardLine(Print(i)) && LetOk(Let(r.value.0, r.value.1, Print(i)), p, i)
  }

  predicate NodeOk(lines: seq<string>, p: Program, i: nat)
    requires i < |p.nodes| && 6 + |p.inputs| + 2 * i < |lines|
  {
    NodeLineOk(lines[5 + |p.inputs| + 2 * i], lines[6 + |p.inputs| + 2 * i], p, i)
  }

  /** Every line is what its position demands. */
  predicate Positional(lines: seq<string>, p: Program, helpers: bool) {
    && |lines| == Length(p)
    && PreambleOk(lines, p)
    && (forall i :: 0 <= i < |p.inputs| ==> InOk(lines, p, i))
    && (forall i :: 0 <= i < |p.nodes| ==> NodeOk(lines, p, i))
    && (forall i :: 0 <= i < |p.outputs| ==> OutOk(lines, p, i))
    && |p.roots| == |p.outputs|
    && lines[|lines| - 2] == ResultLine(PrintAll(p.roots))
    && lines[|lines| - 1] == "}"
    && (UsesHelper(p.nodes) ==> helpers)
  }

  lemma PreambleIs(s: Source, lines: seq<string>, p: Program)
    requires s.Valid() && |lines| >= 5 && lines[..5] == Preamble(s)
    ensures PreambleOk(lines, p) <==> Value(s.arity) == |p.outputs| && Value(s.count) == |p.inputs|
  {
    hide Match;
    hide Fill;
    PreamblePatterns(s);
    assert forall i :: 0 <= i < 5 ==> lines[i] == lines[..5][i];
    MatchIsFill(HeaderPattern(), [s.profile], lines[0]);
    MatchIsFill(SignaturePattern(), [s.arity], lines[3]);
    MatchIsFill(CountPattern(), [s.dot, s.count], lines[4]);
  }

  lemma AcceptedIn(s: Source, p: Program, i: nat)
    requires s.Valid() && i < |s.ins| == |p.inputs| && GuardOk(s.ins[i], p.inputs[i], i)
    ensures |Lines(s)| > 5 + i && InOk(Lines(s), p, i)
  {
    InAt(s, i);
    hide Lines;
    hide InLine;
    hide OutLine;
    hide ReadGuard;
    hide GuardOk;
    ReadIn(Lines(s)[5 + i], s.ins[i]);
  }

  lemma NodeLine(l: Let, p: Program, i: nat)
    requires i < |p.nodes| && LetOk(l, p, i)
    ensures NodeLineOk(LetLine(l), DiscardLine(l.discard), p, i)
  {
    ReadLetIs(LetLine(l), l.name, l.rhs);
    assert l == Let(l.name, l.rhs, Print(i));
    hide LetLine;
    hide LetOk;
  }

  lemma AcceptedNode(s: Source, p: Program, i: nat)
    requires s.Valid() && |s.ins| == |p.inputs| && |s.lets| == |p.nodes|
    requires i < |p.nodes| && LetOk(s.lets[i], p, i)
    ensures |Lines(s)| > 6 + |p.inputs| + 2 * i && NodeOk(Lines(s), p, i)
  {
    hide Lines;
    hide LetOk;
    hide LetLine;
    hide DiscardLine;
    hide NodeLineOk;
    LetAt(s, i);
    NodeLine(s.lets[i], p, i);
  }

  lemma OutLineIs(g: Guard, p: Program, i: nat)
    requires i < |p.outputs| == |p.roots|
    requires GuardOk(g, p.outputs[i], p.roots[i]) && p.roots[i] < |p.nodes|
    ensures OutLineOk(OutLine(g), p, i)
  {
    ReadIn(OutLine(g), g);
    hide OutLine;
    hide InLine;
    hide ReadGuard;
  }

  lemma AcceptedOut(s: Source, p: Program, i: nat)
    requires s.Valid() && |s.ins| == |p.inputs| && |s.lets| == |p.nodes|
    requires i < |s.outs| == |p.outputs| == |p.roots|
    requires GuardOk(s.outs[i], p.outputs[i], p.roots[i]) && p.roots[i] < |p.nodes|
    ensures |Lines(s)| > 5 + |p.inputs| + 2 * |p.nodes| + i && OutOk(Lines(s), p, i)
  {
    hide Lines;
    hide OutLine;
    hide OutLineOk;
    hide GuardOk;
    OutAt(s, i, 5 + |p.inputs| + 2 * |p.nodes| + i);
    OutLineIs(s.outs[i], p, i);
  }

  /** A text that spells the program has the right line at every position. */
  lemma AcceptedIsPositional(s: Source, p: Program, helpers: bool)
    requires Denotes(s, p, helpers)
    ensures Positional(Lines(s), p, helpers)
  {
    AcceptedEnds(s, p, helpers);
    hide Lines;
    hide Denotes;
    hide InOk;
    hide NodeOk;
    hide OutOk;
    hide PreambleOk;
    hide ResultLine;
    hide UsesHelper;
    forall i | 0 <= i < |p.inputs|
      ensures InOk(Lines(s), p, i)
    {
      AcceptedInLine(s, p, helpers, i);
    }
    forall i | 0 <= i < |p.nodes|
      ensures NodeOk(Lines(s), p, i)
    {
      AcceptedLetLine(s, p, helpers, i);
    }
    forall i | 0 <= i < |p.outputs|
      ensures OutOk(Lines(s), p, i)
    {
      AcceptedOutLine(s, p, helpers, i);
    }
  }

  lemma AcceptedEnds(s: Source, p: Program, helpers: bool)
    requires Denotes(s, p, helpers)
    ensures |Lines(s)| == Length(p) && PreambleOk(Lines(s), p) && |p.roots| == |p.outputs|
    ensures UsesHelper(p.nodes) ==> helpers
    ensures Lines(s)[|Lines(s)| - 2] == ResultLine(PrintAll(p.roots)) && Lines(s)[|Lines(s)| - 1] == "}"
  {
    hide Lines;
    hide Preamble;
    hide ResultLine;
    hide PreambleOk;
    LinesEnds(s);
    PreambleIs(s, Lines(s), p);
  }

  lemma AcceptedInLine(s: Source, p: Program, helpers: bool, i: nat)
    requires Denotes(s, p, helpers) && i < |p.inputs|
    ensures InOk(Lines(s), p, i)
  {
    assert GuardOk(s.ins[i], p.inputs[i], i);
    AcceptedIn(s, p, i);
  }

  lemma AcceptedLetLine(s: Source, p: Program, helpers: bool, i: nat)
    requires Denotes(s, p, helpers) && i < |p.nodes|
    ensures NodeOk(Lines(s), p, i)
  {
    assert LetOk(s.lets[i], p, i);
    AcceptedNode(s, p, i);
  }

  lemma AcceptedOutLine(s: Source, p: Program, helpers: bool, i: nat)
    requires Denotes(s, p, helpers) && i < |p.outputs|
    ensures OutOk(Lines(s), p, i)
  {
    assert GuardOk(s.outs[i], p.outputs[i], p.roots[i]);
    AcceptedOut(s, p, i);
  }
}
