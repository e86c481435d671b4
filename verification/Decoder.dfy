/**
 The decoder itself: a cursor over the lines that reads guards, eager nodes and roots, and refuses
 at the first line that is not what the grammar and the original program demand.
 */
module Decoder {
  import opened Digits
  import opened Patterns
  import opened Ir
  import opened RustText
  import opened RustGrammar
  import opened Emitted

  /** A decoded part, or the name of the obligation that failed. */
  datatype Result<+T> = Ok(value: T) | Mismatch(obligation: string)

  lemma AcceptsPositional(lines: seq<string>, p: Program, helpers: bool)
    requires Accepts(lines, p, helpers)
    ensures Positional(lines, p, helpers)
  {
    hide Positional;
    var s: Source :| Denotes(s, p, helpers) && Lines(s) == lines;
    AcceptedIsPositional(s, p, helpers);
  }

  /** After the nodes of an accepted text comes no further `let`. */
  lemma AcceptedLetsEnd(lines: seq<string>, p: Program, helpers: bool)
    requires Accepts(lines, p, helpers)
    ensures 5 + |p.inputs| + 2 * |p.nodes| < |lines| && !(LET <= lines[5 + |p.inputs| + 2 * |p.nodes|])
  {
    hide Lines;
    hide GuardOk;
    hide LetOk;
    hide Let.Valid;
    var s: Source :| Denotes(s, p, helpers) && Lines(s) == lines;
    LetsEnd(s, SomeLet());
  }

  const LET := "    let v"

  // ---------------------------------------------------------------- the first five lines

  /** The free parts of the header, signature and arity check. */
  method ReadPreamble(lines: seq<string>, p: Program) returns (r: Result<Source>)
    ensures r.Ok? ==> |lines| >= 5 && lines[..5] == Preamble(r.value)
    ensures r.Ok? ==> Fits(OneOf("1234"), r.value.profile) && Fits(Dot, r.value.dot)
    ensures r.Ok? ==> Numeral(r.value.arity) && Numeral(r.value.count)
    ensures r.Ok? ==> Value(r.value.arity) == |p.outputs| && Value(r.value.count) == |p.inputs|
    ensures r.Mismatch? ==> |lines| < 5 || !PreambleOk(lines, p)
  {
    hide Match;
    hide Fill;
    if |lines| == 0 { return Mismatch("E1_complete_program"); }
    var h := Match(HeaderPattern(), lines[0]);
    if h == None { return Mismatch("E1_header"); }
    if |lines| == 1 { return Mismatch("E1_complete_program"); }
    if lines[1] != DOCUMENTATION { return Mismatch("E1_header"); }
    if |lines| == 2 { return Mismatch("E1_complete_program"); }
    if lines[2] != ATTRIBUTE { return Mismatch("E1_header"); }
    if |lines| == 3 { return Mismatch("E1_complete_program"); }
    var a := Match(SignaturePattern(), lines[3]);
    if a == None { return Mismatch("E1_abi"); }
    if |lines| == 4 { return Mismatch("E1_complete_program"); }
    var c := Match(CountPattern(), lines[4]);
    if c == None { return Mismatch("E1_input_admission"); }
    var s := Source(h.value[0], a.value[0], c.value[0], c.value[1], [], [], [], []);
    PreamblePatterns(s);
    assert h.value == [s.profile] && a.value == [s.arity] && c.value == [s.dot, s.count];
    MatchIsFill(HeaderPattern(), h.value, lines[0]);
    MatchIsFill(SignaturePattern(), a.value, lines[3]);
    MatchIsFill(CountPattern(), c.value, lines[4]);
    if Value(s.count) != |p.inputs| || Value(s.arity) != |p.outputs| { return Mismatch("E1_abi"); }
    assert lines[..5] == [lines[0], lines[1], lines[2], lines[3], lines[4]];
    return Ok(s);
  }

  // ---------------------------------------------------------------- sections of the text

  /** Lines `from..` hold exactly these guards, or these eager nodes. */
  ghost predicate InsAt(lines: seq<string>, from: nat, ins: seq<Guard>) {
    from + |ins| <= |lines| && lines[from..from + |ins|] == InLines(ins)
  }
  ghost predicate OutsAt(lines: seq<string>, from: nat, outs: seq<Guard>) {
    from + |outs| <= |lines| && lines[from..from + |outs|] == OutLines(outs)
  }
  ghost predicate LetsAt(lines: seq<string>, from: nat, lets: seq<Let>) {
    && (forall i :: 0 <= i < |lets| ==> lets[i].Valid())
    && from + 2 * |lets| <= |lines| && lines[from..from + 2 * |lets|] == LetLines(lets)
  }

  lemma InsAtNext(lines: seq<string>, from: nat, ins: seq<Guard>, g: Guard)
    requires InsAt(lines, from, ins) && from + |ins| < |lines| && lines[from + |ins|] == InLine(g)
    ensures InsAt(lines, from, ins + [g])
  {
    hide InLine;
    var at := from + |ins|;
    assert lines[from..at + 1] == lines[from..at] + [lines[at]];
    assert InLines(ins + [g]) == InLines(ins) + [InLine(g)];
  }

  lemma OutsAtNext(lines: seq<string>, from: nat, outs: seq<Guard>, g: Guard)
    requires OutsAt(lines, from, outs) && from + |outs| < |lines| && lines[from + |outs|] == OutLine(g)
    ensures OutsAt(lines, from, outs + [g])
  {
    hide OutLine;
    var at := from + |outs|;
    assert lines[from..at + 1] == lines[from..at] + [lines[at]];
    assert OutLines(outs + [g]) == OutLines(outs) + [OutLine(g)];
  }

  lemma LetsAtNext(lines: seq<string>, from: nat, lets: seq<Let>, l: Let)
    requires LetsAt(lines, from, lets) && l.Valid() && from + 2 * |lets| + 1 < |lines|
    requires lines[from + 2 * |lets|] == LetLine(l) && lines[from + 2 * |lets| + 1] == DiscardLine(l.discard)
    ensures LetsAt(lines, from, lets + [l])
  {
    hide LetLine;
    hide DiscardLine;
    hide Let.Valid;
    var at := from + 2 * |lets|;
    assert (lets + [l])[..|lets|] == lets;
    assert lines[from..at + 2] == lines[from..at] + [lines[at], lines[at + 1]];
    assert LetLines(lets + [l]) == LetLines(lets) + [LetLine(l), DiscardLine(l.discard)];
  }

  lemma LetsAtIndex(lines: seq<string>, from: nat, lets: seq<Let>, j: nat)
    requires LetsAt(lines, from, lets) && j < |lets|
    ensures from + 2 * j + 1 < |lines| && lets[j].Valid() && lines[from + 2 * j] == LetLine(lets[j])
  {
    hide LetLine;
    hide DiscardLine;
    hide Let.Valid;
    hide LetLines;
    LetLinesAt(lets, j);
    assert lines[from..from + 2 * |lets|][2 * j] == lines[from + 2 * j];
  }

  lemma OutsAtIndex(lines: seq<string>, from: nat, outs: seq<Guard>, j: nat)
    requires OutsAt(lines, from, outs) && j < |outs|
    ensures from + j < |lines| && lines[from + j] == OutLine(outs[j])
  {
    hide OutLine;
    assert lines[from..from + |outs|][j] == lines[from + j];
  }

  // ---------------------------------------------------------------- guards

  /** The line of input `j` is there and is its guard. */
  predicate InReads(lines: seq<string>, p: Program, j: nat)
    requires j < |p.inputs|
  {
    5 + j < |lines| && InOk(lines, p, j)
  }

  /** The input guards: read exactly when each line is there and is the guard of its input. */
  method ReadInputs(lines: seq<string>, p: Program) returns (r: Result<seq<Guard>>)
    requires |lines| >= 5
    ensures r.Ok? ==> |r.value| == |p.inputs| && 5 + |p.inputs| <= |lines| && InsAt(lines, 5, r.value)
    ensures r.Ok? ==> forall j :: 0 <= j < |r.value| ==> GuardOk(r.value[j], p.inputs[j], j)
    ensures r.Ok? <==> forall j :: 0 <= j < |p.inputs| ==> InReads(lines, p, j)
    ensures r.Mismatch? && |lines| == Length(p) ==> exists j :: 0 <= j < |p.inputs| && !InOk(lines, p, j)
  {
    hide ReadGuard;
    hide InLine;
    hide OutLine;
    var ins, i := [], 0;
    assert InsAt(lines, 5, ins);
    hide InsAt;
    while i < |p.inputs|
      invariant 0 <= i <= |p.inputs| && |ins| == i && 5 + i <= |lines|
      invariant InsAt(lines, 5, ins)
      invariant forall j :: 0 <= j < i ==> GuardOk(ins[j], p.inputs[j], j) && InReads(lines, p, j)
    {
      if 5 + i == |lines| { assert !InReads(lines, p, i); return Mismatch("E1_complete_program"); }
      var g, d := ReadGuard(InPattern(), lines[5 + i]), p.inputs[i];
      if g == None { assert !InReads(lines, p, i); return Mismatch("E1_input_admission"); }
      ReadIn(lines[5 + i], g.value);
      if Value(g.value.target) != i { assert !InReads(lines, p, i); return Mismatch("E1_input_order"); }
      if SignedValue(g.value.lo) != d.min || SignedValue(g.value.hi) != d.max || !BooleanRange(d) {
        assert !InReads(lines, p, i);
        return Mismatch("E1_input_admission");
      }
      InsAtNext(lines, 5, ins, g.value);
      assert InReads(lines, p, i);
      ins, i := ins + [g.value], i + 1;
    }
    return Ok(ins);
  }

  /** An output guard with the declared bounds, on an evaluated node. */
  predicate OutFits(g: Guard, d: Domain, nodes: nat) {
    g.Valid() && GuardOk(g, d, Value(g.target)) && Value(g.target) < nodes
  }

  /** The line of output `j` is there and guards an evaluated node with the declared bounds. */
  predicate OutReads(lines: seq<string>, from: nat, nodes: nat, p: Program, j: nat)
    requires j < |p.outputs|
  {
    && from + j < |lines|
    && var g := ReadGuard(OutPattern(), lines[from + j]);
       g.Some? && OutFits(g.value, p.outputs[j], nodes)
  }

  /** The output guards from line `from` on; their targets are the roots. */
  method ReadOutputs(lines: seq<string>, from: nat, nodes: nat, p: Program) returns (r: Result<seq<Guard>>)
    requires from <= |lines|
    ensures r.Ok? ==> |r.value| == |p.outputs| && from + |p.outputs| <= |lines| && OutsAt(lines, from, r.value)
    ensures r.Ok? ==> forall j :: 0 <= j < |r.value| ==> OutFits(r.value[j], p.outputs[j], nodes)
    ensures r.Ok? <==> forall j :: 0 <= j < |p.outputs| ==> OutReads(lines, from, nodes, p, j)
    ensures r.Mismatch? && |lines| == Length(p) && nodes == |p.nodes| && from == 5 + |p.inputs| + 2 * nodes ==>
      exists j :: 0 <= j < |p.outputs| && !OutOk(lines, p, j)
  {
    hide ReadGuard;
    hide InLine;
    hide OutLine;
    var outs, i := [], 0;
    assert OutsAt(lines, from, outs);
    hide OutsAt;
    while i < |p.outputs|
      invariant 0 <= i <= |p.outputs| && |outs| == i && from + i <= |lines|
      invariant OutsAt(lines, from, outs)
      invariant forall j :: 0 <= j < i ==> OutFits(outs[j], p.outputs[j], nodes) && OutReads(lines, from, nodes, p, j)
    {
      if from + i == |lines| { assert !OutReads(lines, from, nodes, p, i); return Mismatch("E1_complete_program"); }
      ghost var exact := |lines| == Length(p) && nodes == |p.nodes| && from == 5 + |p.inputs| + 2 * nodes;
      var g, d := ReadGuard(OutPattern(), lines[from + i]), p.outputs[i];
      if g == None {
        assert !OutReads(lines, from, nodes, p, i) && (exact ==> !OutOk(lines, p, i));
        return Mismatch("E1_output_admission");
      }
      ReadIn(lines[from + i], g.value);
      if SignedValue(g.value.lo) != d.min || SignedValue(g.value.hi) != d.max || !BooleanRange(d) {
        assert !OutReads(lines, from, nodes, p, i) && (exact ==> !OutOk(lines, p, i));
        return Mismatch("E1_output_admission");
      }
      if Value(g.value.target) >= nodes {
        assert !OutReads(lines, from, nodes, p, i) && (exact ==> !OutOk(lines, p, i));
        return Mismatch("E1_projection");
      }
      OutsAtNext(lines, from, outs, g.value);
      assert OutReads(lines, from, nodes, p, i);
      outs, i := outs + [g.value], i + 1;
    }
    return Ok(outs);
  }

  // ---------------------------------------------------------------- nodes

  /** An eager node line read at position `i`, with the program's Boolean annotation. */
  predicate NodeFits(l: Let, op: Op, p: Program, i: nat) {
    && l.Valid() && Value(l.name) == i && l.discard == Print(i) && ScopedOp(Denote(l.rhs), i, |p.inputs|)
    && if i < |p.nodes| && p.nodes[i].Bool? then op == p.nodes[i] && Denote(l.rhs) == Int(Flag(p.nodes[i].b))
       else op == Denote(l.rhs)
  }

  predicate Contains(text: string, part: string) {
    exists i :: 0 <= i <= |text| && part <= text[i..]
  }

  /** Which obligation a text outside the expression grammar fails. */
  function ExpressionRefusal(text: string): string {
    if "if " <= text then "E1_eager_evaluation"
    else if Contains(text, "unwrap_or") || (Contains(text, "arithmetic::") && text[|text| - 1..] != "?") then
      "E1_partial_refusal_propagation"
    else "E1_closed_expression_grammar"
  }

  function LetRefusal(line: string, i: nat): string {
    match Match(LetPattern(), line)
    case None => "E1_eager_node_order"
    case Some(caps) =>
      if caps[1] == "" || caps[1][|caps[1]| - 1] != ';' then "E1_eager_node_order"
      else if Numeral(caps[0]) && Value(caps[0]) != i then "E1_eager_node_order"
      else ExpressionRefusal(caps[1][..|caps[1]| - 1])
  }

  /** Two lines spell the next eager node: its number, its discard, earlier operands and the Boolean annotation. */
  predicate NodeReads(line: string, next: string, p: Program, i: nat) {
    var r := ReadLet(line);
    && r.Some? && Numeral(r.value.0) && r.value.1.Valid() && Value(r.value.0) == i && next == DiscardLine(Print(i))
    && ScopedOp(Denote(r.value.1), i, |p.inputs|)
    && (i < |p.nodes| && p.nodes[i].Bool? ==> Denote(r.value.1) == Int(Flag(p.nodes[i].b)))
  }

  /** One eager node: its `let` line and the line that discards it. */
  method ReadNode(lines: seq<string>, at: nat, i: nat, p: Program) returns (r: Result<(Let, Op)>)
    requires at < |lines|
    ensures r.Ok? ==> at + 1 < |lines| && NodeFits(r.value.0, r.value.1, p, i)
    ensures r.Ok? ==> lines[at] == LetLine(r.value.0) && lines[at + 1] == DiscardLine(r.value.0.discard)
    ensures r.Ok? <==> at + 1 < |lines| && NodeReads(lines[at], lines[at + 1], p, i)
    ensures r.Mismatch? && at + 1 < |lines| && i < |p.nodes| ==> !NodeLineOk(lines[at], lines[at + 1], p, i)
  {
    hide ReadLet;
    hide LetLine;
    hide DiscardLine;
    var read := ReadLet(lines[at]);
    if read == None { return Mismatch(LetRefusal(lines[at], i)); }
    var name, rhs := read.value.0, read.value.1;
    ReadLetIs(lines[at], name, rhs);
    if Value(name) != i { return Mismatch("E1_eager_node_order"); }
    var l, op := Let(name, rhs, Print(i)), Denote(rhs);
    if at + 1 == |lines| { return Mismatch("E1_complete_program"); }
    if lines[at + 1] != DiscardLine(Print(i)) { return Mismatch("E1_eager_node_order"); }
    if !ScopedOp(op, i, |p.inputs|) { return Mismatch("E1_references"); }
    if i < |p.nodes| && p.nodes[i].Bool? {
      if op != Int(Flag(p.nodes[i].b)) { return Mismatch("E1_boolean_literal"); }
      op := p.nodes[i];
    }
    LetLineOf(l);
    return Ok((l, op));
  }

  lemma LetLineOf(l: Let)
    requires l.Valid()
    ensures LetLine(l) == Fill(LetPattern(), [l.name, l.rhs.Text() + ";"])
  {
  }

  predicate NodesFit(lets: seq<Let>, nodes: seq<Op>, p: Program) {
    |lets| == |nodes| && forall j :: 0 <= j < |lets| ==> NodeFits(lets[j], nodes[j], p, j)
  }

  predicate ReadsAt(lines: seq<string>, from: nat, p: Program, j: nat) {
    var at := from + 2 * j;
    at + 1 < |lines| && NodeReads(lines[at], lines[at + 1], p, j)
  }

  /** Node `j` is the first that starts as a `let` and cannot be read. */
  predicate StuckAt(lines: seq<string>, from: nat, p: Program, j: nat) {
    && (forall i :: 0 <= i < j ==> ReadsAt(lines, from, p, i))
    && from + 2 * j < |lines| && LET <= lines[from + 2 * j] && !ReadsAt(lines, from, p, j)
  }

  /** The eager nodes from line `from` on, up to the first line that starts no `let`. */
  method ReadNodes(lines: seq<string>, from: nat, p: Program) returns (r: Result<(seq<Let>, seq<Op>)>)
    requires from == 5 + |p.inputs| <= |lines|
    ensures r.Ok? ==> NodesFit(r.value.0, r.value.1, p) && from + 2 * |r.value.0| <= |lines|
    ensures r.Ok? ==> LetsAt(lines, from, r.value.0)
    ensures r.Ok? ==> var at := from + 2 * |r.value.0|; at == |lines| || !(LET <= lines[at])
    ensures r.Ok? && |r.value.0| > |p.nodes| ==> LET <= lines[from + 2 * |p.nodes|]
    ensures r.Ok? ==> forall j :: 0 <= j < |r.value.0| ==> ReadsAt(lines, from, p, j)
    ensures r.Mismatch? ==> exists j: nat :: StuckAt(lines, from, p, j)
    ensures r.Mismatch? && |lines| == Length(p) ==>
      LET <= lines[from + 2 * |p.nodes|] || exists j :: 0 <= j < |p.nodes| && !NodeOk(lines, p, j)
  {
    hide Let.Valid;
    hide NodeOk;
    hide NodeFits;
    hide NodeReads;
    hide NodeLineOk;
    hide LetLine;
    hide DiscardLine;
    var lets, nodes, at := [], [], from;
    assert LetsAt(lines, from, lets);
    hide LetsAt;
    while at < |lines| && LET <= lines[at]
      invariant at == from + 2 * |lets| <= |lines|
      invariant NodesFit(lets, nodes, p)
      invariant LetsAt(lines, from, lets)
      invariant forall j :: 0 <= j < |lets| ==> ReadsAt(lines, from, p, j)
      invariant |lets| > |p.nodes| ==> LET <= lines[from + 2 * |p.nodes|]
      decreases |lines| - at
    {
      var i := |lets|;
      var read := ReadNode(lines, at, i, p);
      if read.Mismatch? {
        NotNode(lines, p, i);
        assert StuckAt(lines, from, p, i);
        return Mismatch(read.obligation);
      }
      var (l, op) := read.value;
      assert ReadsAt(lines, from, p, i);
      assert l.Valid() by { NodeFitsValid(l, op, p, i); }
      LetsAtNext(lines, from, lets, l);
      lets, nodes, at := lets + [l], nodes + [op], at + 2;
    }
    return Ok((lets, nodes));
  }

  lemma NotNode(lines: seq<string>, p: Program, i: nat)
    ensures var at := 5 + |p.inputs| + 2 * i;
      |lines| == Length(p) && i < |p.nodes| && !NodeLineOk(lines[at], lines[at + 1], p, i) ==> !NodeOk(lines, p, i)
  {
  }

  lemma NodeFitsValid(l: Let, op: Op, p: Program, i: nat)
    requires NodeFits(l, op, p, i)
    ensures l.Valid()
  {
  }

  // ---------------------------------------------------------------- the whole text

  lemma NodeLineReads(line: string, next: string, p: Program, l: Let, op: Op, j: nat)
    requires j < |p.nodes| && NodeLineOk(line, next, p, j)
    requires NodeFits(l, op, p, j) && line == LetLine(l)
    ensures op == p.nodes[j]
  {
    LetLineOf(l);
    ReadLetIs(line, l.name, l.rhs);
    hide ReadLet;
    hide LetLine;
    hide DiscardLine;
    hide Fill;
    hide Denote;
    hide ScopedOp;
    hide Print;
  }

  lemma OutLineReads(line: string, p: Program, g: Guard, j: nat)
    requires j < |p.outputs| && OutLineOk(line, p, j)
    requires g.Valid() && line == OutLine(g)
    ensures j < |p.roots| && Value(g.target) == p.roots[j]
  {
    ReadIn(line, g);
    hide ReadGuard;
    hide OutLine;
    hide InLine;
  }

  lemma PositionalLine(lines: seq<string>, p: Program, helpers: bool, j: nat)
    requires Positional(lines, p, helpers)
    ensures |lines| == Length(p) && |p.roots| == |p.outputs|
    ensures j < |p.nodes| ==> NodeOk(lines, p, j)
    ensures j < |p.outputs| ==> OutOk(lines, p, j)
  {
  }

  lemma NodeStartsLet(lines: seq<string>, p: Program, j: nat)
    requires |lines| == Length(p) && j < |p.nodes| && NodeOk(lines, p, j)
    ensures LET <= lines[5 + |p.inputs| + 2 * j]
  {
    hide NodeLineOk;
    LetLineStarts(lines[5 + |p.inputs| + 2 * j], lines[6 + |p.inputs| + 2 * j], p, j);
  }

  lemma LetLineStarts(line: string, next: string, p: Program, j: nat)
    requires j < |p.nodes| && NodeLineOk(line, next, p, j)
    ensures LET <= line
  {
    hide ReadLet;
    hide LetOk;
    hide DiscardLine;
    hide LetLine;
    var (name, rhs) := ReadLet(line).value;
    ReadLetIs(line, name, rhs);
    var l := Let(name, rhs, name);
    LetLineOf(l);
    LineHeads(Guard("0", "0", "0"), l, []);
  }

  lemma NodeIsRead(lines: seq<string>, p: Program, helpers: bool, lets: seq<Let>, op: Op, j: nat)
    requires Positional(lines, p, helpers) && j < |lets| && j < |p.nodes|
    requires NodeFits(lets[j], op, p, j) && LetsAt(lines, 5 + |p.inputs|, lets)
    ensures op == p.nodes[j]
  {
    hide Positional;
    hide NodeFits;
    hide NodeLineOk;
    hide LetLine;
    hide LetsAt;
    hide Let.Valid;
    PositionalLine(lines, p, helpers, j);
    var at := 5 + |p.inputs| + 2 * j;
    LetsAtIndex(lines, 5 + |p.inputs|, lets, j);
    NodeLineReads(lines[at], lines[at + 1], p, lets[j], op, j);
  }

  /** In an accepted text the eager nodes read are the program's. */
  lemma AcceptedNodes(lines: seq<string>, p: Program, helpers: bool, lets: seq<Let>, nodes: seq<Op>)
    requires Accepts(lines, p, helpers)
    requires NodesFit(lets, nodes, p) && LetsAt(lines, 5 + |p.inputs|, lets)
    requires var at := 5 + |p.inputs| + 2 * |lets|; at == |lines| || (at < |lines| && !(LET <= lines[at]))
    requires |lets| > |p.nodes| && |lines| == Length(p) ==> LET <= lines[5 + |p.inputs| + 2 * |p.nodes|]
    ensures nodes == p.nodes
  {
    hide Accepts;
    hide Positional;
    hide NodeFits;
    hide NodeOk;
    hide LetsAt;
    AcceptsPositional(lines, p, helpers);
    AcceptedLetsEnd(lines, p, helpers);
    PositionalLine(lines, p, helpers, |lets|);
    if |lets| < |p.nodes| { NodeStartsLet(lines, p, |lets|); }
    forall j | 0 <= j < |lets|
      ensures nodes[j] == p.nodes[j]
    {
      NodeIsRead(lines, p, helpers, lets, nodes[j], j);
    }
  }

  function Targets(outs: seq<Guard>): (r: seq<nat>)
    requires forall j :: 0 <= j < |outs| ==> outs[j].Valid()
    ensures |r| == |outs| && forall j :: 0 <= j < |r| ==> outs[j].Valid() && r[j] == Value(outs[j].target)
  {
    seq(|outs|, j requires 0 <= j < |outs| => assert outs[j].Valid(); Value(outs[j].target))
  }

  /** In an accepted text the roots read are the program's. */
  lemma AcceptedRoots(lines: seq<string>, p: Program, helpers: bool, outs: seq<Guard>, from: nat)
    requires Accepts(lines, p, helpers)
    requires |outs| == |p.outputs| && from == 5 + |p.inputs| + 2 * |p.nodes| && OutsAt(lines, from, outs)
    requires forall j :: 0 <= j < |outs| ==> outs[j].Valid()
    ensures Targets(outs) == p.roots
  {
    hide Accepts;
    hide Positional;
    hide OutLineOk;
    hide OutLine;
    hide OutsAt;
    AcceptsPositional(lines, p, helpers);
    PositionalLine(lines, p, helpers, 0);
    forall j | 0 <= j < |outs|
      ensures Targets(outs)[j] == p.roots[j]
    {
      OutsAtIndex(lines, from, outs, j);
      PositionalLine(lines, p, helpers, j);
      OutLineReads(lines[from + j], p, outs[j], j);
    }
  }

  /** What has been read, put together, is a function with these lines. */
  lemma Assemble(lines: seq<string>, s: Source)
    requires s.Valid() && |lines| == 5 + |s.ins| + 2 * |s.lets| + |s.outs| + 2
    requires lines[..5] == Preamble(s) && InsAt(lines, 5, s.ins)
    requires LetsAt(lines, 5 + |s.ins|, s.lets) && OutsAt(lines, 5 + |s.ins| + 2 * |s.lets|, s.outs)
    requires lines[|lines| - 2] == ResultLine(s.result) && lines[|lines| - 1] == "}"
    ensures Lines(s) == lines
  {
    hide Preamble;
    hide InLines;
    hide LetLines;
    hide OutLines;
    hide ResultLine;
    var a := 5 + |s.ins|;
    var b := a + 2 * |s.lets|;
    var c := b + |s.outs|;
    assert lines[c..] == [lines[c], lines[c + 1]];
    assert lines == lines[..5] + lines[5..a] + lines[a..b] + lines[b..c] + lines[c..];
  }

  lemma NodesAreLets(lets: seq<Let>, p: Program)
    requires NodesFit(lets, p.nodes, p)
    ensures forall j :: 0 <= j < |lets| ==> LetOk(lets[j], p, j)
  {
    forall j | 0 <= j < |lets|
      ensures LetOk(lets[j], p, j)
    {
      assert NodeFits(lets[j], p.nodes[j], p, j);
    }
  }

  /** The function put together from the parts denotes the program that the parts agree with. */
  lemma AssembleDenotes(s: Source, p: Program, helpers: bool)
    requires Numeral(s.arity) && Numeral(s.count) && Fits(OneOf("1234"), s.profile) && Fits(Dot, s.dot)
    requires Value(s.arity) == |p.outputs| && Value(s.count) == |p.inputs|
    requires |s.ins| == |p.inputs| && forall j :: 0 <= j < |s.ins| ==> GuardOk(s.ins[j], p.inputs[j], j)
    requires NodesFit(s.lets, p.nodes, p)
    requires |s.outs| == |p.outputs|
    requires forall j :: 0 <= j < |s.outs| ==> OutFits(s.outs[j], p.outputs[j], |p.nodes|)
    requires (forall j :: 0 <= j < |s.outs| ==> s.outs[j].Valid()) && Targets(s.outs) == p.roots
    requires s.result == PrintAll(p.roots) && (UsesHelper(p.nodes) ==> helpers)
    ensures Denotes(s, p, helpers)
  {
    NodesAreLets(s.lets, p);
    hide Denote;
    hide NodesFit;
    assert forall j :: 0 <= j < |s.lets| ==> LetOk(s.lets[j], p, j) ==> s.lets[j].Valid();
  }

  /** Every section of an accepted text is as its position demands. */
  lemma AcceptedSections(lines: seq<string>, p: Program, helpers: bool)
    ensures Accepts(lines, p, helpers) ==> |lines| == Length(p) && PreambleOk(lines, p)
    ensures Accepts(lines, p, helpers) ==> forall j :: 0 <= j < |p.inputs| ==> InOk(lines, p, j)
    ensures Accepts(lines, p, helpers) ==> forall j :: 0 <= j < |p.nodes| ==> NodeOk(lines, p, j)
    ensures Accepts(lines, p, helpers) ==> forall j :: 0 <= j < |p.outputs| ==> OutOk(lines, p, j)
    ensures Accepts(lines, p, helpers) ==> !(LET <= lines[5 + |p.inputs| + 2 * |p.nodes|])
  {
    hide Accepts;
    hide PreambleOk;
    hide InOk;
    hide NodeOk;
    hide OutOk;
    if Accepts(lines, p, helpers) {
      AcceptsPositional(lines, p, helpers);
      AcceptedLetsEnd(lines, p, helpers);
    }
  }

  /** Decode a source text for a program.  The decoded program is the original, or there is none. */
  method Decode(lines: seq<string>, p: Program, helpers: bool) returns (r: Result<Program>)
    ensures r.Ok? <==> Accepts(lines, p, helpers)
    ensures r.Ok? ==> r.value == p
  {
    hide Let.Valid;
    hide Accepts;
    hide NodesFit;
    hide OutFits;
    hide GuardOk;
    hide Denotes;
    hide ResultLine;
    hide Preamble;
    hide Positional;
    hide PreambleOk;
    hide InOk;
    hide NodeOk;
    hide OutOk;
    hide InsAt;
    hide LetsAt;
    hide OutsAt;
    AcceptedSections(lines, p, helpers);
    var pre := ReadPreamble(lines, p);
    if pre.Mismatch? { return Mismatch(pre.obligation); }
    var ins := ReadInputs(lines, p);
    if ins.Mismatch? { return Mismatch(ins.obligation); }
    var from := 5 + |p.inputs|;
    var read := ReadNodes(lines, from, p);
    if read.Mismatch? { return Mismatch(read.obligation); }
    var (lets, nodes) := read.value;
    if Accepts(lines, p, helpers) { AcceptedNodes(lines, p, helpers, lets, nodes); }
    NodesFitLength(lets, nodes, p);
    var b := from + 2 * |lets|;
    var outs := ReadOutputs(lines, b, |lets|, p);
    if outs.Mismatch? { return Mismatch(outs.obligation); }
    r := Finish(lines, p, helpers, pre.value, ins.value, lets, nodes, outs.value);
  }

  /** The result line, the closing brace, the helper binding and the comparison with the original. */
  method Finish(lines: seq<string>, p: Program, helpers: bool, pre: Source, ins: seq<Guard>,
                lets: seq<Let>, nodes: seq<Op>, outs: seq<Guard>) returns (r: Result<Program>)
    requires |lines| >= 5 && lines[..5] == Preamble(pre)
    requires Numeral(pre.arity) && Numeral(pre.count) && Fits(OneOf("1234"), pre.profile) && Fits(Dot, pre.dot)
    requires Value(pre.arity) == |p.outputs| && Value(pre.count) == |p.inputs|
    requires |ins| == |p.inputs| && InsAt(lines, 5, ins)
    requires forall j :: 0 <= j < |ins| ==> GuardOk(ins[j], p.inputs[j], j)
    requires NodesFit(lets, nodes, p) && LetsAt(lines, 5 + |ins|, lets)
    requires |outs| == |p.outputs| && OutsAt(lines, 5 + |ins| + 2 * |lets|, outs)
    requires 5 + |ins| + 2 * |lets| + |outs| <= |lines|
    requires forall j :: 0 <= j < |outs| ==> OutFits(outs[j], p.outputs[j], |lets|)
    requires Accepts(lines, p, helpers) ==> nodes == p.nodes
    ensures r.Ok? <==> Accepts(lines, p, helpers)
    ensures r.Ok? ==> r.value == p
  {
    hide Guard.Valid;
    hide OutFits;
    hide Accepts;
    hide GuardOk;
    hide Denotes;
    hide ResultLine;
    hide Preamble;
    hide NodesFit;
    hide InsAt;
    hide LetsAt;
    hide OutsAt;
    forall j | 0 <= j < |outs|
      ensures outs[j].Valid()
    {
      OutFitsValid(outs[j], p.outputs[j], |lets|);
    }
    var roots := Targets(outs);
    var c := 5 + |ins| + 2 * |lets| + |outs|;
    NodesFitLength(lets, nodes, p);
    if Accepts(lines, p, helpers) {
      AcceptedEnd(lines, p, helpers);
      AcceptedRoots(lines, p, helpers, outs, c - |outs|);
    }
    if c == |lines| { return Mismatch("E1_complete_program"); }
    if lines[c] != ResultLine(PrintAll(roots)) { return Mismatch("E1_projection"); }
    if c + 1 == |lines| || lines[c + 1] != "}" || c + 2 != |lines| { return Mismatch("E1_complete_program"); }
    if !helpers && UsesHelper(nodes) { return Mismatch("E2_helper_identity"); }
    if nodes != p.nodes || roots != p.roots { return Mismatch("E1_ast_program_correspondence"); }
    ghost var s := pre.(ins := ins, lets := lets, outs := outs, result := PrintAll(roots));
    SamePreamble(pre, s);
    AssembleDenotes(s, p, helpers);
    Assembled(lines, s, p, helpers);
    return Ok(p);
  }

  lemma AcceptedEnd(lines: seq<string>, p: Program, helpers: bool)
    requires Accepts(lines, p, helpers)
    ensures |lines| == Length(p) && (UsesHelper(p.nodes) ==> helpers)
    ensures lines[|lines| - 2] == ResultLine(PrintAll(p.roots)) && lines[|lines| - 1] == "}"
  {
    hide Accepts;
    hide ResultLine;
    AcceptsPositional(lines, p, helpers);
  }

  lemma OutFitsValid(g: Guard, d: Domain, nodes: nat)
    requires OutFits(g, d, nodes)
    ensures g.Valid()
  {
  }

  lemma SamePreamble(s: Source, t: Source)
    requires s.profile == t.profile && s.arity == t.arity && s.dot == t.dot && s.count == t.count
    ensures Preamble(s) == Preamble(t)
  {
  }

  lemma NodesFitLength(lets: seq<Let>, nodes: seq<Op>, p: Program)
    requires NodesFit(lets, nodes, p)
    ensures |lets| == |nodes|
  {
  }

  lemma Assembled(lines: seq<string>, s: Source, p: Program, helpers: bool)
    requires Denotes(s, p, helpers) && |lines| == 5 + |s.ins| + 2 * |s.lets| + |s.outs| + 2
    requires lines[..5] == Preamble(s) && InsAt(lines, 5, s.ins)
    requires LetsAt(lines, 5 + |s.ins|, s.lets) && OutsAt(lines, 5 + |s.ins| + 2 * |s.lets|, s.outs)
    requires lines[|lines| - 2] == ResultLine(s.result) && lines[|lines| - 1] == "}"
    ensures Accepts(lines, p, helpers)
  {
    Assemble(lines, s);
  }
}
