/**
 The decoder on a whole source text: the helper block is stripped, the text is refused for a few
 things wherever they stand, and split into lines.  No accepted text contains any of those things, so
 the refusals made on the whole text refuse nothing the grammar would accept.
 */
module WholeText {
  import opened Digits
  import opened Patterns
  import opened Ir
  import opened RustText
  import opened RustGrammar
  import opened Emitted
  import opened Decoder
  import Bodies
  import Emit

  // ---------------------------------------------------------------- calm text

  /** Two characters that every refused phrase contains side by side, and no emitted line does. */
  predicate Telltale(a: char, b: char) { (a == 'm' && b == 'o') || (a == 'c' && b == 'f') }

  /** ASCII without a line feed or a telltale pair. */
  predicate Calm(s: string) {
    && (forall k :: 0 <= k < |s| ==> s[k] != '\n' && s[k] < 128 as char)
    && forall k :: 0 <= k < |s| - 1 ==> !Telltale(s[k], s[k + 1])
  }

  lemma CalmJoin(a: string, b: string)
    requires Calm(a) && Calm(b) && (a != "" && b != "" ==> !Telltale(a[|a| - 1], b[0]))
    ensures Calm(a + b)
  {
    var s := a + b;
    forall k | 0 <= k < |s| - 1
      ensures !Telltale(s[k], s[k + 1])
    {
      if k + 1 < |a| { assert !Telltale(a[k], a[k + 1]); }
      else if k >= |a| { assert !Telltale(b[k - |a|], b[k - |a| + 1]); }
    }
  }

  /** A literal piece of a pattern: calm, and completing no telltale pair with what is filled in around it. */
  predicate Tidy(t: string, first: bool) {
    Calm(t) && (t != "" ==> t[|t| - 1] != 'm' && t[|t| - 1] != 'c' && (!first ==> t[0] != 'o' && t[0] != 'f'))
  }

  predicate TidyPattern(p: Pattern) {
    && |p.text| == |p.groups| + 1 && (forall j :: 0 <= j < |p.text| ==> Tidy(p.text[j], j == 0))
    && (forall j :: 0 < j < |p.groups| ==> p.text[j] != "")
  }

  lemma {:induction false} FillIsCalm(p: Pattern, i: nat, caps: seq<string>)
    requires TidyPattern(p) && |caps| == |p.groups| && i <= |caps|
    requires forall j :: 0 <= j < |caps| ==> Calm(caps[j])
    ensures Calm(FillFrom(p, i, caps))
    ensures i > 0 && FillFrom(p, i, caps) != "" && (i < |caps| || p.text[i] != "") ==>
      FillFrom(p, i, caps)[0] != 'o' && FillFrom(p, i, caps)[0] != 'f'
    decreases |caps| - i
  {
    hide Calm;
    var t := p.text[i];
    assert Tidy(t, i == 0);
    if i == |caps| {
      assert t + "" == t;
    } else {
      FillIsCalm(p, i + 1, caps);
      var rest := FillFrom(p, i + 1, caps);
      assert i + 1 == |caps| && p.text[i + 1] == "" ==> rest == "";
      CalmJoin(caps[i], rest);
      CalmJoin(t, caps[i] + rest);
    }
  }

  lemma NumeralIsCalm(s: string)
    requires SignedNumeral(s)
    ensures Calm(s)
  {
    forall k | 0 <= k < |s|
      ensures s[k] == '-' || IsDigit(s[k])
    {
      if k > 0 && s[0] == '-' { assert s[k] == s[1..][k - 1]; }
    }
  }

  /** A filled group is calm; the tail of a line must be so of itself. */
  lemma FitsIsCalm(g: Group, cap: string)
    requires Fits(g, cap) && (g.Tail? ==> Calm(cap)) && (g.Choice? ==> Calm(g.first) && Calm(g.second))
    requires g.OneOf? ==> g.chars == "1234"
    ensures Calm(cap)
  {
    if g.Num? || g.Signed? || g.Integer? { NumeralIsCalm(cap); }
  }

  predicate CalmGroup(g: Group) {
    !g.Tail? && (g.Choice? ==> Calm(g.first) && Calm(g.second)) && (g.OneOf? ==> g.chars == "1234")
  }

  lemma FilledIsCalm(p: Pattern, caps: seq<string>)
    requires TidyPattern(p) && Fillable(p, caps) && forall j :: 0 <= j < |p.groups| ==> CalmGroup(p.groups[j])
    ensures Calm(Fill(p, caps))
  {
    hide Calm;
    hide Fits;
    hide FillFrom;
    forall j | 0 <= j < |caps|
      ensures Calm(caps[j])
    {
      assert CalmGroup(p.groups[j]);
      FitsIsCalm(p.groups[j], caps[j]);
    }
    FillIsCalm(p, 0, caps);
  }

  // ---------------------------------------------------------------- the literal pieces

  /** Position `k` is in order. */
  predicate CalmAt(s: string, k: nat) {
    k < |s| && s[k] != '\n' && s[k] < 128 as char && (k + 1 < |s| ==> !Telltale(s[k], s[k + 1]))
  }

  lemma CalmByPlaces(s: string)
    requires forall k: nat :: k < |s| ==> CalmAt(s, k)
    ensures Calm(s)
  {
    forall k | 0 <= k < |s|
      ensures s[k] != '\n' && s[k] < 128 as char && (k < |s| - 1 ==> !Telltale(s[k], s[k + 1]))
    {
      assert CalmAt(s, k);
    }
  }

  lemma TidyJoin(a: string, b: string, first: bool)
    requires a != "" && b != "" && Tidy(a, first) && Tidy(b, true)
    ensures Tidy(a + b, first)
  {
    CalmJoin(a, b);
    hide Calm;
  }

  lemma OpeningTidy(t: string)
    requires t == "input[" || t == "" || t == "v" || t == "if v" || t == "i128::from(v"
    ensures Tidy(t, true)
  {
    forall k: nat | k < |t|
      ensures CalmAt(t, k)
    {
    }
    CalmByPlaces(t);
    hide Calm;
  }

  lemma InnerTidy(t: string)
    requires t == "]" || t == "" || t == "_i128" || t == ".checked_" || t == "(v" || t == ")?"
    ensures Tidy(t, false)
  {
    forall k: nat | k < |t|
      ensures CalmAt(t, k)
    {
    }
    CalmByPlaces(t);
    hide Calm;
  }

  lemma OperandTidy(t: string)
    requires t == ",v" || t == ")?)" || t == " " || t == " v" || t == ")" || t == " }"
    ensures Tidy(t, false)
  {
    forall k: nat | k < |t|
      ensures CalmAt(t, k)
    {
    }
    CalmByPlaces(t);
    hide Calm;
  }

  lemma TestTidy(t: string)
    requires t == " == 1 && v" || t == " == 1)" || t == " == 0)" || t == " == 1 { v" || t == " } else { v"
    ensures Tidy(t, false)
  {
    forall k: nat | k < |t|
      ensures CalmAt(t, k)
    {
    }
    CalmByPlaces(t);
    hide Calm;
  }

  lemma MultiplyTidy(t: string)
    requires t == "arithmetic::scalar::multiply(v"
    ensures Tidy(t, true)
  {
    forall k: nat | k < |t|
      ensures CalmAt(t, k)
    {
    }
    CalmByPlaces(t);
    hide Calm;
  }

  lemma DivideTidy(t: string)
    requires t == "arithmetic::scalar::divide("
    ensures Tidy(t, true)
  {
    forall k: nat | k < |t|
      ensures CalmAt(t, k)
    {
    }
    CalmByPlaces(t);
    hide Calm;
  }

  lemma MulDivTidy(t: string)
    requires t == "arithmetic::scalar::mul_div("
    ensures Tidy(t, true)
  {
    forall k: nat | k < |t|
      ensures CalmAt(t, k)
    {
    }
    CalmByPlaces(t);
    hide Calm;
  }

  lemma ModuleTidy(t: string)
    requires t == "arithmetic::scalar::" || t == "i128::from(arithmetic::"
    ensures Tidy(t, true)
  {
    forall k: nat | k < |t|
      ensures CalmAt(t, k)
    {
    }
    CalmByPlaces(t);
    hide Calm;
  }

  lemma FusedTidy(t: string)
    requires t == "signed_mul_div_floor(v" || t == "scalar::products_ge(v"
    ensures Tidy(t, true)
  {
    forall k: nat | k < |t|
      ensures CalmAt(t, k)
    {
    }
    CalmByPlaces(t);
    hide Calm;
  }

  lemma WordTidy(t: string)
    requires t == "add" || t == "sub" || t == "false" || t == "true" || t == "==" || t == "<"
    ensures Tidy(t, true)
  {
    forall k: nat | k < |t|
      ensures CalmAt(t, k)
    {
    }
    CalmByPlaces(t);
    hide Calm;
  }

  lemma HeaderTidy(t: string)
    requires t == "// Generated from zeno-fcis/"
    ensures Tidy(t, true)
  {
    forall k: nat | k < |t|
      ensures CalmAt(t, k)
    {
    }
    CalmByPlaces(t);
    hide Calm;
  }

  lemma PureTidy(t: string)
    requires t == ". Pure code; no "
    ensures Tidy(t, false)
  {
    forall k: nat | k < |t|
      ensures CalmAt(t, k)
    {
    }
    CalmByPlaces(t);
    hide Calm;
  }

  lemma DocumentationTidy(t: string)
    requires t == "/// Evaluates the generated " || t == "commit authority."
    ensures Tidy(t, true)
  {
    forall k: nat | k < |t|
      ensures CalmAt(t, k)
    {
    }
    CalmByPlaces(t);
    hide Calm;
  }

  lemma FiniteTidy(t: string)
    requires t == "finite program; no " || t == "finite-i128/"
    ensures Tidy(t, true)
  {
    forall k: nat | k < |t|
      ensures CalmAt(t, k)
    {
    }
    CalmByPlaces(t);
    hide Calm;
  }

  lemma AttributeTidy(t: string)
    requires t == "#[rustfmt::skip]" || t == "}"
    ensures Tidy(t, true)
  {
    forall k: nat | k < |t|
      ensures CalmAt(t, k)
    {
    }
    CalmByPlaces(t);
    hide Calm;
  }

  lemma NameTidy(t: string)
    requires t == "pub fn transition(input: "
    ensures Tidy(t, true)
  {
    forall k: nat | k < |t|
      ensures CalmAt(t, k)
    {
    }
    CalmByPlaces(t);
    hide Calm;
  }

  lemma TypesTidy(t: string)
    requires t == "&[i128]) -> Option<[i128; "
    ensures Tidy(t, true)
  {
    forall k: nat | k < |t|
      ensures CalmAt(t, k)
    {
    }
    CalmByPlaces(t);
    hide Calm;
  }

  lemma BoundTidy(t: string)
    requires t == "    if !(" || t == "    if input" || t == "    let v" || t == "    let _ = v" ||
      t == "    Some(["
    ensures Tidy(t, true)
  {
    forall k: nat | k < |t|
      ensures CalmAt(t, k)
    {
    }
    CalmByPlaces(t);
    hide Calm;
  }

  lemma CountTidy(t: string)
    requires t == "]> {" || t == "len() != " || t == " { return None; }" || t == ": i128 = "
    ensures Tidy(t, false)
  {
    forall k: nat | k < |t|
      ensures CalmAt(t, k)
    {
    }
    CalmByPlaces(t);
    hide Calm;
  }

  lemma RangeTidy(t: string)
    requires t == "_i128..=" || t == "_i128).contains(&input[" || t == "_i128).contains(&v"
    ensures Tidy(t, false)
  {
    forall k: nat | k < |t|
      ensures CalmAt(t, k)
    {
    }
    CalmByPlaces(t);
    hide Calm;
  }

  lemma ReturnTidy(t: string)
    requires t == "]) { return None; }" || t == ") { return None; }"
    ensures Tidy(t, false)
  {
    forall k: nat | k < |t|
      ensures CalmAt(t, k)
    {
    }
    CalmByPlaces(t);
    hide Calm;
  }

  lemma MarkTidy(t: string)
    requires t == ";" || t == "," || t == "])" || t == "v"
    ensures Tidy(t, true)
  {
    forall k: nat | k < |t|
      ensures CalmAt(t, k)
    {
    }
    CalmByPlaces(t);
    hide Calm;
  }

  // ---------------------------------------------------------------- the patterns

  predicate CalmPattern(p: Pattern) { TidyPattern(p) && forall j :: 0 <= j < |p.groups| ==> CalmGroup(p.groups[j]) }

  lemma SimpleCalm(k: nat)
    requires k < 3
    ensures CalmPattern(Form(k))
  {
    hide Calm;
    hide Tidy;
    var t := Form(k).text;
    OpeningTidy(t[0]);
    InnerTidy(t[1]);
    if k == 2 {
      InnerTidy(t[2]);
      InnerTidy(t[3]);
      ChoiceCalm(Form(2).groups[1]);
    }
  }

  lemma ChoiceCalm(g: Group)
    requires g == Choice("add", "sub") || g == Choice("false", "true") || g == Choice("==", "<")
    ensures CalmGroup(g)
  {
    WordTidy(g.first);
    WordTidy(g.second);
    hide Calm;
  }

  lemma CallCalm(k: nat)
    requires 3 <= k <= 5
    ensures CalmPattern(Form(k))
  {
    hide Calm;
    hide Tidy;
    var t := Form(k).text;
    OperandTidy(",v");
    InnerTidy(")?");
    match k
    case 3 => MultiplyTidy(t[0]);
    case 4 =>
      DivideTidy(t[0]);
      ChoiceCalm(Form(4).groups[0]);
    case 5 =>
      MulDivTidy(t[0]);
      ChoiceCalm(Form(5).groups[0]);
  }

  lemma SignedCalm()
    ensures CalmPattern(Form(6))
  {
    hide Calm;
    hide Tidy;
    OperandTidy(",v");
    InnerTidy(")?");
    ModuleTidy("arithmetic::scalar::");
    FusedTidy("signed_mul_div_floor(v");
    TidyJoin("arithmetic::scalar::", "signed_mul_div_floor(v", true);
    assert "arithmetic::scalar::" + "signed_mul_div_floor(v" == Form(6).text[0];
  }

  lemma ProductsCalm()
    ensures CalmPattern(Form(7))
  {
    hide Calm;
    hide Tidy;
    OperandTidy(",v");
    OperandTidy(")?)");
    ModuleTidy("i128::from(arithmetic::");
    FusedTidy("scalar::products_ge(v");
    TidyJoin("i128::from(arithmetic::", "scalar::products_ge(v", true);
    assert "i128::from(arithmetic::" + "scalar::products_ge(v" == Form(7).text[0];
  }

  lemma FromCalm(k: nat)
    requires 8 <= k <= 11
    ensures CalmPattern(Form(k))
  {
    hide Calm;
    hide Tidy;
    var t := Form(k).text;
    OpeningTidy(t[0]);
    match k
    case 8 =>
      OperandTidy(t[1]);
      OperandTidy(t[2]);
      OperandTidy(t[3]);
      ChoiceCalm(Form(8).groups[1]);
    case 9 =>
      TestTidy(t[1]);
      TestTidy(t[2]);
    case 10 => TestTidy(t[1]);
    case 11 =>
      TestTidy(t[1]);
      TestTidy(t[2]);
      OperandTidy(t[3]);
  }

  lemma FormIsCalm(k: nat)
    requires k < FORMS
    ensures CalmPattern(Form(k))
  {
    hide Form;
    hide CalmPattern;
    if k < 3 { SimpleCalm(k); }
    else if k <= 5 { CallCalm(k); }
    else if k == 6 { SignedCalm(); }
    else if k == 7 { ProductsCalm(); }
    else { FromCalm(k); }
  }

  // ---------------------------------------------------------------- every line is calm

  lemma HeaderCalm(profile: string)
    requires Fits(OneOf("1234"), profile)
    ensures Calm(Fill(HeaderPattern(), [profile]))
  {
    hide Calm;
    hide Tidy;
    var p := HeaderPattern();
    HeaderTidy("// Generated from zeno-fcis/");
    FiniteTidy("finite-i128/");
    TidyJoin("// Generated from zeno-fcis/", "finite-i128/", true);
    assert "// Generated from zeno-fcis/" + "finite-i128/" == p.text[0];
    PureTidy(". Pure code; no ");
    DocumentationTidy("commit authority.");
    TidyJoin(". Pure code; no ", "commit authority.", false);
    assert ". Pure code; no " + "commit authority." == p.text[1];
    FilledIsCalm(p, [profile]);
  }

  lemma FixedCalm()
    ensures Calm(DOCUMENTATION) && Calm(ATTRIBUTE) && Calm("}")
  {
    AttributeTidy(ATTRIBUTE);
    AttributeTidy("}");
    assert Calm(ATTRIBUTE) && Calm("}");
    hide Calm;
    DocumentationCalm();
  }

  lemma DocumentationCalm()
    ensures Calm(DOCUMENTATION)
  {
    hide Calm;
    hide Tidy;
    DocumentationTidy("/// Evaluates the generated ");
    FiniteTidy("finite program; no ");
    DocumentationTidy("commit authority.");
    DocumentationParts("/// Evaluates the generated ", "finite program; no ", "commit authority.");
    TidyIsCalm(DOCUMENTATION, true);
  }

  lemma DocumentationParts(a: string, b: string, c: string)
    requires a == "/// Evaluates the generated " && b == "finite program; no " && c == "commit authority."
    requires Tidy(a, true) && Tidy(b, true) && Tidy(c, true)
    ensures Tidy(DOCUMENTATION, true)
  {
    hide Tidy;
    TidyJoin(b, c, true);
    TidyJoin(a, b + c, true);
    assert a + (b + c) == DOCUMENTATION;
  }

  lemma TidyIsCalm(t: string, first: bool)
    requires Tidy(t, first)
    ensures Calm(t)
  {
  }

  lemma SignatureCalm(arity: string)
    requires Numeral(arity)
    ensures Calm(Fill(SignaturePattern(), [arity]))
  {
    hide Calm;
    hide Tidy;
    var p := SignaturePattern();
    NameTidy("pub fn transition(input: ");
    TypesTidy("&[i128]) -> Option<[i128; ");
    TidyJoin("pub fn transition(input: ", "&[i128]) -> Option<[i128; ", true);
    assert "pub fn transition(input: " + "&[i128]) -> Option<[i128; " == p.text[0];
    CountTidy(p.text[1]);
    FilledIsCalm(p, [arity]);
  }

  lemma CountCalm(dot: string, count: string)
    requires Fits(Dot, dot) && Numeral(count)
    ensures Calm(Fill(CountPattern(), [dot, count]))
  {
    hide Calm;
    hide Tidy;
    var p := CountPattern();
    BoundTidy(p.text[0]);
    CountTidy(p.text[1]);
    CountTidy(p.text[2]);
    FilledIsCalm(p, [dot, count]);
  }

  lemma GuardCalm(g: Guard)
    requires g.Valid()
    ensures Calm(InLine(g)) && Calm(OutLine(g))
  {
    hide Calm;
    hide Tidy;
    var p, q := InPattern(), OutPattern();
    BoundTidy("    if !(");
    RangeTidy("_i128..=");
    RangeTidy(p.text[2]);
    RangeTidy(q.text[2]);
    ReturnTidy(p.text[3]);
    ReturnTidy(q.text[3]);
    FilledIsCalm(p, [g.lo, g.hi, g.target]);
    FilledIsCalm(q, [g.lo, g.hi, g.target]);
  }

  lemma LetCalm(l: Let)
    requires l.Valid()
    ensures Calm(LetLine(l)) && Calm(DiscardLine(l.discard))
  {
    FormIsCalm(l.rhs.form);
    hide Form;
    hide Calm;
    hide Tidy;
    FilledIsCalm(Form(l.rhs.form), l.rhs.caps);
    MarkTidy(";");
    JoinTidy(l.rhs.Text(), ";");
    var p, caps := LetPattern(), [l.name, l.rhs.Text() + ";"];
    NumeralIsCalm(l.name);
    BoundTidy(p.text[0]);
    CountTidy(p.text[1]);
    InnerTidy(p.text[2]);
    hide FillFrom;
    FillIsCalm(p, 0, caps);
    NumeralIsCalm(l.discard);
    BoundTidy("    let _ = v");
    TidyThen("    let _ = v", l.discard);
    JoinTidy("    let _ = v" + l.discard, ";");
  }

  /** A calm text followed by a mark. */
  lemma JoinTidy(a: string, b: string)
    requires Calm(a) && Tidy(b, true) && (b == ";" || b == "," || b == "])" || b == "v")
    ensures Calm(a + b)
  {
    CalmJoin(a, b);
  }

  /** A tidy piece followed by any calm text. */
  lemma TidyThen(a: string, b: string)
    requires Tidy(a, true) && Calm(b)
    ensures Calm(a + b)
  {
    CalmJoin(a, b);
  }

  lemma {:induction false} NamesCalm(names: seq<string>)
    requires forall j :: 0 <= j < |names| ==> Numeral(names[j])
    ensures Calm(Names(names))
  {
    hide Calm;
    hide Tidy;
    if names == [] {
      OpeningTidy("");
      TidyIsCalm("", true);
    } else {
      NamesCalm(names[1..]);
      NumeralIsCalm(names[0]);
      MarkTidy("v");
      MarkTidy(",");
      TidyThen("v", names[0]);
      JoinTidy("v" + names[0], ",");
      CommaThen("v" + names[0], Names(names[1..]));
    }
  }

  lemma CommaThen(a: string, b: string)
    requires Calm(a + ",") && Calm(b)
    ensures Calm(a + "," + b)
  {
    CalmJoin(a + ",", b);
  }

  lemma ResultCalm(names: seq<string>)
    requires forall j :: 0 <= j < |names| ==> Numeral(names[j])
    ensures Calm(ResultLine(names))
  {
    hide Calm;
    hide Tidy;
    NamesCalm(names);
    BoundTidy("    Some([");
    MarkTidy("])");
    TidyThen("    Some([", Names(names));
    JoinTidy("    Some([" + Names(names), "])");
  }

  /** Every line of every function of the grammar is calm. */
  lemma LinesCalm(s: Source, i: nat)
    requires s.Valid() && i < |Lines(s)|
    ensures Calm(Lines(s)[i])
  {
    hide Calm;
    hide Lines;
    hide Let.Valid;
    hide Guard.Valid;
    LinesEnds(s);
    var n, m, o := |s.ins|, 2 * |s.lets|, |s.outs|;
    if i < 5 { PreambleCalm(s, i); }
    else if i < 5 + n {
      InAt(s, i - 5);
      GuardCalm(s.ins[i - 5]);
    } else if i < 5 + n + m {
      var j := (i - 5 - n) / 2;
      LetAt(s, j);
      LetCalm(s.lets[j]);
    } else if i < 5 + n + m + o {
      OutAt(s, i - 5 - n - m, i);
      GuardCalm(s.outs[i - 5 - n - m]);
    } else {
      ResultCalm(s.result);
      FixedCalm();
    }
  }

  lemma PreambleCalm(s: Source, i: nat)
    requires s.Valid() && i < 5 && |Lines(s)| >= 5 && Lines(s)[..5] == Preamble(s)
    ensures Calm(Lines(s)[i])
  {
    hide Calm;
    hide Lines;
    HeaderCalm(s.profile);
    FixedCalm();
    SignatureCalm(s.arity);
    CountCalm(s.dot, s.count);
    assert Lines(s)[i] == Preamble(s)[i];
  }

  // ---------------------------------------------------------------- lines and text

  /** Lines as text, each ended by a line feed. */
  function Text(lines: seq<string>): string {
    if lines == [] then "" else lines[0] + "\n" + Text(lines[1..])
  }

  /** The pieces between line feeds; there is always a last one. */
  function Split(s: string): (r: seq<string>)
    ensures r != []
  {
    if s == "" then [""] else
      var rest := Split(s[1..]);
      if s[0] == '\n' then [""] + rest else [[s[0]] + rest[0]] + rest[1..]
  }

  predicate OneLine(s: string) { forall k :: 0 <= k < |s| ==> s[k] != '\n' }

  lemma {:induction false} SplitLine(line: string, rest: string)
    requires OneLine(line)
    ensures Split(line + "\n" + rest) == [line] + Split(rest)
  {
    var s := line + "\n" + rest;
    if line == "" {
      assert s[0] == '\n' && s[1..] == rest;
    } else {
      SplitLine(line[1..], rest);
      assert s[1..] == line[1..] + "\n" + rest && s[0] == line[0];
      assert [line[0]] + line[1..] == line;
    }
  }

  lemma {:induction false} SplitText(lines: seq<string>)
    requires forall i :: 0 <= i < |lines| ==> OneLine(lines[i])
    ensures Split(Text(lines)) == lines + [""]
  {
    if lines != [] {
      SplitText(lines[1..]);
      SplitLine(lines[0], Text(lines[1..]));
      assert [lines[0]] + (lines[1..] + [""]) == lines + [""];
    }
  }

  lemma TextCons(line: string, lines: seq<string>)
    ensures Text([line] + lines) == line + "\n" + Text(lines)
  {
    assert ([line] + lines)[1..] == lines;
  }

  lemma SplitCons(s: string)
    requires s != ""
    ensures var rest := Split(s[1..]);
      Split(s) == if s[0] == '\n' then [""] + rest else [[s[0]] + rest[0]] + rest[1..]
  {
  }

  /** Joining all pieces but the last, and the last after them, gives the text again. */
  function Joined(r: seq<string>): string
    requires r != []
  {
    Text(r[..|r| - 1]) + r[|r| - 1]
  }

  lemma JoinedMore(rest: seq<string>, c: char)
    requires rest != []
    ensures Joined([""] + rest) == "\n" + Joined(rest)
    ensures Joined([[c] + rest[0]] + rest[1..]) == [c] + Joined(rest)
  {
    hide Text;
    var m := |rest| - 1;
    var a, b, first := [""] + rest, [[c] + rest[0]] + rest[1..], [c] + rest[0];
    assert a[..m + 1] == [""] + rest[..m];
    TextCons("", rest[..m]);
    if m == 0 {
      assert b[..0] == [] == rest[..0];
      TextNone();
    } else {
      assert b[..m] == [first] + rest[1..m] && rest[..m] == [rest[0]] + rest[1..m];
      TextCons(first, rest[1..m]);
      TextCons(rest[0], rest[1..m]);
    }
  }

  lemma TextNone()
    ensures Text([]) == ""
  {
  }

  /** A text is its pieces joined again. */
  lemma {:induction false} TextOfSplit(s: string)
    ensures Joined(Split(s)) == s
  {
    if s == "" { SplitNone(); }
    else {
      hide Split;
      hide Joined;
      TextOfSplit(s[1..]);
      SplitCons(s);
      JoinedMore(Split(s[1..]), s[0]);
      assert s == [s[0]] + s[1..];
    }
  }

  lemma SplitNone()
    ensures Joined(Split("")) == ""
  {
    assert [""][..0] == [];
  }

  // ---------------------------------------------------------------- refusals on the whole text

  /** ASCII without a telltale pair; line feeds are allowed. */
  predicate Plain(s: string) {
    && (forall k :: 0 <= k < |s| ==> s[k] < 128 as char)
    && forall k :: 0 <= k < |s| - 1 ==> !Telltale(s[k], s[k + 1])
  }

  lemma {:induction false} TextIsPlain(lines: seq<string>)
    requires forall i :: 0 <= i < |lines| ==> Calm(lines[i])
    ensures Plain(Text(lines))
  {
    if lines != [] {
      TextIsPlain(lines[1..]);
      LineThenPlain(lines[0], Text(lines[1..]));
    }
  }

  lemma LineThenPlain(line: string, rest: string)
    requires Calm(line) && Plain(rest)
    ensures Plain(line + "\n" + rest)
  {
    var s, n := line + "\n" + rest, |line|;
    forall k | 0 <= k < |s| - 1
      ensures !Telltale(s[k], s[k + 1])
    {
      if k + 1 < n { assert !Telltale(line[k], line[k + 1]); }
      else if k > n { assert !Telltale(rest[k - n - 1], rest[k - n]); }
    }
  }

  /** A native configuration: `cfg` or `cfg_attr` as a word, white space, and an opening mark. */
  predicate ConfigurationAt(s: string, i: nat) {
    && i + 3 <= |s| && s[i..i + 3] == "cfg" && (i == 0 || !Bodies.Word(s[i - 1]))
    && (Opens(s, i + 3) || (i + 8 <= |s| && s[i + 3..i + 8] == "_attr" && Opens(s, i + 8)))
  }

  predicate Opens(s: string, i: nat)
    requires i <= |s|
  {
    var k := Bodies.SpaceEnd(s, i);
    k < |s| && (s[k] == '!' || s[k] == '(')
  }

  predicate Configured(s: string) { exists i :: 0 <= i < |s| && ConfigurationAt(s, i) }

  predicate Ascii(s: string) { forall k :: 0 <= k < |s| ==> s[k] < 128 as char }

  const HELPERS := "mod arithmetic"

  lemma PartTells(s: string, part: string)
    requires Contains(s, part) && |part| >= 2 && Telltale(part[0], part[1])
    ensures !Plain(s)
  {
    var i :| 0 <= i <= |s| && part <= s[i..];
    assert s[i] == s[i..][0] == part[0] && s[i + 1] == s[i..][1] == part[1];
    assert Telltale(s[i], s[i + 1]);
  }

  lemma HelpersTell(s: string)
    requires Contains(s, HELPERS)
    ensures !Plain(s)
  {
    assert HELPERS[0] == 'm' && HELPERS[1] == 'o';
    hide Contains;
    hide Plain;
    PartTells(s, HELPERS);
  }

  lemma ConfigurationTells(s: string)
    requires Configured(s)
    ensures !Plain(s)
  {
    var i :| 0 <= i < |s| && ConfigurationAt(s, i);
    assert s[i] == s[i..i + 3][0] && s[i + 1] == s[i..i + 3][1];
    assert Telltale(s[i], s[i + 1]);
  }

  lemma PlainPasses(s: string)
    requires Plain(s)
    ensures Ascii(s) && !Contains(s, HELPERS) && !Configured(s)
  {
    if Contains(s, HELPERS) { HelpersTell(s); }
    if Configured(s) { ConfigurationTells(s); }
  }

  /** The text of accepted lines is plain, splits back into them, and ends in no helper block. */
  lemma AcceptedTextPasses(lines: seq<string>, p: Program, helpers: bool, suffix: string)
    requires Accepts(lines, p, helpers) && Contains(suffix, HELPERS)
    ensures var t := Text(lines);
      && Ascii(t) && !Contains(t, HELPERS) && !Configured(t) && Split(t) == lines + [""]
      && !(|suffix| <= |t| && t[|t| - |suffix|..] == suffix)
  {
    hide GuardOk;
    hide LetOk;
    hide Calm;
    hide Plain;
    hide Configured;
    hide Contains;
    hide Lines;
    hide Text;
    hide Split;
    hide Ascii;
    var s: Source :| Denotes(s, p, helpers) && Lines(s) == lines;
    forall i | 0 <= i < |lines|
      ensures Calm(lines[i]) && OneLine(lines[i])
    {
      LinesCalm(s, i);
      CalmIsOneLine(lines[i]);
    }
    TextIsPlain(lines);
    PlainPasses(Text(lines));
    SplitText(lines);
    var t := Text(lines);
    if |suffix| <= |t| && t[|t| - |suffix|..] == suffix { SuffixContains(t, suffix); }
  }

  lemma CalmIsOneLine(s: string)
    requires Calm(s)
    ensures OneLine(s)
  {
  }

  lemma SuffixContains(t: string, suffix: string)
    requires Contains(suffix, HELPERS) && |suffix| <= |t| && t[|t| - |suffix|..] == suffix
    ensures Contains(t, HELPERS)
  {
    var i :| 0 <= i <= |suffix| && HELPERS <= suffix[i..];
    assert t[|t| - |suffix| + i..] == suffix[i..];
  }

  /** What is accepted: the lines of a function that denotes the program, with or without the helper block. */
  ghost predicate AcceptsText(source: string, suffix: string, p: Program) {
    exists lines: seq<string>, helpers: bool :: IsTextOf(source, suffix, lines, helpers) && Accepts(lines, p, helpers)
  }

  predicate IsTextOf(source: string, suffix: string, lines: seq<string>, helpers: bool) {
    source == if helpers then Text(lines) + suffix else Text(lines)
  }

  /**
   Decode a whole source text for a program.  `suffix` is the helper block, which contains the phrase
   that is refused elsewhere.  The text is accepted exactly when it is that of accepted lines: the
   refusals made before splitting refuse nothing else.
   */
  method DecodeText(source: string, suffix: string, p: Program) returns (r: Result<Program>)
    requires Contains(suffix, HELPERS)
    ensures r.Ok? <==> AcceptsText(source, suffix, p)
    ensures r.Ok? ==> r.value == p
  {
    hide Accepts;
    hide Contains;
    hide Configured;
    hide Split;
    hide Text;
    hide Ascii;
    var helpers := |suffix| <= |source| && source[|source| - |suffix|..] == suffix;
    var body := if helpers then source[..|source| - |suffix|] else source;
    assert helpers ==> source == body + suffix;
    TextAccepted(source, suffix, p, helpers, body);
    if Contains(body, HELPERS) { return Mismatch("E2_helper_identity"); }
    if Configured(body) { return Mismatch("E2_native_configuration"); }
    if !Ascii(body) { return Mismatch("E1_closed_expression_grammar"); }
    var lines := Split(body);
    var n := |lines| - 1;
    if lines[n] != "" { return Mismatch("E1_complete_program"); }
    r := Decode(lines[..n], p, helpers);
  }

  /** Acceptance in terms of the steps: the stripped text passes every refusal and its lines are accepted. */
  lemma TextAccepted(source: string, suffix: string, p: Program, helpers: bool, body: string)
    requires Contains(suffix, HELPERS)
    requires helpers <==> |suffix| <= |source| && source[|source| - |suffix|..] == suffix
    requires source == if helpers then body + suffix else body
    ensures AcceptsText(source, suffix, p) <==>
      var r := Split(body);
      && !Contains(body, HELPERS) && !Configured(body) && Ascii(body)
      && r[|r| - 1] == "" && Accepts(r[..|r| - 1], p, helpers)
  {
    hide Accepts;
    hide Contains;
    hide Configured;
    hide Split;
    hide Text;
    hide Ascii;
    var r := Split(body);
    var n := |r| - 1;
    if r[n] == "" && Accepts(r[..n], p, helpers) {
      TextOfSplit(body);
      assert Joined(r) == Text(r[..n]) + r[n] && Text(r[..n]) + "" == Text(r[..n]);
      assert IsTextOf(source, suffix, r[..n], helpers);
    }
    if AcceptsText(source, suffix, p) {
      var lines: seq<string>, h: bool :| IsTextOf(source, suffix, lines, h) && Accepts(lines, p, h);
      AcceptedTextPasses(lines, p, h, suffix);
      Stripped(source, suffix, lines, h, helpers, body);
      assert r[..n] == lines;
    }
  }

  lemma Stripped(source: string, suffix: string, lines: seq<string>, h: bool, helpers: bool, body: string)
    requires IsTextOf(source, suffix, lines, h)
    requires helpers <==> |suffix| <= |source| && source[|source| - |suffix|..] == suffix
    requires source == if helpers then body + suffix else body
    requires var t := Text(lines); !(|suffix| <= |t| && t[|t| - |suffix|..] == suffix)
    ensures h == helpers && body == Text(lines)
  {
    hide Text;
    var t := Text(lines);
    if h {
      assert source[|t|..] == suffix && source[..|t|] == t;
      assert source[..|body|] == body;
    }
  }

  /** What the emitter writes, helper block included where an instruction needs it, is accepted as a whole. */
  lemma EmittedTextDecodes(p: Program, profile: string, suffix: string)
    requires WellScoped(p) && Emit.BooleanDomains(p) && Fits(OneOf("1234"), profile)
    ensures Emit.EmitSource(p, profile).Valid()
    ensures var text := Text(Lines(Emit.EmitSource(p, profile)));
      AcceptsText(if UsesHelper(p.nodes) then text + suffix else text, suffix, p)
  {
    hide Accepts;
    hide Lines;
    hide Text;
    Emit.EmittedTextIsAccepted(p, profile, UsesHelper(p.nodes));
    var lines := Lines(Emit.EmitSource(p, profile));
    var source := if UsesHelper(p.nodes) then Text(lines) + suffix else Text(lines);
    assert IsTextOf(source, suffix, lines, UsesHelper(p.nodes));
  }
}
