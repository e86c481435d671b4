/**
 Unambiguity of the emitted text: the expression alternatives are pairwise disjoint, so the order in
 which they are tried never matters, and a list of lines is the text of at most one function.
 */
module RustGrammar {
  import opened Digits
  import opened Patterns
  import opened RustText

  /** A reading of the alternative off a few characters of the text. */
  function Tag(t: string): nat {
    if t == "" then FORMS
    else if t[0] == 'v' then 2
    else if t[0] == 'a' then
      if |t| <= 23 then FORMS
      else if t[20] == 'd' then 4 else if t[20] == 's' then 6 else if t[23] == 't' then 3 else 5
    else if t[0] == 'i' && |t| > 1 then
      if t[1] == 'n' then 0 else if t[1] == 'f' then 11
      else if |t| <= 12 then FORMS
      else if t[11] == 'a' then 7
      else AfterName(t[12..][DigitRun(t[12..])..])
    else 1
  }

  /** What follows `i128::from(v7`. */
  function AfterName(rest: string): nat {
    if |rest| <= 4 then FORMS
    else if rest[1] == '<' || rest[4] == 'v' then 8
    else if rest[4] == '1' then 9 else 10
  }

  lemma FillSplit(p: Pattern, caps: seq<string>)
    requires |p.text| == |caps| + 1 && |caps| > 0
    ensures Fill(p, caps) == p.text[0] + caps[0] + FillFrom(p, 1, caps)
    ensures p.text[1] <= FillFrom(p, 1, caps)
  {
  }

  lemma TagOfName(name: string, rest: string)
    requires Numeral(name) && rest != "" && !IsDigit(rest[0])
    ensures Tag("i128::from(v" + (name + rest)) == AfterName(rest)
  {
    hide AfterName;
    var t := "i128::from(v" + (name + rest);
    assert t[12..] == name + rest;
    RunEnds(t[12..], |name|);
    assert t[12..][|name|..] == rest;
  }

  lemma AfterNameOf(r: Rhs)
    requires r.Valid() && 8 <= r.form <= 10
    ensures AfterName(FillFrom(Form(r.form), 1, r.caps)) == r.form
  {
    var p, caps := Form(r.form), r.caps;
    var rest := FillFrom(p, 1, caps);
    assert p.text[1] <= rest;
    if r.form == 8 {
      assert Fits(p.groups[1], caps[1]);
      var more := FillFrom(p, 2, caps);
      assert rest == " " + caps[1] + more && " v" <= more;
    }
  }

  lemma TagOfFrom(r: Rhs)
    requires r.Valid() && 8 <= r.form <= 10
    ensures Tag(r.Text()) == r.form
  {
    hide AfterName;
    hide Tag;
    var p, caps := Form(r.form), r.caps;
    FillSplit(p, caps);
    AfterNameOf(r);
    var rest := FillFrom(p, 1, caps);
    assert Fits(p.groups[0], caps[0]);
    assert r.Text() == "i128::from(v" + (caps[0] + rest);
    TagOfName(caps[0], rest);
  }

  lemma FirstCharacters(r: Rhs)
    requires r.Valid()
    ensures Form(r.form).text[0] <= r.Text()
    ensures r.form == 1 ==> r.Text() != "" && (r.Text()[0] == '-' || IsDigit(r.Text()[0]))
  {
    hide Form;
    FormDeterministic(r.form);
    FormHasGroup(r.form);
    FillSplit(Form(r.form), r.caps);
    assert Fits(Form(r.form).groups[0], r.caps[0]);
  }

  lemma FormHasGroup(k: nat)
    requires k < FORMS
    ensures |Form(k).groups| > 0 && |Form(k).text| == |Form(k).groups| + 1
    ensures k == 1 ==> Form(k).groups[0] == Integer && Form(k).text[0] == ""
  {
    FormDeterministic(k);
  }

  lemma TagOfOther(r: Rhs)
    requires r.Valid() && (r.form < 8 || r.form == 11)
    ensures Tag(r.Text()) == r.form
  {
    FirstCharacters(r);
    TagOfHead(r.form, r.Text());
  }

  lemma TagOfHead(k: nat, t: string)
    requires k < 8 || k == 11
    requires Form(k).text[0] <= t
    requires k == 1 ==> t != "" && (t[0] == '-' || IsDigit(t[0]))
    ensures Tag(t) == k
  {
    if 3 <= k <= 6 { TagOfCall(k, t); } else if k == 7 { TagOfProducts(t); } else { TagOfPlain(k, t); }
  }

  lemma TagOfPlain(k: nat, t: string)
    requires k < 3 || k == 11
    requires Form(k).text[0] <= t
    requires k == 1 ==> t != "" && (t[0] == '-' || IsDigit(t[0]))
    ensures Tag(t) == k
  {
    hide AfterName;
    match k
    case 0 => assert "input[" <= t;
    case 1 =>
    case 2 => assert "v" <= t;
    case 11 => assert "if v" <= t;
  }

  lemma TagOfCall(k: nat, t: string)
    requires 3 <= k <= 6 && Form(k).text[0] <= t
    ensures Tag(t) == k
  {
    hide AfterName;
    match k
    case 3 => assert "arithmetic::scalar::multiply(v" <= t;
    case 4 => assert "arithmetic::scalar::divide(" <= t;
    case 5 => assert "arithmetic::scalar::mul_div(" <= t;
    case 6 => assert "arithmetic::scalar::signed_mul_div_floor(v" <= t;
  }

  lemma TagOfProducts(t: string)
    requires Form(7).text[0] <= t
    ensures Tag(t) == 7
  {
    hide AfterName;
    var head := "i128::from(arithmetic::scalar::products_ge(v";
    assert head <= t && |head| > 12;
    assert t[0] == head[0] == 'i' && t[1] == head[1] == '1' && t[11] == head[11] == 'a';
  }

  lemma TagOf(r: Rhs)
    requires r.Valid()
    ensures Tag(r.Text()) == r.form
  {
    if 8 <= r.form <= 10 { TagOfFrom(r); } else { TagOfOther(r); }
  }

  /** No text matches two alternatives, or one alternative in two ways. */
  lemma AlternativesDisjoint(r: Rhs, q: Rhs)
    requires r.Valid() && q.Valid() && r.Text() == q.Text()
    ensures r == q
  {
    TagOf(r);
    TagOf(q);
    FormDeterministic(r.form);
    MatchIsFill(Form(r.form), r.caps, r.Text());
    MatchIsFill(Form(r.form), q.caps, r.Text());
  }

  /** The cascade of full matches, from alternative `k` on. */
  function FirstForm(text: string, k: nat): Option<Rhs>
    requires k <= FORMS
    decreases FORMS - k
  {
    if k == FORMS then None
    else match Match(Form(k), text)
      case Some(caps) => Some(Rhs(k, caps))
      case None => FirstForm(text, k + 1)
  }

  lemma {:induction false} FirstFormSound(text: string, k: nat)
    requires k <= FORMS && FirstForm(text, k).Some?
    ensures FirstForm(text, k).value.Valid() && FirstForm(text, k).value.Text() == text
    decreases FORMS - k
  {
    hide Form;
    hide Match;
    hide Fill;
    hide Fillable;
    FormDeterministic(k);
    match Match(Form(k), text)
    case Some(caps) =>
      MatchIsFill(Form(k), caps, text);
    case None => FirstFormSound(text, k + 1);
  }

  lemma {:induction false} FirstFormComplete(r: Rhs, k: nat)
    requires r.Valid() && k <= r.form
    ensures FirstForm(r.Text(), k).Some?
    decreases FORMS - k
  {
    hide Form;
    hide Match;
    hide Fill;
    hide Fillable;
    if k == r.form {
      FormDeterministic(k);
      MatchIsFill(Form(k), r.caps, r.Text());
    } else {
      FirstFormComplete(r, k + 1);
    }
  }

  /** The cascade finds exactly the alternative whose filled pattern the text is. */
  lemma ExpressionIsItsText(text: string, r: Rhs)
    ensures FirstForm(text, 0) == Some(r) <==> r.Valid() && r.Text() == text
  {
    if FirstForm(text, 0).Some? { FirstFormSound(text, 0); }
    if r.Valid() && r.Text() == text {
      FirstFormComplete(r, 0);
      AlternativesDisjoint(FirstForm(text, 0).value, r);
    }
  }

  // ---------------------------------------------------------------- lines

  /** Two filled patterns with the same text and group at `i` agree on the group and the rest. */
  lemma PeelGroup(p: Pattern, a: seq<string>, q: Pattern, b: seq<string>, i: nat)
    requires Deterministic(p) && Deterministic(q) && Fillable(p, a) && Fillable(q, b)
    requires i < |a| && i < |b| && p.text[i] == q.text[i] && p.groups[i] == q.groups[i]
    requires !p.groups[i].Tail?
    requires FillFrom(p, i, a) == FillFrom(q, i, b)
    ensures a[i] == b[i] && FillFrom(p, i + 1, a) == FillFrom(q, i + 1, b)
  {
    hide Take;
    hide Fits;
    var s := FillFrom(p, i, a);
    var t, pa, qb := p.text[i], FillFrom(p, i + 1, a), FillFrom(q, i + 1, b);
    assert s[|t|..] == a[i] + pa;
    assert s[|t|..] == b[i] + qb;
    assert p.text[i + 1] <= pa && q.text[i + 1] <= qb;
    FitsTake(p.groups[i], a[i], s[|t|..]);
    FitsTake(q.groups[i], b[i], s[|t|..]);
    assert a[i] == s[|t|..][..|a[i]|] && pa == s[|t|..][|a[i]|..];
    assert b[i] == s[|t|..][..|b[i]|] && qb == s[|t|..][|b[i]|..];
  }

  lemma GuardPatterns(g: Guard)
    ensures Deterministic(InPattern()) && Deterministic(OutPattern())
    ensures Fillable(InPattern(), [g.lo, g.hi, g.target]) <==> g.Valid()
    ensures Fillable(OutPattern(), [g.lo, g.hi, g.target]) <==> g.Valid()
  {
    var caps := [g.lo, g.hi, g.target];
    assert caps[0] == g.lo && caps[1] == g.hi && caps[2] == g.target;
  }

  lemma GuardLinesApart(g: Guard, h: Guard)
    requires g.Valid() && h.Valid()
    ensures InLine(g) != OutLine(h)
  {
    GuardPatterns(g);
    GuardPatterns(h);
    var p, q, a, b := InPattern(), OutPattern(), [g.lo, g.hi, g.target], [h.lo, h.hi, h.target];
    assert p.text[2] <= FillFrom(p, 2, a) && q.text[2] <= FillFrom(q, 2, b);
    assert p.text[2][17] == 'i' && q.text[2][17] == 'v';
    if InLine(g) == OutLine(h) {
      PeelGroup(p, a, q, b, 0);
      PeelGroup(p, a, q, b, 1);
      assert false;
    }
  }

  lemma GuardLineInjective(g: Guard, h: Guard)
    requires g.Valid() && h.Valid()
    ensures InLine(g) == InLine(h) ==> g == h
    ensures OutLine(g) == OutLine(h) ==> g == h
  {
    GuardPatterns(g);
    GuardPatterns(h);
    var a, b := [g.lo, g.hi, g.target], [h.lo, h.hi, h.target];
    assert a == b ==> a[0] == b[0] && a[1] == b[1] && a[2] == b[2];
    MatchIsFill(InPattern(), a, InLine(g));
    MatchIsFill(InPattern(), b, InLine(h));
    MatchIsFill(OutPattern(), a, OutLine(g));
    MatchIsFill(OutPattern(), b, OutLine(h));
  }

  lemma LetPatternFits(name: string, tail: string)
    ensures Deterministic(LetPattern())
    ensures Fillable(LetPattern(), [name, tail]) <==> Numeral(name)
  {
    var caps := [name, tail];
    assert caps[0] == name && caps[1] == tail;
  }

  lemma LetLineInjective(l: Let, m: Let)
    requires l.Valid() && m.Valid() && LetLine(l) == LetLine(m) && l.discard == m.discard
    ensures l == m
  {
    var a, b := [l.name, l.rhs.Text() + ";"], [m.name, m.rhs.Text() + ";"];
    LetPatternFits(l.name, a[1]);
    LetPatternFits(m.name, b[1]);
    MatchIsFill(LetPattern(), a, LetLine(l));
    MatchIsFill(LetPattern(), b, LetLine(m));
    assert a[0] == b[0] && a[1] == b[1];
    assert l.rhs.Text() == a[1][..|a[1]| - 1] == m.rhs.Text();
    AlternativesDisjoint(l.rhs, m.rhs);
  }

  lemma DiscardLineInjective(a: string, b: string)
    requires DiscardLine(a) == DiscardLine(b)
    ensures a == b
  {
    assert a == DiscardLine(a)[13..|DiscardLine(a)| - 1];
    assert b == DiscardLine(b)[13..|DiscardLine(b)| - 1];
  }

  lemma {:induction false} NamesInjective(a: seq<string>, b: seq<string>)
    requires forall i :: 0 <= i < |a| ==> Numeral(a[i])
    requires forall i :: 0 <= i < |b| ==> Numeral(b[i])
    requires Names(a) == Names(b)
    ensures a == b
  {
    if a != [] && b != [] {
      var s := Names(a);
      assert s[1..] == a[0] + ("," + Names(a[1..]));
      assert s[1..] == b[0] + ("," + Names(b[1..]));
      RunEnds(s[1..], |a[0]|);
      RunEnds(s[1..], |b[0]|);
      assert a[0] == s[1..][..|a[0]|] == b[0];
      assert Names(a[1..]) == s[2 + |a[0]|..] == Names(b[1..]);
      NamesInjective(a[1..], b[1..]);
      assert a == [a[0]] + a[1..] && b == [b[0]] + b[1..];
    }
  }

  lemma ResultLineInjective(a: seq<string>, b: seq<string>)
    requires forall i :: 0 <= i < |a| ==> Numeral(a[i])
    requires forall i :: 0 <= i < |b| ==> Numeral(b[i])
    requires ResultLine(a) == ResultLine(b)
    ensures a == b
  {
    assert Names(a) == ResultLine(a)[10..|ResultLine(a)| - 2];
    assert Names(b) == ResultLine(b)[10..|ResultLine(b)| - 2];
    NamesInjective(a, b);
  }

  lemma Concatenation(a: seq<string>, b: seq<string>, c: seq<string>, d: seq<string>, e: seq<string>, i: nat)
    ensures var all := a + b + c + d + e;
      && |all| == |a| + |b| + |c| + |d| + |e|
      && all[..|a|] == a
      && (i < |b| ==> all[|a| + i] == b[i])
      && (i < |c| ==> all[|a| + |b| + i] == c[i])
      && (i < |d| ==> all[|a| + |b| + |c| + i] == d[i])
      && (i < |e| ==> all[|a| + |b| + |c| + |d| + i] == e[i])
  {
  }

  /** Where the `i`th line of each section of a function stands. */
  lemma LineAt(s: Source, i: nat)
    requires s.Valid()
    ensures var n, m, o := |s.ins|, 2 * |s.lets|, |s.outs|;
      && |Lines(s)| == 5 + n + m + o + 2
      && (i < n ==> Lines(s)[5 + i] == InLine(s.ins[i]))
      && (i < m ==> Lines(s)[5 + n + i] == LetLines(s.lets)[i])
      && (i < o ==> Lines(s)[5 + n + m + i] == OutLine(s.outs[i]))
  {
    hide Preamble;
    hide InLine;
    hide OutLine;
    hide LetLines;
    hide ResultLine;
    Concatenation(Preamble(s), InLines(s.ins), LetLines(s.lets), OutLines(s.outs), [ResultLine(s.result), "}"], i);
  }

  lemma InAt(s: Source, i: nat)
    requires s.Valid() && i < |s.ins|
    ensures |Lines(s)| > 5 + i && Lines(s)[5 + i] == InLine(s.ins[i])
  {
    hide Lines;
    hide LetLines;
    LineAt(s, i);
  }

  lemma OutAt(s: Source, i: nat, at: nat)
    requires s.Valid() && i < |s.outs| && at == 5 + |s.ins| + 2 * |s.lets| + i
    ensures |Lines(s)| > at && Lines(s)[at] == OutLine(s.outs[i])
  {
    hide Lines;
    hide LetLines;
    LineAt(s, i);
  }

  lemma LetAt(s: Source, i: nat)
    requires s.Valid() && i < |s.lets|
    ensures |Lines(s)| > 6 + |s.ins| + 2 * i
    ensures Lines(s)[5 + |s.ins| + 2 * i] == LetLine(s.lets[i])
    ensures Lines(s)[6 + |s.ins| + 2 * i] == DiscardLine(s.lets[i].discard)
  {
    hide Lines;
    hide LetLine;
    hide DiscardLine;
    hide LetLines;
    LetLinesAt(s.lets, i);
    LineAt(s, 2 * i);
    LineAt(s, 2 * i + 1);
  }

  /** The first five lines and the last two. */
  lemma LinesEnds(s: Source)
    requires s.Valid()
    ensures |Lines(s)| == 5 + |s.ins| + 2 * |s.lets| + |s.outs| + 2
    ensures Lines(s)[..5] == Preamble(s)
    ensures Lines(s)[|Lines(s)| - 2] == ResultLine(s.result) && Lines(s)[|Lines(s)| - 1] == "}"
  {
    hide Preamble;
    hide InLine;
    hide OutLine;
    hide LetLines;
    hide ResultLine;
    var tail := [ResultLine(s.result), "}"];
    Concatenation(Preamble(s), InLines(s.ins), LetLines(s.lets), OutLines(s.outs), tail, 0);
    Concatenation(Preamble(s), InLines(s.ins), LetLines(s.lets), OutLines(s.outs), tail, 1);
  }

  /** The fifth character tells guards, `let` statements and the result apart. */
  lemma LineHeads(g: Guard, l: Let, names: seq<string>)
    requires g.Valid() && l.Valid()
    ensures |InLine(g)| > 4 && InLine(g)[4] == 'i'
    ensures |OutLine(g)| > 4 && OutLine(g)[4] == 'i'
    ensures "    let v" <= LetLine(l) && LetLine(l)[4] == 'l'
    ensures |ResultLine(names)| > 4 && ResultLine(names)[4] == 'S'
  {
    FillSplit(InPattern(), [g.lo, g.hi, g.target]);
    FillSplit(OutPattern(), [g.lo, g.hi, g.target]);
    FillSplit(LetPattern(), [l.name, l.rhs.Text() + ";"]);
  }

  lemma PreamblePatterns(s: Source)
    ensures Deterministic(HeaderPattern()) && Deterministic(SignaturePattern()) && Deterministic(CountPattern())
    ensures Fillable(HeaderPattern(), [s.profile]) <==> Fits(OneOf("1234"), s.profile)
    ensures Fillable(SignaturePattern(), [s.arity]) <==> Numeral(s.arity)
    ensures Fillable(CountPattern(), [s.dot, s.count]) <==> Fits(Dot, s.dot) && Numeral(s.count)
  {
    assert [s.profile][0] == s.profile && [s.arity][0] == s.arity;
    var caps := [s.dot, s.count];
    assert caps[0] == s.dot && caps[1] == s.count;
  }

  lemma PreambleInjective(s: Source, t: Source)
    requires s.Valid() && t.Valid() && Preamble(s) == Preamble(t)
    ensures s.profile == t.profile && s.arity == t.arity && s.dot == t.dot && s.count == t.count
  {
    PreamblePatterns(s);
    PreamblePatterns(t);
    hide Match;
    hide Fill;
    hide Fillable;
    MatchIsFill(HeaderPattern(), [s.profile], Preamble(s)[0]);
    MatchIsFill(HeaderPattern(), [t.profile], Preamble(t)[0]);
    MatchIsFill(SignaturePattern(), [s.arity], Preamble(s)[3]);
    MatchIsFill(SignaturePattern(), [t.arity], Preamble(t)[3]);
    MatchIsFill(CountPattern(), [s.dot, s.count], Preamble(s)[4]);
    MatchIsFill(CountPattern(), [t.dot, t.count], Preamble(t)[4]);
    assert [s.profile][0] == [t.profile][0] && [s.arity][0] == [t.arity][0];
    assert [s.dot, s.count][0] == [t.dot, t.count][0] && [s.dot, s.count][1] == [t.dot, t.count][1];
  }

  /** The line after the input guards is no input guard. */
  lemma InsEnd(s: Source, g: Guard)
    requires s.Valid() && g.Valid()
    ensures |Lines(s)| > 5 + |s.ins| && Lines(s)[5 + |s.ins|] != InLine(g)
  {
    LinesEnds(s);
    hide Lines;
    hide InLine;
    hide LetLine;
    hide OutLine;
    hide ResultLine;
    LineHeads(g, if s.lets == [] then SomeLet() else s.lets[0], s.result);
    if s.lets != [] { LetAt(s, 0); }
    else if s.outs != [] {
      OutAt(s, 0, 5 + |s.ins|);
      GuardLinesApart(g, s.outs[0]);
    }
  }

  /** The line after the `let` statements starts no `let`. */
  lemma LetsEnd(s: Source, l: Let)
    requires s.Valid() && l.Valid()
    ensures var k := 5 + |s.ins| + 2 * |s.lets|;
      |Lines(s)| > k && Lines(s)[k] != LetLine(l) && !("    let v" <= Lines(s)[k])
  {
    LinesEnds(s);
    hide Lines;
    hide InLine;
    hide LetLine;
    hide OutLine;
    hide ResultLine;
    if s.outs != [] { OutAt(s, 0, 5 + |s.ins| + 2 * |s.lets|); }
    LineHeads(if s.outs == [] then Guard("0", "0", "0") else s.outs[0], l, s.result);
  }

  function SomeLet(): (l: Let)
    ensures l.Valid()
  {
    assert Fits(Form(10).groups[0], "0");
    Let("0", Rhs(10, ["0"]), "0")
  }

  lemma SectionsNoLonger(s: Source, t: Source)
    requires s.Valid() && t.Valid() && Lines(s) == Lines(t)
    ensures |t.ins| <= |s.ins|
    ensures |s.ins| == |t.ins| ==> |t.lets| <= |s.lets|
  {
    hide Lines;
    hide InLine;
    hide LetLine;
    if |s.ins| < |t.ins| {
      InAt(t, |s.ins|);
      InsEnd(s, t.ins[|s.ins|]);
    } else if |s.ins| == |t.ins| && |s.lets| < |t.lets| {
      LetAt(t, |s.lets|);
      LetsEnd(s, t.lets[|s.lets|]);
    }
  }

  /** A list of lines is the text of at most one function. */
  lemma LinesInjective(s: Source, t: Source)
    requires s.Valid() && t.Valid() && Lines(s) == Lines(t)
    ensures s == t
  {
    LinesEnds(s);
    LinesEnds(t);
    SectionsNoLonger(s, t);
    SectionsNoLonger(t, s);
    PreambleInjective(s, t);
    ResultLineInjective(s.result, t.result);
    hide Lines;
    hide InLine;
    hide LetLine;
    hide DiscardLine;
    hide OutLine;
    hide ResultLine;
    forall i | 0 <= i < |s.ins|
      ensures s.ins[i] == t.ins[i]
    {
      InAt(s, i);
      InAt(t, i);
      GuardLineInjective(s.ins[i], t.ins[i]);
    }
    forall i | 0 <= i < |s.lets|
      ensures s.lets[i] == t.lets[i]
    {
      LetAt(s, i);
      LetAt(t, i);
      DiscardLineInjective(s.lets[i].discard, t.lets[i].discard);
      LetLineInjective(s.lets[i], t.lets[i]);
    }
    forall i | 0 <= i < |s.outs|
      ensures s.outs[i] == t.outs[i]
    {
      var at := 5 + |s.ins| + 2 * |s.lets| + i;
      OutAt(s, i, at);
      OutAt(t, i, at);
      GuardLineInjective(s.outs[i], t.outs[i]);
    }
  }
}
