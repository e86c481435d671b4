/**
 What each Rust expression computes, read off its text: whichever right-hand side of the grammar has
 the text shown computes the value shown, from the values of the variables the text names.
 */
module Alternatives {
  import opened Digits
  import opened Patterns
  import opened Ir
  import opened RustText
  import opened RustGrammar

  /** A value inside the machine integer, or an early return. */
  function Fits128(z: int): Flow<i128> { if I128.least <= z <= I128.most then Go(z) else Return }

  lemma FillOne(p: Pattern, a: string)
    requires |p.text| == 2
    ensures Fill(p, [a]) == p.text[0] + a + p.text[1]
  {
    assert FillFrom(p, 1, [a]) == p.text[1];
  }

  lemma FillTwo(p: Pattern, a: string, b: string)
    requires |p.text| == 3
    ensures Fill(p, [a, b]) == p.text[0] + a + p.text[1] + b + p.text[2]
  {
    var caps := [a, b];
    assert FillFrom(p, 2, caps) == p.text[2];
    assert FillFrom(p, 1, caps) == p.text[1] + (b + p.text[2]);
  }

  lemma FillThree(p: Pattern, a: string, b: string, c: string)
    requires |p.text| == 4
    ensures Fill(p, [a, b, c]) == p.text[0] + a + p.text[1] + b + p.text[2] + c + p.text[3]
  {
    var caps := [a, b, c];
    assert FillFrom(p, 3, caps) == p.text[3];
    assert FillFrom(p, 2, caps) == p.text[2] + (c + p.text[3]);
    assert FillFrom(p, 1, caps) == p.text[1] + (b + FillFrom(p, 2, caps));
  }

  lemma FillFour(p: Pattern, a: string, b: string, c: string, d: string)
    requires |p.text| == 5
    ensures Fill(p, [a, b, c, d]) == p.text[0] + a + p.text[1] + b + p.text[2] + c + p.text[3] + d + p.text[4]
  {
    var caps := [a, b, c, d];
    assert FillFrom(p, 4, caps) == p.text[4];
    assert FillFrom(p, 3, caps) == p.text[3] + (d + p.text[4]);
    assert FillFrom(p, 2, caps) == p.text[2] + (c + FillFrom(p, 3, caps));
    assert FillFrom(p, 1, caps) == p.text[1] + (b + FillFrom(p, 2, caps));
  }

  lemma FillSix(p: Pattern, a: string, b: string, c: string, d: string, e: string, f: string)
    requires |p.text| == 7
    ensures Fill(p, [a, b, c, d, e, f]) ==
      p.text[0] + a + p.text[1] + b + p.text[2] + c + p.text[3] + d + p.text[4] + e + p.text[5] + f + p.text[6]
  {
    var caps := [a, b, c, d, e, f];
    assert FillFrom(p, 6, caps) == p.text[6];
    assert FillFrom(p, 5, caps) == p.text[5] + (f + p.text[6]);
    assert FillFrom(p, 4, caps) == p.text[4] + (e + FillFrom(p, 5, caps));
    assert FillFrom(p, 3, caps) == p.text[3] + (d + FillFrom(p, 4, caps));
    assert FillFrom(p, 2, caps) == p.text[2] + (c + FillFrom(p, 3, caps));
    assert FillFrom(p, 1, caps) == p.text[1] + (b + FillFrom(p, 2, caps));
  }

  // ---------------------------------------------------------------- one lemma per alternative

  lemma InputText(r: Rhs, i: string, env: Env, input: seq<i128>)
    requires r.Valid() && Numeral(i) && Value(i) < |input| && r.Text() == "input[" + i + "]"
    ensures RunRhs(r, env, input) == Go(input[Value(i)])
  {
    var q := Rhs(0, [i]);
    FillOne(Form(0), i);
    AlternativesDisjoint(r, q);
  }

  lemma LiteralText(r: Rhs, z: string, env: Env, input: seq<i128>)
    requires r.Valid() && CanonicalSigned(z) && r.Text() == z + "_i128"
    ensures SignedNumeral(z)
    ensures I128.least <= SignedValue(z) <= I128.most ==> RunRhs(r, env, input) == Go(SignedValue(z))
  {
    var q := Rhs(1, [z]);
    FillOne(Form(1), z);
    assert "" + z + "_i128" == z + "_i128";
    AlternativesDisjoint(r, q);
  }

  lemma SumText(r: Rhs, word: string, x: string, y: string, env: Env, input: seq<i128>)
    requires r.Valid() && Numeral(x) && Numeral(y) && x in env && y in env && (word == "add" || word == "sub")
    requires r.Text() == "v" + x + ".checked_" + word + "(v" + y + ")?"
    ensures var a: int, b: int := env[x], env[y];
      RunRhs(r, env, input) == Fits128(if word == "add" then a + b else a - b)
  {
    var q := Rhs(2, [x, word, y]);
    FillThree(Form(2), x, word, y);
    assert Fits(Form(2).groups[0], x) && Fits(Form(2).groups[1], word) && Fits(Form(2).groups[2], y);
    AlternativesDisjoint(r, q);
    assert "add"[0] != "sub"[0];
  }

  lemma ProductText(r: Rhs, x: string, y: string, env: Env, input: seq<i128>)
    requires r.Valid() && Numeral(x) && Numeral(y) && x in env && y in env
    requires r.Text() == "arithmetic::scalar::multiply(v" + x + ",v" + y + ")?"
    ensures var a: int, b: int := env[x], env[y]; RunRhs(r, env, input) == Fits128(a * b)
  {
    var q := Rhs(3, [x, y]);
    FillTwo(Form(3), x, y);
    assert Fits(Form(3).groups[0], x) && Fits(Form(3).groups[1], y);
    AlternativesDisjoint(r, q);
  }

  lemma QuotientText(r: Rhs, up: string, x: string, y: string, env: Env, input: seq<i128>)
    requires r.Valid() && Numeral(x) && Numeral(y) && x in env && y in env && (up == "false" || up == "true")
    requires r.Text() == "arithmetic::scalar::divide(" + up + ",v" + x + ",v" + y + ")?"
    ensures var a: int, b: int := env[x], env[y];
      RunRhs(r, env, input) ==
        if b == 0 then Return else Fits128(if up == "true" then CeilDiv(a, b) else FloorDiv(a, b))
  {
    var q := Rhs(4, [up, x, y]);
    FillThree(Form(4), up, x, y);
    assert Fits(Form(4).groups[0], up) && Fits(Form(4).groups[1], x) && Fits(Form(4).groups[2], y);
    AlternativesDisjoint(r, q);
    assert "true"[0] != "false"[0];
    Scalar.DivideRounds(up == "true", env[x], env[y]);
    hide Scalar.Divide;
    hide CeilDiv;
    hide FloorDiv;
  }

  lemma FusedText(r: Rhs, up: string, x: string, y: string, d: string, env: Env, input: seq<i128>)
    requires r.Valid() && Numeral(x) && Numeral(y) && Numeral(d) && x in env && y in env && d in env
    requires up == "false" || up == "true"
    requires r.Text() == "arithmetic::scalar::mul_div(" + up + ",v" + x + ",v" + y + ",v" + d + ")?"
    ensures var a: int, b: int, den: int := env[x], env[y], env[d];
      RunRhs(r, env, input) ==
        if a < 0 || b < 0 || den <= 0 then Return
        else Fits128(if up == "true" then CeilDiv(a * b, den) else FloorDiv(a * b, den))
  {
    var q := Rhs(5, [up, x, y, d]);
    FillFour(Form(5), up, x, y, d);
    FusedFits(up, x, y, d);
    AlternativesDisjoint(r, q);
    assert "true"[0] != "false"[0];
    Scalar.MulDivRounds(up == "true", env[x], env[y], env[d]);
    hide Scalar.MulDiv;
    hide CeilDiv;
    hide FloorDiv;
  }

  lemma FusedFits(up: string, x: string, y: string, d: string)
    requires (up == "false" || up == "true") && Numeral(x) && Numeral(y) && Numeral(d)
    ensures Rhs(5, [up, x, y, d]).Valid()
  {
    var g := Form(5).groups;
    assert Fits(g[0], up) && Fits(g[1], x) && Fits(g[2], y) && Fits(g[3], d);
  }

  lemma SignedFusedText(r: Rhs, x: string, y: string, d: string, env: Env, input: seq<i128>)
    requires r.Valid() && Numeral(x) && Numeral(y) && Numeral(d) && x in env && y in env && d in env
    requires r.Text() == "arithmetic::scalar::signed_mul_div_floor(v" + x + ",v" + y + ",v" + d + ")?"
    ensures var a: int, b: int, den: int := env[x], env[y], env[d];
      RunRhs(r, env, input) == if den <= 0 then Return else Fits128(FloorDiv(a * b, den))
  {
    var q := Rhs(6, [x, y, d]);
    FillThree(Form(6), x, y, d);
    assert Fits(Form(6).groups[0], x) && Fits(Form(6).groups[1], y) && Fits(Form(6).groups[2], d);
    AlternativesDisjoint(r, q);
    Scalar.SignedMulDivRounds(env[x], env[y], env[d]);
    hide Scalar.SignedMulDivFloor;
    hide FloorDiv;
  }

  lemma ProductsText(r: Rhs, n: seq<string>, env: Env, input: seq<i128>)
    requires r.Valid() && |n| == 6 && forall j :: 0 <= j < 6 ==> Numeral(n[j]) && n[j] in env
    requires r.Text() == "i128::from(arithmetic::scalar::products_ge(v" + n[0] + ",v" + n[1] + ",v" + n[2] + ",v" + n[3]
      + ",v" + n[4] + ",v" + n[5] + ")?)"
    ensures var x: seq<int> := [env[n[0]], env[n[1]], env[n[2]], env[n[3]], env[n[4]], env[n[5]]];
      RunRhs(r, env, input) ==
        if exists j :: 0 <= j < 6 && x[j] < 0 then Return
        else Go(if x[0] * x[1] * x[2] >= x[3] * x[4] * x[5] then 1 else 0)
  {
    var caps := [n[0], n[1], n[2], n[3], n[4], n[5]];
    assert caps == n;
    FillSix(Form(7), n[0], n[1], n[2], n[3], n[4], n[5]);
    ProductsFit(n);
    AlternativesDisjoint(r, Rhs(7, n));
    var x: seq<int> := [env[n[0]], env[n[1]], env[n[2]], env[n[3]], env[n[4]], env[n[5]]];
    assert (exists j :: 0 <= j < 6 && x[j] < 0) <==>
      x[0] < 0 || x[1] < 0 || x[2] < 0 || x[3] < 0 || x[4] < 0 || x[5] < 0;
  }

  lemma ProductsFit(n: seq<string>)
    requires |n| == 6 && forall j :: 0 <= j < 6 ==> Numeral(n[j])
    ensures Rhs(7, n).Valid()
  {
    assert forall j :: 0 <= j < 6 ==> Form(7).groups[j] == Num;
  }

  lemma ComparisonText(r: Rhs, word: string, x: string, y: string, env: Env, input: seq<i128>)
    requires r.Valid() && Numeral(x) && Numeral(y) && x in env && y in env && (word == "==" || word == "<")
    requires r.Text() == "i128::from(v" + x + " " + word + " v" + y + ")"
    ensures RunRhs(r, env, input) == Go(if (if word == "==" then env[x] == env[y] else env[x] < env[y]) then 1 else 0)
  {
    var q := Rhs(8, [x, word, y]);
    FillThree(Form(8), x, word, y);
    assert Fits(Form(8).groups[0], x) && Fits(Form(8).groups[1], word) && Fits(Form(8).groups[2], y);
    AlternativesDisjoint(r, q);
    assert "=="[0] != "<"[0];
  }

  lemma AndText(r: Rhs, x: string, y: string, env: Env, input: seq<i128>)
    requires r.Valid() && Numeral(x) && Numeral(y) && x in env && y in env
    requires r.Text() == "i128::from(v" + x + " == 1 && v" + y + " == 1)"
    ensures RunRhs(r, env, input) == Go(if env[x] == 1 && env[y] == 1 then 1 else 0)
  {
    var q := Rhs(9, [x, y]);
    FillTwo(Form(9), x, y);
    assert Fits(Form(9).groups[0], x) && Fits(Form(9).groups[1], y);
    AlternativesDisjoint(r, q);
  }

  lemma NotText(r: Rhs, x: string, env: Env, input: seq<i128>)
    requires r.Valid() && Numeral(x) && x in env && r.Text() == "i128::from(v" + x + " == 0)"
    ensures RunRhs(r, env, input) == Go(if env[x] == 0 then 1 else 0)
  {
    var q := Rhs(10, [x]);
    FillOne(Form(10), x);
    AlternativesDisjoint(r, q);
  }

  lemma SelectText(r: Rhs, c: string, x: string, y: string, env: Env, input: seq<i128>)
    requires r.Valid() && Numeral(c) && Numeral(x) && Numeral(y) && c in env && x in env && y in env
    requires r.Text() == "if v" + c + " == 1 { v" + x + " } else { v" + y + " }"
    ensures RunRhs(r, env, input) == Go(if env[c] == 1 then env[x] else env[y])
  {
    var q := Rhs(11, [c, x, y]);
    FillThree(Form(11), c, x, y);
    assert Fits(Form(11).groups[0], c) && Fits(Form(11).groups[1], x) && Fits(Form(11).groups[2], y);
    AlternativesDisjoint(r, q);
  }

  lemma FillStarts(p: Pattern, caps: seq<string>)
    requires |p.text| == |caps| + 1
    ensures p.text[0] <= Fill(p, caps)
  {
  }

  lemma TwoStarts(text: string, t: string, u: string, i: nat)
    requires t <= text && i < |t| && i < |u| && t[i] != u[i]
    ensures !(u <= text)
  {
  }

  const HELPER := "arithmetic::scalar::"
  const WRAPPED := "i128::from(arithmetic::scalar::"

  lemma HelperForms(k: nat, text: string)
    requires 3 <= k <= 7 && Form(k).text[0] <= text
    ensures HELPER <= text || WRAPPED <= text
  {
    assert if k == 7 then WRAPPED <= Form(k).text[0] else HELPER <= Form(k).text[0];
  }

  lemma OtherForms(k: nat, text: string)
    requires 2 <= k < FORMS && !(3 <= k <= 7) && Form(k).text[0] <= text
    ensures !(HELPER <= text) && !(WRAPPED <= text)
  {
    var t := Form(k).text[0];
    assert t == if k == 2 then "v" else if k == 11 then "if v" else "i128::from(v";
    hide Form;
    TwoStarts(text, t, HELPER, 0);
    TwoStarts(text, t, WRAPPED, if k == 2 then 0 else if k == 11 then 1 else 11);
  }

  /** The instructions that need the helper block are exactly those whose text names it. */
  lemma HelperText(r: Rhs)
    requires r.Valid() && r.form >= 2
    ensures r.Code().CallsHelper() <==> HELPER <= r.Text() || WRAPPED <= r.Text()
  {
    assert r.Code().CallsHelper() <==> 3 <= r.form <= 7;
    hide Form;
    FillStarts(Form(r.form), r.caps);
    if 3 <= r.form <= 7 { HelperForms(r.form, r.Text()); } else { OtherForms(r.form, r.Text()); }
  }

  // ---------------------------------------------------------------- statements

  /** A guard on an input: its line, and what running it does. */
  lemma InputGuardText(g: Guard, input: seq<i128>)
    requires g.Valid()
    ensures InLine(g) ==
      "    if !(" + g.lo + "_i128..=" + g.hi + "_i128).contains(&input[" + g.target + "]) { return None; }"
    ensures Value(g.target) < |input| ==>
      var z: int := input[Value(g.target)];
      RunIns([g], input) == if SignedValue(g.lo) <= z <= SignedValue(g.hi) then Go(()) else Return
  {
    FillThree(InPattern(), g.lo, g.hi, g.target);
    assert RunIns([g][..0], input) == Go(());
  }

  /** A guard on a result. */
  lemma OutputGuardText(g: Guard, env: Env)
    requires g.Valid()
    ensures OutLine(g) ==
      "    if !(" + g.lo + "_i128..=" + g.hi + "_i128).contains(&v" + g.target + ") { return None; }"
    ensures g.target in env ==>
      var z: int := env[g.target];
      RunOuts([g], env) == if SignedValue(g.lo) <= z <= SignedValue(g.hi) then Go(()) else Return
  {
    FillThree(OutPattern(), g.lo, g.hi, g.target);
    assert RunOuts([g][..0], env) == Go(());
  }

  /** A binding and its discard. */
  lemma LetText(l: Let)
    requires l.Valid()
    ensures LetLine(l) == "    let v" + l.name + ": i128 = " + l.rhs.Text() + ";"
    ensures DiscardLine(l.discard) == "    let _ = v" + l.discard + ";"
  {
    hide Rhs.Valid;
    var tail := l.rhs.Text() + ";";
    hide Rhs.Text;
    FillTwo(LetPattern(), l.name, tail);
    assert "    let v" + l.name + ": i128 = " + tail + "" == "    let v" + l.name + ": i128 = " + l.rhs.Text() + ";";
  }

  /** The lines before the guards, and the check of the number of inputs. */
  lemma PreambleText(s: Source)
    ensures Preamble(s) == [
      "// Generated from zeno-fcis/finite-i128/" + s.profile + ". Pure code; no commit authority.",
      "/// Evaluates the generated finite program; no commit authority.",
      "#[rustfmt::skip]",
      "pub fn transition(input: &[i128]) -> Option<[i128; " + s.arity + "]> {",
      "    if input" + s.dot + "len() != " + s.count + " { return None; }"]
  {
    FillOne(HeaderPattern(), s.profile);
    FillOne(SignaturePattern(), s.arity);
    FillTwo(CountPattern(), s.dot, s.count);
  }
}
