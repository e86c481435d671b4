/**
 The full-match line patterns of the decoder, as explicit recognizers.  A pattern alternates fixed
 text and capturing groups, and a match yields the text of each group.
 */
module Patterns {
  import opened Digits

  datatype Option<+T> = None | Some(value: T)

  datatype Group =
    | Num                                   // ([0-9]+)
    | Signed                                // (-?[0-9]+)
    | Integer                               // (-?(?:0|[1-9][0-9]*))
    | Choice(first: string, second: string) // (first|second)
    | OneOf(chars: string)                  // ([chars])
    | Dot                                   // . within ASCII
    | Tail                                  // (.*) at the end of a pattern; a line has no newline in it
  {
    predicate Numeric() { Num? || Signed? || Integer? }
    predicate Apart()
      requires Choice?
    {
      first != "" && second != "" && first[0] != second[0]
    }
  }

  /** `text[0]` group 0 `text[1]` group 1 ... `text[n]` */
  datatype Pattern = Pattern(text: seq<string>, groups: seq<Group>)

  predicate Fits(g: Group, cap: string) {
    match g
    case Num => Numeral(cap)
    case Signed => SignedNumeral(cap)
    case Integer => CanonicalSigned(cap)
    case Choice(a, b) => cap == a || cap == b
    case OneOf(chars) => |cap| == 1 && cap[0] in chars
    case Dot => |cap| == 1 && cap[0] != '\n' && cap[0] < 128 as char
    case Tail => true
  }

  /** Patterns that never need backtracking: a number ends where text that is no digit begins. */
  predicate Deterministic(p: Pattern) {
    && |p.text| == |p.groups| + 1
    && (forall i :: 0 <= i < |p.groups| && p.groups[i].Numeric() ==>
        if p.text[i + 1] == "" then i + 1 == |p.groups| else !IsDigit(p.text[i + 1][0]))
    && (forall i :: 0 <= i < |p.groups| && p.groups[i].Choice? ==>
        p.groups[i].Apart())
    && (forall i :: 0 <= i < |p.groups| && p.groups[i].Tail? ==> i + 1 == |p.groups| && p.text[i + 1] == "")
  }

  /** Length of the longest prefix of digits. */
  function DigitRun(s: string): (n: nat)
    ensures n <= |s| && AllDigits(s[..n])
    ensures n < |s| ==> !IsDigit(s[n])
  {
    if s == "" || !IsDigit(s[0]) then 0 else
      var n := 1 + DigitRun(s[1..]);
      assert s[..n] == [s[0]] + s[1..][..n - 1];
      n
  }

  /** How much a group takes from the front of `s`. */
  function Take(g: Group, s: string): (r: Option<nat>)
    ensures r.Some? ==> r.value <= |s| && Fits(g, s[..r.value])
  {
    var n := match g
      case Num | Signed | Integer =>
        if s != "" && s[0] == '-' then 1 + DigitRun(s[1..]) else DigitRun(s)
      case Choice(a, b) => if a <= s then |a| else |b|
      case OneOf(_) | Dot => 1
      case Tail => |s|;
    if n <= |s| && Fits(g, s[..n]) then Some(n) else None
  }

  /** Full match of what the pattern still expects from group `i` on: the captures, or `None`. */
  function MatchFrom(p: Pattern, i: nat, s: string): (r: Option<seq<string>>)
    requires |p.text| == |p.groups| + 1 && i <= |p.groups|
    ensures r.Some? ==> |r.value| == |p.groups| - i
    decreases |p.groups| - i
  {
    var t := p.text[i];
    if !(t <= s) then None
    else if i == |p.groups| then (if s == t then Some([]) else None)
    else
      var rest := s[|t|..];
      match Take(p.groups[i], rest)
      case None => None
      case Some(n) =>
        match MatchFrom(p, i + 1, rest[n..])
        case None => None
        case Some(caps) => Some([rest[..n]] + caps)
  }

  function Match(p: Pattern, s: string): (r: Option<seq<string>>)
    requires |p.text| == |p.groups| + 1
    ensures r.Some? ==> |r.value| == |p.groups|
  {
    MatchFrom(p, 0, s)
  }

  predicate Fillable(p: Pattern, caps: seq<string>) {
    |caps| == |p.groups| && forall i :: 0 <= i < |caps| ==> Fits(p.groups[i], caps[i])
  }

  /** The pattern's text from group `i` on, with its groups filled in. */
  function FillFrom(p: Pattern, i: nat, caps: seq<string>): string
    requires |p.text| == |caps| + 1 && i <= |caps|
    decreases |caps| - i
  {
    p.text[i] + if i == |caps| then "" else caps[i] + FillFrom(p, i + 1, caps)
  }

  function Fill(p: Pattern, caps: seq<string>): string
    requires |p.text| == |caps| + 1
  {
    FillFrom(p, 0, caps)
  }

  lemma {:induction false} RunEnds(s: string, n: nat)
    requires n <= |s| && AllDigits(s[..n]) && (n < |s| ==> !IsDigit(s[n]))
    ensures DigitRun(s) == n
  {
    if n > 0 {
      assert s[..n][0] == s[0] && s[1..][..n - 1] == s[..n][1..];
      RunEnds(s[1..], n - 1);
    }
  }

  /** Where what follows does not start with a digit, the only fitting prefix is the one taken. */
  lemma FitsTake(g: Group, cap: string, s: string)
    requires Fits(g, cap) && cap <= s
    requires g.Numeric() && |cap| < |s| ==> !IsDigit(s[|cap|])
    requires g.Choice? ==> g.Apart()
    requires g.Tail? ==> cap == s
    ensures Take(g, s) == Some(|cap|)
  {
    assert s[..|cap|] == cap;
    if g.Numeric() {
      if cap[0] == '-' {
        assert s[1..][..|cap| - 1] == cap[1..];
        RunEnds(s[1..], |cap| - 1);
      } else {
        RunEnds(s, |cap|);
      }
    }
  }

  lemma {:induction false} MatchFills(p: Pattern, i: nat, caps: seq<string>, s: string)
    requires |p.text| == |p.groups| + 1 == |caps| + 1 && i <= |p.groups|
    requires MatchFrom(p, i, s) == Some(caps[i..])
    ensures FillFrom(p, i, caps) == s
    ensures forall j :: i <= j < |caps| ==> Fits(p.groups[j], caps[j])
    decreases |p.groups| - i
  {
    hide Take;
    hide Fits;
    if i < |p.groups| {
      var t := p.text[i];
      var rest := s[|t|..];
      var n := Take(p.groups[i], rest).value;
      assert caps[i..] == [caps[i]] + caps[i + 1..];
      assert MatchFrom(p, i + 1, rest[n..]).value == caps[i..][1..];
      MatchFills(p, i + 1, caps, rest[n..]);
      assert s == t + (rest[..n] + rest[n..]);
    }
  }

  lemma {:induction false} FillMatches(p: Pattern, i: nat, caps: seq<string>)
    requires Deterministic(p) && Fillable(p, caps) && i <= |caps|
    ensures MatchFrom(p, i, FillFrom(p, i, caps)) == Some(caps[i..])
    decreases |caps| - i
  {
    hide Take;
    hide Fits;
    var t, s := p.text[i], FillFrom(p, i, caps);
    if i == |caps| {
      assert s == t;
    } else {
      FillMatches(p, i + 1, caps);
      var after := FillFrom(p, i + 1, caps);
      var rest := s[|t|..];
      assert rest == caps[i] + after;
      assert p.text[i + 1] <= after;
      FitsTake(p.groups[i], caps[i], rest);
      assert rest[|caps[i]|..] == after && rest[..|caps[i]|] == caps[i];
      assert caps[i..] == [caps[i]] + caps[i + 1..];
    }
  }

  /** The recognizer accepts exactly the filled patterns, with exactly the captures filled in. */
  lemma MatchIsFill(p: Pattern, caps: seq<string>, s: string)
    requires Deterministic(p)
    ensures Match(p, s) == Some(caps) <==> Fillable(p, caps) && s == Fill(p, caps)
  {
    if Match(p, s) == Some(caps) {
      assert caps[0..] == caps;
      MatchFills(p, 0, caps, s);
    }
    if Fillable(p, caps) {
      FillMatches(p, 0, caps);
      assert caps[0..] == caps;
    }
  }
}
