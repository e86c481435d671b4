/**
 Function bodies of masked source text: each `fn` header is followed to the delimiter at the outer
 level of its signature, and a body to the brace that closes it.
 */
module Bodies {
  import opened Patterns
  import opened Masker

  // ---------------------------------------------------------------- counting brackets

  /** Openers less closers between two positions. */
  function Net(s: string, i: nat, e: nat, open: char, close: char): int
    requires i <= e <= |s|
    decreases e - i
  {
    if i == e then 0 else Weight(s[i], open, close) + Net(s, i + 1, e, open, close)
  }

  function Weight(c: char, open: char, close: char): int {
    if c == open then 1 else if c == close then -1 else 0
  }

  lemma {:induction false} NetLast(s: string, i: nat, e: nat, open: char, close: char)
    requires i < e <= |s|
    ensures Net(s, i, e, open, close) == Net(s, i, e - 1, open, close) + Weight(s[e - 1], open, close)
    decreases e - i
  {
    if i < e - 1 { NetLast(s, i + 1, e, open, close); }
  }

  /** The same count in a slice. */
  lemma {:induction false} NetSlice(s: string, a: nat, b: nat, i: nat, open: char, close: char)
    requires a <= b <= |s| && i <= b - a
    ensures Net(s[a..b], 0, i, open, close) == Net(s, a, a + i, open, close)
  {
    if i > 0 {
      NetSlice(s, a, b, i - 1, open, close);
      NetLast(s[a..b], 0, i, open, close);
      NetLast(s, a, a + i, open, close);
    }
  }

  /** Every closer closes an opener, and every opener is closed. */
  predicate Balanced(t: string) {
    Net(t, 0, |t|, '{', '}') == 0 && forall i :: 0 <= i <= |t| ==> Net(t, 0, i, '{', '}') >= 0
  }

  // ---------------------------------------------------------------- the end of a body

  /** The position after the brace that closes `depth` open ones. */
  function BodyEnd(s: string, i: nat, depth: nat): (e: Option<nat>)
    requires i <= |s|
    ensures e.Some? ==> i <= e.value <= |s|
    decreases |s| - i
  {
    if depth == 0 then Some(i)
    else if i == |s| then None
    else BodyEnd(s, i + 1, depth + Weight(s[i], '{', '}'))
  }

  /** The first position at which the open braces are closed, if there is one. */
  lemma {:induction false} BodyEndIs(s: string, i: nat, depth: nat)
    requires i <= |s|
    ensures match BodyEnd(s, i, depth)
      case Some(e) =>
        && depth + Net(s, i, e, '{', '}') == 0
        && forall p :: i <= p < e ==> depth + Net(s, i, p, '{', '}') > 0
      case None => forall p :: i <= p <= |s| ==> depth + Net(s, i, p, '{', '}') > 0
    decreases |s| - i
  {
    if depth > 0 && i < |s| { BodyEndIs(s, i + 1, depth + Weight(s[i], '{', '}')); }
  }

  /** The text between the opening brace and the one that closes it is balanced. */
  lemma BodyIsBalanced(s: string, i: nat)
    requires i <= |s| && BodyEnd(s, i, 1).Some?
    ensures var e := BodyEnd(s, i, 1).value; i < e && s[e - 1] == '}' && Balanced(s[i..e - 1])
  {
    BodyEndIs(s, i, 1);
    var e := BodyEnd(s, i, 1).value;
    NetLast(s, i, e, '{', '}');
    assert 1 + Net(s, i, e - 1, '{', '}') > 0;
    var t := s[i..e - 1];
    forall k | 0 <= k <= |t|
      ensures Net(t, 0, k, '{', '}') >= 0
    {
      NetSlice(s, i, e - 1, k, '{', '}');
      assert 1 + Net(s, i, i + k, '{', '}') > 0;
    }
    NetSlice(s, i, e - 1, |t|, '{', '}');
  }

  method ScanBody(s: string, start: nat) returns (end: Option<nat>)
    requires start <= |s|
    ensures end == BodyEnd(s, start, 1)
  {
    var depth, i := 1, start;
    while i < |s| && depth > 0
      invariant start <= i <= |s| && depth >= 0 && BodyEnd(s, i, depth) == BodyEnd(s, start, 1)
      decreases |s| - i
    {
      depth := depth + Weight(s[i], '{', '}');
      i := i + 1;
    }
    return if depth > 0 then None else Some(i);
  }

  // ---------------------------------------------------------------- the end of a signature

  datatype Signature = Brace(at: nat) | NoBody | Unbalanced

  function SignatureEnd(s: string, i: nat, parens: nat, brackets: nat): (r: Signature)
    requires i <= |s|
    ensures r.Brace? ==> i <= r.at < |s|
    decreases |s| - i
  {
    if i == |s| then NoBody
    else if s[i] == '(' then SignatureEnd(s, i + 1, parens + 1, brackets)
    else if s[i] == ')' then (if parens == 0 then Unbalanced else SignatureEnd(s, i + 1, parens - 1, brackets))
    else if s[i] == '[' then SignatureEnd(s, i + 1, parens, brackets + 1)
    else if s[i] == ']' then (if brackets == 0 then Unbalanced else SignatureEnd(s, i + 1, parens, brackets - 1))
    else if parens == 0 && brackets == 0 && s[i] == ';' then NoBody
    else if parens == 0 && brackets == 0 && s[i] == '{' then Brace(i)
    else SignatureEnd(s, i + 1, parens, brackets)
  }

  /** A delimiter outside every parenthesis and bracket, counting those open at `i`. */
  predicate Outer(s: string, i: nat, parens: int, brackets: int, k: nat) {
    && i <= k < |s| && (s[k] == ';' || s[k] == '{')
    && parens + Net(s, i, k, '(', ')') == 0 && brackets + Net(s, i, k, '[', ']') == 0
  }

  /** A parenthesis or bracket that closes none of those open. */
  predicate Torn(s: string, i: nat, parens: int, brackets: int, k: nat) {
    && i <= k < |s|
    && (parens + Net(s, i, k + 1, '(', ')') < 0 || brackets + Net(s, i, k + 1, '[', ']') < 0)
  }

  /** The first position that ends the signature, one way or the other. */
  ghost predicate Ends(s: string, i: nat, parens: int, brackets: int, k: nat) {
    && (Outer(s, i, parens, brackets, k) || Torn(s, i, parens, brackets, k))
    && forall j: nat :: j < k ==> !Outer(s, i, parens, brackets, j) && !Torn(s, i, parens, brackets, j)
  }

  ghost predicate Endless(s: string, i: nat, parens: int, brackets: int) {
    forall j: nat :: !Outer(s, i, parens, brackets, j) && !Torn(s, i, parens, brackets, j)
  }

  /** What a signature comes to, by its first outer delimiter or stray closer. */
  ghost predicate Decides(s: string, i: nat, parens: int, brackets: int, r: Signature) {
    match r
    case Brace(k) => Ends(s, i, parens, brackets, k) && Outer(s, i, parens, brackets, k) && s[k] == '{'
    case NoBody =>
      || Endless(s, i, parens, brackets)
      || exists k: nat :: Ends(s, i, parens, brackets, k) && Outer(s, i, parens, brackets, k) && s[k] == ';'
    case Unbalanced => exists k: nat :: Ends(s, i, parens, brackets, k) && Torn(s, i, parens, brackets, k)
  }

  /** The scan of a signature finds what its first outer delimiter or stray closer decides. */
  lemma {:induction false} SignatureEndIs(s: string, i: nat, parens: nat, brackets: nat)
    requires i <= |s|
    ensures Decides(s, i, parens, brackets, SignatureEnd(s, i, parens, brackets))
    decreases |s| - i
  {
    if i == |s| { NothingThere(s, i, parens, brackets); }
    else {
      var p, b := parens + Weight(s[i], '(', ')'), brackets + Weight(s[i], '[', ']');
      if p < 0 || b < 0 || (parens == 0 && brackets == 0 && (s[i] == ';' || s[i] == '{')) {
        DecidedHere(s, i, parens, brackets);
      } else {
        SignatureEndIs(s, i + 1, p, b);
        DecidedLater(s, i, parens, brackets, SignatureEnd(s, i + 1, p, b));
        hide Decides;
      }
    }
  }

  lemma NothingThere(s: string, i: nat, parens: nat, brackets: nat)
    requires i == |s|
    ensures Endless(s, i, parens, brackets)
  {
  }

  lemma DecidedHere(s: string, i: nat, parens: nat, brackets: nat)
    requires i < |s|
    requires var p, b := parens + Weight(s[i], '(', ')'), brackets + Weight(s[i], '[', ']');
      p < 0 || b < 0 || (parens == 0 && brackets == 0 && (s[i] == ';' || s[i] == '{'))
    ensures Decides(s, i, parens, brackets, SignatureEnd(s, i, parens, brackets))
  {
    HereOrLater(s, i, parens, brackets);
    assert forall j: nat :: j < i ==> !Outer(s, i, parens, brackets, j) && !Torn(s, i, parens, brackets, j);
    hide Outer;
    hide Torn;
    assert Ends(s, i, parens, brackets, i);
  }

  lemma DecidedLater(s: string, i: nat, parens: nat, brackets: nat, r: Signature)
    requires i < |s|
    requires var p, b := parens + Weight(s[i], '(', ')'), brackets + Weight(s[i], '[', ']');
      && p >= 0 && b >= 0 && !(parens == 0 && brackets == 0 && (s[i] == ';' || s[i] == '{'))
      && Decides(s, i + 1, p, b, r)
    ensures Decides(s, i, parens, brackets, r)
  {
    HereOrLater(s, i, parens, brackets);
    var p, b := parens + Weight(s[i], '(', ')'), brackets + Weight(s[i], '[', ']');
    hide Outer;
    hide Torn;
    hide Weight;
    assert forall k: nat :: Outer(s, i, parens, brackets, k) <==> Outer(s, i + 1, p, b, k);
    assert forall k: nat :: Torn(s, i, parens, brackets, k) <==> Torn(s, i + 1, p, b, k);
    forall k: nat | Ends(s, i + 1, p, b, k)
      ensures Ends(s, i, parens, brackets, k)
    {
      forall j: nat | j < k
        ensures !Outer(s, i, parens, brackets, j) && !Torn(s, i, parens, brackets, j)
      {
        assert !Outer(s, i + 1, p, b, j) && !Torn(s, i + 1, p, b, j);
      }
    }
    if Endless(s, i + 1, p, b) {
      forall j: nat
        ensures !Outer(s, i, parens, brackets, j) && !Torn(s, i, parens, brackets, j)
      {
        assert !Outer(s, i + 1, p, b, j) && !Torn(s, i + 1, p, b, j);
      }
    }
    hide Endless;
    hide Ends;
    match r
    case Brace(k) => assert Outer(s, i, parens, brackets, k);
    case NoBody =>
      if !Endless(s, i + 1, p, b) {
        var k: nat :| Ends(s, i + 1, p, b, k) && Outer(s, i + 1, p, b, k) && s[k] == ';';
        assert Ends(s, i, parens, brackets, k) && Outer(s, i, parens, brackets, k);
      }
    case Unbalanced =>
      var k: nat :| Ends(s, i + 1, p, b, k) && Torn(s, i + 1, p, b, k);
      assert Ends(s, i, parens, brackets, k) && Torn(s, i, parens, brackets, k);
  }

  /** Delimiters and stray closers from the next position on are those from here, and here stands at most one. */
  lemma HereOrLater(s: string, i: nat, parens: nat, brackets: nat)
    requires i < |s|
    ensures var p, b := parens + Weight(s[i], '(', ')'), brackets + Weight(s[i], '[', ']');
      && (forall k: nat :: k != i ==> (Outer(s, i, parens, brackets, k) <==> Outer(s, i + 1, p, b, k)))
      && (forall k: nat :: k != i ==> (Torn(s, i, parens, brackets, k) <==> Torn(s, i + 1, p, b, k)))
      && (Outer(s, i, parens, brackets, i) <==> parens == 0 && brackets == 0 && (s[i] == ';' || s[i] == '{'))
      && (Torn(s, i, parens, brackets, i) <==> p < 0 || b < 0)
      && !Outer(s, i + 1, p, b, i) && !Torn(s, i + 1, p, b, i)
  {
    assert Net(s, i + 1, i + 1, '(', ')') == 0 && Net(s, i + 1, i + 1, '[', ']') == 0;
  }

  method ScanSignature(s: string, start: nat) returns (r: Signature)
    requires start <= |s|
    ensures r == SignatureEnd(s, start, 0, 0)
  {
    var cursor, parens, brackets := start, 0, 0;
    while cursor < |s|
      invariant start <= cursor <= |s| && parens >= 0 && brackets >= 0
      invariant SignatureEnd(s, cursor, parens, brackets) == SignatureEnd(s, start, 0, 0)
      decreases |s| - cursor
    {
      var c := s[cursor];
      if c == '(' { parens := parens + 1; }
      else if c == ')' { parens := parens - 1; }
      else if c == '[' { brackets := brackets + 1; }
      else if c == ']' { brackets := brackets - 1; }
      else if parens == 0 && brackets == 0 {
        if c == ';' { return NoBody; }
        if c == '{' { return Brace(cursor); }
      }
      if parens < 0 || brackets < 0 { return Unbalanced; }
      cursor := cursor + 1;
    }
    return NoBody;
  }

  // ---------------------------------------------------------------- headers

  predicate Initial(c: char) { 'a' <= c <= 'z' || 'A' <= c <= 'Z' || c == '_' }

  predicate Word(c: char) { Initial(c) || '0' <= c <= '9' }

  /** White space within ASCII. */
  predicate Space(c: char) { c == ' ' || 9 as char <= c <= 13 as char || 28 as char <= c <= 31 as char }

  /** The characters of each class, by their codes. */
  lemma ClassesAre(c: char)
    ensures var n := c as int; Initial(c) <==> 65 <= n <= 90 || 97 <= n <= 122 || n == 95
    ensures var n := c as int; Word(c) <==> 48 <= n <= 57 || 65 <= n <= 90 || 97 <= n <= 122 || n == 95
    ensures Space(c) <==> c as int in {9, 10, 11, 12, 13, 28, 29, 30, 31, 32}
  {
  }

  function SpaceEnd(s: string, i: nat): (e: nat)
    requires i <= |s|
    ensures i <= e <= |s| && (e < |s| ==> !Space(s[e])) && forall k :: i <= k < e ==> Space(s[k])
    decreases |s| - i
  {
    if i == |s| || !Space(s[i]) then i else SpaceEnd(s, i + 1)
  }

  function WordEnd(s: string, i: nat): (e: nat)
    requires i <= |s|
    ensures i <= e <= |s| && (e < |s| ==> !Word(s[e])) && forall k :: i <= k < e ==> Word(s[k])
    decreases |s| - i
  {
    if i == |s| || !Word(s[i]) then i else WordEnd(s, i + 1)
  }

  /** The name of a function header at a position: a word `fn`, white space, and a name. */
  function HeaderAt(s: string, i: nat): (r: Option<(nat, nat)>)
    ensures r.Some? ==> i + 2 < r.value.0 < r.value.1 <= |s|
  {
    if At(s, i, 'f', 'n') && (i == 0 || !Word(s[i - 1])) then
      var a := SpaceEnd(s, i + 2);
      if i + 2 < a < |s| && Initial(s[a]) then Some((a, WordEnd(s, a))) else None
    else None
  }

  /** The word `fn`, white space, and a whole name from `a` to `e`. */
  predicate IsHeader(s: string, i: nat, a: nat, e: nat) {
    && i + 2 < a < e <= |s| && s[i..i + 2] == "fn" && (i == 0 || !Word(s[i - 1]))
    && (forall k :: i + 2 <= k < a ==> Space(s[k])) && Initial(s[a])
    && (forall k :: a <= k < e ==> Word(s[k])) && (e == |s| || !Word(s[e]))
  }

  /** A header is found exactly where one stands, with its whole name. */
  lemma HeaderIs(s: string, i: nat, a: nat, e: nat)
    ensures HeaderAt(s, i) == Some((a, e)) <==> IsHeader(s, i, a, e)
  {
    StandsAt(s, i, "fn");
    if IsHeader(s, i, a, e) {
      assert Stands(s, i, "fn");
      assert SpaceEnd(s, i + 2) == a && WordEnd(s, a) == e;
    }
  }

  // ---------------------------------------------------------------- all bodies

  datatype Body = Body(name: string, text: string)

  /** What one header yields: a body, nothing, or a refusal. */
  function BodyOf(s: string, header: (nat, nat)): Option<seq<Body>>
    requires header.0 <= header.1 <= |s|
  {
    match SignatureEnd(s, header.1, 0, 0)
    case Unbalanced => None
    case NoBody => Some([])
    case Brace(b) =>
      match BodyEnd(s, b + 1, 1)
      case None => None
      case Some(e) =>
        BodyIsBalanced(s, b + 1);
        Some([Body(s[header.0..header.1], s[b + 1..e - 1])])
  }

  /** The headers a search from `i` finds, each after the end of the one before. */
  function Headers(s: string, i: nat): (hs: seq<(nat, nat)>)
    ensures Within(s, hs)
    decreases |s| - i
  {
    if i >= |s| then [] else
      match HeaderAt(s, i)
      case None => Headers(s, i + 1)
      case Some(h) => [h] + Headers(s, h.1)
  }

  /** No header stands from `i` to before `j`. */
  ghost predicate NoHeader(s: string, i: nat, j: nat) {
    forall k: nat, a: nat, e: nat :: i <= k < j ==> !IsHeader(s, k, a, e)
  }

  /** These are the headers from `i` on: the first that stands there, and those after its name. */
  ghost predicate Finds(s: string, i: nat, hs: seq<(nat, nat)>)
    decreases |hs|
  {
    if hs == [] then NoHeader(s, i, |s|) else
      && Finds(s, hs[0].1, hs[1..])
      && exists j: nat :: i <= j < |s| && NoHeader(s, i, j) && IsHeader(s, j, hs[0].0, hs[0].1)
  }

  /** The search finds exactly those. */
  lemma {:induction false} HeadersAre(s: string, i: nat)
    ensures Finds(s, i, Headers(s, i))
    decreases |s| - i
  {
    hide IsHeader;
    if i < |s| {
      var hs := Headers(s, i);
      match HeaderAt(s, i)
      case None =>
        HeadersAre(s, i + 1);
        forall a: nat, e: nat
          ensures !IsHeader(s, i, a, e)
        {
          HeaderIs(s, i, a, e);
        }
        if hs != [] {
          var j: nat :| i + 1 <= j < |s| && NoHeader(s, i + 1, j) && IsHeader(s, j, hs[0].0, hs[0].1);
          assert NoHeader(s, i, j);
        }
      case Some(h) =>
        HeaderIs(s, i, h.0, h.1);
        HeadersAre(s, h.1);
        assert hs[0] == h && hs[1..] == Headers(s, h.1);
        assert NoHeader(s, i, i);
    }
  }

  /** The bodies of a list of headers up to the first refusal, and whether there was none. */
  function Yields(s: string, hs: seq<(nat, nat)>): (seq<Body>, bool)
    requires Within(s, hs)
  {
    if hs == [] then ([], true) else
      match BodyOf(s, hs[0])
      case None => ([], false)
      case Some(bodies) =>
        var rest := Yields(s, hs[1..]);
        (bodies + rest.0, rest.1)
  }

  /** A body opens at `b`, the first outer delimiter, and the brace before `e` closes it. */
  ghost predicate Spans(s: string, from: nat, b: nat, e: nat) {
    Ends(s, from, 0, 0, b) && Outer(s, from, 0, 0, b) && s[b] == '{' && IsClosing(s, b + 1, e)
  }

  /** The body of a header, by what it is. */
  ghost predicate IsBodyOf(s: string, header: (nat, nat), body: Body) {
    && header.0 <= header.1 <= |s| && body.name == s[header.0..header.1]
    && exists b: nat, e: nat :: Spans(s, header.1, b, e) && body.text == s[b + 1..e - 1]
  }

  /** The brace before `e` is the first that closes the one before `i`. */
  predicate IsClosing(s: string, i: nat, e: nat) {
    && i < e <= |s| && s[e - 1] == '}' && 1 + Net(s, i, e, '{', '}') == 0
    && forall p :: i <= p < e ==> 1 + Net(s, i, p, '{', '}') > 0
  }

  /** Why a header is refused: a stray closer in its signature, or a body that never closes. */
  ghost predicate Broken(s: string, from: nat) {
    || (exists k: nat :: Ends(s, from, 0, 0, k) && Torn(s, from, 0, 0, k))
    || (exists b: nat :: Ends(s, from, 0, 0, b) && Outer(s, from, 0, 0, b) && s[b] == '{' && NeverCloses(s, b + 1))
  }

  predicate NeverCloses(s: string, i: nat) { i <= |s| && forall p :: i <= p <= |s| ==> 1 + Net(s, i, p, '{', '}') > 0 }

  /** What a header yields: its balanced body, nothing where it has none, and a refusal only for a reason. */
  lemma BodyOfIs(s: string, header: (nat, nat))
    requires header.0 <= header.1 <= |s|
    ensures match BodyOf(s, header)
      case None => Broken(s, header.1)
      case Some(bodies) =>
        if bodies == [] then Decides(s, header.1, 0, 0, NoBody)
        else |bodies| == 1 && IsBodyOf(s, header, bodies[0]) && Balanced(bodies[0].text)
  {
    SignatureEndIs(s, header.1, 0, 0);
    hide Ends;
    hide Outer;
    hide Torn;
    match SignatureEnd(s, header.1, 0, 0)
    case Unbalanced =>
    case NoBody =>
    case Brace(b) =>
      BodyEndIs(s, b + 1, 1);
      if BodyEnd(s, b + 1, 1).Some? {
        BodyIsBalanced(s, b + 1);
        assert Spans(s, header.1, b, BodyEnd(s, b + 1, 1).value);
      } else {
        assert NeverCloses(s, b + 1);
      }
  }

  /** The list of headers lies in the text. */
  predicate Within(s: string, hs: seq<(nat, nat)>) { forall k :: 0 <= k < |hs| ==> hs[k].0 <= hs[k].1 <= |s| }

  ghost predicate FromSome(s: string, hs: seq<(nat, nat)>, body: Body) {
    Balanced(body.text) && exists j :: 0 <= j < |hs| && IsBodyOf(s, hs[j], body)
  }

  /** The header has no body, or its body is among these. */
  ghost predicate Served(s: string, h: (nat, nat), bodies: seq<Body>) {
    Decides(s, h.1, 0, 0, NoBody) || exists k :: 0 <= k < |bodies| && IsBodyOf(s, h, bodies[k])
  }

  /**
   Every yielded body is a header's, and balanced.  Without a refusal every header has yielded its body
   or has none; a refusal is at a header that is broken.
   */
  lemma {:induction false} YieldsAre(s: string, hs: seq<(nat, nat)>)
    requires Within(s, hs)
    ensures var (bodies, ok) := Yields(s, hs);
      && (forall k :: 0 <= k < |bodies| ==> FromSome(s, hs, bodies[k]))
      && (ok ==> forall j :: 0 <= j < |hs| ==> Served(s, hs[j], bodies))
      && (!ok ==> exists j :: 0 <= j < |hs| && Broken(s, hs[j].1))
  {
    hide IsBodyOf;
    hide Broken;
    hide Decides;
    hide Balanced;
    if hs != [] {
      BodyOfIs(s, hs[0]);
      hide BodyOf;
      var rest := hs[1..];
      YieldsAre(s, rest);
      if BodyOf(s, hs[0]).Some? {
        var (later, ok) := Yields(s, rest);
        var first, bodies := BodyOf(s, hs[0]).value, Yields(s, hs).0;
        forall k | 0 <= k < |bodies|
          ensures FromSome(s, hs, bodies[k])
        {
          if k >= |first| {
            assert FromSome(s, rest, later[k - |first|]);
            var j :| 0 <= j < |rest| && IsBodyOf(s, rest[j], later[k - |first|]);
            assert hs[j + 1] == rest[j];
          }
        }
        if ok {
          forall j | 0 <= j < |hs|
            ensures Served(s, hs[j], bodies)
          {
            if j > 0 {
              assert Served(s, rest[j - 1], later) && rest[j - 1] == hs[j];
              ServedMore(s, hs[j], first, later);
            } else {
              assert first != [] ==> IsBodyOf(s, hs[0], bodies[0]);
            }
          }
        } else {
          var j :| 0 <= j < |rest| && Broken(s, rest[j].1);
          assert hs[j + 1] == rest[j];
        }
      }
    }
  }

  lemma ServedMore(s: string, h: (nat, nat), first: seq<Body>, later: seq<Body>)
    ensures Served(s, h, later) ==> Served(s, h, first + later)
  {
    if Served(s, h, later) && !Decides(s, h.1, 0, 0, NoBody) {
      var k :| 0 <= k < |later| && IsBodyOf(s, h, later[k]);
      assert (first + later)[|first| + k] == later[k];
    }
  }

  /** Bodies come in the order of their headers, and none after a refusal. */
  lemma {:induction false} YieldsInOrder(s: string, hs: seq<(nat, nat)>, later: seq<(nat, nat)>)
    requires Within(s, hs) && Within(s, later)
    ensures Within(s, hs + later)
    ensures var (bodies, ok) := Yields(s, hs);
      Yields(s, hs + later) == if ok then (bodies + Yields(s, later).0, Yields(s, later).1) else (bodies, false)
  {
    hide BodyOf;
    if hs == [] {
      assert hs + later == later;
      assert [] + Yields(s, later).0 == Yields(s, later).0;
    } else {
      assert (hs + later)[1..] == hs[1..] + later && (hs + later)[0] == hs[0];
      YieldsInOrder(s, hs[1..], later);
      if BodyOf(s, hs[0]).Some? {
        var first, rest := BodyOf(s, hs[0]).value, Yields(s, hs[1..]).0;
        assert first + (rest + Yields(s, later).0) == first + rest + Yields(s, later).0;
      }
    }
  }

  lemma SliceIsClean(t: string, a: nat, b: nat)
    requires Clean(t) && a <= b <= |t|
    ensures Clean(t[a..b])
  {
    CleanMeans(t);
    hide Clean;
    var u := t[a..b];
    forall k | 0 <= k < |u|
      ensures Quiet(u, k)
    {
      assert Quiet(t, a + k);
    }
    CleanMeans(u);
  }

  /** Every body of a source text is balanced code: no string, comment or character literal hides a brace in it. */
  lemma BodiesAreCode(source: string)
    requires Mask(source, 0).Some?
    ensures var code := Mask(source, 0).value;
      var bodies := Yields(code, Headers(code, 0)).0;
      forall k :: 0 <= k < |bodies| ==> Balanced(bodies[k].text) && Clean(bodies[k].text)
  {
    hide Yields;
    hide Headers;
    hide Clean;
    hide Balanced;
    hide FromSome;
    hide Mask;
    hide Served;
    hide Broken;
    MaskIsClean(source);
    var code := Mask(source, 0).value;
    var hs := Headers(code, 0);
    YieldsAre(code, hs);
    var bodies := Yields(code, hs).0;
    forall k | 0 <= k < |bodies|
      ensures Balanced(bodies[k].text) && Clean(bodies[k].text)
    {
      FromSomeIsCode(code, hs, bodies[k]);
    }
  }

  lemma FromSomeIsCode(s: string, hs: seq<(nat, nat)>, body: Body)
    requires Clean(s) && FromSome(s, hs, body)
    ensures Balanced(body.text) && Clean(body.text)
  {
    hide Clean;
    hide Balanced;
    hide IsBodyOf;
    var j :| 0 <= j < |hs| && IsBodyOf(s, hs[j], body);
    BodyIsCode(s, hs[j], body);
  }

  lemma BodyIsCode(s: string, h: (nat, nat), body: Body)
    requires Clean(s) && IsBodyOf(s, h, body)
    ensures Clean(body.text)
  {
    hide Clean;
    hide Ends;
    hide Outer;
    hide Net;
    var b: nat, e: nat :| Spans(s, h.1, b, e) && body.text == s[b + 1..e - 1];
    SliceIsClean(s, b + 1, e - 1);
  }

  /** The generator over a source text: masked first, then searched header by header. */
  method Bodies(source: string) returns (r: Option<(seq<Body>, bool)>)
    ensures r.None? <==> Mask(source, 0).None?
    ensures r.Some? ==> var code := Mask(source, 0).value; r.value == Yields(code, Headers(code, 0))
  {
    var masked := Masked(source);
    if masked.None? { return None; }
    var found, ok := Search(masked.value);
    return Some((found, ok));
  }

  /** The search: each header is followed, and the next is sought after its name. */
  method Search(code: string) returns (found: seq<Body>, ok: bool)
    ensures (found, ok) == Yields(code, Headers(code, 0))
  {
    hide BodyOf;
    hide Yields;
    hide Headers;
    hide HeaderAt;
    hide Join;
    var i := 0;
    found := [];
    JoinNone(Yields(code, Headers(code, 0)));
    while i < |code|
      invariant 0 <= i <= |code|
      invariant Yields(code, Headers(code, 0)) == Join(found, Yields(code, Headers(code, i)))
      decreases |code| - i
    {
      HeadersStep(code, i, found);
      var header := HeaderAt(code, i);
      if header.None? {
        i := i + 1;
      } else {
        var bodies := Follow(code, header.value);
        if bodies.None? { return found, false; }
        found, i := found + bodies.value, header.value.1;
      }
    }
    HeadersEnd(code, found);
    return found, true;
  }

  /** What was found before, and what a search yields. */
  function Join(found: seq<Body>, y: (seq<Body>, bool)): (seq<Body>, bool) { (found + y.0, y.1) }

  lemma JoinNone(y: (seq<Body>, bool))
    ensures Join([], y) == y
  {
    assert [] + y.0 == y.0;
  }

  lemma HeadersEnd(s: string, found: seq<Body>)
    ensures Join(found, Yields(s, Headers(s, |s|))) == (found, true)
  {
    assert found + [] == found;
  }

  /** One position of the search. */
  lemma HeadersStep(s: string, i: nat, found: seq<Body>)
    requires i < |s|
    ensures Join(found, Yields(s, Headers(s, i))) ==
      match HeaderAt(s, i)
      case None => Join(found, Yields(s, Headers(s, i + 1)))
      case Some(h) =>
        match BodyOf(s, h)
        case None => (found, false)
        case Some(bodies) => Join(found + bodies, Yields(s, Headers(s, h.1)))
  {
    hide BodyOf;
    match HeaderAt(s, i)
    case None =>
    case Some(h) =>
      assert Headers(s, i)[1..] == Headers(s, h.1);
      match BodyOf(s, h)
      case None => assert found + [] == found;
      case Some(bodies) =>
        var later := Yields(s, Headers(s, h.1)).0;
        assert found + (bodies + later) == found + bodies + later;
  }

  method Follow(s: string, header: (nat, nat)) returns (r: Option<seq<Body>>)
    requires header.0 <= header.1 <= |s|
    ensures r == BodyOf(s, header)
  {
    var signature := ScanSignature(s, header.1);
    match signature {
      case Unbalanced => return None;
      case NoBody => return Some([]);
      case Brace(b) =>
        var end := ScanBody(s, b + 1);
        if end.None? { return None; }
        BodyIsBalanced(s, b + 1);
        return Some([Body(s[header.0..header.1], s[b + 1..end.value - 1])]);
    }
  }
}
