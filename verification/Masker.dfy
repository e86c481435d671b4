/**
 The source masker: comments, strings, raw strings and character literals are overwritten with
 spaces in place, keeping every offset and every newline, so that later text searches see only code.
 */
module Masker {
  import opened Patterns

  // ---------------------------------------------------------------- lexemes

  predicate At(s: string, i: nat, a: char, b: char) { i + 1 < |s| && s[i] == a && s[i + 1] == b }

  /** The first newline from `i` on, or the end. */
  function LineEnd(s: string, i: nat): (e: nat)
    requires i <= |s|
    ensures i <= e <= |s| && (e < |s| ==> s[e] == '\n')
    ensures forall k :: i <= k < e ==> s[k] != '\n'
    decreases |s| - i
  {
    if i == |s| || s[i] == '\n' then i else LineEnd(s, i + 1)
  }

  /** The position after the comment that `depth` openers are waiting to close. */
  function BlockEnd(s: string, i: nat, depth: nat): (e: Option<nat>)
    requires i <= |s|
    ensures e.Some? ==> i <= e.value <= |s|
    decreases |s| - i
  {
    if depth == 0 then Some(i)
    else if i == |s| then None
    else if At(s, i, '/', '*') then BlockEnd(s, i + 2, depth + 1)
    else if At(s, i, '*', '/') then BlockEnd(s, i + 2, depth - 1)
    else BlockEnd(s, i + 1, depth)
  }

  /** The position after the closing quote; a backslash hides the next character. */
  function StringEnd(s: string, i: nat): (e: Option<nat>)
    ensures e.Some? ==> i < e.value <= |s|
    decreases |s| - i
  {
    if i >= |s| then None
    else if s[i] == '\\' then StringEnd(s, i + 2)
    else if s[i] == '\"' then Some(i + 1)
    else StringEnd(s, i + 1)
  }

  /** How many number signs stand at `i`. */
  function Hashes(s: string, i: nat): (h: nat)
    ensures h == 0 || i + h <= |s|
    decreases |s| - i
  {
    if i < |s| && s[i] == '#' then 1 + Hashes(s, i + 1) else 0
  }

  predicate RawOpens(s: string, i: nat) {
    i < |s| && s[i] == 'r' && var q := i + 1 + Hashes(s, i + 1); q < |s| && s[q] == '\"'
  }

  /** A quote followed by at least `h` number signs. */
  predicate RawCloses(s: string, i: nat, h: nat) {
    i + h < |s| && s[i] == '\"' && forall k :: i < k <= i + h ==> s[k] == '#'
  }

  /** The position after the first closing quote and its number signs. */
  function RawEnd(s: string, i: nat, h: nat): (e: Option<nat>)
    ensures e.Some? ==> i + h < e.value <= |s| && RawCloses(s, e.value - 1 - h, h)
    ensures e.Some? ==> forall k: nat :: i <= k < e.value - 1 - h ==> !RawCloses(s, k, h)
    ensures e.None? ==> forall k: nat :: i <= k < |s| ==> !RawCloses(s, k, h)
    decreases |s| - i
  {
    if i >= |s| then None else if RawCloses(s, i, h) then Some(i + 1 + h) else RawEnd(s, i + 1, h)
  }

  predicate EscapedChar(s: string, i: nat) {
    i + 3 < |s| && s[i] == '\'' && s[i + 1] == '\\' && s[i + 2] != '\n' && s[i + 3] == '\''
  }

  predicate PlainChar(s: string, i: nat) {
    i + 2 < |s| && s[i] == '\'' && s[i + 1] != '\'' && s[i + 1] != '\\' && s[i + 1] != '\n' && s[i + 2] == '\''
  }

  /** What stands at a position: code, a whole lexeme to blank, or one that never closes. */
  datatype Lexeme = Code | Token(end: nat) | Unclosed

  function Closing(e: Option<nat>): Lexeme { if e.Some? then Token(e.value) else Unclosed }

  function Lex(s: string, i: nat): (r: Lexeme)
    requires i < |s|
    ensures r.Token? ==> i + 2 <= r.end <= |s|
  {
    if At(s, i, '/', '/') then Token(LineEnd(s, i + 2))
    else if At(s, i, '/', '*') then Closing(BlockEnd(s, i + 2, 1))
    else if s[i] == '\"' then Closing(StringEnd(s, i + 1))
    else if RawOpens(s, i) then Closing(RawEnd(s, i + 2 + Hashes(s, i + 1), Hashes(s, i + 1)))
    else if EscapedChar(s, i) then Token(i + 4)
    else if PlainChar(s, i) then Token(i + 3)
    else Code
  }

  function Blanked(c: char): char { if c == '\n' then c else ' ' }

  function Blank(t: string): (r: string)
    ensures |r| == |t| && forall k :: 0 <= k < |t| ==> r[k] == Blanked(t[k])
  {
    seq(|t|, k requires 0 <= k < |t| => Blanked(t[k]))
  }

  /** The text from `i` on with every lexeme blanked, or nothing if one never closes. */
  function Mask(s: string, i: nat): (r: Option<string>)
    requires i <= |s|
    ensures r.Some? ==> |r.value| == |s| - i
    decreases |s| - i
  {
    if i == |s| then Some("") else
      match Lex(s, i)
      case Code => (match Mask(s, i + 1) case None => None case Some(t) => Some([s[i]] + t))
      case Token(e) => (match Mask(s, e) case None => None case Some(t) => Some(Blank(s[i..e]) + t))
      case Unclosed => None
  }

  // ---------------------------------------------------------------- what the scans find

  /** The two characters stand at the position. */
  predicate Stands(s: string, i: nat, t: string)
    requires |t| == 2
  {
    i + 2 <= |s| && s[i..i + 2] == t
  }

  lemma StandsAt(s: string, i: nat, t: string)
    requires |t| == 2
    ensures Stands(s, i, t) <==> At(s, i, t[0], t[1])
  {
    if At(s, i, t[0], t[1]) { assert s[i..i + 2] == [t[0], t[1]] == t; }
    if Stands(s, i, t) { assert s[i] == s[i..i + 2][0] && s[i + 1] == s[i..i + 2][1]; }
  }

  /** How a comment is read: an opener or a closer is one step of two characters, anything else of one. */
  function After(s: string, i: nat): nat {
    if Stands(s, i, "/*") || Stands(s, i, "*/") then i + 2 else i + 1
  }

  /** What one step adds to the depth. */
  function Mark(s: string, i: nat): int {
    if Stands(s, i, "/*") then 1 else if Stands(s, i, "*/") then -1 else 0
  }

  /** Reading from `i` step by step comes to `e`. */
  predicate Reaches(s: string, i: nat, e: nat)
    decreases |s| - i
  {
    i == e || (i < e && i < |s| && Reaches(s, After(s, i), e))
  }

  /** Openers less closers on the way. */
  function Balance(s: string, i: nat, e: nat): int
    requires Reaches(s, i, e)
    decreases |s| - i
  {
    if i == e then 0 else Mark(s, i) + Balance(s, After(s, i), e)
  }

  /** At a position on the way every opener so far is closed, counting `depth` open at the start. */
  predicate Closed(s: string, i: nat, depth: nat, e: nat) { Reaches(s, i, e) && depth + Balance(s, i, e) <= 0 }

  /** The scan of a comment finds the first position at which openers and closers balance, if there is one. */
  lemma {:induction false} BlockEndIs(s: string, i: nat, depth: nat)
    requires i <= |s|
    ensures match BlockEnd(s, i, depth)
      case Some(e) =>
        && Closed(s, i, depth, e) && depth + Balance(s, i, e) == 0
        && forall p: nat :: p < e ==> !Closed(s, i, depth, p)
      case None => forall p: nat :: !Closed(s, i, depth, p)
    decreases |s| - i
  {
    if depth > 0 && i < |s| {
      StandsAt(s, i, "/*");
      StandsAt(s, i, "*/");
      hide Stands;
      var j, d := After(s, i), depth + Mark(s, i);
      BlockEndIs(s, j, d);
      forall p: nat
        ensures Closed(s, i, depth, p) <==> i < p && Closed(s, j, d, p)
      {
        ReachesForward(s, j, p);
      }
    }
  }

  lemma {:induction false} ReachesForward(s: string, i: nat, e: nat)
    ensures Reaches(s, i, e) ==> i <= e
  {
  }

  /** How many backslashes stand together just before `k`, looking back to `i`. */
  function Slashes(s: string, i: nat, k: nat): nat
    requires i <= k <= |s|
    decreases k
  {
    if k > i && s[k - 1] == '\\' then 1 + Slashes(s, i, k - 1) else 0
  }

  /** A quote that no backslash hides. */
  predicate Quote(s: string, i: nat, k: nat) { i <= k < |s| && s[k] == '\"' && Slashes(s, i, k) % 2 == 0 }

  /** Reading on past a character, or past a hidden one, hides and shows the same quotes. */
  lemma {:induction false} QuoteOn(s: string, i: nat, k: nat)
    requires i < |s|
    ensures s[i] == '\\' ==> (Quote(s, i, k) <==> Quote(s, i + 2, k))
    ensures s[i] != '\\' ==> (Quote(s, i, k) <==> Quote(s, i + 1, k) || (k == i && s[i] == '\"'))
  {
    assert s[i] == '\\' ==> Slashes(s, i, i + 1) == 1 + Slashes(s, i, i);
    if i + 2 <= k < |s| && s[i] == '\\' { SlashesOn(s, i, k); }
    if i + 1 <= k < |s| { SlashesNext(s, i, k); }
  }

  lemma {:induction false} SlashesOn(s: string, i: nat, k: nat)
    requires i + 2 <= k <= |s| && s[i] == '\\'
    ensures Slashes(s, i, k) == Slashes(s, i + 2, k) || Slashes(s, i, k) == Slashes(s, i + 2, k) + 2
    decreases k
  {
    assert Slashes(s, i, i + 1) == 1 + Slashes(s, i, i);
    if k > i + 2 { SlashesOn(s, i, k - 1); }
  }

  lemma {:induction false} SlashesNext(s: string, i: nat, k: nat)
    requires i + 1 <= k <= |s|
    ensures s[i] != '\\' ==> Slashes(s, i, k) == Slashes(s, i + 1, k)
    decreases k
  {
    if k > i + 1 { SlashesNext(s, i, k - 1); }
  }

  /** The scan of a string finds the first quote that no backslash hides, if there is one. */
  lemma {:induction false} StringEndIs(s: string, i: nat)
    ensures match StringEnd(s, i)
      case Some(e) => e >= 1 && Quote(s, i, e - 1) && forall k: nat :: k < e - 1 ==> !Quote(s, i, k)
      case None => forall k: nat :: !Quote(s, i, k)
    decreases |s| - i
  {
    if i < |s| {
      forall k: nat
        ensures s[i] == '\\' ==> (Quote(s, i, k) <==> Quote(s, i + 2, k))
        ensures s[i] != '\\' ==> (Quote(s, i, k) <==> Quote(s, i + 1, k) || (k == i && s[i] == '\"'))
      {
        QuoteOn(s, i, k);
      }
      if s[i] == '\\' { StringEndIs(s, i + 2); }
      else if s[i] != '\"' { StringEndIs(s, i + 1); }
      else { assert Quote(s, i, i); }
    }
  }

  // ---------------------------------------------------------------- lexemes, by what they are

  /** A line comment, to the end of its line. */
  predicate IsLineComment(s: string, i: nat, e: nat) {
    && Stands(s, i, "//") && i + 2 <= e <= |s|
    && (e == |s| || s[e] == '\n') && forall k :: i <= k < e ==> s[k] != '\n'
  }

  ghost predicate FirstClosed(s: string, i: nat, e: nat) {
    Closed(s, i, 1, e) && forall p: nat :: p < e ==> !Closed(s, i, 1, p)
  }

  ghost predicate FirstQuote(s: string, i: nat, q: nat) {
    Quote(s, i, q) && forall k: nat :: k < q ==> !Quote(s, i, k)
  }

  /** A block comment, to the first position where its openers and closers balance. */
  ghost predicate IsBlockComment(s: string, i: nat, e: nat) {
    Stands(s, i, "/*") && FirstClosed(s, i + 2, e)
  }

  /** A string, through its first quote that no backslash hides. */
  ghost predicate IsString(s: string, i: nat, e: nat) {
    i < |s| && s[i] == '\"' && e >= 1 && FirstQuote(s, i + 1, e - 1)
  }

  /** `r`, then `h` number signs, then a quote. */
  predicate RawStarts(s: string, i: nat, h: nat) {
    i + 1 + h < |s| && s[i] == 'r' && s[i + 1 + h] == '\"' && forall k :: i < k <= i + h ==> s[k] == '#'
  }

  /** A raw string, through the first quote followed by as many number signs as opened it. */
  ghost predicate IsRawString(s: string, i: nat, h: nat, e: nat) {
    && RawStarts(s, i, h) && e >= i + 3 + 2 * h && RawCloses(s, e - 1 - h, h)
    && forall k: nat :: i + 2 + h <= k < e - 1 - h ==> !RawCloses(s, k, h)
  }

  /** A character literal: one character, or an escaped one, between single quotes. */
  predicate IsCharacter(s: string, i: nat, e: nat) {
    && i + 2 < e <= |s| && s[i] == '\'' && s[e - 1] == '\''
    && (|| (e == i + 3 && s[i + 1] != '\'' && s[i + 1] != '\\' && s[i + 1] != '\n')
        || (e == i + 4 && s[i + 1] == '\\' && s[i + 2] != '\n'))
  }

  /** A comment, string or character literal extends from `i` to `e`. */
  ghost predicate IsLexeme(s: string, i: nat, e: nat) {
    || IsLineComment(s, i, e) || IsBlockComment(s, i, e) || IsString(s, i, e)
    || (exists h: nat :: IsRawString(s, i, h, e)) || IsCharacter(s, i, e)
  }

  /** One of them starts at `i`, whether or not it ends. */
  ghost predicate Starts(s: string, i: nat) {
    || Stands(s, i, "//") || Stands(s, i, "/*") || (i < |s| && s[i] == '\"')
    || (exists h: nat :: RawStarts(s, i, h)) || (exists e: nat :: IsCharacter(s, i, e))
  }

  lemma {:induction false} HashesAre(s: string, i: nat)
    requires i <= |s|
    ensures var h := Hashes(s, i);
      i + h <= |s| && (i + h < |s| ==> s[i + h] != '#') && forall k :: i <= k < i + h ==> s[k] == '#'
    decreases |s| - i
  {
    if i < |s| && s[i] == '#' { HashesAre(s, i + 1); }
  }

  lemma RawStartsIs(s: string, i: nat, h: nat)
    requires i < |s|
    ensures RawStarts(s, i, h) <==> RawOpens(s, i) && h == Hashes(s, i + 1)
  {
    if s[i] == 'r' {
      HashesAre(s, i + 1);
      var n := Hashes(s, i + 1);
      if RawStarts(s, i, h) && n <= h { assert s[i + 1 + n] == s[i + 1..][n]; }
    }
  }

  lemma LineIs(s: string, i: nat, e: nat)
    requires i < |s| && At(s, i, '/', '/')
    ensures LineEnd(s, i + 2) == e <==> IsLineComment(s, i, e)
  {
    StandsAt(s, i, "//");
    hide Stands;
    var f := LineEnd(s, i + 2);
    if IsLineComment(s, i, e) && f <= e < |s| { assert s[f] == '\n'; }
  }

  lemma BlockIs(s: string, i: nat, e: nat)
    requires i < |s| && At(s, i, '/', '*')
    ensures BlockEnd(s, i + 2, 1) == Some(e) <==> IsBlockComment(s, i, e)
  {
    StandsAt(s, i, "/*");
    BlockEndIs(s, i + 2, 1);
    hide Stands;
    hide BlockEnd;
    hide Closed;
  }

  lemma StringIs(s: string, i: nat, e: nat)
    requires i < |s| && s[i] == '\"'
    ensures StringEnd(s, i + 1) == Some(e) <==> IsString(s, i, e)
  {
    StringEndIs(s, i + 1);
    hide StringEnd;
    hide Quote;
  }

  lemma RawIs(s: string, i: nat, e: nat)
    requires i < |s| && RawOpens(s, i)
    ensures var h := Hashes(s, i + 1);
      RawEnd(s, i + 2 + h, h) == Some(e) <==> IsRawString(s, i, h, e)
  {
    var h := Hashes(s, i + 1);
    RawStartsIs(s, i, h);
    var r := RawEnd(s, i + 2 + h, h);
    hide RawOpens;
    hide RawStarts;
    hide Hashes;
    hide RawEnd;
    if IsRawString(s, i, h, e) {
      var k: nat := e - 1 - h;
      assert i + 2 + h <= k < |s| && RawCloses(s, k, h) by { assert k + h < |s|; }
    }
  }

  /** What the scanner finds at a position is the lexeme that extends from there. */
  lemma LexemeIs(s: string, i: nat, e: nat)
    requires i < |s|
    ensures Lex(s, i) == Token(e) <==> IsLexeme(s, i, e)
  {
    StandsAt(s, i, "//");
    StandsAt(s, i, "/*");
    hide Stands;
    hide Closed;
    hide Quote;
    hide LineEnd;
    hide BlockEnd;
    hide StringEnd;
    hide RawEnd;
    hide RawCloses;
    if At(s, i, '/', '/') { LineIs(s, i, e); }
    else if At(s, i, '/', '*') { BlockIs(s, i, e); }
    else if s[i] == '\"' { StringIs(s, i, e); }
    else if RawOpens(s, i) {
      RawIs(s, i, e);
      forall h: nat | IsRawString(s, i, h, e)
        ensures h == Hashes(s, i + 1)
      {
        RawStartsIs(s, i, h);
      }
    } else {
      forall h: nat
        ensures !IsRawString(s, i, h, e)
      {
        RawStartsIs(s, i, h);
      }
    }
  }

  /** It finds code exactly where nothing starts. */
  lemma StartsIs(s: string, i: nat)
    requires i < |s|
    ensures Lex(s, i).Code? <==> !Starts(s, i)
  {
    StandsAt(s, i, "//");
    StandsAt(s, i, "/*");
    hide Stands;
    hide LineEnd;
    hide BlockEnd;
    hide StringEnd;
    hide RawEnd;
    RawStartsIs(s, i, Hashes(s, i + 1));
    forall h: nat | RawStarts(s, i, h)
      ensures RawOpens(s, i)
    {
      RawStartsIs(s, i, h);
    }
    hide RawStarts;
    hide RawOpens;
    assert EscapedChar(s, i) ==> IsCharacter(s, i, i + 4);
    assert PlainChar(s, i) ==> IsCharacter(s, i, i + 3);
  }

  /**
   How a text is read from `i` on: code is kept, and from a lexeme's start to its end every character
   but a line feed becomes a space.
   */
  ghost predicate Reads(s: string, i: nat, r: string)
    requires i <= |s|
    decreases |s| - i
  {
    if i == |s| then r == ""
    else if !Starts(s, i) then r != "" && r[0] == s[i] && Reads(s, i + 1, r[1..])
    else exists e: nat :: i < e <= |s| && IsLexeme(s, i, e) && SpacesFor(s, i, e, r) && Reads(s, e, r[e - i..])
  }

  predicate SpacesFor(s: string, i: nat, e: nat, r: string) {
    i <= e <= |s| && e - i <= |r| && forall k :: i <= k < e ==> r[k - i] == if s[k] == '\n' then '\n' else ' '
  }

  /** Reading comes to a lexeme that never ends. */
  ghost predicate Stuck(s: string, i: nat)
    requires i <= |s|
    decreases |s| - i
  {
    i < |s| &&
      if !Starts(s, i) then Stuck(s, i + 1)
      else (forall e: nat :: !IsLexeme(s, i, e)) || exists e: nat :: i < e <= |s| && IsLexeme(s, i, e) && Stuck(s, e)
  }

  /** Masking is exactly this reading: every lexeme is blanked to its own end and scanning resumes there. */
  lemma {:induction false} MaskIsReading(s: string, i: nat, r: string)
    requires i <= |s|
    ensures Mask(s, i) == Some(r) <==> Reads(s, i, r)
    decreases |s| - i
  {
    hide IsLexeme;
    hide Starts;
    hide Lex;
    if i < |s| {
      StartsIs(s, i);
      match Lex(s, i)
      case Code =>
        if r != "" {
          MaskIsReading(s, i + 1, r[1..]);
          assert [s[i]] + r[1..] == [s[i]] + r[1..];
          assert r[0] == s[i] ==> r == [s[i]] + r[1..];
        }
        MaskPiece(s, i);
      case Token(e) =>
        LexemeIs(s, i, e);
        if e - i <= |r| { MaskIsReading(s, e, r[e - i..]); }
        forall f: nat | IsLexeme(s, i, f)
          ensures f == e
        {
          LexemeIs(s, i, f);
        }
        MaskPiece(s, i);
        BlankThen(s, i, e, r);
      case Unclosed =>
        forall e: nat
          ensures !IsLexeme(s, i, e)
        {
          LexemeIs(s, i, e);
        }
    }
  }

  lemma BlankThen(s: string, i: nat, e: nat, r: string)
    requires i <= e <= |s|
    ensures SpacesFor(s, i, e, r) <==> e - i <= |r| && r == Blank(s[i..e]) + r[e - i..]
  {
    var b := Blank(s[i..e]);
    if SpacesFor(s, i, e, r) {
      assert r[..e - i] == b;
    }
    if e - i <= |r| && r == b + r[e - i..] {
      forall k | i <= k < e
        ensures r[k - i] == if s[k] == '\n' then '\n' else ' '
      {
        assert r[k - i] == b[k - i];
      }
    }
  }

  /** Masking refuses exactly the texts in which reading comes to a lexeme that never ends. */
  lemma {:induction false} MaskRefuses(s: string, i: nat)
    requires i <= |s|
    ensures Mask(s, i).None? <==> Stuck(s, i)
    decreases |s| - i
  {
    hide IsLexeme;
    hide Starts;
    hide Lex;
    if i < |s| {
      StartsIs(s, i);
      match Lex(s, i)
      case Code => MaskRefuses(s, i + 1);
      case Token(e) =>
        LexemeIs(s, i, e);
        MaskRefuses(s, e);
        forall f: nat | IsLexeme(s, i, f)
          ensures f == e
        {
          LexemeIs(s, i, f);
        }
      case Unclosed =>
        forall e: nat
          ensures !IsLexeme(s, i, e)
        {
          LexemeIs(s, i, e);
        }
    }
  }

  // ---------------------------------------------------------------- positions of code

  /** Position `k` is code when scanning from `i`. */
  predicate Solid(s: string, i: nat, k: nat)
    requires i <= k < |s|
    decreases |s| - i
  {
    match Lex(s, i)
    case Code => k == i || Solid(s, i + 1, k)
    case Token(e) => e <= k && Solid(s, e, k)
    case Unclosed => false
  }

  /** Code is kept and everything else is blanked, position by position. */
  lemma {:induction false} MaskAt(s: string, i: nat, k: nat)
    requires i <= k < |s| && Mask(s, i).Some?
    ensures Mask(s, i).value[k - i] == if Solid(s, i, k) then s[k] else Blanked(s[k])
    ensures Solid(s, i, k) ==> Lex(s, k).Code?
    decreases |s| - i
  {
    hide Lex;
    match Lex(s, i)
    case Code => if k > i { MaskAt(s, i + 1, k); }
    case Token(e) => if e <= k { MaskAt(s, e, k); }
    case Unclosed =>
  }

  /** After code, what is blanked is at least two long. */
  lemma {:induction false} BlankedTwice(s: string, i: nat, k: nat)
    requires i <= k && k + 2 < |s| && Mask(s, i).Some? && Solid(s, i, k) && !Solid(s, i, k + 1)
    ensures !Solid(s, i, k + 2)
    decreases |s| - i
  {
    hide Lex;
    match Lex(s, i)
    case Code => if k > i { BlankedTwice(s, i + 1, k); }
    case Token(e) => BlankedTwice(s, e, k);
    case Unclosed =>
  }

  // ---------------------------------------------------------------- what masking achieves

  /** No lexeme starts anywhere. */
  predicate Clean(t: string) { forall k :: 0 <= k < |t| ==> Lex(t, k).Code? }

  /** At `k` stands no double quote, comment opener or character literal. */
  predicate Quiet(t: string, k: nat)
    requires k < |t|
  {
    t[k] != '\"' && !At(t, k, '/', '/') && !At(t, k, '/', '*') && !EscapedChar(t, k) && !PlainChar(t, k)
  }

  lemma CodeIsQuiet(t: string, k: nat)
    requires k < |t|
    ensures Lex(t, k).Code? <==> Quiet(t, k) && !RawOpens(t, k)
  {
  }

  /** In plain words: no double quote, no comment opener, and no character literal. */
  lemma CleanMeans(t: string)
    ensures Clean(t) <==> forall k :: 0 <= k < |t| ==> Quiet(t, k)
  {
    hide Lex;
    if Clean(t) {
      forall k | 0 <= k < |t|
        ensures Quiet(t, k)
      {
        CodeIsQuiet(t, k);
      }
    }
    if forall k :: 0 <= k < |t| ==> Quiet(t, k) {
      forall k | 0 <= k < |t|
        ensures Lex(t, k).Code?
      {
        CodeIsQuiet(t, k);
        var q := k + 1 + Hashes(t, k + 1);
        assert q < |t| ==> Quiet(t, q);
      }
    }
  }

  /** Offsets and newlines are kept, and only spaces are written. */
  lemma MaskKeeps(s: string, k: nat)
    requires Mask(s, 0).Some? && k < |s|
    ensures var r := Mask(s, 0).value; |r| == |s| && (r[k] == s[k] || r[k] == ' ') && (r[k] == '\n' <==> s[k] == '\n')
  {
    MaskAt(s, 0, k);
  }

  /** Nothing is left for a second pass: no new lexeme can form across blanked text. */
  lemma MaskIsClean(s: string)
    requires Mask(s, 0).Some?
    ensures Clean(Mask(s, 0).value)
  {
    var r := Mask(s, 0).value;
    hide Mask;
    forall k | 0 <= k < |r|
      ensures Quiet(r, k)
    {
      CleanAt(s, k);
    }
    CleanMeans(r);
  }

  /**
   Where code stands, the same characters stood in the source; two characters on, at the latest, code resumes
   only after code.
   */
  lemma CleanAt(s: string, k: nat)
    requires Mask(s, 0).Some? && k < |s|
    ensures Quiet(Mask(s, 0).value, k)
  {
    hide Mask;
    hide Solid;
    hide Lex;
    MaskAt(s, 0, k);
    if Solid(s, 0, k) {
      CodeIsQuiet(s, k);
      hide RawOpens;
      if k + 1 < |s| { MaskAt(s, 0, k + 1); }
      if k + 2 < |s| { MaskAt(s, 0, k + 2); }
      if k + 3 < |s| { MaskAt(s, 0, k + 3); }
      if k + 2 < |s| && !Solid(s, 0, k + 1) { BlankedTwice(s, 0, k); }
      if k + 3 < |s| && Solid(s, 0, k + 1) && !Solid(s, 0, k + 2) { BlankedTwice(s, 0, k + 1); }
    }
  }

  lemma {:induction false} CleanIsFixed(s: string, i: nat)
    requires Clean(s) && i <= |s|
    ensures Mask(s, i) == Some(s[i..])
    decreases |s| - i
  {
    hide Lex;
    if i < |s| {
      CleanIsFixed(s, i + 1);
      assert s[i..] == [s[i]] + s[i + 1..];
    } else {
      assert s[i..] == "";
    }
  }

  /** Masking leaves a text alone exactly when no lexeme starts anywhere in it. */
  lemma FixedIffClean(s: string)
    ensures Mask(s, 0) == Some(s) <==> Clean(s)
  {
    if Mask(s, 0) == Some(s) { MaskIsClean(s); }
    if Clean(s) { CleanIsFixed(s, 0); }
  }

  /** Masking twice is masking once. */
  lemma MaskIsIdempotent(s: string)
    requires Mask(s, 0).Some?
    ensures Mask(Mask(s, 0).value, 0) == Mask(s, 0)
  {
    MaskIsClean(s);
    FixedIffClean(Mask(s, 0).value);
  }

  // ---------------------------------------------------------------- masking in parts

  /** The same text read with more behind it. */
  lemma {:induction false} LineEndThen(a: string, b: string, i: nat)
    requires i <= |a| && LineEnd(a, i) < |a|
    ensures LineEnd(a + b, i) == LineEnd(a, i)
    decreases |a| - i
  {
    if i < |a| && a[i] != '\n' { LineEndThen(a, b, i + 1); }
  }

  lemma {:induction false} BlockEndThen(a: string, b: string, i: nat, depth: nat)
    requires i <= |a| && BlockEnd(a, i, depth).Some? && Ends(a)
    ensures BlockEnd(a + b, i, depth) == BlockEnd(a, i, depth)
    decreases |a| - i
  {
    if depth > 0 && i < |a| {
      if At(a, i, '/', '*') { BlockEndThen(a, b, i + 2, depth + 1); }
      else if At(a, i, '*', '/') { BlockEndThen(a, b, i + 2, depth - 1); }
      else { BlockEndThen(a, b, i + 1, depth); }
    }
  }

  lemma {:induction false} StringEndThen(a: string, b: string, i: nat)
    requires StringEnd(a, i).Some?
    ensures StringEnd(a + b, i) == StringEnd(a, i)
    decreases |a| - i
  {
    if a[i] == '\\' { StringEndThen(a, b, i + 2); }
    else if a[i] != '\"' { StringEndThen(a, b, i + 1); }
  }

  /** The text ends its last line. */
  predicate Ends(a: string) { a != "" && a[|a| - 1] == '\n' }

  lemma {:induction false} HashesThen(a: string, b: string, i: nat)
    requires i < |a| && Ends(a)
    ensures Hashes(a + b, i) == Hashes(a, i) && i + Hashes(a, i) < |a|
    decreases |a| - i
  {
    if a[i] == '#' { HashesThen(a, b, i + 1); }
  }

  lemma {:induction false} RawEndThen(a: string, b: string, i: nat, h: nat)
    requires RawEnd(a, i, h).Some?
    ensures RawEnd(a + b, i, h) == RawEnd(a, i, h)
    decreases |a| - i
  {
    RawEndBounds(a, i, h);
    assert forall k :: i <= k <= i + h ==> (a + b)[k] == a[k];
    assert RawCloses(a + b, i, h) <==> RawCloses(a, i, h);
    if !RawCloses(a, i, h) { RawEndThen(a, b, i + 1, h); }
  }

  lemma {:induction false} RawEndBounds(a: string, i: nat, h: nat)
    requires RawEnd(a, i, h).Some?
    ensures i + h < |a|
    decreases |a| - i
  {
    if !RawCloses(a, i, h) { RawEndBounds(a, i + 1, h); }
  }

  lemma {:induction false} LineEndsInside(a: string, i: nat)
    requires i < |a| && Ends(a)
    ensures LineEnd(a, i) < |a|
    decreases |a| - i
  {
    if a[i] != '\n' { LineEndsInside(a, i + 1); }
  }

  lemma RawOpensThen(a: string, b: string, i: nat)
    requires i < |a| && Ends(a)
    ensures RawOpens(a + b, i) <==> RawOpens(a, i)
    ensures a[i] == 'r' ==> i + 1 < |a| && Hashes(a + b, i + 1) == Hashes(a, i + 1)
  {
    if a[i] == 'r' { HashesThen(a, b, i + 1); }
  }

  lemma SameOpeners(a: string, b: string, i: nat)
    requires i < |a| && Ends(a)
    ensures At(a + b, i, '/', '/') <==> At(a, i, '/', '/')
    ensures At(a + b, i, '/', '*') <==> At(a, i, '/', '*')
    ensures (EscapedChar(a + b, i) <==> EscapedChar(a, i)) && (PlainChar(a + b, i) <==> PlainChar(a, i))
    ensures At(a, i, '/', '/') ==> i + 2 < |a|
  {
    assert (a + b)[|a| - 1] == '\n';
  }

  /** A lexeme that closes before the end of a finished part is the same whatever follows the part. */
  lemma LexThen(a: string, b: string, i: nat)
    requires i < |a| && Ends(a) && !Lex(a, i).Unclosed?
    ensures Lex(a + b, i) == Lex(a, i)
  {
    SameOpeners(a, b, i);
    RawOpensThen(a, b, i);
    hide At;
    hide EscapedChar;
    hide PlainChar;
    hide LineEnd;
    hide BlockEnd;
    hide StringEnd;
    hide RawEnd;
    if At(a, i, '/', '/') { LineEndsInside(a, i + 2); LineEndThen(a, b, i + 2); }
    else if At(a, i, '/', '*') { BlockEndThen(a, b, i + 2, 1); }
    else if a[i] == '\"' { StringEndThen(a, b, i + 1); }
    else if RawOpens(a, i) { RawEndThen(a, b, i + 2 + Hashes(a, i + 1), Hashes(a, i + 1)); }
  }

  /** Text put before a masked rest. */
  function Before(t: string, r: Option<string>): Option<string> { if r.Some? then Some(t + r.value) else None }

  lemma BeforeEmpty(t: string, r: Option<string>)
    ensures Before("", r) == r && Before(t, Some("")) == Some(t)
  {
    if r.Some? { assert "" + r.value == r.value; }
    assert t + "" == t;
  }

  lemma BeforeBefore(t: string, u: string, r: Option<string>)
    ensures Before(t, Before(u, r)) == Before(t + u, r)
  {
    if r.Some? { assert t + (u + r.value) == t + u + r.value; }
  }

  lemma MaskPiece(s: string, i: nat)
    requires i < |s| && !Lex(s, i).Unclosed?
    ensures Mask(s, i) ==
      if Lex(s, i).Code? then Before([s[i]], Mask(s, i + 1))
      else Before(Blank(s[i..Lex(s, i).end]), Mask(s, Lex(s, i).end))
  {
  }

  /** A part that ends its last line and masks on its own masks the same whatever follows it. */
  lemma {:induction false} MaskInParts(a: string, b: string, i: nat)
    requires i <= |a| && Ends(a) && Mask(a, i).Some?
    ensures Mask(a + b, i) == Before(Mask(a, i).value, Mask(a + b, |a|))
    decreases |a| - i
  {
    hide Lex;
    if i < |a| {
      LexThen(a, b, i);
      var e := if Lex(a, i).Code? then i + 1 else Lex(a, i).end;
      MaskInParts(a, b, e);
      assert (a + b)[i..e] == a[i..e];
      var piece := if Lex(a, i).Code? then [a[i]] else Blank(a[i..e]);
      MaskPiece(a, i);
      MaskPiece(a + b, i);
      BeforeBefore(piece, Mask(a, e).value, Mask(a + b, |a|));
    } else {
      BeforeEmpty("", Mask(a + b, |a|));
    }
  }

  // ---------------------------------------------------------------- the masker in place

  method BlankIn(chars: array<char>, a: nat, b: nat)
    requires a <= b <= chars.Length
    modifies chars
    ensures chars[..] == old(chars[..a]) + Blank(old(chars[a..b])) + old(chars[b..])
  {
    ghost var was := chars[..];
    var p := a;
    while p < b
      invariant a <= p <= b
      invariant forall k :: 0 <= k < chars.Length ==> chars[k] == if a <= k < p then Blanked(was[k]) else was[k]
    {
      if chars[p] != '\n' { chars[p] := ' '; }
      p := p + 1;
    }
  }

  method ScanBlock(source: string, start: nat) returns (end: Option<nat>)
    requires start <= |source|
    ensures end == BlockEnd(source, start, 1)
    ensures end.Some? ==>
      Closed(source, start, 1, end.value) && forall p: nat :: p < end.value ==> !Closed(source, start, 1, p)
    ensures end.None? ==> forall p: nat :: !Closed(source, start, 1, p)
  {
    BlockEndIs(source, start, 1);
    hide Closed;
    var i, depth := start, 1;
    while i < |source| && depth > 0
      invariant start <= i <= |source|
      invariant BlockEnd(source, i, depth) == BlockEnd(source, start, 1)
      decreases |source| - i
    {
      if At(source, i, '/', '*') { depth, i := depth + 1, i + 2; }
      else if At(source, i, '*', '/') { depth, i := depth - 1, i + 2; }
      else { i := i + 1; }
    }
    return if depth > 0 then None else Some(i);
  }

  method ScanString(source: string, start: nat) returns (end: Option<nat>)
    ensures end == StringEnd(source, start)
    ensures end.Some? ==> end.value >= 1 && Quote(source, start, end.value - 1)
    ensures end.Some? ==> forall k: nat :: k < end.value - 1 ==> !Quote(source, start, k)
    ensures end.None? ==> forall k: nat :: !Quote(source, start, k)
  {
    StringEndIs(source, start);
    hide Quote;
    var i := start;
    while i < |source|
      invariant StringEnd(source, i) == StringEnd(source, start)
    {
      if source[i] == '\\' { i := i + 2; }
      else if source[i] == '\"' { return Some(i + 1); }
      else { i := i + 1; }
    }
    return None;
  }

  /** The scan for the lexeme at a position. */
  method Scan(source: string, i: nat) returns (r: Lexeme)
    requires i < |source|
    ensures r == Lex(source, i)
  {
    if At(source, i, '/', '/') { return Token(LineEnd(source, i + 2)); }
    if At(source, i, '/', '*') {
      var end := ScanBlock(source, i + 2);
      return Closing(end);
    }
    if source[i] == '\"' {
      var end := ScanString(source, i + 1);
      return Closing(end);
    }
    if RawOpens(source, i) {
      var hashes := Hashes(source, i + 1);
      return Closing(RawEnd(source, i + 2 + hashes, hashes));
    }
    if EscapedChar(source, i) { return Token(i + 4); }
    if PlainChar(source, i) { return Token(i + 3); }
    return Code;
  }

  /** The masker: one pass that overwrites the characters of every lexeme. */
  method Masked(source: string) returns (r: Option<string>)
    ensures r == Mask(source, 0)
    ensures r.Some? ==> |r.value| == |source| && Clean(r.value) && Reads(source, 0, r.value)
    ensures r == Some(source) <==> Clean(source)
  {
    hide *;
    MaskedIs(source);
    var chars := new char[|source|](k requires 0 <= k < |source| => source[k]);
    var i := 0;
    assert chars[..] == source && chars[..0] == "";
    BeforeEmpty("", Mask(source, 0));
    while i < |source|
      invariant 0 <= i <= |source| == chars.Length && fresh(chars)
      invariant chars[i..] == source[i..]
      invariant Mask(source, 0) == Before(chars[..i], Mask(source, i))
    {
      var start := i;
      ghost var done := chars[..start];
      var lexeme := Scan(source, i);
      MaskStep(source, start, done);
      match lexeme {
        case Unclosed => return None;
        case Token(end) =>
          i := end;
          SameTail(chars[..], source, start, i);
          BlankIn(chars, start, i);
          assert chars[..i] == done + Blank(source[start..i]);
        case Code =>
          i := i + 1;
          SameTail(chars[..], source, start, i);
          assert chars[..i] == done + [source[start]];
      }
    }
    assert chars[..i] == chars[..];
    BeforeEmpty(chars[..], None);
    return Some(chars[..]);
  }

  lemma SameTail(t: string, s: string, i: nat, j: nat)
    requires |t| == |s| && i < j <= |s| && t[i..] == s[i..]
    ensures t[i..j] == s[i..j] && t[j..] == s[j..] && t[i] == s[i]
  {
    assert t[i..j] == t[i..][..j - i] && s[i..j] == s[i..][..j - i];
    assert t[j..] == t[i..][j - i..] && s[j..] == s[i..][j - i..];
    assert t[i] == t[i..][0] && s[i] == s[i..][0];
  }

  lemma MaskStep(s: string, i: nat, t: string)
    requires i < |s|
    ensures Before(t, Mask(s, i)) == match Lex(s, i)
      case Code => Before(t + [s[i]], Mask(s, i + 1))
      case Token(e) => Before(t + Blank(s[i..e]), Mask(s, e))
      case Unclosed => None
  {
    hide Lex;
    if !Lex(s, i).Unclosed? { MaskPiece(s, i); }
    match Lex(s, i)
    case Code => BeforeBefore(t, [s[i]], Mask(s, i + 1));
    case Token(e) => BeforeBefore(t, Blank(s[i..e]), Mask(s, e));
    case Unclosed =>
  }

  lemma MaskedIs(s: string)
    ensures Mask(s, |s|) == Some("")
    ensures Mask(s, 0).Some? ==>
      |Mask(s, 0).value| == |s| && Clean(Mask(s, 0).value) && Reads(s, 0, Mask(s, 0).value)
    ensures Mask(s, 0) == Some(s) <==> Clean(s)
  {
    FixedIffClean(s);
    assert Mask(s, |s|) == Some("");
    if Mask(s, 0).Some? {
      hide *;
      MaskIsClean(s);
      MaskIsReading(s, 0, Mask(s, 0).value);
    }
  }
}
