/** Decimal spellings of integers, shared by the emitted-source decoder and the run directory. */
module Digits {

  predicate IsDigit(c: char) { '0' <= c <= '9' }

  predicate AllDigits(s: string) {
    forall i :: 0 <= i < |s| ==> IsDigit(s[i])
  }

  /** `[0-9]+`: leading zeros are allowed. */
  predicate Numeral(s: string) { s != "" && AllDigits(s) }

  /** The spelling without leading zeros, `0|[1-9][0-9]*`. */
  predicate Canonical(s: string) {
    Numeral(s) && (s[0] == '0' ==> |s| == 1)
  }

  /** The number a digit string denotes. */
  function Value(s: string): nat
    requires AllDigits(s)
  {
    if s == "" then 0 else Value(s[..|s| - 1]) * 10 + (s[|s| - 1] - '0') as nat
  }

  /** The printed form of a natural number. */
  function Print(n: nat): (s: string)
    ensures Canonical(s)
  {
    if n < 10 then [DigitChar(n)] else Print(n / 10) + [DigitChar(n % 10)]
  }

  function DigitChar(d: nat): (c: char)
    requires d < 10
    ensures IsDigit(c) && (c - '0') as nat == d
  {
    '0' + d as char
  }

  lemma {:induction false} ValueOfPrint(n: nat)
    ensures Value(Print(n)) == n
  {
    if n >= 10 {
      ValueOfPrint(n / 10);
      assert Print(n)[..|Print(n)| - 1] == Print(n / 10);
    }
  }

  function TenTo(n: nat): nat { if n == 0 then 1 else 10 * TenTo(n - 1) }

  /** Decimal notation: a digit string before another counts as many tens as the other has digits. */
  lemma {:induction false} ValueJoins(a: string, b: string)
    requires AllDigits(a) && AllDigits(b)
    ensures AllDigits(a + b) && Value(a + b) == Value(a) * TenTo(|b|) + Value(b)
    ensures |b| == 1 ==> Value(b) == (b[0] - '0') as nat
  {
    if b == "" { assert a + b == a; }
    else {
      var k := |b| - 1;
      ValueJoins(a, b[..k]);
      assert (a + b)[..|a + b| - 1] == a + b[..k];
      Tens(Value(a), TenTo(k), Value(b[..k]));
    }
  }

  lemma Tens(x: int, p: int, y: int)
    ensures (x * p + y) * 10 == x * (10 * p) + y * 10
  {
  }

  /** A numeral is the printed form of its value exactly when it has no leading zero. */
  lemma {:induction false} PrintOfValue(s: string)
    requires Numeral(s)
    ensures Print(Value(s)) == s <==> Canonical(s)
  {
    if Canonical(s) { PrintOfCanonical(s); }
  }

  lemma {:induction false} PrintOfCanonical(s: string)
    requires Canonical(s)
    ensures Print(Value(s)) == s
    ensures s != "0" ==> Value(s) > 0
  {
    if |s| > 1 {
      var init := s[..|s| - 1];
      PrintOfCanonical(init);
      assert s == init + [s[|s| - 1]];
    } else {
      assert Value(s[..0]) == 0;
      assert s == [s[0]];
    }
  }

  /** `-?[0-9]+` */
  predicate SignedNumeral(s: string) {
    if s != "" && s[0] == '-' then Numeral(s[1..]) else Numeral(s)
  }

  /** `-?(?:0|[1-9][0-9]*)`: this admits `-0`. */
  predicate CanonicalSigned(s: string) {
    if s != "" && s[0] == '-' then Canonical(s[1..]) else Canonical(s)
  }

  function SignedValue(s: string): int
    requires SignedNumeral(s)
  {
    if s[0] == '-' then 0 - Value(s[1..]) else Value(s)
  }

  function PrintSigned(z: int): (s: string)
    ensures CanonicalSigned(s) && SignedNumeral(s)
  {
    if z < 0 then "-" + Print(-z) else Print(z)
  }

  lemma ValueOfPrintSigned(z: int)
    ensures SignedValue(PrintSigned(z)) == z
  {
    ValueOfPrint(if z < 0 then -z else z);
    if z < 0 { assert PrintSigned(z)[1..] == Print(-z); }
  }
}
