/** Character classes and longest prefixes, for the hand-written matchers. */
module Scanning {
  predicate IsDigit(c: char) { '0' <= c <= '9' }

  predicate IsHex(c: char) { IsDigit(c) || 'a' <= c <= 'f' || 'A' <= c <= 'F' }

  /** \w */
  predicate IsWord(c: char) { IsDigit(c) || 'a' <= c <= 'z' || 'A' <= c <= 'Z' || c == '_' }

  /** The ASCII part of JavaScript's \s and of Go's unicode.IsSpace. */
  predicate IsBlank(c: char) { c == ' ' || c == '\t' || c == '\n' || c == '\r' || c == '\U{0B}' || c == '\U{0C}' }

  predicate NotBlank(c: char) { !IsBlank(c) }

  predicate NotNewline(c: char) { c != '\n' }

  /** A run of consecutive characters holds those between its ends. */
  lemma Consecutive(s: string, c: char)
    requires s != "" && forall i :: 0 <= i < |s| ==> s[i] as int == s[0] as int + i
    ensures c in s <==> s[0] <= c <= s[|s| - 1]
  {
    if s[0] <= c <= s[|s| - 1] { assert s[c as int - s[0] as int] == c; }
  }

  lemma LettersByAlphabet(c: char)
    ensures 'a' <= c <= 'z' <==> c in "abcdefghijklmnopqrstuvwxyz"
    ensures 'A' <= c <= 'Z' <==> c in "ABCDEFGHIJKLMNOPQRSTUVWXYZ"
  {
    Consecutive("abcdefghijklmnopqrstuvwxyz", c);
    Consecutive("ABCDEFGHIJKLMNOPQRSTUVWXYZ", c);
  }

  /** The classes letter by letter. */
  lemma ClassesByAlphabet(c: char)
    ensures IsDigit(c) <==> c in "0123456789"
    ensures IsHex(c) <==> c in "0123456789" || c in "abcdef" || c in "ABCDEF"
    ensures IsWord(c) <==>
              c == '_' || c in "0123456789" || c in "abcdefghijklmnopqrstuvwxyz" || c in "ABCDEFGHIJKLMNOPQRSTUVWXYZ"
  {
    Consecutive("0123456789", c);
    Consecutive("abcdef", c);
    Consecutive("ABCDEF", c);
    LettersByAlphabet(c);
  }

  predicate All(s: string, p: char -> bool) {
    forall i :: 0 <= i < |s| ==> p(s[i])
  }

  /** No prefix of s satisfies p. */
  predicate Stops(s: string, p: char -> bool) {
    s == "" || !p(s[0])
  }

  /** One character or more, all of them in p. */
  predicate Run(s: string, p: char -> bool) {
    s != "" && All(s, p)
  }

  /** The length of the longest prefix in p: what a greedy p* takes. */
  function SpanLen(s: string, p: char -> bool): (n: nat)
    ensures n <= |s|
  {
    if s == "" || !p(s[0]) then 0 else 1 + SpanLen(s[1..], p)
  }

  lemma {:induction false} SpanSplits(s: string, p: char -> bool)
    ensures All(s[..SpanLen(s, p)], p) && Stops(s[SpanLen(s, p)..], p)
  {
    if s != "" && p(s[0]) {
      SpanSplits(s[1..], p);
      var n := SpanLen(s[1..], p);
      assert s[1..][n..] == s[n + 1..];
      assert s[..n + 1] == [s[0]] + s[1..][..n];
    }
  }

  lemma {:induction false} SpanAppend(a: string, b: string, p: char -> bool)
    requires All(a, p) && Stops(b, p)
    ensures SpanLen(a + b, p) == |a| && (a + b)[..|a|] == a && (a + b)[|a|..] == b
  {
    if a == "" {
      assert a + b == b;
    } else {
      assert (a + b)[1..] == a[1..] + b;
      SpanAppend(a[1..], b, p);
    }
  }

  // ---------- decimal numbers ----------

  function DigitValue(c: char): int
    requires IsDigit(c)
  {
    c as int - '0' as int
  }

  /** The number a string of digits stands for. */
  function Value(s: string): (n: nat)
    requires All(s, IsDigit)
  {
    if s == "" then 0 else Value(s[..|s| - 1]) * 10 + DigitValue(s[|s| - 1])
  }

  function DigitChar(d: int): char
    requires 0 <= d < 10
  {
    (d + '0' as int) as char
  }

  function Decimal(n: nat): (s: string)
    ensures Run(s, IsDigit)
  {
    if n < 10 then [DigitChar(n)] else Decimal(n / 10) + [DigitChar(n % 10)]
  }

  lemma {:induction false} ValueOfDecimal(n: nat)
    ensures Value(Decimal(n)) == n
  {
    if n < 10 {
      assert Decimal(n)[..0] == "";
    } else {
      ValueOfDecimal(n / 10);
      assert Decimal(n)[..|Decimal(n)| - 1] == Decimal(n / 10);
    }
  }

  /** Each digit stands for its place among the ten. */
  lemma DigitsInOrder(d: nat)
    requires d < 10
    ensures DigitValue("0123456789"[d]) == d && Decimal(d) == ["0123456789"[d]]
  {
  }
}
