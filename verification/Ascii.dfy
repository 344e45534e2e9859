// Byte classes shared by every scanner, and the one loop they all contain: advancing over a run
// of bytes of one class. Text is a sequence of characters; every byte the scanners look for is
// ASCII.
module Ascii {

  predicate IsDigit(c: char) {
    '0' <= c <= '9'
  }

  predicate IsLetter(c: char) {
    'a' <= c <= 'z' || 'A' <= c <= 'Z'
  }

  predicate IsWord(c: char) {
    c == '_' || IsDigit(c) || IsLetter(c)
  }

  predicate IsHex(c: char) {
    IsDigit(c) || 'a' <= c <= 'f' || 'A' <= c <= 'F'
  }

  predicate IsBinary(c: char) {
    c == '0' || c == '1'
  }

  predicate IsSpace(c: char) {
    c == ' ' || c == '\t' || c == '\n' || c == '\r' || c as int == 12 || c as int == 11
  }

  /** The classes by their codes in ASCII. */
  lemma ClassesInAscii(c: char)
    ensures var n := c as int;
            && (IsDigit(c) <==> 48 <= n <= 57)
            && (IsWord(c) <==> 48 <= n <= 57 || 65 <= n <= 90 || n == 95 || 97 <= n <= 122)
            && (IsLetter(c) <==> 65 <= n <= 90 || 97 <= n <= 122)
            && (IsHex(c) <==> 48 <= n <= 57 || 65 <= n <= 70 || 97 <= n <= 102)
            && (IsBinary(c) <==> n == 48 || n == 49)
            && (IsSpace(c) <==> n == 32 || 9 <= n <= 13)
  {
  }

  /** The byte a scanner sees just before position i; at the start there is none, and a space stands
      for it: it is no word byte, no '$' and no '.', so every look-behind treats it as absent. */
  function PrevAt(s: string, i: nat): char
    requires i <= |s|
  {
    if i == 0 then ' ' else s[i - 1]
  }

  predicate AllOf(p: char -> bool, t: string) {
    forall k :: 0 <= k < |t| ==> p(t[k])
  }

  /** No letter, digit or underscore follows the first n bytes of s. */
  predicate Standalone(s: string, n: nat)
    requires n <= |s|
  {
    n == |s| || !IsWord(s[n])
  }

  /** A length found from position i on, as the position it ends at; -1 stays -1. */
  function EndAt(i: nat, n: int): int {
    if n < 0 then -1 else i + n
  }

  /** Length of the longest prefix of s made of bytes satisfying p. */
  function SpanLen(p: char -> bool, s: string): (n: nat)
    ensures n <= |s|
    ensures forall k :: 0 <= k < n ==> p(s[k])
    ensures n < |s| ==> !p(s[n])
  {
    if s == [] || !p(s[0]) then 0 else 1 + SpanLen(p, s[1..])
  }

  /** The three clauses of SpanLen's contract pin it down. */
  lemma {:induction false} SpanLenIs(p: char -> bool, s: string, n: nat)
    requires n <= |s|
    requires forall k :: 0 <= k < n ==> p(s[k])
    requires n < |s| ==> !p(s[n])
    ensures SpanLen(p, s) == n
  {
    if n > 0 {
      SpanLenIs(p, s[1..], n - 1);
    }
  }

  /** The scanning loop itself: from k, the end of the run of bytes satisfying p. */
  method SpanEnd(p: char -> bool, s: string, k: nat) returns (end: nat)
    requires k <= |s|
    ensures end == k + SpanLen(p, s[k..])
    ensures k <= end <= |s|
  {
    end := k;
    while end < |s| && p(s[end])
      invariant k <= end <= |s|
      invariant forall j :: k <= j < end ==> p(s[j])
    {
      end := end + 1;
    }
    SpanLenIs(p, s[k..], end - k);
  }

  lemma DropDrop(s: string, a: nat, b: nat)
    requires a + b <= |s|
    ensures s[a..][b..] == s[a + b..]
  {
  }

  lemma DropOfJoin(s: string, t: string, n: nat)
    requires n <= |s|
    ensures (s + t)[n..] == s[n..] + t
  {
  }

  lemma TakeOfJoin(s: string, t: string, n: nat)
    requires n <= |s|
    ensures (s + t)[..n] == s[..n]
  {
  }
}
