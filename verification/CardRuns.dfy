// The run finder of the card scrubber: the digit runs scrubCardNumbers looks for by hand, and the
// pattern with look-arounds they stand for.
module CardRuns {
  import opened Ascii

  predicate IsSep(c: char) {
    c == ' ' || c == '-'
  }

  // ---------------------------------------------------------------- the pattern

  /** \d(?:[ -]?\d)* : digits joined by single spaces or dashes. */
  predicate IsRun(t: string) {
    && t != "" && IsDigit(t[0]) && IsDigit(t[|t| - 1])
    && (forall k :: 0 <= k < |t| ==> IsDigit(t[k]) || t[k] == ' ' || t[k] == '-')
    && (forall k :: 0 < k < |t| && (t[k] == ' ' || t[k] == '-') ==> IsDigit(t[k - 1]))
  }

  /** The first n bytes of s are a run that no word byte follows. */
  predicate IsMatch(s: string, n: nat) {
    n <= |s| && IsRun(s[..n]) && Standalone(s, n)
  }

  // ---------------------------------------------------------------- what the scanner computes

  /** The longest run from the start, whatever follows it. */
  function ChainLen(s: string): (n: nat)
    requires s != "" && IsDigit(s[0])
    ensures 0 < n <= |s|
  {
    if |s| > 1 && IsDigit(s[1]) then 1 + ChainLen(s[1..])
    else if |s| > 2 && IsSep(s[1]) && IsDigit(s[2]) then 2 + ChainLen(s[2..])
    else 1
  }

  /** Where the last separator of that run is, or -1. */
  function LastSep(s: string): (n: int)
    requires s != "" && IsDigit(s[0])
    ensures -1 == n || 0 < n < ChainLen(s)
  {
    if |s| > 1 && IsDigit(s[1]) then EndAt(1, LastSep(s[1..]))
    else if |s| > 2 && IsSep(s[1]) && IsDigit(s[2]) then
      if LastSep(s[2..]) < 0 then 1 else 2 + LastSep(s[2..])
    else -1
  }

  /** The run the scanner settles on: all of it, or back to before its last separator when a word
      byte follows, or none. */
  function MatchLen(s: string): (n: int)
    requires s != "" && IsDigit(s[0])
    ensures n == -1 || 0 < n <= |s|
  {
    if Standalone(s, ChainLen(s)) then ChainLen(s) else LastSep(s)
  }

  // ---------------------------------------------------------------- the scanner's run is the pattern's

  lemma {:induction false} ChainIsRun(s: string)
    requires s != "" && IsDigit(s[0])
    ensures var n := ChainLen(s);
            && IsRun(s[..n])
            && (n < |s| ==> !IsDigit(s[n]))
            && (n + 1 < |s| && IsSep(s[n]) ==> !IsDigit(s[n + 1]))
    decreases |s|
  {
    hide IsRun;
    var n := ChainLen(s);
    OneDigitIsRun(s);
    if |s| > 1 && IsDigit(s[1]) {
      ChainIsRun(s[1..]);
      RunGrows(s, 1, n);
    } else if |s| > 2 && IsSep(s[1]) && IsDigit(s[2]) {
      ChainIsRun(s[2..]);
      RunGrows(s, 2, n);
    }
  }

  lemma OneDigitIsRun(s: string)
    requires s != "" && IsDigit(s[0])
    ensures IsRun(s[..1])
  {
  }

  /** A digit, alone or with a separator after it, before a run. */
  lemma RunGrows(s: string, k: nat, n: nat)
    requires 1 <= k <= 2 && k < n <= |s| && IsDigit(s[0]) && (k == 2 ==> IsSep(s[1]))
    requires IsRun(s[k..][..n - k])
    ensures IsRun(s[..n])
    ensures n < |s| ==> s[k..][n - k] == s[n]
    ensures n + 1 < |s| ==> s[k..][n - k + 1] == s[n + 1]
  {
    var u, t := s[..n], s[k..][..n - k];
    assert forall j :: k <= j < n ==> u[j] == t[j - k];
    assert forall j :: 0 <= j < n ==> u[j] == s[j];
  }

  lemma {:induction false} LastSepIsLast(s: string)
    requires s != "" && IsDigit(s[0])
    ensures var n, p := ChainLen(s), LastSep(s);
            && (p >= 0 ==> IsSep(s[p]))
            && (forall k :: p < k < n && k >= 0 ==> IsDigit(s[k]))
    decreases |s|
  {
    if |s| > 1 && IsDigit(s[1]) {
      LastSepIsLast(s[1..]);
      assert forall k :: 1 <= k < |s| ==> s[k] == s[1..][k - 1];
    } else if |s| > 2 && IsSep(s[1]) && IsDigit(s[2]) {
      LastSepIsLast(s[2..]);
      assert forall k :: 2 <= k < |s| ==> s[k] == s[2..][k - 2];
    }
  }

  /** A run cannot go past a byte that is neither a digit nor a separator before a digit. */
  lemma RunStaysInChain(s: string, m: nat, n: nat)
    requires n <= |s| && m < |s| && IsRun(s[..n])
    requires !IsDigit(s[m]) && (m + 1 < |s| && IsSep(s[m]) ==> !IsDigit(s[m + 1]))
    ensures n <= m
  {
  }

  /** From each start the scanner takes the longest match of the pattern, and takes none exactly when
      the pattern has none there. */
  lemma MatchLenIsLongest(s: string)
    requires s != "" && IsDigit(s[0])
    ensures var r := MatchLen(s);
            && (r >= 0 ==> IsMatch(s, r))
            && (forall n: nat :: IsMatch(s, n) ==> n <= r)
  {
    var e, p := ChainLen(s), LastSep(s);
    ChainIsRun(s);
    LastSepIsLast(s);
    if !Standalone(s, e) && p >= 0 {
      PrefixRun(s, e, p);
    }
    forall n: nat | IsMatch(s, n) ensures n <= MatchLen(s) {
      if e < |s| {
        RunStaysInChain(s, e, n);
      }
    }
  }

  lemma PrefixRun(s: string, e: nat, p: nat)
    requires 0 < p < e <= |s| && IsRun(s[..e]) && IsSep(s[p])
    ensures IsRun(s[..p])
  {
  }

  /** With no match at all, the digits from here run straight into a word byte. */
  lemma NoMatchMeansGlued(s: string)
    requires s != "" && IsDigit(s[0]) && MatchLen(s) < 0
    ensures var k := SpanLen(IsDigit, s); k < |s| && IsWord(s[k])
  {
  }

  lemma ChainWithoutSeparators(s: string)
    requires s != "" && IsDigit(s[0]) && MatchLen(s) < 0
    ensures ChainLen(s) == SpanLen(IsDigit, s)
  {
  }
}
