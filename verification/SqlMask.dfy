// The SQL masker: maskSQL, sqlLiteralEnd and quotedEnd.
module SqlMask {
  import opened Ascii
  import opened SqlNumbers

  const MAX_SQL_LENGTH := 4000

  // ---------------------------------------------------------------- what the scanner computes

  // A literal's extent depends on the byte before it and on the text from it on, nothing else, so
  // the functions take exactly these two.

  predicate PartOfWord(prev: char) {
    IsWord(prev) || prev == '$'
  }

  predicate IsTagByte(c: char) {
    c == '_' || IsLetter(c)
  }

  /** Bytes up to and including the quote that closes a string, read from just after its opener: a
      doubled quote and a backslashed byte do not close it, and a string never closed takes all. */
  function CloseLen(s: string, quote: char): (n: nat)
    ensures n <= |s|
  {
    if s == "" then 0
    else if s[0] == '\\' then if |s| == 1 then 1 else 2 + CloseLen(s[2..], quote)
    else if s[0] == quote then
      if |s| > 1 && s[1] == quote then 2 + CloseLen(s[2..], quote) else 1
    else 1 + CloseLen(s[1..], quote)
  }

  /** Where t first occurs in s, or -1. */
  function IndexOf(s: string, t: string): (n: int)
    ensures n == -1 || (0 <= n <= |s| - |t| && s[n..n + |t|] == t)
  {
    if |s| < |t| then -1
    else if s[..|t|] == t then 0
    else if s == "" then -1
    else var n := IndexOf(s[1..], t); if n < 0 then -1 else n + 1
  }

  /** Where t first occurs, and -1 exactly when it does not. */
  lemma {:induction false} IndexOfIsFirst(s: string, t: string, k: nat)
    requires k + |t| <= |s| && s[k..k + |t|] == t
    ensures 0 <= IndexOf(s, t) <= k
  {
    if s != "" && k > 0 {
      assert s[1..][k - 1..k - 1 + |t|] == t;
      IndexOfIsFirst(s[1..], t, k - 1);
    }
  }

  /** $tag$ ... $tag$, to the end when the tag does not come back. */
  function DollarLen(s: string): (n: int)
    requires s != ""
    ensures n == -1 || 0 < n <= |s|
  {
    var j := 1 + SpanLen(IsTagByte, s[1..]);
    if j == |s| || s[j] != '$' then -1
    else
      var at := IndexOf(s[j + 1..], s[..j + 1]);
      if at < 0 then |s| else j + 1 + at + (j + 1)
  }

  /** Length of a string's type prefix (E, X, N, B or U&) at the start of s, else 0. */
  function PrefixLen(s: string): (n: nat)
    requires s != ""
    ensures n <= 2 && n <= |s|
  {
    if s[0] in "EeXxNnBb" then 1
    else if (s[0] == 'U' || s[0] == 'u') && |s| > 1 && s[1] == '&' then 2
    else 0
  }

  /** A number, unless it is part of a word or the fraction of another number. */
  function NumberLiteralLen(prev: char, s: string): (n: int)
    requires s != ""
    ensures n == -1 || 0 < n <= |s|
  {
    if PartOfWord(prev) || prev == '.' then -1 else NumberLen(s)
  }

  /** A string with its type prefix, unless the prefix is the end of a word. */
  function PrefixedLen(prev: char, s: string): (n: int)
    requires s != ""
    ensures n == -1 || 0 < n <= |s|
  {
    var p := PrefixLen(s);
    if p > 0 && !PartOfWord(prev) && p < |s| && s[p] == '\'' then p + 1 + CloseLen(s[p + 1..], '\'') else -1
  }

  /** Length of the literal that starts s, or -1; prev is the byte before s. */
  function LiteralLen(prev: char, s: string, doubleQuotes: bool): (n: int)
    requires s != ""
    ensures n == -1 || 0 < n <= |s|
  {
    var c := s[0];
    if c == '\'' || (c == '"' && doubleQuotes) then 1 + CloseLen(s[1..], c)
    else if c == '$' then DollarLen(s)
    else if IsDigit(c) || c == '.' then NumberLiteralLen(prev, s)
    else PrefixedLen(prev, s)
  }

  /** One turn of the scan: how far it moves, and what it writes. */
  function Step(prev: char, s: string, doubleQuotes: bool): (n: nat)
    requires s != ""
    ensures 0 < n <= |s|
  {
    var n := LiteralLen(prev, s, doubleQuotes);
    if n >= 0 then n else 1
  }

  function Shown(prev: char, s: string, doubleQuotes: bool): string
    requires s != ""
  {
    if LiteralLen(prev, s, doubleQuotes) >= 0 then "?" else [s[0]]
  }

  /** The masked form of s, which follows the byte prev. */
  function Masked(prev: char, s: string, doubleQuotes: bool): string
    decreases |s|
  {
    if s == "" then ""
    else
      var n := Step(prev, s, doubleQuotes);
      Shown(prev, s, doubleQuotes) + Masked(s[n - 1], s[n..], doubleQuotes)
  }

  /** Whether a scan of s comes to rest at offset n, between two literals or copied bytes. */
  predicate Reaches(prev: char, s: string, n: nat, doubleQuotes: bool)
    requires n <= |s|
    decreases |s|
  {
    n == 0 ||
    var step := Step(prev, s, doubleQuotes);
    step <= n && Reaches(s[step - 1], s[step..], n - step, doubleQuotes)
  }

  // ---------------------------------------------------------------- the scanner

  method QuotedEnd(s: string, i: nat, quote: char) returns (end: nat)
    requires i < |s|
    ensures end == i + 1 + CloseLen(s[i + 1..], quote)
  {
    hide CloseLen;
    var j := i + 1;
    while j < |s|
      invariant i < j <= |s|
      invariant CloseLen(s[i + 1..], quote) == j - (i + 1) + CloseLen(s[j..], quote)
    {
      CloseStep(s, j, quote);
      if s[j] == '\\' {
        if j + 2 > |s| {
          return |s|;
        }
        j := j + 2;
      } else if s[j] == quote {
        if j + 1 < |s| && s[j + 1] == quote {
          j := j + 2;
        } else {
          return j + 1;
        }
      } else {
        j := j + 1;
      }
    }
    return |s|;
  }

  lemma CloseStep(s: string, j: nat, quote: char)
    requires j < |s|
    ensures CloseLen(s[j..], quote) ==
            if s[j] == '\\' then if j + 1 == |s| then 1 else 2 + CloseLen(s[j + 2..], quote)
            else if s[j] == quote then
              if j + 1 < |s| && s[j + 1] == quote then 2 + CloseLen(s[j + 2..], quote) else 1
            else 1 + CloseLen(s[j + 1..], quote)
  {
  }

  method Index(s: string, t: string) returns (at: int)
    ensures at == IndexOf(s, t)
  {
    hide IndexOf;
    var k := 0;
    assert s[0..] == s;
    while k + |t| <= |s|
      invariant 0 <= k <= |s|
      invariant IndexOf(s, t) == EndAt(k, IndexOf(s[k..], t))
    {
      IndexStep(s, t, k);
      if s[k..k + |t|] == t {
        return k;
      }
      k := k + 1;
    }
    TooShort(s[k..], t);
    return -1;
  }

  lemma IndexStep(s: string, t: string, k: nat)
    requires k + |t| <= |s|
    ensures s[k..k + |t|] == t ==> IndexOf(s[k..], t) == 0
    ensures s[k..k + |t|] != t ==> k < |s| && EndAt(k, IndexOf(s[k..], t)) == EndAt(k + 1, IndexOf(s[k + 1..], t))
  {
    assert s[k..][..|t|] == s[k..k + |t|];
    if k < |s| {
      DropDrop(s, k, 1);
    }
  }

  lemma TooShort(s: string, t: string)
    requires |s| < |t|
    ensures IndexOf(s, t) == -1
  {
  }

  method DollarEnd(s: string, i: nat) returns (end: int)
    requires i < |s|
    ensures end == EndAt(i, DollarLen(s[i..]))
  {
    hide SpanLen, IndexOf;
    assert s[i..][1..] == s[i + 1..];
    var j := SpanEnd(IsTagByte, s, i + 1);
    if j < |s| && s[j] == '$' {
      var tag := s[i..j + 1];
      assert s[i..][..j - i + 1] == tag && s[i..][j - i + 1..] == s[j + 1..];
      var at := Index(s[j + 1..], tag);
      return if at >= 0 then j + 1 + at + |tag| else |s|;
    }
    return -1;
  }

  method LiteralEnd(s: string, i: nat, doubleQuotes: bool) returns (end: int)
    requires i < |s|
    ensures end == EndAt(i, LiteralLen(PrevAt(s, i), s[i..], doubleQuotes))
  {
    hide CloseLen, DollarLen, NumberLen;
    var c := s[i];
    var partOfWord := i > 0 && (IsWord(s[i - 1]) || s[i - 1] == '$');
    ghost var u := s[i..];
    assert u[1..] == s[i + 1..];
    if c == '\'' || (c == '"' && doubleQuotes) {
      end := QuotedEnd(s, i, c);
    } else if c == '$' {
      end := DollarEnd(s, i);
    } else if IsDigit(c) || c == '.' {
      if partOfWord || (i > 0 && s[i - 1] == '.') {
        return -1;
      }
      end := NumberEnd(s, i);
    } else {
      var prefix := 0;
      if c in "EeXxNnBb" {
        prefix := 1;
      } else if (c == 'U' || c == 'u') && i + 1 < |s| && s[i + 1] == '&' {
        prefix := 2;
      }
      if prefix > 0 && !partOfWord && i + prefix < |s| && s[i + prefix] == '\'' {
        assert u[prefix + 1..] == s[i + prefix + 1..];
        end := QuotedEnd(s, i + prefix, '\'');
        return;
      }
      return -1;
    }
  }

  // ---------------------------------------------------------------- maskSQL

  function Lower(c: char): char {
    if 'A' <= c <= 'Z' then ((c as int) + 32) as char else c
  }

  function ToLower(s: string): (t: string)
    ensures |t| == |s| && forall k :: 0 <= k < |s| ==> t[k] == Lower(s[k])
  {
    seq(|s|, i requires 0 <= i < |s| => Lower(s[i]))
  }

  predicate Blank(s: string) {
    AllOf(IsSpace, s)
  }

  predicate QuotesDouble(system: string) {
    ToLower(system) == "mysql" || ToLower(system) == "mariadb"
  }

  function Cut(masked: string): string {
    if |masked| > MAX_SQL_LENGTH then masked[..MAX_SQL_LENGTH] + "..." else masked
  }

  function MaskedStatement(statement: string, system: string): string {
    if Blank(statement) then "" else Cut(Masked(' ', statement, QuotesDouble(system)))
  }

  method MaskSQL(statement: string, system: string) returns (masked: string)
    ensures masked == MaskedStatement(statement, system)
  {
    if Blank(statement) {
      return "";
    }
    var out := MaskAll(statement, QuotesDouble(system));
    masked := Cut(out);
  }

  /** The loop of maskSQL. */
  method MaskAll(s: string, doubleQuotes: bool) returns (out: string)
    ensures out == Masked(' ', s, doubleQuotes)
  {
    hide Step, Shown;
    out := "";
    var i := 0;
    assert s[0..] == s;
    while i < |s|
      invariant 0 <= i <= |s|
      invariant Masked(' ', s, doubleQuotes) == out + Masked(PrevAt(s, i), s[i..], doubleQuotes)
    {
      var end := LiteralEnd(s, i, doubleQuotes);
      MaskedStep(out, s, i, end, doubleQuotes);
      if end >= 0 {
        out := out + "?";
        i := end;
      } else {
        out := out + [s[i]];
        i := i + 1;
      }
    }
  }

  lemma MaskedTurn(prev: char, s: string, doubleQuotes: bool)
    requires s != ""
    ensures var n := Step(prev, s, doubleQuotes);
            Masked(prev, s, doubleQuotes) == Shown(prev, s, doubleQuotes) + Masked(s[n - 1], s[n..], doubleQuotes)
  {
    hide Step, Shown;
  }

  lemma MaskedStep(out: string, s: string, i: nat, end: int, doubleQuotes: bool)
    requires i < |s| && end == EndAt(i, LiteralLen(PrevAt(s, i), s[i..], doubleQuotes))
    ensures var next := if end >= 0 then end else i + 1;
            var shown := if end >= 0 then "?" else [s[i]];
            && i < next <= |s|
            && out + Masked(PrevAt(s, i), s[i..], doubleQuotes)
               == (out + shown) + Masked(PrevAt(s, next), s[next..], doubleQuotes)
  {
    hide LiteralLen, Masked;
    var step := Step(PrevAt(s, i), s[i..], doubleQuotes);
    var shown := Shown(PrevAt(s, i), s[i..], doubleQuotes);
    MaskedTurn(PrevAt(s, i), s[i..], doubleQuotes);
    DropDrop(s, i, step);
    var rest := Masked(s[i + step - 1], s[i + step..], doubleQuotes);
    assert out + (shown + rest) == (out + shown) + rest;
  }
}
