// The message normaliser of strict privacy: normalizeMessage, replaceQuoted, replaceHexObjectIDs,
// uuidAt, replaceUUIDs and replaceNumbers.
module Normalize {
  import opened Ascii

  /** One rewriting pass. */
  datatype Rule = Quoted(quote: char, atWordBoundary: bool) | HexId | Uuid | Number

  predicate IsBreak(c: char) {
    c == '\r' || c == '\n'
  }

  function Mark(rule: Rule): string {
    match rule
    case Quoted(_, _) => "<str>"
    case HexId => "0x"
    case Uuid => "<uuid>"
    case Number => "<n>"
  }

  // ---------------------------------------------------------------- what a pass looks for

  // Each function gives the length of what starts s, the byte before it being prev, or -1.

  /** Length of the stretch before the next such quote or line break. */
  function InsideLen(quote: char, s: string): (n: nat)
    ensures n <= |s|
    ensures forall k :: 0 <= k < n ==> s[k] != quote && !IsBreak(s[k])
    ensures n < |s| ==> s[n] == quote || IsBreak(s[n])
  {
    if s == "" || s[0] == quote || IsBreak(s[0]) then 0 else 1 + InsideLen(quote, s[1..])
  }

  function QuotedLen(quote: char, atWordBoundary: bool, prev: char, s: string): (n: int)
    requires s != ""
    ensures n == -1 || 2 <= n <= |s|
  {
    if s[0] != quote || (atWordBoundary && IsWord(prev)) then -1
    else
      var end := 1 + InsideLen(quote, s[1..]);
      if end < |s| && s[end] == quote && (!atWordBoundary || Standalone(s, end + 1)) then end + 1 else -1
  }

  function HexLen(s: string): (n: int)
    requires s != ""
    ensures n == -1 || 6 <= n <= |s|
  {
    if s[0] == '0' && |s| > 1 && s[1] == 'x' && SpanLen(IsHex, s[2..]) >= 4 then 2 + SpanLen(IsHex, s[2..]) else -1
  }

  /** The 8-4-4-4-12 layout. */
  predicate UuidByte(k: nat, c: char) {
    if k == 8 || k == 13 || k == 18 || k == 23 then c == '-' else IsHex(c)
  }

  predicate StartsWithUuid(s: string) {
    |s| >= 36 && forall k :: 0 <= k < 36 ==> UuidByte(k, s[k])
  }

  function UuidLen(prev: char, s: string): (n: int)
    requires s != ""
    ensures n == -1 || n == 36 <= |s|
  {
    if !IsWord(prev) && StartsWithUuid(s) && Standalone(s, 36) then 36 else -1
  }

  function StandaloneDigitsLen(prev: char, s: string): (n: int)
    requires s != ""
    ensures n == -1 || 0 < n <= |s|
  {
    var k := SpanLen(IsDigit, s);
    if k > 0 && !IsWord(prev) && Standalone(s, k) then k else -1
  }

  function Find(rule: Rule, prev: char, s: string): (n: int)
    requires s != ""
    ensures n == -1 || 0 < n <= |s|
  {
    match rule
    case Quoted(quote, atWordBoundary) => QuotedLen(quote, atWordBoundary, prev, s)
    case HexId => HexLen(s)
    case Uuid => UuidLen(prev, s)
    case Number => StandaloneDigitsLen(prev, s)
  }

  // ---------------------------------------------------------------- passes and their pipeline

  function Rewritten(rule: Rule, prev: char, s: string): string
    decreases |s|
  {
    if s == "" then ""
    else
      var n := Find(rule, prev, s);
      if n > 0 then Mark(rule) + Rewritten(rule, s[n - 1], s[n..])
      else [s[0]] + Rewritten(rule, s[0], s[1..])
  }

  function Pass(rule: Rule, s: string): string {
    Rewritten(rule, ' ', s)
  }

  const DOUBLE_QUOTED := Quoted('"', false)
  const SINGLE_QUOTED := Quoted('\'', true)

  /** The last three passes. */
  function WithoutIds(s: string): string {
    Pass(Number, Pass(Uuid, Pass(HexId, s)))
  }

  /** All passes after the email step. */
  function Normalized(s: string): string {
    WithoutIds(Pass(SINGLE_QUOTED, Pass(DOUBLE_QUOTED, s)))
  }

  // ---------------------------------------------------------------- the scanners

  method ReplaceQuoted(s: string, quote: char, atWordBoundary: bool) returns (out: string)
    ensures out == Pass(Quoted(quote, atWordBoundary), s)
  {
    hide Rewritten;
    ghost var rule := Quoted(quote, atWordBoundary);
    out := "";
    var i := 0;
    assert s[0..] == s;
    while i < |s|
      invariant 0 <= i <= |s|
      invariant Pass(rule, s) == out + Rewritten(rule, PrevAt(s, i), s[i..])
    {
      RewrittenStep(rule, s, i, out);
      if s[i] == quote && (!atWordBoundary || i == 0 || !IsWord(s[i - 1])) {
        var end := i + 1;
        while end < |s| && s[end] != quote && s[end] != '\r' && s[end] != '\n'
          invariant i < end <= |s|
          invariant forall k :: i < k < end ==> s[k] != quote && !IsBreak(s[k])
        {
          end := end + 1;
        }
        QuotedEndsAt(s, i, end, quote, atWordBoundary);
        if end < |s| && s[end] == quote && (!atWordBoundary || end + 1 == |s| || !IsWord(s[end + 1])) {
          out := out + "<str>";
          i := end + 1;
          continue;
        }
      }
      out := out + [s[i]];
      i := i + 1;
    }
    NothingToRewrite(rule, PrevAt(s, i), s[i..]);
  }

  lemma {:induction false} InsideLenIs(quote: char, s: string, n: nat)
    requires n <= |s|
    requires forall k :: 0 <= k < n ==> s[k] != quote && !IsBreak(s[k])
    requires n < |s| ==> s[n] == quote || IsBreak(s[n])
    ensures InsideLen(quote, s) == n
  {
  }

  lemma QuotedEndsAt(s: string, i: nat, end: nat, quote: char, atWordBoundary: bool)
    requires i < end <= |s| && s[i] == quote
    requires forall k :: i < k < end ==> s[k] != quote && !IsBreak(s[k])
    requires end < |s| ==> s[end] == quote || IsBreak(s[end])
    requires !atWordBoundary || !IsWord(PrevAt(s, i))
    ensures QuotedLen(quote, atWordBoundary, PrevAt(s, i), s[i..]) ==
            if end < |s| && s[end] == quote && (!atWordBoundary || Standalone(s, end + 1)) then end + 1 - i else -1
  {
    var u := s[i..];
    DropDrop(s, i, 1);
    InsideLenIs(quote, u[1..], end - i - 1);
    assert end < |s| ==> u[end - i] == s[end];
    assert end + 1 < |s| ==> u[end + 1 - i] == s[end + 1];
  }

  lemma Turn(rule: Rule, prev: char, s: string)
    requires s != ""
    ensures var n := Find(rule, prev, s);
            Rewritten(rule, prev, s) ==
            if n > 0 then Mark(rule) + Rewritten(rule, s[n - 1], s[n..])
            else [s[0]] + Rewritten(rule, s[0], s[1..])
  {
    hide Find, Mark;
  }

  /** One turn of any of the loops. */
  lemma RewrittenStep(rule: Rule, s: string, i: nat, out: string)
    requires i < |s|
    ensures var n := Find(rule, PrevAt(s, i), s[i..]);
            && (n > 0 ==> i + n <= |s| && out + Rewritten(rule, PrevAt(s, i), s[i..])
                          == (out + Mark(rule)) + Rewritten(rule, PrevAt(s, i + n), s[i + n..]))
            && (n <= 0 ==> out + Rewritten(rule, PrevAt(s, i), s[i..])
                           == (out + [s[i]]) + Rewritten(rule, PrevAt(s, i + 1), s[i + 1..]))
  {
    hide Find, Mark, Rewritten;
    var u := s[i..];
    Turn(rule, PrevAt(s, i), u);
    var n := Find(rule, PrevAt(s, i), u);
    var k := if n > 0 then n else 1;
    DropDrop(s, i, k);
    assert u[k - 1] == s[i + k - 1];
    var shown := if n > 0 then Mark(rule) else [s[i]];
    var rest := Rewritten(rule, s[i + k - 1], s[i + k..]);
    assert Rewritten(rule, PrevAt(s, i), u) == shown + rest;
    assert out + (shown + rest) == (out + shown) + rest;
  }

  lemma NothingToRewrite(rule: Rule, prev: char, s: string)
    requires s == ""
    ensures Rewritten(rule, prev, s) == ""
  {
  }

  method ReplaceHexObjectIds(s: string) returns (out: string)
    ensures out == Pass(HexId, s)
  {
    hide Rewritten, SpanLen;
    out := "";
    var i := 0;
    assert s[0..] == s;
    while i < |s|
      invariant 0 <= i <= |s|
      invariant Pass(HexId, s) == out + Rewritten(HexId, PrevAt(s, i), s[i..])
    {
      RewrittenStep(HexId, s, i, out);
      if s[i] == '0' && i + 1 < |s| && s[i + 1] == 'x' {
        var end := SpanEnd(IsHex, s, i + 2);
        DropDrop(s, i, 2);
        if end - (i + 2) >= 4 {
          out := out + "0x";
          i := end;
          continue;
        }
      }
      out := out + [s[i]];
      i := i + 1;
    }
    NothingToRewrite(HexId, PrevAt(s, i), s[i..]);
  }

  /** Where group g of the 8-4-4-4-12 layout starts, its separator included. */
  function GroupStart(g: nat): nat {
    if g == 0 then 0 else if g == 1 then 8 else if g == 2 then 13 else if g == 3 then 18 else if g == 4 then 23 else 36
  }

  method UuidAt(s: string, from: nat) returns (found: bool)
    requires from <= |s|
    ensures found == StartsWithUuid(s[from..])
  {
    ghost var u := s[from..];
    var groups := [8, 4, 4, 4, 12];
    var i := from;
    var g := 0;
    while g < |groups|
      invariant 0 <= g <= 5 && i == from + GroupStart(g) <= |s|
      invariant forall k :: 0 <= k < GroupStart(g) ==> UuidByte(k, u[k])
    {
      if g > 0 {
        if i >= |s| || s[i] != '-' {
          assert i < |s| ==> u[i - from] == s[i];
          return false;
        }
        i := i + 1;
      }
      var n := 0;
      while n < groups[g]
        invariant 0 <= n <= groups[g]
        invariant i == from + GroupStart(g) + (if g > 0 then 1 else 0) + n <= |s|
        invariant forall k :: 0 <= k < i - from ==> UuidByte(k, u[k])
      {
        if i >= |s| || !IsHex(s[i]) {
          assert i < |s| ==> !UuidByte(i - from, u[i - from]);
          return false;
        }
        i := i + 1;
        n := n + 1;
      }
      g := g + 1;
    }
    return true;
  }

  method ReplaceUuids(s: string) returns (out: string)
    ensures out == Pass(Uuid, s)
  {
    hide Rewritten, StartsWithUuid;
    out := "";
    var i := 0;
    assert s[0..] == s;
    while i < |s|
      invariant 0 <= i <= |s|
      invariant Pass(Uuid, s) == out + Rewritten(Uuid, PrevAt(s, i), s[i..])
    {
      RewrittenStep(Uuid, s, i, out);
      if i == 0 || !IsWord(s[i - 1]) {
        var found := UuidAt(s, i);
        if found {
          UuidFits(s[i..]);
          assert i + 36 < |s| ==> s[i..][36] == s[i + 36];
          if i + 36 == |s| || !IsWord(s[i + 36]) {
            out := out + "<uuid>";
            i := i + 36;
            continue;
          }
        }
      }
      out := out + [s[i]];
      i := i + 1;
    }
    NothingToRewrite(Uuid, PrevAt(s, i), s[i..]);
  }

  lemma UuidFits(s: string)
    requires StartsWithUuid(s)
    ensures |s| >= 36
  {
  }

  method ReplaceNumbers(s: string) returns (out: string)
    ensures out == Pass(Number, s)
  {
    hide Rewritten;
    out := "";
    var i := 0;
    assert s[0..] == s;
    while i < |s|
      invariant 0 <= i <= |s|
      invariant Pass(Number, s) == out + Rewritten(Number, PrevAt(s, i), s[i..])
    {
      RewrittenStep(Number, s, i, out);
      if IsDigit(s[i]) && (i == 0 || !IsWord(s[i - 1])) {
        var end := SpanEnd(IsDigit, s, i);
        assert end < |s| ==> s[i..][end - i] == s[end];
        if end == |s| || !IsWord(s[end]) {
          out := out + "<n>";
          i := end;
          continue;
        }
      }
      out := out + [s[i]];
      i := i + 1;
    }
    NothingToRewrite(Number, PrevAt(s, i), s[i..]);
  }

  /** email stands for the library's replacement of e-mail addresses. */
  method NormalizeMessage(message: string, email: string -> string) returns (normalized: string)
    ensures normalized == Normalized(email(message))
  {
    normalized := ReplaceQuoted(email(message), '"', false);
    normalized := ReplaceQuoted(normalized, '\'', true);
    normalized := ReplaceHexObjectIds(normalized);
    normalized := ReplaceUuids(normalized);
    normalized := ReplaceNumbers(normalized);
  }
}
