// What the normaliser makes of each kind of text, whole and where it stands.
module NormalText {
  import opened Ascii
  import opened Normalize
  import opened NormalForm
  import opened NormalQuotes

  // ---------------------------------------------------------------- what each pass finds

  /** A quoted run within a line: its quotes and anything between them but quotes and line breaks. */
  predicate IsQuotedRun(quote: char, t: string) {
    && |t| >= 2 && t[0] == quote && t[|t| - 1] == quote
    && forall k :: 0 < k < |t| - 1 ==> t[k] != quote && t[k] != '\r' && t[k] != '\n'
  }

  /** A quote pass finds the quoted run that starts there; a single quote opens none after a word byte and
      closes none before one. */
  lemma QuotedIff(quote: char, atWordBoundary: bool, prev: char, s: string, n: nat)
    requires s != "" && n > 0 && quote != '\r' && quote != '\n'
    ensures Find(Quoted(quote, atWordBoundary), prev, s) == n <==>
            && n <= |s| && IsQuotedRun(quote, s[..n])
            && (atWordBoundary ==> !IsWord(prev) && (n == |s| || !IsWord(s[n])))
  {
    if n <= |s| && IsQuotedRun(quote, s[..n]) {
      var t := s[..n];
      assert t[0] == s[0] && t[n - 1] == s[n - 1];
      assert forall k :: 0 <= k < n - 2 ==> s[1..][k] == t[k + 1];
      InsideLenIs(quote, s[1..], n - 2);
    }
  }

  /** An object id is 0x and all the hex digits after it, at least four. */
  lemma HexIdIff(prev: char, s: string, n: nat)
    requires s != "" && n > 0
    ensures Find(HexId, prev, s) == n <==>
            && 6 <= n <= |s| && s[..2] == "0x" && (forall k :: 2 <= k < n ==> IsHex(s[k]))
            && (n == |s| || !IsHex(s[n]))
  {
    hide IsHex;
    if |s| >= 2 {
      assert s[..2] == [s[0], s[1]];
      assert forall k :: 2 <= k < |s| ==> s[2..][k - 2] == s[k];
      if 6 <= n <= |s| && (forall k :: 2 <= k < n ==> IsHex(s[k])) && (n == |s| || !IsHex(s[n])) {
        SpanLenIs(IsHex, s[2..], n - 2);
      }
    }
  }

  /** A UUID has 36 characters: 8, 4, 4, 4 and 12 hex digits with dashes between, no word byte around. */
  lemma UuidIff(prev: char, s: string, n: nat)
    requires s != "" && n > 0
    ensures Find(Uuid, prev, s) == n <==>
            && n == 36 <= |s| && !IsWord(prev) && (|s| == 36 || !IsWord(s[36]))
            && (forall k :: 0 <= k < 36 ==> if k in {8, 13, 18, 23} then s[k] == '-' else IsHex(s[k]))
  {
    hide IsHex, IsWord;
    assert forall k :: 0 <= k < 36 && 36 <= |s| ==>
      (UuidByte(k, s[k]) <==> if k in {8, 13, 18, 23} then s[k] == '-' else IsHex(s[k]));
  }

  /** A number is all the digits that start there, no word byte around. */
  lemma NumberIff(prev: char, s: string, n: nat)
    requires s != "" && n > 0
    ensures Find(Number, prev, s) == n <==>
            && n <= |s| && !IsWord(prev) && (forall k :: 0 <= k < n ==> '0' <= s[k] <= '9')
            && (n == |s| || !IsWord(s[n]))
  {
    if n <= |s| && (forall k :: 0 <= k < n ==> '0' <= s[k] <= '9') && (n == |s| || !IsWord(s[n])) {
      SpanLenIs(IsDigit, s, n);
    }
  }

  // ---------------------------------------------------------------- what each pass writes

  /** What is found is replaced, and the text after it rewritten on its own. */
  lemma FoundIsReplaced(rule: Rule, prev: char, found: string, rest: string)
    requires found != "" && Find(rule, prev, found + rest) == |found|
    ensures Rewritten(rule, prev, found + rest) ==
            (match rule
             case Quoted(_, _) => "<str>"
             case HexId => "0x"
             case Uuid => "<uuid>"
             case Number => "<n>") + Rewritten(rule, found[|found| - 1], rest)
  {
    hide Find;
    var s := found + rest;
    assert s[|found|..] == rest && s[|found| - 1] == found[|found| - 1];
    Turn(rule, prev, s);
  }

  /** Where nothing is found the byte is copied. */
  lemma NotFoundIsCopied(rule: Rule, prev: char, c: char, rest: string)
    requires Find(rule, prev, [c] + rest) < 0
    ensures Rewritten(rule, prev, [c] + rest) == [c] + Rewritten(rule, c, rest)
  {
    hide Find;
    assert ([c] + rest)[1..] == rest;
    Turn(rule, prev, [c] + rest);
  }

  lemma FoundWhole(rule: Rule, s: string)
    requires s != "" && Find(rule, ' ', s) == |s|
    ensures Pass(rule, s) == Mark(rule)
  {
    hide Find;
    assert s + "" == s;
    FoundIsReplaced(rule, ' ', s, "");
    NothingToRewrite(rule, s[|s| - 1], "");
  }

  // ---------------------------------------------------------------- apostrophes

  predicate AfterWord(prev: char, s: string, k: nat)
    requires k < |s|
  {
    IsWord(if k == 0 then prev else s[k - 1])
  }

  /** Every single quote of s follows a word byte, prev being the byte before s. */
  predicate Apostrophes(prev: char, s: string) {
    forall k :: 0 <= k < |s| && s[k] == '\'' ==> AfterWord(prev, s, k)
  }

  /** Text whose single quotes all follow word bytes is left alone by the single-quote pass. */
  lemma {:induction false} ApostrophesStay(prev: char, s: string)
    requires Apostrophes(prev, s)
    ensures Free(SINGLE_QUOTED, prev, s) && Rewritten(SINGLE_QUOTED, prev, s) == s
    decreases |s|
  {
    if s != "" {
      assert s[0] == '\'' ==> AfterWord(prev, s, 0);
      forall k | 0 <= k < |s| - 1 && s[1..][k] == '\'' ensures AfterWord(s[0], s[1..], k) {
        assert s[k + 1] == '\'' && AfterWord(prev, s, k + 1);
      }
      ApostrophesStay(s[0], s[1..]);
    }
  }

  // ---------------------------------------------------------------- whole messages

  lemma {:induction false} NoQuotesStay(quote: char, atWordBoundary: bool, prev: char, s: string)
    requires quote !in s
    ensures Rewritten(Quoted(quote, atWordBoundary), prev, s) == s
    decreases |s|
  {
    if s != "" {
      assert s[0] in s && forall c :: c in s[1..] ==> c in s;
      NoQuotesStay(quote, atWordBoundary, s[0], s[1..]);
    }
  }

  lemma QuotedRunIs(quote: char, inside: string)
    requires forall k :: 0 <= k < |inside| ==> inside[k] != quote && inside[k] != '\r' && inside[k] != '\n'
    ensures IsQuotedRun(quote, [quote] + inside + [quote])
  {
    var s := [quote] + inside + [quote];
    assert forall k :: 0 < k < |s| - 1 ==> s[k] == inside[k - 1];
  }

  lemma StrHasNoIds()
    ensures WithoutIds("<str>") == "<str>"
  {
    PlainIsKept("<str>");
  }

  /** A single-quoted message becomes one mark, whatever it holds but other quotes. */
  lemma SingleQuotedBecomes(inside: string)
    requires forall k :: 0 <= k < |inside| ==> inside[k] !in "\"'\r\n"
    ensures Normalized("'" + inside + "'") == "<str>"
  {
    hide Find, Rewritten, WithoutIds;
    var s := "'" + inside + "'";
    QuotedRunIs('\'', inside);
    assert s[..|s|] == s;
    QuotedIff('\'', true, ' ', s, |s|);
    assert forall c :: c in s ==> c == '\'' || c in inside;
    NoQuotesStay('"', false, ' ', s);
    FoundWhole(SINGLE_QUOTED, s);
    StrHasNoIds();
  }

  predicate IsUuid(s: string) {
    |s| == 36 && forall k :: 0 <= k < 36 ==> if k in {8, 13, 18, 23} then s[k] == '-' else IsHex(s[k])
  }

  /** A UUID becomes one mark, though it may hold nothing but digits and dashes: UUIDs go before numbers. */
  lemma UuidBecomes(s: string)
    requires IsUuid(s)
    ensures Normalized(s) == "<uuid>"
  {
    hide Find, Rewritten;
    HexIsNoQuote();
    assert forall k :: 0 <= k < 36 ==> s[k] != '"' && s[k] != '\'';
    NoQuotesStay('"', false, ' ', s);
    NoQuotesStay('\'', true, ' ', s);
    NoHexId(s);
    FreeStays(HexId, ' ', s);
    UuidIff(' ', s, 36);
    FoundWhole(Uuid, s);
    MarkIsNoNumber("<uuid>");
  }

  lemma HexIsNoQuote()
    ensures !IsHex('"') && !IsHex('\'') && !IsHex('x') && !IsHex('-')
  {
  }

  lemma {:induction false} NoHexIdFrom(prev: char, s: string)
    requires 'x' !in s
    ensures Free(HexId, prev, s)
    decreases |s|
  {
    if s != "" {
      assert forall c :: c in s[1..] ==> c in s;
      assert |s| > 1 ==> s[1] in s;
      NoHexIdFrom(s[0], s[1..]);
    }
  }

  lemma NoHexId(s: string)
    requires IsUuid(s)
    ensures Free(HexId, ' ', s)
  {
    HexIsNoQuote();
    NoHexIdFrom(' ', s);
  }

  lemma MarkIsNoNumber(mark: string)
    requires mark == "<uuid>" || mark == "<n>"
    ensures Pass(Number, mark) == mark
  {
    hide Find, Rewritten;
    NoDigitsStay(' ', mark);
  }

  lemma {:induction false} NoDigitsStay(prev: char, s: string)
    requires forall c :: c in s ==> !IsDigit(c)
    ensures Rewritten(Number, prev, s) == s
    decreases |s|
  {
    if s != "" {
      assert s[0] in s && forall c :: c in s[1..] ==> c in s;
      NoDigitNoNumber(prev, s);
      NoDigitsStay(s[0], s[1..]);
    }
  }

  /** A message of digits becomes one mark. */
  lemma DigitsBecome(s: string)
    requires s != "" && (forall k :: 0 <= k < |s| ==> '0' <= s[k] <= '9')
    ensures Normalized(s) == "<n>"
  {
    hide Find, Rewritten;
    assert forall c :: c in s ==> '0' <= c <= '9';
    NoQuotesStay('"', false, ' ', s);
    NoQuotesStay('\'', true, ' ', s);
    NoHexIdFrom(' ', s);
    FreeStays(HexId, ' ', s);
    NoDashNoUuid(' ', s);
    FreeStays(Uuid, ' ', s);
    NumberIff(' ', s, |s|);
    FoundWhole(Number, s);
  }

  lemma {:induction false} NoDashNoUuid(prev: char, s: string)
    requires '-' !in s
    ensures Free(Uuid, prev, s)
    decreases |s|
  {
    if s != "" {
      assert forall c :: c in s[1..] ==> c in s;
      assert |s| >= 36 ==> s[8] in s && (UuidByte(8, s[8]) <==> s[8] == '-');
      NoDashNoUuid(s[0], s[1..]);
    }
  }

  /** And an object id keeps nothing but its 0x. */
  lemma ObjectIdBecomes(digits: string)
    requires |digits| >= 4 && forall k :: 0 <= k < |digits| ==> IsHex(digits[k])
    ensures Normalized("0x" + digits) == "0x"
  {
    hide Find, Rewritten, IsHex;
    var s := "0x" + digits;
    assert forall k :: 2 <= k < |s| ==> s[k] == digits[k - 2];
    HexIsNoQuote();
    assert forall c :: c in s ==> c == '0' || c == 'x' || c in digits;
    NoQuotesStay('"', false, ' ', s);
    NoQuotesStay('\'', true, ' ', s);
    assert s[..2] == "0x";
    HexIdIff(' ', s, |s|);
    FoundWhole(HexId, s);
    ZeroXStays();
  }

  lemma ZeroXStays()
    ensures Pass(Number, Pass(Uuid, "0x")) == "0x"
  {
    hide Rewritten;
    NoDashNoUuid(' ', "0x");
    FreeStays(Uuid, ' ', "0x");
    NoNumberInZeroX();
    FreeStays(Number, ' ', "0x");
  }

  lemma NoNumberInZeroX()
    ensures Free(Number, ' ', "0x")
  {
    assert "0x"[1..] == "x" && "x"[1..] == "";
    SpanLenIs(IsDigit, "0x", 1);
  }

  // ---------------------------------------------------------------- the order of the passes

  lemma SameFound(rule: Rule, p: char, q: char, s: string)
    requires s != "" && !IsWord(p) && !IsWord(q)
    ensures Find(rule, p, s) == Find(rule, q, s)
  {
    hide IsWord, InsideLen, SpanLen, StartsWithUuid, Standalone;
  }

  lemma NoWordBefore(rule: Rule, p: char, q: char, s: string)
    requires !IsWord(p) && !IsWord(q)
    ensures Rewritten(rule, p, s) == Rewritten(rule, q, s)
  {
    hide IsWord, Find, Rewritten;
    if s == "" {
      NothingToRewrite(rule, p, s);
      NothingToRewrite(rule, q, s);
    } else {
      SameFound(rule, p, q, s);
      Turn(rule, p, s);
      Turn(rule, q, s);
    }
  }

  /** No later pass finds anything in the mark, and what follows it is rewritten as on its own. */
  lemma StrIsPassed(rule: Rule, s: string)
    requires rule != DOUBLE_QUOTED && rule in {SINGLE_QUOTED, HexId, Uuid, Number}
    ensures Rewritten(rule, ' ', "<str>" + s) == "<str>" + Rewritten(rule, ' ', s)
  {
    hide Rewritten;
    CopiedBeforeStr(rule, ' ', '<', "str>" + s);
    CopiedBeforeStr(rule, '<', 's', "tr>" + s);
    CopiedBeforeStr(rule, 's', 't', "r>" + s);
    CopiedBeforeStr(rule, 't', 'r', ">" + s);
    CopiedBeforeStr(rule, 'r', '>', s);
    NoWordBefore(rule, '>', ' ', s);
    assert ['<'] + ("str>" + s) == "<str>" + s && ['s'] + ("tr>" + s) == "str>" + s;
    assert ['t'] + ("r>" + s) == "tr>" + s && ['r'] + (">" + s) == "r>" + s && ['>'] + s == ">" + s;
  }

  lemma CopiedBeforeStr(rule: Rule, prev: char, c: char, rest: string)
    requires rule in {SINGLE_QUOTED, HexId, Uuid, Number} && c in "<str>"
    ensures Rewritten(rule, prev, [c] + rest) == [c] + Rewritten(rule, c, rest)
  {
    hide Rewritten;
    var s := [c] + rest;
    assert !IsHex(c) && c != '\'' && s[0] == c;
    if |s| >= 36 {
      assert UuidByte(0, s[0]) <==> IsHex(c);
    }
    NotFoundIsCopied(rule, prev, c, rest);
  }

  /** A double-quoted run at the start goes first, before any other rule can find something in it or across
      its quotes, and the rest is normalised as on its own. */
  lemma DoubleQuotesGoFirst(inside: string, rest: string)
    requires forall k :: 0 <= k < |inside| ==> inside[k] != '"' && inside[k] != '\r' && inside[k] != '\n'
    ensures Normalized("\"" + inside + "\"" + rest) == "<str>" + Normalized(rest)
  {
    hide Find, Rewritten, IsQuotedRun;
    var found := "\"" + inside + "\"";
    QuotedRunIs('"', inside);
    var s := found + rest;
    assert s[..|found|] == found;
    QuotedIff('"', false, ' ', s, |found|);
    FoundIsReplaced(DOUBLE_QUOTED, ' ', found, rest);
    NoWordBefore(DOUBLE_QUOTED, '"', ' ', rest);
    var d := Pass(DOUBLE_QUOTED, rest);
    assert Pass(DOUBLE_QUOTED, s) == "<str>" + d;
    StrIsPassed(SINGLE_QUOTED, d);
    var q := Pass(SINGLE_QUOTED, d);
    StrIsPassed(HexId, q);
    StrIsPassed(Uuid, Pass(HexId, q));
    StrIsPassed(Number, Pass(Uuid, Pass(HexId, q)));
  }

  /** A quote that a digit follows closes no run. */
  lemma NotClosedBeforeDigit()
    ensures Pass(SINGLE_QUOTED, "'a'5") == "'a'5"
  {
    hide Find, Rewritten;
    var s := "'a'5";
    var n := Find(SINGLE_QUOTED, ' ', s);
    if n > 0 {
      QuotedIff('\'', true, ' ', s, n);
    }
    assert ['\''] + "a'5" == s;
    NotFoundIsCopied(SINGLE_QUOTED, ' ', '\'', "a'5");
    ApostrophesStay('\'', "a'5");
  }

  /** Quotes go before numbers: the digit is still there when the quote before it is looked at. */
  lemma QuotesGoBeforeNumbers()
    ensures Normalized("'a'5") == "'a'<n>"
  {
    hide Find, Rewritten;
    var s := "'a'5";
    NoQuotesStay('"', false, ' ', s);
    NotClosedBeforeDigit();
    NoHexIdFrom(' ', s);
    FreeStays(HexId, ' ', s);
    NoDashNoUuid(' ', s);
    FreeStays(Uuid, ' ', s);
    NumberAtEnd();
  }

  lemma NumberAtEnd()
    ensures Pass(Number, "'a'5") == "'a'<n>"
  {
    hide Rewritten;
    assert ['\''] + "a'5" == "'a'5" && ['a'] + "'5" == "a'5" && ['\''] + "5" == "'5" && "5" + "" == "5";
    NotFoundIsCopied(Number, ' ', '\'', "a'5");
    NotFoundIsCopied(Number, '\'', 'a', "'5");
    NotFoundIsCopied(Number, 'a', '\'', "5");
    NumberIff('\'', "5", 1);
    FoundIsReplaced(Number, '\'', "5", "");
    NothingToRewrite(Number, '5', "");
  }
}
