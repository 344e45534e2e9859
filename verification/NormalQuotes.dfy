// The quotes of a normalised message: at most one double quote a line, and when normalising twice is
// normalising once.
module NormalQuotes {
  import opened Ascii
  import opened Normalize
  import opened NormalForm

  // ---------------------------------------------------------------- one double quote a line

  /** No line of s has two double quotes, nor the rest of the first line one when seen. */
  predicate OneQuote(seen: bool, s: string)
    decreases |s|
  {
    s == "" ||
    if IsBreak(s[0]) then OneQuote(false, s[1..])
    else if s[0] == '"' then !seen && OneQuote(true, s[1..])
    else OneQuote(seen, s[1..])
  }

  /** Said with positions: between two double quotes there is a line break. */
  lemma {:induction false} OneQuoteMeans(seen: bool, s: string, i: nat, j: nat)
    requires OneQuote(seen, s) && i < j < |s| && s[i] == s[j] == '"'
    ensures exists k :: i < k < j && IsBreak(s[k])
    decreases |s|
  {
    var u := s[1..];
    if i > 0 {
      OneQuoteMeans(if IsBreak(s[0]) then false else seen || s[0] == '"', u, i - 1, j - 1);
      var k :| i - 1 < k < j - 1 && IsBreak(u[k]);
      assert IsBreak(s[k + 1]);
    } else {
      var k := SeenMeans(u, j - 1);
      assert IsBreak(s[k + 1]);
    }
  }

  lemma {:induction false} SeenMeans(s: string, j: nat) returns (k: nat)
    requires OneQuote(true, s) && j < |s| && s[j] == '"'
    ensures k < j && IsBreak(s[k])
    decreases |s|
  {
    if IsBreak(s[0]) {
      k := 0;
    } else {
      k := SeenMeans(s[1..], j - 1);
      k := k + 1;
    }
  }

  lemma {:induction false} SeenIsHarder(s: string)
    requires OneQuote(true, s)
    ensures OneQuote(false, s)
    decreases |s|
  {
    if s != "" && !IsBreak(s[0]) {
      SeenIsHarder(s[1..]);
    }
  }

  predicate NoBreak(s: string) {
    forall k :: 0 <= k < |s| ==> !IsBreak(s[k])
  }

  /** Taking text without a line break out of a line adds no quote to it. */
  lemma {:induction false} OneQuoteAfter(seen: bool, s: string, n: nat)
    requires OneQuote(seen, s) && n <= |s| && NoBreak(s[..n])
    ensures OneQuote(seen, s[n..])
    decreases n
  {
    assert s[0..] == s;
    if n > 0 {
      assert s[..n][0] == s[0] && s[1..][..n - 1] == s[..n][1..];
      if s[0] == '"' {
        SeenIsHarder(s[1..]);
      }
      OneQuoteAfter(seen, s[1..], n - 1);
      DropDrop(s, 1, n - 1);
    }
  }

  lemma {:induction false} OneQuoteBefore(seen: bool, m: string, x: string)
    requires OneQuote(seen, x) && NoBreak(m) && '"' !in m
    ensures OneQuote(seen, m + x)
    decreases |m|
  {
    if m == "" {
      assert m + x == x;
    } else {
      assert (m + x)[1..] == m[1..] + x && m[0] in m;
      OneQuoteBefore(seen, m[1..], x);
    }
  }

  lemma MarksAreQuoteless(rule: Rule)
    ensures NoBreak(Mark(rule)) && '"' !in Mark(rule) && '\'' !in Mark(rule)
  {
  }

  /** No pass takes a line break out. */
  lemma FoundInOneLine(rule: Rule, prev: char, s: string)
    requires s != "" && !(rule.Quoted? && IsBreak(rule.quote))
    ensures var n := Find(rule, prev, s); n > 0 ==> NoBreak(s[..n])
  {
  }

  /** Every pass keeps at most one double quote a line. */
  lemma {:induction false} OneQuoteIsKept(rule: Rule, seen: bool, prev: char, s: string)
    requires OneQuote(seen, s) && !(rule.Quoted? && IsBreak(rule.quote))
    ensures OneQuote(seen, Rewritten(rule, prev, s))
    decreases |s|
  {
    hide Find, Mark;
    if s != "" {
      var t := Rewritten(rule, prev, s);
      var n := Find(rule, prev, s);
      if n > 0 {
        FoundInOneLine(rule, prev, s);
        OneQuoteAfter(seen, s, n);
        OneQuoteIsKept(rule, seen, s[n - 1], s[n..]);
        MarksAreQuoteless(rule);
        OneQuoteBefore(seen, Mark(rule), Rewritten(rule, s[n - 1], s[n..]));
      } else {
        OneQuoteIsKept(rule, if IsBreak(s[0]) then false else seen || s[0] == '"', s[0], s[1..]);
        assert t[1..] == Rewritten(rule, s[0], s[1..]);
      }
    }
  }

  /** The rest of the first line has no double quote. */
  predicate NoQuoteLeft(s: string) {
    var k := InsideLen('"', s); k == |s| || s[k] != '"'
  }

  lemma NoQuoteLeftStep(s: string)
    requires s != "" && NoQuoteLeft(s)
    ensures s[0] != '"' && (!IsBreak(s[0]) ==> NoQuoteLeft(s[1..]))
  {
  }

  lemma UnclosedMeansNoneLeft(prev: char, s: string)
    requires s != "" && s[0] == '"' && Find(DOUBLE_QUOTED, prev, s) < 0
    ensures NoQuoteLeft(s[1..])
  {
    hide InsideLen;
  }

  /** The double-quote pass leaves at most one a line: an opener without a closer before the line's
      end has no second one after it. */
  lemma {:induction false} DoubleQuotesPair(seen: bool, prev: char, s: string)
    requires seen ==> NoQuoteLeft(s)
    ensures OneQuote(seen, Rewritten(DOUBLE_QUOTED, prev, s))
    decreases |s|
  {
    hide Find, Mark, NoQuoteLeft;
    if s != "" {
      var t := Rewritten(DOUBLE_QUOTED, prev, s);
      var n := Find(DOUBLE_QUOTED, prev, s);
      if seen {
        NoQuoteLeftStep(s);
      }
      if n > 0 {
        OpensWithQuote(prev, s);
        DoubleQuotesPair(seen, s[n - 1], s[n..]);
        MarksAreQuoteless(DOUBLE_QUOTED);
        OneQuoteBefore(seen, Mark(DOUBLE_QUOTED), Rewritten(DOUBLE_QUOTED, s[n - 1], s[n..]));
      } else {
        if s[0] == '"' {
          UnclosedMeansNoneLeft(prev, s);
        }
        DoubleQuotesPair(if IsBreak(s[0]) then false else seen || s[0] == '"', s[0], s[1..]);
        assert t[1..] == Rewritten(DOUBLE_QUOTED, s[0], s[1..]);
      }
    }
  }

  lemma OpensWithQuote(prev: char, s: string)
    requires s != "" && Find(DOUBLE_QUOTED, prev, s) > 0
    ensures s[0] == '"'
  {
    hide InsideLen;
  }

  /** Whatever the message and whatever the e-mail step did to it, the normalised text has no object
      id, no UUID, no standalone number and no two double quotes on a line. */
  lemma NormalizedIsNormal(message: string, email: string -> string)
    ensures var t := Normalized(email(message));
            && Free(HexId, ' ', t) && Free(Uuid, ' ', t) && Free(Number, ' ', t)
            && OneQuote(false, t)
  {
    hide Rewritten, Free, OneQuote;
    var d := Pass(DOUBLE_QUOTED, email(message));
    var q := Pass(SINGLE_QUOTED, d);
    DoubleQuotesPair(false, ' ', email(message));
    OneQuoteIsKept(SINGLE_QUOTED, false, ' ', d);
    var h := Pass(HexId, q);
    OneQuoteIsKept(HexId, false, ' ', q);
    OneQuoteIsKept(Uuid, false, ' ', h);
    OneQuoteIsKept(Number, false, ' ', Pass(Uuid, h));
    NoIdsAreLeft(q);
  }

  // ---------------------------------------------------------------- normalising twice

  lemma {:induction false} OneQuoteHasNoPair(seen: bool, prev: char, s: string)
    requires OneQuote(seen, s)
    ensures Free(DOUBLE_QUOTED, prev, s)
    decreases |s|
  {
    hide Find;
    if s != "" {
      OneQuoteHasNoPair(if IsBreak(s[0]) then false else seen || s[0] == '"', s[0], s[1..]);
      if s[0] == '"' {
        NoPairAt(prev, s);
      } else if Find(DOUBLE_QUOTED, prev, s) > 0 {
        OpensWithQuote(prev, s);
      }
    }
  }

  lemma NoPairAt(prev: char, s: string)
    requires s != "" && s[0] == '"' && OneQuote(true, s[1..])
    ensures Find(DOUBLE_QUOTED, prev, s) < 0
  {
    hide InsideLen;
    var u := s[1..];
    var k := InsideLen('"', u);
    if k < |u| && u[k] == '"' {
      var b := SeenMeans(u, k);
    }
  }

  function Count(c: char, s: string): nat {
    if s == "" then 0 else (if s[0] == c then 1 else 0) + Count(c, s[1..])
  }

  lemma {:induction false} CountJoin(c: char, a: string, b: string)
    ensures Count(c, a + b) == Count(c, a) + Count(c, b)
  {
    if a == "" {
      assert a + b == b;
    } else {
      assert (a + b)[1..] == a[1..] + b;
      CountJoin(c, a[1..], b);
    }
  }

  lemma {:induction false} NoneCounted(c: char, s: string)
    requires c !in s
    ensures Count(c, s) == 0
  {
    if s != "" {
      NoneCounted(c, s[1..]);
    }
  }

  /** No pass adds a single quote, and one that closes a single-quoted run takes two away. */
  lemma {:induction false} SingleQuotesDwindle(rule: Rule, prev: char, s: string)
    ensures Count('\'', Rewritten(rule, prev, s)) <= Count('\'', s)
    ensures rule == SINGLE_QUOTED && !Free(rule, prev, s) ==> Count('\'', Rewritten(rule, prev, s)) < Count('\'', s)
    decreases |s|
  {
    hide Find, Mark, Rewritten;
    if s == "" {
      NothingToRewrite(rule, prev, s);
    } else {
      Turn(rule, prev, s);
      var n := Find(rule, prev, s);
      var k := if n > 0 then n else 1;
      var t' := Rewritten(rule, s[k - 1], s[k..]);
      SingleQuotesDwindle(rule, s[k - 1], s[k..]);
      assert s == s[..k] + s[k..];
      CountJoin('\'', s[..k], s[k..]);
      if n > 0 {
        MarksAreQuoteless(rule);
        NoneCounted('\'', Mark(rule));
        CountJoin('\'', Mark(rule), t');
        if rule == SINGLE_QUOTED {
          OpensWithSingleQuote(prev, s);
          assert s[..k] == [s[0]] + s[..k][1..];
          CountJoin('\'', [s[0]], s[..k][1..]);
        }
      } else {
        CountJoin('\'', [s[0]], t');
        assert s[..1] == [s[0]];
      }
    }
  }

  lemma OpensWithSingleQuote(prev: char, s: string)
    requires s != "" && Find(SINGLE_QUOTED, prev, s) > 0
    ensures s[0] == '\''
  {
    hide InsideLen;
  }

  /** What normalising leaves alone: text in which no pass finds anything. */
  lemma NormalizedFixedIff(t: string)
    ensures Normalized(t) == t <==>
            && Free(DOUBLE_QUOTED, ' ', t) && Free(SINGLE_QUOTED, ' ', t)
            && Free(HexId, ' ', t) && Free(Uuid, ' ', t) && Free(Number, ' ', t)
  {
    hide Rewritten, Free, OneQuote;
    if Normalized(t) == t {
      NormalizedIsNormal(t, x => x);
      OneQuoteHasNoPair(false, ' ', t);
      NormalizedTwiceIff(t);
    }
    if Free(DOUBLE_QUOTED, ' ', t) && Free(SINGLE_QUOTED, ' ', t) && Free(HexId, ' ', t) && Free(Uuid, ' ', t)
       && Free(Number, ' ', t) {
      FreeStays(DOUBLE_QUOTED, ' ', t);
      FreeStays(SINGLE_QUOTED, ' ', t);
      FreeStays(HexId, ' ', t);
      FreeStays(Uuid, ' ', t);
      FreeStays(Number, ' ', t);
    }
  }

  /** Normalising a normalised text changes nothing exactly when it holds no closed single-quoted
      run. */
  lemma NormalizedTwiceIff(s: string)
    ensures var t := Normalized(s); Normalized(t) == t <==> Free(SINGLE_QUOTED, ' ', t)
  {
    hide Rewritten, Free, OneQuote;
    var t := Normalized(s);
    NormalizedIsNormal(s, x => x);
    OneQuoteHasNoPair(false, ' ', t);
    FreeStays(DOUBLE_QUOTED, ' ', t);
    var q := Pass(SINGLE_QUOTED, t);
    SingleQuotesDwindle(SINGLE_QUOTED, ' ', t);
    if Free(SINGLE_QUOTED, ' ', t) {
      FreeStays(SINGLE_QUOTED, ' ', t);
      FreeStays(HexId, ' ', t);
      FreeStays(Uuid, ' ', t);
      FreeStays(Number, ' ', t);
    } else {
      SingleQuotesDwindle(HexId, ' ', q);
      SingleQuotesDwindle(Uuid, ' ', Pass(HexId, q));
      SingleQuotesDwindle(Number, ' ', Pass(Uuid, Pass(HexId, q)));
    }
  }

  /** Text without a byte any of the last three passes can start at. */
  lemma PlainIsKept(s: string)
    requires s != "" && forall c :: c in s ==> !IsHex(c)
    ensures WithoutIds(s) == s
  {
    hide Rewritten, Find;
    assert IsHex('0') && forall j :: 0 <= j < |s| ==> s[j] in s;
    forall rule: Rule | !rule.Quoted? ensures Pass(rule, s) == s {
      assert s + "" == s;
      FreeBefore(rule, ' ', s, "");
      FreeStays(rule, ' ', s);
    }
  }

  /** A single quote opens a run when the next one on its line is followed by no word byte. */
  lemma OpenerAt(prev: char, s: string, k: nat)
    requires s != "" && s[0] == '\'' && !IsWord(prev) && 0 < k < |s| && s[k] == '\''
    requires forall j :: 0 < j < k ==> s[j] != '\'' && !IsBreak(s[j])
    ensures Find(SINGLE_QUOTED, prev, s) == if Standalone(s, k + 1) then k + 1 else -1
  {
  }

  lemma ExampleTail(prev: char)
    requires prev == '\''
    ensures Rewritten(SINGLE_QUOTED, prev, " x'") == " x'"
  {
  }

  /** Normalising is not idempotent on every message. */
  lemma NormalizingTwiceCanDiffer()
    ensures Normalized("' 'b' x'") == "' <str> x'"
    ensures Normalized("' <str> x'") != "' <str> x'"
  {
    hide Find, Rewritten, OneQuote, WithoutIds;
    var s, r, t := "' 'b' x'", "'b' x'", "' <str> x'";
    OpenerAt(' ', s, 2);
    OpenerAt(' ', r, 2);
    OpenerAt(' ', t, 9);
    ExampleTail('\'');
    ExampleDoubleQuotes();
    Turn(SINGLE_QUOTED, ' ', s);
    Turn(SINGLE_QUOTED, '\'', s[1..]);
    Turn(SINGLE_QUOTED, ' ', r);
    assert s[1..][1..] == r && r[3..] == " x'";
    SpaceOpensNothing('\'', s[1..]);
    assert Pass(SINGLE_QUOTED, s) == t;
    PlainIsKept(t);
    NormalizedTwiceIff(s);
  }

  lemma SpaceOpensNothing(prev: char, s: string)
    requires s != "" && s[0] == ' '
    ensures Find(SINGLE_QUOTED, prev, s) < 0
  {
  }

  lemma ExampleDoubleQuotes()
    ensures Pass(DOUBLE_QUOTED, "' 'b' x'") == "' 'b' x'"
  {
    hide Rewritten, Find;
    var s := "' 'b' x'";
    OneQuoteBefore(false, s, "");
    assert s + "" == s;
    OneQuoteHasNoPair(false, ' ', s);
    FreeStays(DOUBLE_QUOTED, ' ', s);
  }
}
