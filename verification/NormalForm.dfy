// What the message normaliser guarantees about its result, whatever the e-mail step before it did.
module NormalForm {
  import opened Ascii
  import opened Normalize

  // ---------------------------------------------------------------- normal forms

  /** Nothing the rule looks for is anywhere in s, which follows prev. */
  predicate Free(rule: Rule, prev: char, s: string)
    decreases |s|
  {
    s == "" || (Find(rule, prev, s) < 0 && Free(rule, s[0], s[1..]))
  }

  /** The same, position by position. */
  lemma {:induction false} FreeMeansNowhere(rule: Rule, prev: char, s: string, i: nat)
    requires Free(rule, prev, s) && i < |s|
    ensures Find(rule, if i == 0 then prev else s[i - 1], s[i..]) < 0
    decreases i
  {
    hide Find;
    assert s[0..] == s;
    if i > 0 {
      FreeMeansNowhere(rule, s[0], s[1..], i - 1);
      DropDrop(s, 1, i - 1);
    }
  }

  lemma {:induction false} FreeStays(rule: Rule, prev: char, s: string)
    requires Free(rule, prev, s)
    ensures Rewritten(rule, prev, s) == s
    decreases |s|
  {
    hide Find;
    if s != "" {
      FreeStays(rule, s[0], s[1..]);
    }
  }

  /** What a rule finds begins with this byte, and what it writes does too. */
  lemma MarkStarts(rule: Rule)
    requires rule.HexId? || rule.Uuid? || rule.Number?
    ensures Mark(rule) != "" && Mark(rule)[0] == if rule.HexId? then '0' else '<'
  {
  }

  /** A stretch of output without the byte marks start with was copied. */
  lemma {:induction false} CopiedStretch(rule: Rule, prev: char, s: string, m: nat)
    requires rule.Uuid? || rule.Number?
    requires m <= |Rewritten(rule, prev, s)| && '<' !in Rewritten(rule, prev, s)[..m]
    ensures var t := Rewritten(rule, prev, s);
            && m <= |s| && t[..m] == s[..m]
            && t[m..] == Rewritten(rule, if m == 0 then prev else s[m - 1], s[m..])
    decreases m
  {
    hide Find, Rewritten;
    var t := Rewritten(rule, prev, s);
    assert s[0..] == s;
    if m > 0 {
      if s == "" {
        NothingToRewrite(rule, prev, s);
      }
      Turn(rule, prev, s);
      MarkStarts(rule);
      assert t[0] in t[..m];
      assert t == [s[0]] + Rewritten(rule, s[0], s[1..]);
      var t' := Rewritten(rule, s[0], s[1..]);
      assert t[1..] == t' && t[..m] == [t[0]] + t'[..m - 1];
      CopiedStretch(rule, s[0], s[1..], m - 1);
      assert s[..m] == [s[0]] + s[1..][..m - 1];
      DropDrop(s, 1, m - 1);
      DropDrop(t, 1, m - 1);
      assert m > 1 ==> s[1..][m - 2] == s[m - 1];
    }
  }

  /** After a word byte nothing is a UUID or a standalone number, so the next byte is copied. */
  lemma CopiedAfterWordByte(rule: Rule, prev: char, s: string)
    requires (rule.Uuid? || rule.Number?) && IsWord(prev) && s != ""
    ensures var t := Rewritten(rule, prev, s); t != "" && t[0] == s[0]
  {
  }

  // ---------------------------------------------------------------- each pass reaches its own normal form

  /** A byte no rule's find can start at. */
  lemma CannotStart(rule: Rule, prev: char, s: string)
    requires !rule.Quoted? && s != "" && s[0] != '0' && (!IsHex(s[0]) || IsWord(prev))
    ensures Find(rule, prev, s) < 0
  {
  }

  /** Text in which nothing any of these rules looks for can start. */
  predicate Inert(m: string) {
    && m != "" && !IsHex(m[0])
    && forall j :: 0 < j < |m| ==> m[j] != '0' && (IsHex(m[j]) ==> IsWord(m[j - 1]))
  }

  lemma {:induction false} FreeBefore(rule: Rule, prev: char, m: string, x: string)
    requires !rule.Quoted? && m != "" && Free(rule, m[|m| - 1], x)
    requires m[0] != '0' && (IsHex(m[0]) ==> IsWord(prev))
    requires forall j :: 0 < j < |m| ==> m[j] != '0' && (IsHex(m[j]) ==> IsWord(m[j - 1]))
    ensures Free(rule, prev, m + x)
    decreases |m|
  {
    hide Find;
    var s := m + x;
    DropOfJoin(m, x, 1);
    assert s[0] == m[0];
    CannotStart(rule, prev, s);
    if |m| > 1 {
      var m' := m[1..];
      forall j | 0 < j < |m'| ensures m'[j] != '0' && (IsHex(m'[j]) ==> IsWord(m'[j - 1])) {
        assert m'[j] == m[j + 1] && m'[j - 1] == m[j];
      }
      FreeBefore(rule, m[0], m', x);
    } else {
      assert s[1..] == x;
    }
  }

  /** The marks of the last two passes hold nothing any pass looks for. */
  lemma FreeBeforeMark(rule: Rule, made: Rule, prev: char, x: string)
    requires !rule.Quoted? && (made.Uuid? || made.Number?) && Free(rule, '>', x)
    ensures Free(rule, prev, Mark(made) + x)
  {
    hide Free;
    var m := Mark(made);
    assert m[0] == '<' && m[1] in "un" && m[|m| - 1] == '>';
    assert |m| == 3 || (m[2] == 'u' && m[3] == 'i' && m[4] == 'd');
    assert |m| == 3 || |m| == 6;
    assert IsWord('i');
    assert Inert(m);
    FreeBefore(rule, prev, m, x);
  }

  /** The byte before is as it was, or it was masked away and no word byte follows. */
  predicate Follows(prev: char, prev': char, s: string) {
    prev' == prev || (prev' == '>' && (s == "" || !IsWord(s[0])))
  }

  lemma {:induction false} WordsAreCopied(rule: Rule, prev: char, s: string, w: nat)
    requires (rule.Uuid? || rule.Number?) && IsWord(prev)
    requires w <= |s| && forall j :: 0 <= j < w ==> IsWord(s[j])
    ensures var t := Rewritten(rule, prev, s); w <= |t| && t[..w] == s[..w]
    decreases w
  {
    hide Find, Rewritten, Mark;
    if w > 0 {
      CopiedAfterWordByte(rule, prev, s);
      CopiedFirst(rule, prev, s);
      WordsAreCopied(rule, s[0], s[1..], w - 1);
      var t, t' := Rewritten(rule, prev, s), Rewritten(rule, s[0], s[1..]);
      assert t[..w] == [s[0]] + t'[..w - 1] && s[..w] == [s[0]] + s[1..][..w - 1];
    }
  }

  lemma CopiedFirst(rule: Rule, prev: char, s: string)
    requires (rule.Uuid? || rule.Number?) && s != "" && IsWord(prev)
    ensures Rewritten(rule, prev, s) == [s[0]] + Rewritten(rule, s[0], s[1..])
  {
  }

  /** Digits glued to a word byte stay so. */
  lemma GluedNumberStays(prev: char, s: string, t: string)
    requires s != "" && IsDigit(s[0]) && Find(Number, prev, s) < 0
    requires t == [s[0]] + Rewritten(Number, s[0], s[1..])
    ensures Find(Number, prev, t) < 0
  {
    hide Rewritten, SpanLen;
    var k := SpanLen(IsDigit, s);
    if !IsWord(prev) {
      assert k > 0;
      forall j | 0 <= j < k ensures IsWord(s[1..][j]) {
        assert s[1..][j] == s[j + 1];
      }
      WordsAreCopied(Number, s[0], s[1..], k);
      var t' := Rewritten(Number, s[0], s[1..]);
      assert forall j :: 0 < j <= k ==> t[j] == t'[..k][j - 1] == s[j];
      SpanLenIs(IsDigit, t, k);
    }
  }

  lemma {:induction false} NumbersAreGone(prev: char, prev': char, s: string)
    requires Follows(prev, prev', s)
    ensures Free(Number, prev', Rewritten(Number, prev, s))
    decreases |s|
  {
    hide Find;
    if s != "" {
      var t := Rewritten(Number, prev, s);
      var n := Find(Number, prev, s);
      if n > 0 {
        NumberEnds(prev, s);
        NumbersAreGone(s[n - 1], '>', s[n..]);
        FreeBeforeMark(Number, Number, prev', Rewritten(Number, s[n - 1], s[n..]));
      } else {
        NumbersAreGone(s[0], s[0], s[1..]);
        assert t[1..] == Rewritten(Number, s[0], s[1..]);
        if IsDigit(s[0]) {
          GluedNumberStays(prev, s, t);
        } else {
          NoDigitNoNumber(prev', t);
        }
      }
    }
  }

  lemma NoDigitNoNumber(prev: char, s: string)
    requires s != "" && !IsDigit(s[0])
    ensures Find(Number, prev, s) < 0
  {
  }

  lemma NumberEnds(prev: char, s: string)
    requires s != "" && Find(Number, prev, s) > 0
    ensures var n := Find(Number, prev, s); s[n..] == "" || !IsWord(s[n..][0])
  {
    hide SpanLen;
  }

  /** A UUID in the output of a later pass, or of the UUID pass itself, was one in the input. */
  lemma UuidWasThere(rule: Rule, prev: char, prev': char, s: string)
    requires (rule.Uuid? || rule.Number?) && s != "" && Follows(prev, prev', s)
    requires var t := Rewritten(rule, prev, s); t != "" && t[0] == s[0] && Find(Uuid, prev', t) > 0
    ensures Find(Uuid, prev, s) > 0
  {
    hide Rewritten;
    var t := Rewritten(rule, prev, s);
    assert UuidByte(0, t[0]);
    forall j | 0 <= j < 36 ensures t[j] != '<' {
      assert UuidByte(j, t[j]);
    }
    CopiedStretch(rule, prev, s, 36);
    assert forall j :: 0 <= j < 36 ==> t[..36][j] == s[..36][j];
    assert UuidByte(35, t[35]) && IsWord(s[35]);
    if |s| > 36 {
      CopiedAfterWordByte(rule, s[35], s[36..]);
      assert t[36] == t[36..][0] == s[36];
    }
  }

  lemma {:induction false} UuidsStayAway(rule: Rule, prev: char, prev': char, s: string)
    requires rule.Uuid? || (rule.Number? && Free(Uuid, prev, s))
    requires Follows(prev, prev', s)
    ensures Free(Uuid, prev', Rewritten(rule, prev, s))
    decreases |s|
  {
    hide Find;
    if s != "" {
      var t := Rewritten(rule, prev, s);
      var n := Find(rule, prev, s);
      if n > 0 {
        MarkedEnds(rule, prev, s);
        if rule.Number? {
          FreeAfter(Uuid, prev, s, n);
        }
        UuidsStayAway(rule, s[n - 1], '>', s[n..]);
        FreeBeforeMark(Uuid, rule, prev', Rewritten(rule, s[n - 1], s[n..]));
      } else {
        UuidsStayAway(rule, s[0], s[0], s[1..]);
        assert t[1..] == Rewritten(rule, s[0], s[1..]);
        if Find(Uuid, prev', t) > 0 {
          UuidWasThere(rule, prev, prev', s);
        }
      }
    }
  }

  lemma MarkedEnds(rule: Rule, prev: char, s: string)
    requires (rule.Uuid? || rule.Number?) && s != "" && Find(rule, prev, s) > 0
    ensures var n := Find(rule, prev, s); s[n..] == "" || !IsWord(s[n..][0])
  {
    hide SpanLen, StartsWithUuid;
  }

  lemma {:induction false} FreeAfter(rule: Rule, prev: char, s: string, n: nat)
    requires Free(rule, prev, s) && 0 < n <= |s|
    ensures Free(rule, s[n - 1], s[n..])
    decreases n
  {
    hide Find;
    if n > 1 {
      FreeAfter(rule, s[0], s[1..], n - 1);
      DropDrop(s, 1, n - 1);
    }
  }

  // Object ids: 0x and at least four hex digits.

  predicate StartsWithId(s: string) {
    |s| >= 6 && s[0] == '0' && s[1] == 'x' && forall k :: 2 <= k < 6 ==> IsHex(s[k])
  }

  lemma IdBySix(prev: char, s: string)
    requires s != ""
    ensures Find(HexId, prev, s) > 0 <==> StartsWithId(s)
  {
  }

  lemma {:induction false} HexRunIsKept(prev: char, s: string)
    ensures SpanLen(IsHex, Rewritten(HexId, prev, s)) == SpanLen(IsHex, s)
    decreases |s|
  {
    hide HexLen;
    if s != "" {
      Turn(HexId, prev, s);
      var t := Rewritten(HexId, prev, s);
      var n := Find(HexId, prev, s);
      if n > 0 {
        IdBySix(prev, s);
        assert t[0] == '0' && t[1] == 'x';
        SpanLenIs(IsHex, t, 1);
        SpanLenIs(IsHex, s, 1);
      } else {
        HexRunIsKept(s[0], s[1..]);
        assert t[1..] == Rewritten(HexId, s[0], s[1..]);
      }
    }
  }

  lemma {:induction false} IdsAreGone(prev: char, prev': char, s: string)
    ensures Free(HexId, prev', Rewritten(HexId, prev, s))
    decreases |s|
  {
    hide Find, Rewritten;
    var t := Rewritten(HexId, prev, s);
    if s == "" {
      NothingToRewrite(HexId, prev, s);
    } else {
      Turn(HexId, prev, s);
      var n := Find(HexId, prev, s);
      var k := if n > 0 then n else 1;
      var t' := Rewritten(HexId, s[k - 1], s[k..]);
      if n > 0 {
        IdsAreGone(s[n - 1], 'x', s[n..]);
        IdIsTaken(prev, s);
        HexRunIsKept(s[n - 1], s[n..]);
        FreeAfterShortId(prev', t');
      } else {
        IdsAreGone(s[0], s[0], s[1..]);
        assert t[1..] == t';
        NoIdAppears(prev, prev', s);
      }
    }
  }

  lemma IdIsTaken(prev: char, s: string)
    requires s != "" && Find(HexId, prev, s) > 0
    ensures SpanLen(IsHex, s[Find(HexId, prev, s)..]) == 0
  {
  }

  lemma FreeAfterShortId(prev: char, x: string)
    requires SpanLen(IsHex, x) == 0 && Free(HexId, 'x', x)
    ensures Free(HexId, prev, "0x" + x)
  {
  }

  /** Where the input has no object id and is copied, the output has none. */
  lemma NoIdAppears(prev: char, prev': char, s: string)
    requires s != "" && Find(HexId, prev, s) < 0
    ensures var t := Rewritten(HexId, prev, s); t != "" && Find(HexId, prev', t) < 0
  {
    hide SpanLen, Rewritten, Mark;
    var t := Rewritten(HexId, prev, s);
    Turn(HexId, prev, s);
    var u := s[1..];
    var t' := Rewritten(HexId, s[0], u);
    assert t[1..] == t';
    if t' != "" && t'[0] == 'x' {
      if u == "" {
        NothingToRewrite(HexId, s[0], u);
      }
      SecondByteIsCopied(s[0], u);
      HexRunIsKept(s[1], s[2..]);
      DropDrop(s, 1, 1);
      DropDrop(t, 1, 1);
    } else {
      assert |t| > 1 ==> t[1] == t'[0];
    }
  }

  lemma SecondByteIsCopied(prev: char, u: string)
    requires u != "" && Rewritten(HexId, prev, u) != "" && Rewritten(HexId, prev, u)[0] == 'x'
    ensures u[0] == 'x' && Rewritten(HexId, prev, u)[1..] == Rewritten(HexId, u[0], u[1..])
  {
  }

  lemma IdWasCopied(rule: Rule, prev: char, s: string)
    requires (rule.Uuid? || rule.Number?) && StartsWithId(Rewritten(rule, prev, s))
    ensures StartsWithId(s)
  {
    hide Rewritten;
    var t := Rewritten(rule, prev, s);
    CopiedStretch(rule, prev, s, 6);
    assert forall j :: 0 <= j < 6 ==> t[..6][j] == s[..6][j];
  }

  /** The later passes make no object id. */
  lemma {:induction false} IdsStayAway(rule: Rule, prev: char, p: char, prev': char, s: string)
    requires (rule.Uuid? || rule.Number?) && Free(HexId, p, s)
    ensures Free(HexId, prev', Rewritten(rule, prev, s))
    decreases |s|
  {
    hide Find;
    if s != "" {
      var t := Rewritten(rule, prev, s);
      var n := Find(rule, prev, s);
      if n > 0 {
        FreeAfter(HexId, p, s, n);
        IdsStayAway(rule, s[n - 1], s[n - 1], '>', s[n..]);
        FreeBeforeMark(HexId, rule, prev', Rewritten(rule, s[n - 1], s[n..]));
      } else {
        IdsStayAway(rule, s[0], s[0], s[0], s[1..]);
        assert t[1..] == Rewritten(rule, s[0], s[1..]);
        IdBySix(p, s);
        IdBySix(prev', t);
        if StartsWithId(t) {
          IdWasCopied(rule, prev, s);
        }
      }
    }
  }

  // ---------------------------------------------------------------- the last three passes

  /** No object id, UUID or standalone number is left, whatever the text was. */
  lemma NoIdsAreLeft(s: string)
    ensures var t := WithoutIds(s);
            Free(HexId, ' ', t) && Free(Uuid, ' ', t) && Free(Number, ' ', t)
  {
    hide Rewritten, Free;
    var h := Pass(HexId, s);
    IdsAreGone(' ', ' ', s);
    IdsStayAway(Uuid, ' ', ' ', ' ', h);
    UuidsStayAway(Uuid, ' ', ' ', h);
    var u := Pass(Uuid, h);
    IdsStayAway(Number, ' ', ' ', ' ', u);
    UuidsStayAway(Number, ' ', ' ', u);
    NumbersAreGone(' ', ' ', u);
  }

  /** So running them again changes nothing. */
  lemma WithoutIdsTwice(s: string)
    ensures WithoutIds(WithoutIds(s)) == WithoutIds(s)
  {
    hide Rewritten, Free;
    var t := WithoutIds(s);
    NoIdsAreLeft(s);
    FreeStays(HexId, ' ', t);
    FreeStays(Uuid, ' ', t);
    FreeStays(Number, ' ', t);
  }
}
