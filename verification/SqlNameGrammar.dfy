// The grammar of SQL names, and that the tokenizer reads the longest name wherever one starts.
module SqlNameGrammar {
  import opened Ascii
  import opened SqlTokens

  // ---------------------------------------------------------------- the grammar

  /** Letters, digits, underscores and $ # @, one at least. */
  predicate IsBare(t: string) {
    t != "" && forall k :: 0 <= k < |t| ==> IsWord(t[k]) || t[k] == '$' || t[k] == '#' || t[k] == '@'
  }

  /** Anything but the closing byte, one character at least, between the two. */
  predicate IsDelimited(t: string, open: char, close: char) {
    && |t| >= 3 && t[0] == open && t[|t| - 1] == close
    && forall k :: 0 < k < |t| - 1 ==> t[k] != close
  }

  predicate IsPartOfName(t: string) {
    IsBare(t) || IsDelimited(t, '"', '"') || IsDelimited(t, '`', '`') || IsDelimited(t, '[', ']')
  }

  /** Parts joined by dots. */
  predicate IsQualified(t: string)
    decreases |t|
  {
    exists k :: 0 < k <= |t| && SplitsAt(t, k) && (k == |t| || IsQualified(t[k + 1..]))
  }

  /** The first k bytes are a part, and the text or a dot follows its end. */
  predicate SplitsAt(t: string, k: nat)
    requires k <= |t|
  {
    IsPartOfName(t[..k]) && (k == |t| || t[k] == '.')
  }

  // ---------------------------------------------------------------- one part

  lemma PartIsPart(s: string)
    requires NamePartLen(s) > 0
    ensures IsPartOfName(s[..NamePartLen(s)])
  {
    var n := NamePartLen(s);
    var t := s[..n];
    if !IsNameByte(s[0]) {
      var j := 1 + SpanLen(Inside(s[0]), s[1..]);
      assert n == j + 1;
      assert forall k :: 0 < k < j ==> t[k] == s[1..][k - 1];
      assert t[j] == s[1..][j - 1];
    }
  }

  lemma DelimitedIsFound(s: string, n: nat, open: char, close: char)
    requires n <= |s| && IsDelimited(s[..n], open, close)
    requires (open == close == '"') || (open == close == '`') || (open == '[' && close == ']')
    ensures NamePartLen(s) == n
  {
    var t := s[..n];
    assert s[0] == t[0];
    var u := s[1..];
    assert forall k :: 0 <= k < n - 2 ==> u[k] == t[k + 1];
    assert u[n - 2] == t[n - 1];
    SpanLenIs(Inside(open), u, n - 2);
  }

  /** The part that starts s is found whole: exactly when it is delimited or a dot or the end follows. */
  lemma PartIsFound(s: string, n: nat)
    requires n <= |s| && IsPartOfName(s[..n])
    ensures NamePartLen(s) >= n
    ensures n < |s| && s[n] == '.' ==> NamePartLen(s) == n
  {
    if IsDelimited(s[..n], '"', '"') {
      DelimitedIsFound(s, n, '"', '"');
    } else if IsDelimited(s[..n], '`', '`') {
      DelimitedIsFound(s, n, '`', '`');
    } else if IsDelimited(s[..n], '[', ']') {
      DelimitedIsFound(s, n, '[', ']');
    } else {
      assert forall k :: 0 <= k < n ==> s[..n][k] == s[k];
      if n < |s| && s[n] == '.' {
        SpanLenIs(IsNameByte, s, n);
      }
    }
  }

  // ---------------------------------------------------------------- whole names

  lemma DottedName(s: string)
    requires var p := NamePartLen(s); p > 0 && p < |s| && s[p] == '.' && NameLen(s[p + 1..]) > 0
    ensures var p := NamePartLen(s); NameLen(s) == p + 1 + NameLen(s[p + 1..])
  {
    hide NamePartLen, MorePartsLen;
    var p := NamePartLen(s);
    MorePartsStep(s, p);
    DropDrop(s, p + 1, NamePartLen(s[p + 1..]));
  }

  lemma UndottedName(s: string)
    requires var p := NamePartLen(s); p > 0 && (p == |s| || s[p] != '.' || NameLen(s[p + 1..]) < 0)
    ensures NameLen(s) == NamePartLen(s)
  {
    hide NamePartLen, MorePartsLen;
    MorePartsStep(s, NamePartLen(s));
  }

  lemma NameNeedsPart(s: string)
    ensures NameLen(s) > 0 <==> NamePartLen(s) > 0
    ensures NameLen(s) > 0 || NameLen(s) == -1
    ensures NamePartLen(s) > 0 || NamePartLen(s) == -1
  {
  }

  /** What is read is a name of the grammar. */
  lemma {:induction false} NameIsQualified(s: string)
    requires NameLen(s) > 0
    ensures IsQualified(s[..NameLen(s)])
    decreases |s|
  {
    hide NamePartLen, NameLen, IsPartOfName;
    NameNeedsPart(s);
    var p, n := NamePartLen(s), NameLen(s);
    PartIsPart(s);
    if p < |s| && s[p] == '.' && NameLen(s[p + 1..]) > 0 {
      DottedName(s);
      NameIsQualified(s[p + 1..]);
      DropOfTake(s, n, p + 1);
      assert s[..n][..p] == s[..p] && s[..n][p] == '.';
      assert SplitsAt(s[..n], p);
    } else {
      if p < |s| {
        NameNeedsPart(s[p + 1..]);
      }
      UndottedName(s);
      assert s[..n][..p] == s[..p];
      assert SplitsAt(s[..n], p);
    }
  }

  /** And no longer one starts there. */
  lemma {:induction false} NoLongerName(s: string, m: nat)
    requires m <= |s| && IsQualified(s[..m])
    ensures m <= NameLen(s)
    decreases |s|
  {
    hide NamePartLen, NameLen, IsPartOfName;
    var t := s[..m];
    var k :| 0 < k <= |t| && SplitsAt(t, k) && (k == |t| || IsQualified(t[k + 1..]));
    assert t[..k] == s[..k];
    PartIsFound(s, k);
    NameNeedsPart(s);
    if k == m {
      PartIsShorter(s);
    } else {
      assert s[k] == t[k] == '.';
      DropOfTake(s, m, k + 1);
      NoLongerName(s[k + 1..], m - k - 1);
      NotEmpty(t[k + 1..]);
      DottedName(s);
    }
  }

  lemma NotEmpty(t: string)
    requires IsQualified(t)
    ensures t != ""
  {
  }

  lemma PartIsShorter(s: string)
    ensures NamePartLen(s) <= NameLen(s)
  {
  }

  /** A full name is a name of the grammar, and nothing else. */
  lemma FullNameIff(s: string)
    ensures IsFullName(s) <==> IsQualified(s)
  {
    hide NameLen, IsQualified;
    assert s[..|s|] == s;
    if IsFullName(s) {
      NameIsQualified(s);
    }
    if IsQualified(s) {
      NotEmpty(s);
      NoLongerName(s, |s|);
      NameFits(s);
    }
  }

  lemma NameFits(s: string)
    ensures NameLen(s) <= |s|
  {
  }

  // ---------------------------------------------------------------- the tokens

  /** Between white space each token is the longest name that starts there, or one byte where none does. */
  ghost predicate Reads(s: string, tokens: seq<Token>)
    decreases |tokens|
  {
    var u := TrimLeft(s);
    if tokens == [] then u == ""
    else
      && FirstToken(u, tokens[0])
      && Reads(u[|tokens[0].text|..], tokens[1..])
  }

  ghost predicate FirstToken(u: string, token: Token) {
    && token.text != "" && token.text <= u
    && (token.isName ==> IsQualified(token.text))
    && (!token.isName ==> |token.text| == 1)
    && forall m: nat :: m <= |u| && IsQualified(u[..m]) ==> token.isName && m <= |token.text|
  }

  lemma FirstIsLongest(u: string)
    requires u != ""
    ensures var n := NameLen(u);
            FirstToken(u, if n >= 0 then Token(u[..n], true) else Token(u[..1], false))
  {
    hide NameLen, IsQualified;
    NameFits(u);
    NameNeedsPart(u);
    if NameLen(u) > 0 {
      NameIsQualified(u);
    }
    forall m: nat | m <= |u| && IsQualified(u[..m]) ensures NameLen(u) > 0 && m <= NameLen(u) {
      NoLongerName(u, m);
      NotEmpty(u[..m]);
    }
  }

  lemma {:induction false} TokensRead(s: string)
    ensures Reads(s, Tokens(s))
    decreases |s|
  {
    hide NameLen, Tokens, FirstToken, TrimLeft;
    if s == "" {
      NoTokens(s);
      NothingToTrim(s);
    } else {
      TokensTurn(s);
      if IsSpace(s[0]) {
        TokensRead(s[1..]);
        TrimmedAfterSpace(s);
      } else {
        var n := NameLen(s);
        NameFits(s);
        NameNeedsPart(s);
        var k := if n >= 0 then n else 1;
        var token := Token(s[..k], n >= 0);
        NothingToTrim(s);
        FirstIsLongest(s);
        TokensRead(s[k..]);
        assert Tokens(s)[0] == token && Tokens(s)[1..] == Tokens(s[k..]);
      }
    }
  }

  lemma NothingToTrim(s: string)
    requires s == "" || !IsSpace(s[0])
    ensures TrimLeft(s) == s
  {
  }

  // ---------------------------------------------------------------- trimming and cutting

  lemma {:induction false} TrimRightSpace(s: string, spaces: string)
    requires AllOf(IsSpace, spaces)
    ensures TrimRight(s + spaces) == TrimRight(s)
    decreases |spaces|
  {
    if spaces == "" {
      assert s + spaces == s;
    } else {
      var m := |spaces| - 1;
      assert (s + spaces)[..|s| + m] == s + spaces[..m];
      assert (s + spaces)[|s| + m] == spaces[m];
      TrimRightSpace(s, spaces[..m]);
    }
  }

  /** A name with white space around it is cleaned like the name alone, and cut after 200 characters. */
  lemma CleanedAlike(before: string, name: string, after: string)
    requires AllOf(IsSpace, before) && AllOf(IsSpace, after) && IsFullName(name)
    ensures Clipped(before + name + after) == if |name| > 200 then name[..200] else name
  {
    hide NameLen, TrimRight;
    NameIsOnlyCut(name);
    FullNameIsSolid(name);
    var s := before + name + after;
    SpanLenIs(IsSpace, s, |before|);
    assert TrimLeft(s) == name + after;
    TrimRightSpace(name, after);
    SpanLenIs(IsSpace, name, 0);
    assert TrimLeft(name) == name;
  }

  lemma FullNameIsSolid(name: string)
    requires IsFullName(name)
    ensures name != "" && !IsSpace(name[0])
  {
    hide MorePartsLen, NamePartLen;
    PartEndsSolid(name);
  }

  lemma {:induction false} CleaningAppends(names: seq<string>, k: nat)
    requires k <= |names|
    ensures AllCleaned(names[..k]) <= AllCleaned(names)
  {
    hide Clipped, IsFullName;
    var m := |names| - 1;
    if k <= m {
      CleaningAppends(names[..m], k);
      assert names[..m][..k] == names[..k];
    } else {
      assert names[..k] == names;
    }
  }

  /** Names are reported in the order they are first given in, and the cut to ten takes off the last: a name
      given before a reported one is first given is reported, before it. */
  lemma ReportedInOrder(names: seq<string>, i: nat, k: nat)
    requires i < |Cleaned(names)| && k < |names| && IsFullName(Clipped(names[k]))
    requires forall j :: 0 <= j <= k ==> Clipped(names[j]) != Cleaned(names)[i]
    ensures Clipped(names[k]) in Cleaned(names)[..i]
  {
    hide Clipped, IsFullName;
    var all, early := AllCleaned(names), AllCleaned(names[..k + 1]);
    CleaningAppends(names, k + 1);
    assert names[..k + 1][k] == names[k];
    AllCleanedHas(names[..k + 1], Clipped(names[k]));
    AllCleanedHas(names[..k + 1], Cleaned(names)[i]);
    assert i >= |early|;
    var j :| 0 <= j < |early| && early[j] == Clipped(names[k]);
    assert Cleaned(names)[..i][j] == early[j];
  }
}
