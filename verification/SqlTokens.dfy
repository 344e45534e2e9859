// The SQL tokenizer: namePartEnd, nameEnd, tokenizeSQL, isFullName and cleanSQLNames.
module SqlTokens {
  import opened Ascii

  const MAX_SQL_NAMES := 10
  const MAX_NAME_LENGTH := 200

  datatype Token = Token(text: string, isName: bool)

  predicate IsNameByte(c: char) {
    IsWord(c) || c == '$' || c == '#' || c == '@'
  }

  predicate NotDoubleQuote(c: char) {
    c != '"'
  }

  predicate NotBacktick(c: char) {
    c != '`'
  }

  predicate NotBracket(c: char) {
    c != ']'
  }

  /** The bytes a quoted part opened by this byte can hold. */
  function Inside(open: char): char -> bool {
    if open == '"' then NotDoubleQuote else if open == '`' then NotBacktick else NotBracket
  }

  // ---------------------------------------------------------------- what the tokenizer computes

  /** Length of the identifier part at the start of s, bare or quoted, or -1. */
  function NamePartLen(s: string): (n: int)
    ensures n == -1 || 0 < n <= |s|
  {
    if s == "" then -1
    else if IsNameByte(s[0]) then SpanLen(IsNameByte, s)
    else if s[0] == '"' || s[0] == '`' || s[0] == '[' then
      var j := 1 + SpanLen(Inside(s[0]), s[1..]);
      if j < |s| && j > 1 then j + 1 else -1
    else -1
  }

  /** Length of the further parts of a qualified name, each after a dot. */
  function MorePartsLen(s: string): (n: nat)
    ensures n <= |s|
    decreases |s|
  {
    if s == "" || s[0] != '.' || NamePartLen(s[1..]) < 0 then 0
    else
      var k := 1 + NamePartLen(s[1..]);
      k + MorePartsLen(s[k..])
  }

  function NameLen(s: string): (n: int)
    ensures n == -1 || 0 < n <= |s|
  {
    var p := NamePartLen(s);
    if p < 0 then -1 else p + MorePartsLen(s[p..])
  }

  function Tokens(s: string): seq<Token>
    decreases |s|
  {
    if s == "" then []
    else if IsSpace(s[0]) then Tokens(s[1..])
    else if NameLen(s) >= 0 then [Token(s[..NameLen(s)], true)] + Tokens(s[NameLen(s)..])
    else [Token(s[..1], false)] + Tokens(s[1..])
  }

  predicate IsFullName(s: string) {
    s != "" && NameLen(s) == |s|
  }

  // ---------------------------------------------------------------- the tokenizer

  method NamePartEnd(s: string, i: nat) returns (end: int)
    requires i <= |s|
    ensures end == EndAt(i, NamePartLen(s[i..]))
  {
    hide SpanLen;
    if i >= |s| {
      return -1;
    }
    var c := s[i];
    if IsNameByte(c) {
      end := SpanEnd(IsNameByte, s, i);
    } else if c == '"' || c == '`' || c == '[' {
      DropDrop(s, i, 1);
      var j := SpanEnd(Inside(c), s, i + 1);
      if j < |s| && j > i + 1 {
        return j + 1;
      }
      return -1;
    } else {
      return -1;
    }
  }

  method NameEnd(s: string, i: nat) returns (end: int)
    requires i <= |s|
    ensures end == EndAt(i, NameLen(s[i..]))
  {
    hide NamePartLen, MorePartsLen;
    end := NamePartEnd(s, i);
    if end < 0 {
      return -1;
    }
    DropDrop(s, i, end - i);
    while end < |s| && s[end] == '.'
      invariant i <= end <= |s|
      invariant i + NameLen(s[i..]) == end + MorePartsLen(s[end..])
      decreases |s| - end
    {
      MorePartsStep(s, end);
      var next := NamePartEnd(s, end + 1);
      if next < 0 {
        break;
      }
      end := next;
    }
    MorePartsStep(s, end);
  }

  lemma MorePartsStep(s: string, end: nat)
    requires end <= |s|
    ensures MorePartsLen(s[end..]) ==
            if end < |s| && s[end] == '.' && NamePartLen(s[end + 1..]) >= 0
            then 1 + NamePartLen(s[end + 1..]) + MorePartsLen(s[end + 1 + NamePartLen(s[end + 1..])..])
            else 0
  {
    hide NamePartLen;
    if end < |s| {
      DropDrop(s, end, 1);
      var n := NamePartLen(s[end + 1..]);
      if n >= 0 {
        DropDrop(s, end, 1 + n);
      }
    }
  }

  method TokenizeSql(s: string) returns (tokens: seq<Token>)
    ensures tokens == Tokens(s)
  {
    hide Tokens, NameLen;
    tokens := [];
    var i := 0;
    assert s[0..] == s;
    while i < |s|
      invariant 0 <= i <= |s|
      invariant Tokens(s) == tokens + Tokens(s[i..])
    {
      TokensStep(tokens, s, i);
      if IsSpace(s[i]) {
        i := i + 1;
        continue;
      }
      var end := NameEnd(s, i);
      if end >= 0 {
        tokens := tokens + [Token(s[i..end], true)];
        i := end;
        continue;
      }
      tokens := tokens + [Token(s[i..i + 1], false)];
      i := i + 1;
    }
    NoTokens(s[i..]);
  }

  lemma NoTokens(s: string)
    requires s == ""
    ensures Tokens(s) == []
  {
  }

  lemma TokensStep(tokens: seq<Token>, s: string, i: nat)
    requires i < |s|
    ensures var n := NameLen(s[i..]);
            tokens + Tokens(s[i..]) ==
            if IsSpace(s[i]) then tokens + Tokens(s[i + 1..])
            else if n >= 0 then tokens + [Token(s[i..i + n], true)] + Tokens(s[i + n..])
            else tokens + [Token(s[i..i + 1], false)] + Tokens(s[i + 1..])
  {
    hide NameLen, Tokens;
    var u := s[i..];
    var n := NameLen(u);
    TokensTurn(u);
    DropDrop(s, i, 1);
    if !IsSpace(s[i]) {
      var k := if n >= 0 then n else 1;
      DropDrop(s, i, k);
      assert u[..k] == s[i..i + k];
      var token := Token(s[i..i + k], n >= 0);
      assert tokens + ([token] + Tokens(s[i + k..])) == tokens + [token] + Tokens(s[i + k..]);
    }
  }

  lemma TokensTurn(s: string)
    requires s != ""
    ensures Tokens(s) ==
            if IsSpace(s[0]) then Tokens(s[1..])
            else if NameLen(s) >= 0 then [Token(s[..NameLen(s)], true)] + Tokens(s[NameLen(s)..])
            else [Token(s[..1], false)] + Tokens(s[1..])
  {
    hide NameLen;
  }

  // ---------------------------------------------------------------- nothing is lost

  function TrimLeft(s: string): string {
    s[SpanLen(IsSpace, s)..]
  }

  /** s is these tokens, in order, with nothing but whitespace before, between and after them. */
  predicate Spells(s: string, tokens: seq<Token>)
    decreases |tokens|, 1
  {
    SpellsNow(TrimLeft(s), tokens)
  }

  predicate SpellsNow(s: string, tokens: seq<Token>)
    decreases |tokens|, 0
  {
    if tokens == [] then s == ""
    else tokens[0].text <= s && Spells(s[|tokens[0].text|..], tokens[1..])
  }

  lemma TrimmedAfterSpace(s: string)
    requires s != "" && IsSpace(s[0])
    ensures TrimLeft(s) == TrimLeft(s[1..])
  {
    hide IsSpace;
  }

  lemma SpellsAfterSpace(s: string, tokens: seq<Token>)
    requires s != "" && IsSpace(s[0]) && Spells(s[1..], tokens)
    ensures Spells(s, tokens)
  {
    hide TrimLeft, SpellsNow;
    TrimmedAfterSpace(s);
  }

  lemma {:induction false} TokensSpell(s: string)
    ensures Spells(s, Tokens(s))
    ensures forall t :: t in Tokens(s) ==> t.text != "" && !IsSpace(t.text[0])
    decreases |s|
  {
    hide NameLen, Spells;
    if s == "" {
      EmptySpells();
    } else if IsSpace(s[0]) {
      TokensSpell(s[1..]);
      SpellsAfterSpace(s, Tokens(s[1..]));
    } else {
      var n := if NameLen(s) >= 0 then NameLen(s) else 1;
      TokensSpell(s[n..]);
      SpellsFirst(s, n, NameLen(s) >= 0, Tokens(s[n..]));
    }
  }

  lemma EmptySpells()
    ensures Spells("", [])
  {
  }

  lemma SpellsFirst(s: string, n: nat, isName: bool, rest: seq<Token>)
    requires 0 < n <= |s| && !IsSpace(s[0]) && Spells(s[n..], rest)
    ensures Spells(s, [Token(s[..n], isName)] + rest)
  {
    hide Spells;
    assert TrimLeft(s) == s;
    var tokens := [Token(s[..n], isName)] + rest;
    assert tokens[1..] == rest && tokens[0].text == s[..n];
    assert SpellsNow(s, tokens);
    SpellsMeans(s, tokens);
  }

  lemma SpellsMeans(s: string, tokens: seq<Token>)
    ensures Spells(s, tokens) <==> SpellsNow(TrimLeft(s), tokens)
  {
  }

  // ---------------------------------------------------------------- names parse to themselves

  lemma PartOfPrefix(s: string, m: nat)
    requires m <= |s| && 0 < NamePartLen(s) <= m
    ensures NamePartLen(s[..m]) == NamePartLen(s)
  {
  }

  lemma MorePartsTurn(s: string)
    requires s != "" && s[0] == '.' && NamePartLen(s[1..]) >= 0
    ensures MorePartsLen(s) == 1 + NamePartLen(s[1..]) + MorePartsLen(s[1 + NamePartLen(s[1..])..])
  {
    hide NamePartLen;
  }

  lemma MorePartsBegin(s: string)
    requires MorePartsLen(s) > 0
    ensures s != "" && s[0] == '.' && NamePartLen(s[1..]) > 0
  {
    hide NamePartLen;
  }

  lemma DropOfTake(s: string, r: nat, k: nat)
    requires k <= r <= |s|
    ensures s[..r][k..] == s[k..][..r - k]
  {
  }

  lemma {:induction false} MorePartsOfPrefix(s: string)
    ensures MorePartsLen(s[..MorePartsLen(s)]) == MorePartsLen(s)
    decreases |s|
  {
    hide NamePartLen, MorePartsLen;
    var r := MorePartsLen(s);
    if r > 0 {
      MorePartsBegin(s);
      MorePartsTurn(s);
      var n := NamePartLen(s[1..]);
      var k := 1 + n;
      var t := s[..r];
      DropOfTake(s, r, 1);
      DropOfTake(s, r, k);
      PartOfPrefix(s[1..], r - 1);
      MorePartsTurn(t);
      MorePartsOfPrefix(s[k..]);
    } else {
      NoMoreParts(s[..r]);
    }
  }

  lemma NoMoreParts(s: string)
    requires s == ""
    ensures MorePartsLen(s) == 0
  {
  }

  /** A name cut out of the statement parses to itself, so each name token is a full name. */
  lemma NameOfPrefix(s: string)
    requires NameLen(s) > 0
    ensures IsFullName(s[..NameLen(s)])
  {
    hide NamePartLen, MorePartsLen;
    var n := NameLen(s);
    var p := NamePartLen(s);
    PartOfPrefix(s, n);
    MorePartsOfPrefix(s[p..]);
    DropOfTake(s, n, p);
  }

  lemma {:induction false} NameTokensAreFullNames(s: string)
    ensures forall t :: t in Tokens(s) && t.isName ==> IsFullName(t.text)
    decreases |s|
  {
    hide NameLen, IsFullName;
    if s != "" {
      if IsSpace(s[0]) || NameLen(s) < 0 {
        NameTokensAreFullNames(s[1..]);
      } else {
        NameTokensAreFullNames(s[NameLen(s)..]);
        NameOfPrefix(s);
      }
    }
  }

  // ---------------------------------------------------------------- cleaning names

  function TrimRight(s: string): string {
    if s != "" && IsSpace(s[|s| - 1]) then TrimRight(s[..|s| - 1]) else s
  }

  /** What is sent for a raw name: trimmed and cut to its first 200 characters. */
  function Clipped(raw: string): string {
    var name := TrimRight(TrimLeft(raw));
    if |name| > MAX_NAME_LENGTH then name[..MAX_NAME_LENGTH] else name
  }

  lemma PartEndsSolid(s: string)
    requires NamePartLen(s) > 0
    ensures !IsSpace(s[0]) && !IsSpace(s[NamePartLen(s) - 1])
  {
  }

  lemma {:induction false} MorePartsEndSolid(s: string)
    ensures var r := MorePartsLen(s); r > 0 ==> !IsSpace(s[r - 1])
    decreases |s|
  {
    hide NamePartLen;
    if MorePartsLen(s) > 0 {
      var k := 1 + NamePartLen(s[1..]);
      PartEndsSolid(s[1..]);
      MorePartsEndSolid(s[k..]);
    }
  }

  /** A name has no whitespace to trim: what is sent for it is the name, or its first 200 characters. */
  lemma NameIsOnlyCut(name: string)
    requires IsFullName(name)
    ensures Clipped(name) == if |name| > 200 then name[..200] else name
  {
    hide NamePartLen, MorePartsLen;
    var p := NamePartLen(name);
    PartEndsSolid(name);
    MorePartsEndSolid(name[p..]);
    assert !IsSpace(name[|name| - 1]);
    assert SpanLen(IsSpace, name) == 0 && name[0..] == name;
  }

  function WithName(cleaned: seq<string>, raw: string): seq<string> {
    var name := Clipped(raw);
    if IsFullName(name) && name !in cleaned then cleaned + [name] else cleaned
  }

  function AllCleaned(names: seq<string>): seq<string> {
    if names == [] then [] else WithName(AllCleaned(names[..|names| - 1]), names[|names| - 1])
  }

  function Cleaned(names: seq<string>): seq<string> {
    var all := AllCleaned(names);
    if |all| > MAX_SQL_NAMES then all[..MAX_SQL_NAMES] else all
  }

  method CleanSqlNames(names: seq<string>) returns (cleaned: seq<string>)
    ensures cleaned == Cleaned(names)
  {
    hide Clipped, IsFullName;
    cleaned := [];
    for i := 0 to |names|
      invariant cleaned == AllCleaned(names[..i])
    {
      var name := Clipped(names[i]);
      assert names[..i + 1][..i] == names[..i];
      if !IsFullName(name) {
        continue;
      }
      var duplicate := false;
      for j := 0 to |cleaned|
        invariant duplicate <==> name in cleaned[..j]
      {
        if cleaned[j] == name {
          duplicate := true;
          break;
        }
      }
      assert cleaned[..|cleaned|] == cleaned;
      if !duplicate {
        cleaned := cleaned + [name];
      }
    }
    assert names[..|names|] == names;
    if |cleaned| > MAX_SQL_NAMES {
      cleaned := cleaned[..MAX_SQL_NAMES];
    }
  }

  /** The names are distinct, and are exactly the full names among the clipped ones. */
  lemma {:induction false} AllCleanedHas(names: seq<string>, name: string)
    ensures name in AllCleaned(names) <==>
            exists i :: 0 <= i < |names| && Clipped(names[i]) == name && IsFullName(name)
    ensures forall i, j :: 0 <= i < j < |AllCleaned(names)| ==> AllCleaned(names)[i] != AllCleaned(names)[j]
  {
    hide Clipped, IsFullName;
    if names != [] {
      var m := |names| - 1;
      AllCleanedHas(names[..m], name);
      AllCleanedHas(names[..m], Clipped(names[m]));
      assert forall i :: 0 <= i < m ==> names[..m][i] == names[i];
      if name in AllCleaned(names[..m]) {
        var i :| 0 <= i < m && Clipped(names[..m][i]) == name && IsFullName(name);
        assert Clipped(names[i]) == name;
      }
    }
  }

  /** What is reported: at most ten names, no two the same, each the clipped form of one given and a
      full qualified name; and nothing is left out while there is room. */
  lemma CleanedMeans(names: seq<string>, name: string)
    ensures |Cleaned(names)| <= 10
    ensures forall i, j :: 0 <= i < j < |Cleaned(names)| ==> Cleaned(names)[i] != Cleaned(names)[j]
    ensures name in Cleaned(names) ==> IsFullName(name) && exists i :: 0 <= i < |names| && Clipped(names[i]) == name
    ensures IsFullName(name) && (exists i :: 0 <= i < |names| && Clipped(names[i]) == name) ==>
            name in Cleaned(names) || |Cleaned(names)| == 10
  {
    hide Clipped, IsFullName;
    AllCleanedHas(names, name);
  }
}
