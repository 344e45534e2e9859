// The edges of masking: what counts as a string where, literals that never end, and the cut.
module SqlMaskWhole {
  import opened Ascii
  import opened SqlNumbers
  import opened SqlMask
  import opened SqlMaskPrivacy
  import opened SqlReading

  // ---------------------------------------------------------------- type prefixes

  /** The prefixes that belong to a string, and no others. */
  lemma TypePrefixes(prefix: string, rest: string)
    requires prefix != "" && '\'' !in prefix
    ensures PrefixLen(prefix + "'" + rest) == |prefix| <==>
            prefix in {"E", "e", "X", "x", "N", "n", "B", "b", "U&", "u&"}
  {
    var s := prefix + "'" + rest;
    assert s[0] == prefix[0] && s[|prefix|] == '\'';
    assert prefix[0] in prefix;
    if |prefix| == 1 {
      assert prefix == [prefix[0]];
    } else if |prefix| == 2 {
      assert prefix == [prefix[0], prefix[1]] && s[1] == prefix[1];
    }
  }

  /** A letter before a quote is copied where it ends a word: only the quote starts the string there. */
  lemma EndOfWordIsCopied(prev: char, c: char, rest: string, doubleQuotes: bool)
    requires (IsWord(prev) || prev == '$') && IsLetter(c)
    ensures Masked(prev, [c] + rest, doubleQuotes) == [c] + Masked(c, rest, doubleQuotes)
  {
    hide Masked;
    var s := [c] + rest;
    assert s[1..] == rest;
    MaskedTurn(prev, s, doubleQuotes);
  }

  /** A dollar opens a body when a second one follows it with nothing but letters and underscores between;
      a parameter such as $1 does not. */
  lemma DollarOpensIff(prev: char, rest: string, doubleQuotes: bool)
    ensures LiteralLen(prev, "$" + rest, doubleQuotes) > 0 <==>
            exists k :: 0 <= k < |rest| && rest[k] == '$'
                        && forall j :: 0 <= j < k ==> IsLetter(rest[j]) || rest[j] == '_'
  {
    hide IndexOf, IsLetter;
    var s := "$" + rest;
    assert s[1..] == rest;
    if k :| 0 <= k < |rest| && rest[k] == '$'
            && forall j :: 0 <= j < k ==> IsLetter(rest[j]) || rest[j] == '_' {
      DollarIsNoTagByte();
      SpanLenIs(IsTagByte, rest, k);
    }
    var n := SpanLen(IsTagByte, rest);
    assert forall j :: 0 <= j < n ==> IsLetter(rest[j]) || rest[j] == '_';
  }

  // ---------------------------------------------------------------- literals that never end

  /** A string cut off before its closing quote, even right after a backslash. */
  lemma {:induction false} NeverCloses(quote: char, body: string)
    requires quote == '\'' || quote == '"'
    requires StringBody(quote, body)
    ensures CloseLen(body, quote) == |body| && CloseLen(body + "\\", quote) == |body| + 1
    decreases |body|
  {
    var s := body + "\\";
    if body == "" {
      assert s == "\\";
    } else if body[0] != quote && body[0] != '\\' && StringBody(quote, body[1..]) {
      assert s[1..] == body[1..] + "\\";
      NeverCloses(quote, body[1..]);
    } else {
      assert s[2..] == body[2..] + "\\" && s[..2] == body[..2];
      assert body[0] == body[..2][0] && body[1] == body[..2][1];
      NeverCloses(quote, body[2..]);
    }
  }

  /** A literal that never ends is masked to the end of the statement, never left half visible. */
  lemma UnclosedIsMasked(prev: char, q: Quoting, body: string, doubleQuotes: bool)
    requires CanOpen(q, prev, doubleQuotes)
    requires if q.Dollar? then forall k: nat :: !OccursAt(Closer(q), body, k)
             else exists b :: StringBody(QuoteOf(q), b) && (body == b || body == b + "\\")
    ensures Masked(prev, Opener(q) + body, doubleQuotes) == "?"
  {
    hide CloseLen, NumberLen, DollarLen, Masked, OccursAt, StringBody;
    var s := Opener(q) + body;
    match q {
      case Dollar(name) => UnclosedDollar(name, body);
      case _ =>
        var b :| StringBody(QuoteOf(q), b) && (body == b || body == b + "\\");
        NeverCloses(QuoteOf(q), b);
        assert CloseLen(body, QuoteOf(q)) == |body|;
        UnclosedLen(prev, q, body, doubleQuotes);
    }
    assert s != "" by { OpenerIsSome(q); }
    assert LiteralLen(prev, s, doubleQuotes) == |s| by {
      if q.Dollar? {
        assert s[0] == '$';
      }
    }
    MaskedTurn(prev, s, doubleQuotes);
    assert s[|s|..] == "";
    EmptyIsEmpty(s[|s| - 1], doubleQuotes);
  }

  lemma OpenerIsSome(q: Quoting)
    ensures Opener(q) != ""
  {
  }

  lemma EmptyIsEmpty(prev: char, doubleQuotes: bool)
    ensures Masked(prev, "", doubleQuotes) == ""
  {
  }

  lemma UnclosedLen(prev: char, q: Quoting, body: string, doubleQuotes: bool)
    requires !q.Dollar? && CanOpen(q, prev, doubleQuotes) && CloseLen(body, QuoteOf(q)) == |body|
    ensures var s := Opener(q) + body; s != "" && LiteralLen(prev, s, doubleQuotes) == |s|
  {
    hide CloseLen, NumberLen, DollarLen, NumberLiteralLen;
    var s := Opener(q) + body;
    assert s[|Opener(q)|..] == body;
    if q.Single? {
      assert |q.pre| == 2 ==> q.pre[0] !in "EeXxNnBb" && !IsDigit(q.pre[0]);
    }
  }

  lemma UnclosedDollar(name: string, body: string)
    requires CanOpen(Dollar(name), ' ', false)
    requires forall k: nat :: !OccursAt(Closer(Dollar(name)), body, k)
    ensures var s := Opener(Dollar(name)) + body;
            s != "" && s[0] == '$' && DollarLen(s) == |s|
  {
    hide IndexOf, SpanLen, OccursAt;
    var tag := Closer(Dollar(name));
    var s := tag + body;
    TagSpan(name, body);
    assert s[..|tag|] == tag && s[|tag|..] == body;
    FoundOccurs(body, tag);
  }

  lemma FoundOccurs(s: string, t: string)
    ensures var n := IndexOf(s, t); n >= 0 ==> OccursAt(t, s, n)
  {
  }

  // ---------------------------------------------------------------- double quotes

  /** Double quotes hold strings for MySQL and MariaDB, named in any mix of cases, and for no other
      system. */
  lemma DoubleQuotesIff(system: string)
    ensures QuotesDouble(system) <==> Spells(system, "mysql") || Spells(system, "mariadb")
  {
    LowerSpells(system, "mysql");
    LowerSpells(system, "mariadb");
  }

  /** No double quote is left in what is sent for them. */
  lemma NoDoubleQuoteForMySql(statement: string, system: string)
    requires Spells(system, "mysql") || Spells(system, "mariadb")
    ensures '"' !in MaskedStatement(statement, system)
  {
    hide Masked, QuotesDouble, Spells;
    DoubleQuotesIff(system);
    NoQuoteSurvives(' ', statement, QuotesDouble(system));
  }

  /** For any other system the scan copies the double quote it comes to. */
  lemma DoubleQuoteIsCopied(prev: char, rest: string, system: string)
    requires !Spells(system, "mysql") && !Spells(system, "mariadb")
    ensures Masked(prev, "\"" + rest, QuotesDouble(system)) == "\"" + Masked('"', rest, QuotesDouble(system))
  {
    hide Masked, QuotesDouble, Spells;
    DoubleQuotesIff(system);
    var s := "\"" + rest;
    assert s[1..] == rest;
    MaskedTurn(prev, s, false);
  }

  // ---------------------------------------------------------------- blank statements and the cut

  /** Nothing is sent for a statement of white space, and something for any other. */
  lemma BlankIff(statement: string, system: string)
    ensures MaskedStatement(statement, system) == "" <==>
            forall k :: 0 <= k < |statement| ==> statement[k] as int in {32, 9, 10, 11, 12, 13}
  {
    hide Masked, QuotesDouble;
    if !Blank(statement) {
      MaskedIsSome(statement, QuotesDouble(system));
      var k :| 0 <= k < |statement| && !IsSpace(statement[k]);
    }
  }

  lemma MaskedIsSome(s: string, doubleQuotes: bool)
    requires s != ""
    ensures Masked(' ', s, doubleQuotes) != ""
  {
    MaskedTurn(' ', s, doubleQuotes);
  }

  /** Up to 4000 characters of the masked text are sent as they are; of a longer one the first 4000, and
      three dots. */
  lemma CutAt4000(statement: string, system: string)
    requires !Blank(statement)
    ensures var masked := Masked(' ', statement, QuotesDouble(system));
            MaskedStatement(statement, system) == if |masked| > 4000 then masked[..4000] + "..." else masked
  {
  }
}
