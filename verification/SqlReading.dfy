// What is read off a masked statement, said of its words in any mix of cases.
module SqlReading {
  import opened Ascii
  import opened Delivery
  import opened SqlTokens
  import opened SqlObjects
  import Mask = SqlMask

  // ---------------------------------------------------------------- words in any case

  /** The text spells this lower-case word, in any mix of cases. */
  predicate Spells(text: string, word: string) {
    |text| == |word| && forall k :: 0 <= k < |word| ==>
      text[k] == word[k] || ('a' <= word[k] <= 'z' && text[k] as int + 32 == word[k] as int)
  }

  predicate NoCapitals(word: string) {
    forall k :: 0 <= k < |word| ==> !('A' <= word[k] <= 'Z')
  }

  lemma LowerSpells(text: string, word: string)
    requires NoCapitals(word)
    ensures Mask.ToLower(text) == word <==> Spells(text, word)
  {
    if Spells(text, word) {
      assert Mask.ToLower(text) == word;
    }
  }

  lemma LowerHasNoCapitals(text: string)
    ensures NoCapitals(Mask.ToLower(text))
  {
  }

  predicate SpellsOneOf(text: string, words: set<string>) {
    exists word :: word in words && Spells(text, word)
  }

  lemma LowerInIff(text: string, words: set<string>)
    requires forall word :: word in words ==> NoCapitals(word)
    ensures Mask.ToLower(text) in words <==> SpellsOneOf(text, words)
  {
    hide NoCapitals, Spells;
    var lower := Mask.ToLower(text);
    LowerHasNoCapitals(text);
    LowerSpells(text, lower);
    forall word | word in words && Spells(text, word) ensures lower == word {
      LowerSpells(text, word);
    }
  }

  /** A name token that spells one of these words. */
  predicate Says(token: Token, words: set<string>) {
    token.isName && SpellsOneOf(token.text, words)
  }

  // ---------------------------------------------------------------- the words that matter

  /** A relation is named after FROM, JOIN, INTO, UPDATE and TABLE. */
  lemma RelationWords(tokens: seq<Token>, i: nat)
    ensures NamesAt(tokens, i) <==>
            && i + 1 < |tokens| && Says(tokens[i], {"from", "join", "into", "update", "table"})
            && tokens[i + 1].isName
  {
    hide SpellsOneOf, Mask.ToLower;
    if i < |tokens| {
      LowerInIff(tokens[i].text, {"from", "join", "into", "update", "table"});
    }
  }

  /** A procedure is called after CALL, EXEC, EXECUTE and PERFORM. */
  lemma CallWords(tokens: seq<Token>, i: nat)
    ensures CallsAt(tokens, i) <==>
            && i + 1 < |tokens| && Says(tokens[i], {"call", "exec", "execute", "perform"})
            && tokens[i + 1].isName
  {
    hide SpellsOneOf, Mask.ToLower;
    if i < |tokens| {
      LowerInIff(tokens[i].text, {"call", "exec", "execute", "perform"});
    }
  }

  /** Words that may follow a relation keyword without naming anything. */
  lemma WordsThatAreNoNames(token: Token)
    ensures IsKeywordNotName(LowerOf(token)) <==>
            SpellsOneOf(token.text, {"select", "set", "values", "where", "lateral", "only", "unnest",
                                     "generate_series"})
  {
    hide SpellsOneOf, Mask.ToLower;
    LowerInIff(token.text, {"select", "set", "values", "where", "lateral", "only", "unnest", "generate_series"});
  }

  /** After FROM and JOIN, and only there, a name with a parenthesis after it is a function's. */
  lemma FunctionsInFrom(tokens: seq<Token>, i: nat)
    requires i + 1 < |tokens|
    ensures IsTableFunction(tokens, i) <==>
            i + 2 < |tokens| && tokens[i + 2].text == "(" && SpellsOneOf(tokens[i].text, {"from", "join"})
  {
    hide SpellsOneOf, Mask.ToLower;
    LowerInIff(tokens[i].text, {"from", "join"});
  }

  /** The word, alone or as the part of a name before its first dot. */
  predicate StartsAName(name: string, word: string) {
    |word| <= |name| && Spells(name[..|word|], word) && (|name| == |word| || name[|word|] == '.')
  }

  lemma PartBeforeDot(name: string, word: string)
    requires NoCapitals(word) && '.' !in word
    ensures FirstPart(name) == word <==> StartsAName(name, word)
  {
    var n := SpanLen(NotDot, name);
    LowerSpells(name[..n], word);
    if StartsAName(name, word) {
      assert forall k :: 0 <= k < |word| ==> word[k] in word && name[..|word|][k] == name[k];
      SpanLenIs(NotDot, name, |word|);
    }
  }

  /** EXECUTE IMMEDIATE, and FUNCTION or PROCEDURE after a keyword, call nothing. */
  lemma NotProcedures(name: string)
    ensures IsNotProcedure(FirstPart(name)) <==>
            StartsAName(name, "immediate") || StartsAName(name, "function") || StartsAName(name, "procedure")
  {
    hide FirstPart, StartsAName;
    PartBeforeDot(name, "immediate");
    PartBeforeDot(name, "function");
    PartBeforeDot(name, "procedure");
  }

  /** The calls left out: EXTRACT, SUBSTRING, TRIM and OVERLAY with a parenthesis after them and, of
      parentheses, the closing one next. */
  lemma LeftOutCalls(tokens: seq<Token>, i: nat, close: nat)
    requires i < |tokens|
    ensures SkipAt(tokens, i) == Some(close) <==>
            && Says(tokens[i], {"extract", "substring", "trim", "overlay"})
            && i + 1 < |tokens| && tokens[i + 1].text == "("
            && i + 2 <= close < |tokens| && tokens[close].text == ")"
            && forall k :: i + 2 <= k < close ==> tokens[k].text != "(" && tokens[k].text != ")"
  {
    hide SpellsOneOf, Mask.ToLower, CloseFrom;
    LowerInIff(tokens[i].text, {"extract", "substring", "trim", "overlay"});
    CloseFromIff(tokens, i + 2, close);
  }

  /** SELECT f( with no FROM anywhere reports f, unless it is one of the functions every database has. */
  lemma SelectedIff(tokens: seq<Token>, name: string)
    ensures name in SelectedFunction(tokens) <==>
            && |tokens| >= 3 && Says(tokens[0], {"select"}) && tokens[1].isName && tokens[2].text == "("
            && tokens[1].text == name
            && !SpellsOneOf(name, BuiltinNames())
            && forall t :: t in tokens ==> !Says(t, {"from"})
  {
    hide SpellsOneOf, Mask.ToLower, IsBuiltin, BuiltinNames;
    forall t | t in tokens ensures Says(t, {"from"}) <==> t.isName && LowerOf(t) == "from" {
      LowerInIff(t.text, {"from"});
    }
    if |tokens| >= 3 {
      LowerInIff(tokens[0].text, {"select"});
      Builtins(tokens[1].text);
    }
  }

  lemma BuiltinsAreLower()
    ensures forall name :: IsBuiltin(name) ==> NoCapitals(name)
  {
  }

  /** The functions every database has, whose call is not reported. */
  function BuiltinNames(): (names: set<string>)
    ensures forall name :: name in names <==> IsBuiltin(name)
  {
    {"count", "sum", "min", "max", "avg", "now", "coalesce", "nullif", "lower", "upper", "length",
     "concat", "cast", "date_trunc", "current_timestamp", "current_date", "row_number", "rank",
     "json_build_object", "json_agg", "array_agg"}
  }

  lemma Builtins(name: string)
    ensures IsBuiltin(Mask.ToLower(name)) <==> SpellsOneOf(name, BuiltinNames())
  {
    hide SpellsOneOf, Mask.ToLower, NoCapitals, IsBuiltin;
    BuiltinsAreLower();
    LowerInIff(name, BuiltinNames());
  }

  // ---------------------------------------------------------------- the operation

  lemma {:induction false} LeadingSpace(spaces: string, s: string)
    requires AllOf(IsSpace, spaces)
    ensures Tokens(spaces + s) == Tokens(s)
    decreases |spaces|
  {
    hide Tokens, NameLen;
    if spaces == "" {
      assert spaces + s == s;
    } else {
      assert (spaces + s)[1..] == spaces[1..] + s;
      TokensTurn(spaces + s);
      LeadingSpace(spaces[1..], s);
    }
  }

  /** A word of letters, digits and underscores, with nothing of a name after it. */
  lemma WordIsName(word: string, rest: string)
    requires word != "" && AllOf(IsWord, word)
    requires rest == "" || (!IsNameByte(rest[0]) && rest[0] != '.')
    ensures NameLen(word + rest) == |word|
  {
    hide SpanLen;
    var s := word + rest;
    assert forall k :: 0 <= k < |word| ==> s[k] == word[k];
    SpanLenIs(IsNameByte, s, |word|);
    assert s[|word|..] == rest;
  }

  /** The statements known by their first word. */
  function StatementWords(): set<string> {
    {"select", "insert", "update", "delete", "merge", "with", "call", "exec", "execute", "create", "alter",
     "drop", "truncate"}
  }

  predicate IsStatementWord(word: string) {
    SpellsOneOf(word, StatementWords())
  }

  lemma OperationsAre(word: string)
    ensures IsOperation(Upper(word)) <==> IsStatementWord(word)
  {
    hide SpellsOneOf, Mask.ToLower, Upper;
    LowerInIff(word, StatementWords());
    UpperOfLower(word);
    LowerOfUpper(word);
    UpperCaseWords();
    LowerCaseWords();
  }

  lemma UpperOfLower(word: string)
    ensures Upper(Mask.ToLower(word)) == Upper(word)
  {
  }

  lemma LowerOfUpper(word: string)
    ensures Mask.ToLower(Upper(word)) == Mask.ToLower(word)
  {
  }

  lemma UpperCaseWords()
    ensures forall word :: word in StatementWords() ==> IsOperation(Upper(word))
  {
    assert Upper("select") == "SELECT" && Upper("insert") == "INSERT" && Upper("update") == "UPDATE";
    assert Upper("delete") == "DELETE" && Upper("merge") == "MERGE" && Upper("with") == "WITH";
    assert Upper("call") == "CALL" && Upper("exec") == "EXEC" && Upper("execute") == "EXECUTE";
    assert Upper("create") == "CREATE" && Upper("alter") == "ALTER" && Upper("drop") == "DROP";
    assert Upper("truncate") == "TRUNCATE";
  }

  lemma LowerCaseWords()
    ensures forall word :: IsOperation(word) ==> Mask.ToLower(word) in StatementWords()
  {
    assert Mask.ToLower("SELECT") == "select" && Mask.ToLower("INSERT") == "insert";
    assert Mask.ToLower("UPDATE") == "update" && Mask.ToLower("DELETE") == "delete";
    assert Mask.ToLower("MERGE") == "merge" && Mask.ToLower("WITH") == "with" && Mask.ToLower("CALL") == "call";
    assert Mask.ToLower("EXEC") == "exec" && Mask.ToLower("EXECUTE") == "execute";
    assert Mask.ToLower("CREATE") == "create" && Mask.ToLower("ALTER") == "alter";
    assert Mask.ToLower("DROP") == "drop" && Mask.ToLower("TRUNCATE") == "truncate";
  }

  /** A statement that starts with such a word, in any case, is reported with it, in capitals. */
  lemma OperationIsRead(spaces: string, word: string, rest: string)
    requires AllOf(IsSpace, spaces) && AllOf(IsWord, word) && IsStatementWord(word)
    requires rest == "" || (!IsNameByte(rest[0]) && rest[0] != '.')
    ensures var o := ObjectsOf(spaces + word + rest);
            o.Some? && o.value.operation == Upper(word)
  {
    hide Tokens, NameLen, KeptFrom, Cleaned, RawProcedures, RawTables, IsOperation, Upper, IsStatementWord;
    var s := spaces + word + rest;
    StatementWordsAreWords(word);
    OperationsAre(word);
    WordIsName(word, rest);
    assert s == spaces + (word + rest);
    LeadingSpace(spaces, word + rest);
    TokensTurn(word + rest);
    assert (word + rest)[..|word|] == word;
    FirstIsKept(Tokens(s), word);
    WholeWord(word);
    NotBlank(spaces, word, rest);
  }

  lemma StatementWordsAreWords(word: string)
    requires IsStatementWord(word)
    ensures word != "" && !IsFunctionLike(Mask.ToLower(word))
  {
    hide SpellsOneOf, Mask.ToLower;
    LowerCase();
    LowerInIff(word, StatementWords());
    var lower := Mask.ToLower(word);
    DifferentWords(lower);
    assert |lower| == |word|;
  }

  lemma LowerCase()
    ensures forall word :: word in StatementWords() ==> NoCapitals(word)
  {
  }

  lemma DifferentWords(word: string)
    requires word in StatementWords()
    ensures word != "" && !IsFunctionLike(word)
  {
  }

  lemma FirstIsKept(tokens: seq<Token>, word: string)
    requires tokens != [] && tokens[0] == Token(word, true) && !IsFunctionLike(Mask.ToLower(word))
    ensures KeptFrom(tokens, 0) != [] && KeptFrom(tokens, 0)[0] == tokens[0]
  {
  }

  lemma WholeWord(word: string)
    requires AllOf(IsWord, word)
    ensures SpanLen(IsWord, word) == |word| && word[..|word|] == word
  {
    SpanLenIs(IsWord, word, |word|);
  }

  lemma NotBlank(spaces: string, word: string, rest: string)
    requires word != "" && IsWord(word[0])
    ensures !Mask.Blank(spaces + word + rest)
  {
    assert (spaces + word + rest)[|spaces|] == word[0] && !IsSpace(word[0]);
  }

  /** And with any other word first there is no operation. */
  lemma OtherWordsAreNoOperation(tokens: seq<Token>, word: string)
    requires tokens != [] && tokens[0] == Token(word, true) && AllOf(IsWord, word) && !IsStatementWord(word)
    ensures OperationOf(tokens) == ""
  {
    hide IsOperation, Upper, IsStatementWord;
    OperationsAre(word);
    WholeWord(word);
  }

  /** What is returned is one of these operations, or none, and never nothing at all. */
  lemma FoundIsSomething(masked: string)
    requires ObjectsOf(masked).Some?
    ensures var o := ObjectsOf(masked).value;
            && (o.operation != "" || o.procedures != [] || o.relations != [])
            && o.operation in {"", "SELECT", "INSERT", "UPDATE", "DELETE", "MERGE", "WITH", "CALL", "EXEC", "EXECUTE",
                               "CREATE", "ALTER", "DROP", "TRUNCATE"}
  {
    hide Tokens, KeptFrom, Cleaned, RawProcedures, RawTables, Upper;
  }

  /** Nothing is returned only when there is nothing to return: no procedure and no table stands anywhere
      as a full name, and no operation was read. */
  lemma NothingFoundMeans(masked: string, name: string)
    requires ObjectsOf(masked).None? && !Mask.Blank(masked) && IsFullName(name)
    ensures var tokens := KeptFrom(Tokens(masked), 0);
            OperationOf(tokens) == "" && !NamesTable(tokens, name) && !NamesProcedure(tokens, name)
  {
    hide Tokens, KeptFrom, NamedFrom, RawProcedures, Cleaned, OperationOf, IsFullName, Clipped;
    hide NamesTable, NamesProcedure, RawTables;
    var tokens := KeptFrom(Tokens(masked), 0);
    var tables, procedures := RawTables(tokens), RawProcedures(tokens);
    TablesAre(tokens, name);
    ProceduresAre(tokens, name);
    CleanedMeans(tables, name);
    CleanedMeans(procedures, name);
  }
}
