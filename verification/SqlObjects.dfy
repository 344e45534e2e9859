// extractSQLObjects: the operation, procedures and relations a masked statement names.
module SqlObjects {
  import opened Ascii
  import opened Delivery
  import opened SqlTokens
  import Mask = SqlMask
  import Privacy = SqlMaskPrivacy

  datatype Objects = Objects(operation: string, procedures: seq<string>, relations: seq<string>)

  function Upper(s: string): (t: string)
    ensures |t| == |s| && forall k :: 0 <= k < |s| ==>
              t[k] as int == if 'a' <= s[k] <= 'z' then s[k] as int - 32 else s[k] as int
  {
    seq(|s|, i requires 0 <= i < |s| => if 'a' <= s[i] <= 'z' then (s[i] as int - 32) as char else s[i])
  }

  predicate IsOperation(word: string) {
    word in {"SELECT", "INSERT", "UPDATE", "DELETE", "MERGE", "WITH", "CALL", "EXEC", "EXECUTE", "CREATE",
             "ALTER", "DROP", "TRUNCATE"}
  }

  predicate IsBuiltin(name: string) {
    name in {"count", "sum", "min", "max", "avg", "now", "coalesce", "nullif", "lower", "upper", "length",
             "concat", "cast", "date_trunc", "current_timestamp", "current_date", "row_number", "rank",
             "json_build_object", "json_agg", "array_agg"}
  }

  predicate IsKeywordNotName(name: string) {
    name in {"select", "set", "values", "where", "lateral", "only", "unnest", "generate_series"}
  }

  predicate IsProcedureKeyword(word: string) {
    word in {"call", "exec", "execute", "perform"}
  }

  predicate IsNotProcedure(word: string) {
    word in {"immediate", "function", "procedure"}
  }

  predicate IsRelationKeyword(word: string) {
    word in {"from", "join", "into", "update", "table"}
  }

  predicate IsFunctionLike(word: string) {
    word in {"extract", "substring", "trim", "overlay"}
  }

  predicate NotDot(c: char) {
    c != '.'
  }

  function LowerOf(token: Token): string {
    Mask.ToLower(token.text)
  }

  // ---------------------------------------------------------------- leaving out EXTRACT(... FROM ...)

  /** Where the parenthesis that closes comes, unless another opens first. */
  function CloseFrom(tokens: seq<Token>, j: nat): (at: Option<nat>)
    ensures at.Some? ==> j <= at.value < |tokens|
    decreases |tokens| - j
  {
    if j >= |tokens| || tokens[j].text == "(" then None
    else if tokens[j].text == ")" then Some(j)
    else CloseFrom(tokens, j + 1)
  }

  /** A call such as EXTRACT(year FROM col) at i, as a whole. */
  function SkipAt(tokens: seq<Token>, i: nat): (at: Option<nat>)
    requires i < |tokens|
    ensures at.Some? ==> i < at.value < |tokens|
  {
    if tokens[i].isName && IsFunctionLike(LowerOf(tokens[i])) && i + 1 < |tokens| && tokens[i + 1].text == "("
    then CloseFrom(tokens, i + 2) else None
  }

  function KeptFrom(tokens: seq<Token>, i: nat): seq<Token>
    decreases |tokens| - i
  {
    if i >= |tokens| then []
    else if SkipAt(tokens, i).Some? then KeptFrom(tokens, SkipAt(tokens, i).value + 1)
    else [tokens[i]] + KeptFrom(tokens, i + 1)
  }

  method KeepTokens(all: seq<Token>) returns (tokens: seq<Token>)
    ensures tokens == KeptFrom(all, 0)
  {
    hide IsFunctionLike, LowerOf, KeptFrom;
    tokens := [];
    var i := 0;
    while i < |all|
      invariant 0 <= i <= |all|
      invariant KeptFrom(all, 0) == tokens + KeptFrom(all, i)
    {
      var t := all[i];
      KeptStep(all, i, tokens);
      if t.isName && IsFunctionLike(LowerOf(t)) && i + 1 < |all| && all[i + 1].text == "(" {
        var closeAt := -1;
        var j := i + 2;
        while j < |all|
          invariant i + 2 <= j <= |all| && closeAt == -1
          invariant CloseFrom(all, i + 2) == CloseFrom(all, j)
        {
          if all[j].text == "(" {
            break;
          }
          if all[j].text == ")" {
            closeAt := j;
            break;
          }
          j := j + 1;
        }
        if closeAt >= 0 {
          i := closeAt + 1;
          continue;
        }
      }
      tokens := tokens + [t];
      i := i + 1;
    }
    NothingKept(all, i);
  }

  lemma KeptStep(tokens: seq<Token>, i: nat, kept: seq<Token>)
    requires i < |tokens|
    ensures kept + KeptFrom(tokens, i) ==
            if SkipAt(tokens, i).Some? then kept + KeptFrom(tokens, SkipAt(tokens, i).value + 1)
            else kept + [tokens[i]] + KeptFrom(tokens, i + 1)
  {
    hide SkipAt;
  }

  lemma NothingKept(tokens: seq<Token>, i: nat)
    requires i >= |tokens|
    ensures KeptFrom(tokens, i) == []
  {
  }

  // ---------------------------------------------------------------- procedures called by a keyword

  function FirstPart(name: string): string {
    Mask.ToLower(name[..SpanLen(NotDot, name)])
  }

  predicate CallsAt(tokens: seq<Token>, i: nat) {
    i + 1 < |tokens| && tokens[i].isName && IsProcedureKeyword(LowerOf(tokens[i])) && tokens[i + 1].isName
  }

  function CalledFrom(tokens: seq<Token>, i: nat): seq<string>
    decreases |tokens| - i
  {
    if i + 1 >= |tokens| then []
    else if CallsAt(tokens, i) && !IsNotProcedure(FirstPart(tokens[i + 1].text))
    then [tokens[i + 1].text] + CalledFrom(tokens, i + 2)
    else CalledFrom(tokens, i + 1)
  }

  method FindCalled(tokens: seq<Token>) returns (procedures: seq<string>)
    ensures procedures == CalledFrom(tokens, 0)
  {
    hide IsProcedureKeyword, IsNotProcedure, LowerOf, FirstPart;
    procedures := [];
    var i := 0;
    while i + 1 < |tokens|
      invariant 0 <= i
      invariant CalledFrom(tokens, 0) == procedures + CalledFrom(tokens, i)
    {
      if tokens[i].isName && IsProcedureKeyword(LowerOf(tokens[i])) && tokens[i + 1].isName {
        var name := tokens[i + 1].text;
        if IsNotProcedure(FirstPart(name)) {
          i := i + 1;
          continue;
        }
        procedures := procedures + [name];
        i := i + 1;
      }
      i := i + 1;
    }
  }

  // ---------------------------------------------------------------- relations, and functions in FROM

  predicate NamesAt(tokens: seq<Token>, i: nat) {
    i + 1 < |tokens| && tokens[i].isName && IsRelationKeyword(LowerOf(tokens[i])) && tokens[i + 1].isName
  }

  /** The name after FROM or JOIN is a function's when a parenthesis follows it. */
  predicate IsTableFunction(tokens: seq<Token>, i: nat)
    requires i + 1 < |tokens|
  {
    i + 2 < |tokens| && tokens[i + 2].text == "(" && LowerOf(tokens[i]) in {"from", "join"}
  }

  /** The names that follow a relation keyword from i on: those of functions, or the others. */
  function NamedFrom(tokens: seq<Token>, i: nat, functions: bool): seq<string>
    decreases |tokens| - i
  {
    if i + 1 >= |tokens| then []
    else if !NamesAt(tokens, i) then NamedFrom(tokens, i + 1, functions)
    else if IsKeywordNotName(LowerOf(tokens[i + 1])) || IsTableFunction(tokens, i) != functions
    then NamedFrom(tokens, i + 2, functions)
    else [tokens[i + 1].text] + NamedFrom(tokens, i + 2, functions)
  }

  method FindNamed(tokens: seq<Token>) returns (functions: seq<string>, relations: seq<string>)
    ensures functions == NamedFrom(tokens, 0, true) && relations == NamedFrom(tokens, 0, false)
  {
    hide IsRelationKeyword, IsKeywordNotName, LowerOf;
    functions, relations := [], [];
    var i := 0;
    while i + 1 < |tokens|
      invariant 0 <= i
      invariant NamedFrom(tokens, 0, true) == functions + NamedFrom(tokens, i, true)
      invariant NamedFrom(tokens, 0, false) == relations + NamedFrom(tokens, i, false)
    {
      if !tokens[i].isName || !IsRelationKeyword(LowerOf(tokens[i])) || !tokens[i + 1].isName {
        i := i + 1;
        continue;
      }
      var keyword := LowerOf(tokens[i]);
      var name := tokens[i + 1].text;
      var paren := i + 2 < |tokens| && tokens[i + 2].text == "(";
      if IsKeywordNotName(LowerOf(tokens[i + 1])) {
        i := i + 2;
        continue;
      }
      if paren && (keyword == "from" || keyword == "join") {
        functions := functions + [name];
      } else {
        relations := relations + [name];
      }
      i := i + 2;
    }
  }

  // ---------------------------------------------------------------- the whole

  /** SELECT f(...) with no FROM anywhere calls f, unless f is built in. */
  function SelectedFunction(tokens: seq<Token>): seq<string> {
    if |tokens| >= 3 && tokens[0].isName && LowerOf(tokens[0]) == "select"
       && tokens[1].isName && tokens[2].text == "(" && !IsBuiltin(LowerOf(tokens[1]))
       && forall t :: t in tokens && t.isName ==> LowerOf(t) != "from"
    then [tokens[1].text] else []
  }

  function OperationOf(tokens: seq<Token>): string {
    if tokens == [] then ""
    else
      var word := Upper(tokens[0].text[..SpanLen(IsWord, tokens[0].text)]);
      if IsOperation(word) then word else ""
  }

  function RawProcedures(tokens: seq<Token>): seq<string> {
    CalledFrom(tokens, 0) + NamedFrom(tokens, 0, true) + SelectedFunction(tokens)
  }

  function RawTables(tokens: seq<Token>): seq<string> {
    NamedFrom(tokens, 0, false)
  }

  /** None when nothing recognisable was found. */
  function ObjectsOf(masked: string): Option<Objects> {
    if Mask.Blank(masked) then None
    else
      var tokens := KeptFrom(Tokens(masked), 0);
      var objects := Objects(OperationOf(tokens), Cleaned(RawProcedures(tokens)), Cleaned(RawTables(tokens)));
      if objects == Objects("", [], []) then None else Some(objects)
  }

  method ExtractSqlObjects(masked: string) returns (found: Option<Objects>)
    ensures found == ObjectsOf(masked)
  {
    hide Cleaned, Tokens, KeptFrom, CalledFrom, NamedFrom, IsOperation, IsBuiltin, LowerOf, Upper;
    if Mask.Blank(masked) {
      return None;
    }
    var all := TokenizeSql(masked);
    var tokens := KeepTokens(all);
    var procedures := FindCalled(tokens);
    var functions, relations := FindNamed(tokens);
    procedures := procedures + functions;
    if |tokens| >= 3 && tokens[0].isName && LowerOf(tokens[0]) == "select"
       && tokens[1].isName && tokens[2].text == "(" && !IsBuiltin(LowerOf(tokens[1])) {
      var hasFrom := false;
      for k := 0 to |tokens|
        invariant hasFrom <==> exists j :: 0 <= j < k && tokens[j].isName && LowerOf(tokens[j]) == "from"
      {
        if tokens[k].isName && LowerOf(tokens[k]) == "from" {
          hasFrom := true;
          break;
        }
      }
      if !hasFrom {
        procedures := procedures + [tokens[1].text];
      }
    }
    assert procedures == RawProcedures(tokens);
    var operation := "";
    if |tokens| > 0 {
      var word := tokens[0].text;
      var end := SpanEnd(IsWord, word, 0);
      assert word[0..] == word;
      var candidate := Upper(word[..end]);
      if IsOperation(candidate) {
        operation := candidate;
      }
    }
    var cleanProcedures := CleanSqlNames(procedures);
    var cleanRelations := CleanSqlNames(relations);
    if |cleanProcedures| == 0 && |cleanRelations| == 0 && operation == "" {
      return None;
    }
    return Some(Objects(operation, cleanProcedures, cleanRelations));
  }

  // ---------------------------------------------------------------- where reported names come from

  predicate IsNameIn(name: string, tokens: seq<Token>) {
    exists i :: 0 <= i < |tokens| && tokens[i] == Token(name, true)
  }

  lemma {:induction false} KeptAreTokens(tokens: seq<Token>, i: nat)
    ensures forall t :: t in KeptFrom(tokens, i) ==> t in tokens
    decreases |tokens| - i
  {
    hide IsFunctionLike, LowerOf;
    if i < |tokens| {
      KeptAreTokens(tokens, if SkipAt(tokens, i).Some? then SkipAt(tokens, i).value + 1 else i + 1);
    }
  }

  lemma {:induction false} CalledAreNames(tokens: seq<Token>, i: nat)
    ensures forall name :: name in CalledFrom(tokens, i) ==> IsNameIn(name, tokens)
    decreases |tokens| - i
  {
    hide IsProcedureKeyword, IsNotProcedure, LowerOf, FirstPart;
    if i + 1 < |tokens| {
      CalledAreNames(tokens, i + 1);
      if i + 2 <= |tokens| {
        CalledAreNames(tokens, i + 2);
      }
      assert tokens[i + 1].isName ==> tokens[i + 1] == Token(tokens[i + 1].text, true);
    }
  }

  lemma {:induction false} NamedAreNames(tokens: seq<Token>, i: nat, functions: bool)
    ensures forall name :: name in NamedFrom(tokens, i, functions) ==> IsNameIn(name, tokens)
    decreases |tokens| - i
  {
    hide IsRelationKeyword, IsKeywordNotName, LowerOf;
    if i + 1 < |tokens| {
      NamedAreNames(tokens, i + 1, functions);
      if i + 2 <= |tokens| {
        NamedAreNames(tokens, i + 2, functions);
      }
      assert tokens[i + 1].isName ==> tokens[i + 1] == Token(tokens[i + 1].text, true);
    }
  }

  /** The name is a name of the statement, or the first 200 characters of one, and a full one. */
  predicate Reported(name: string, masked: string) {
    && IsFullName(name)
    && exists t :: t in Tokens(masked) && t.isName && IsFullName(t.text)
                   && name == if |t.text| > 200 then t.text[..200] else t.text
  }

  lemma CleanedAreReported(masked: string, names: seq<string>, name: string)
    requires forall raw :: raw in names ==> IsNameIn(raw, KeptFrom(Tokens(masked), 0))
    requires name in Cleaned(names)
    ensures Reported(name, masked)
  {
    hide IsFullName, Cleaned, Tokens, KeptFrom, Clipped;
    CleanedMeans(names, name);
    var i :| 0 <= i < |names| && Clipped(names[i]) == name;
    assert names[i] in names;
    var kept := KeptFrom(Tokens(masked), 0);
    var j :| 0 <= j < |kept| && kept[j] == Token(names[i], true);
    assert kept[j] in kept;
    KeptAreTokens(Tokens(masked), 0);
    NameTokensAreFullNames(masked);
    NameIsOnlyCut(names[i]);
  }

  /** Every name reported is one the masked statement holds, cut to 200 characters at most; each list
      has ten at most and no name twice. */
  lemma ReportedNamesAreReal(masked: string)
    requires ObjectsOf(masked).Some?
    ensures var o := ObjectsOf(masked).value;
            && |o.procedures| <= 10 && |o.relations| <= 10
            && (forall name :: name in o.procedures || name in o.relations ==> Reported(name, masked))
            && (forall i, j :: 0 <= i < j < |o.procedures| ==> o.procedures[i] != o.procedures[j])
            && (forall i, j :: 0 <= i < j < |o.relations| ==> o.relations[i] != o.relations[j])
  {
    hide Tokens, KeptFrom, CalledFrom, NamedFrom, Cleaned, OperationOf, Reported, IsNameIn, LowerOf, IsBuiltin;
    var o := ObjectsOf(masked).value;
    var tokens := KeptFrom(Tokens(masked), 0);
    CalledAreNames(tokens, 0);
    NamedAreNames(tokens, 0, true);
    NamedAreNames(tokens, 0, false);
    SelectedIsName(tokens);
    CleanedMeans(RawProcedures(tokens), "");
    CleanedMeans(RawTables(tokens), "");
    forall name | name in o.procedures || name in o.relations ensures Reported(name, masked) {
      if name in o.procedures {
        CleanedAreReported(masked, RawProcedures(tokens), name);
      } else {
        CleanedAreReported(masked, RawTables(tokens), name);
      }
    }
  }

  // ---------------------------------------------------------------- exactly which names

  // The scans step over a name they have taken, so a name that is itself a keyword does not make a
  // name of what follows it. Said of positions, without the scan:

  /** The token at i lies in a skipped call that starts before it and is not itself inside one. */
  predicate Inside(tokens: seq<Token>, i: nat)
    decreases i
  {
    exists j :: 0 <= j < i && j < |tokens| && SkipAt(tokens, j).Some? && i <= SkipAt(tokens, j).value
                && !Inside(tokens, j)
  }

  predicate Dropped(tokens: seq<Token>, i: nat)
    requires i < |tokens|
  {
    Inside(tokens, i) || SkipAt(tokens, i).Some?
  }

  /** The tokens from i on that are not dropped, in order. */
  function NotDropped(tokens: seq<Token>, i: nat): seq<Token>
    decreases |tokens| - i
  {
    if i >= |tokens| then []
    else (if Dropped(tokens, i) then [] else [tokens[i]]) + NotDropped(tokens, i + 1)
  }

  lemma {:induction false} AllDropped(tokens: seq<Token>, i: nat, n: nat)
    requires i + n <= |tokens|
    requires forall k :: i <= k < i + n ==> Dropped(tokens, k)
    ensures NotDropped(tokens, i) == NotDropped(tokens, i + n)
    decreases n
  {
    hide Inside, SkipAt, Dropped;
    if n > 0 {
      AllDropped(tokens, i + 1, n - 1);
    }
  }

  predicate IsParenthesis(token: Token) {
    token.text == "(" || token.text == ")"
  }

  /** A call is skipped up to the first parenthesis inside it, and only when that one closes. */
  lemma {:induction false} CloseFromIff(tokens: seq<Token>, j: nat, close: nat)
    ensures CloseFrom(tokens, j) == Some(close) <==>
            && j <= close < |tokens| && tokens[close].text == ")"
            && forall k :: j <= k < close ==> !IsParenthesis(tokens[k])
    decreases |tokens| - j
  {
    if j < |tokens| && !IsParenthesis(tokens[j]) {
      CloseFromIff(tokens, j + 1, close);
    }
  }

  /** A skipped call that starts outside any other drops its tokens and nothing after them. */
  lemma SkippedCall(tokens: seq<Token>, i: nat)
    requires i < |tokens| && !Inside(tokens, i) && SkipAt(tokens, i).Some?
    ensures var to := SkipAt(tokens, i).value;
            (forall k :: i <= k <= to ==> Dropped(tokens, k)) && !Inside(tokens, to + 1)
  {
    hide SkipAt;
    var to := SkipAt(tokens, i).value;
    assert forall j :: i < j <= to ==> Inside(tokens, j);
  }

  /** Exactly the tokens outside skipped calls are kept. */
  lemma {:induction false} KeptExactly(tokens: seq<Token>, i: nat)
    requires i <= |tokens| && !Inside(tokens, i)
    ensures KeptFrom(tokens, i) == NotDropped(tokens, i)
    decreases |tokens| - i
  {
    hide SkipAt;
    if i < |tokens| {
      if SkipAt(tokens, i).Some? {
        SkippedCall(tokens, i);
        var to := SkipAt(tokens, i).value;
        hide Inside, Dropped;
        AllDropped(tokens, i, to + 1 - i);
        KeptExactly(tokens, to + 1);
      } else {
        NotInsideNext(tokens, i);
        KeptExactly(tokens, i + 1);
      }
    }
  }

  lemma NotInsideNext(tokens: seq<Token>, i: nat)
    requires i < |tokens| && !Inside(tokens, i) && SkipAt(tokens, i).None?
    ensures !Inside(tokens, i + 1) && !Dropped(tokens, i)
  {
    hide SkipAt;
  }

  /** The token at i is the name after a relation keyword, and so no keyword itself. */
  predicate Taken(tokens: seq<Token>, i: nat) {
    i > 0 && NamesAt(tokens, i - 1) && !Taken(tokens, i - 1)
  }

  predicate RelationAt(tokens: seq<Token>, i: nat, functions: bool) {
    && NamesAt(tokens, i) && !Taken(tokens, i)
    && !IsKeywordNotName(LowerOf(tokens[i + 1])) && IsTableFunction(tokens, i) == functions
  }

  lemma {:induction false} NamedExactly(tokens: seq<Token>, i: nat, functions: bool, name: string)
    requires !Taken(tokens, i)
    ensures name in NamedFrom(tokens, i, functions) <==>
            exists j: nat :: j >= i && RelationAt(tokens, j, functions) && tokens[j + 1].text == name
    decreases |tokens| - i
  {
    hide IsRelationKeyword, IsKeywordNotName, LowerOf;
    if i + 1 < |tokens| {
      var next := if NamesAt(tokens, i) then i + 2 else i + 1;
      if NamesAt(tokens, i) {
        assert Taken(tokens, i + 1);
      }
      NamedExactly(tokens, next, functions, name);
      assert forall j: nat :: j >= i && RelationAt(tokens, j, functions) ==> j == i || j >= next;
      assert RelationAt(tokens, i, functions) && tokens[i + 1].text == name ==> name in NamedFrom(tokens, i, functions);
    }
  }

  /** The token at i is the name after a procedure keyword. */
  predicate TakenAsCall(tokens: seq<Token>, i: nat) {
    i > 0 && CallsAt(tokens, i - 1) && !IsNotProcedure(FirstPart(tokens[i].text)) && !TakenAsCall(tokens, i - 1)
  }

  predicate CallAt(tokens: seq<Token>, i: nat) {
    CallsAt(tokens, i) && !IsNotProcedure(FirstPart(tokens[i + 1].text)) && !TakenAsCall(tokens, i)
  }

  lemma {:induction false} CalledExactly(tokens: seq<Token>, i: nat, name: string)
    requires !TakenAsCall(tokens, i)
    ensures name in CalledFrom(tokens, i) <==>
            exists j: nat :: j >= i && CallAt(tokens, j) && tokens[j + 1].text == name
    decreases |tokens| - i
  {
    hide IsProcedureKeyword, IsNotProcedure, LowerOf, FirstPart;
    if i + 1 < |tokens| {
      var next := if CallAt(tokens, i) then i + 2 else i + 1;
      if CallAt(tokens, i) {
        assert TakenAsCall(tokens, i + 1);
      }
      CalledExactly(tokens, next, name);
      assert forall j: nat :: j >= i && CallAt(tokens, j) ==> j == i || j >= next;
      assert CallAt(tokens, i) && tokens[i + 1].text == name ==> name in CalledFrom(tokens, i);
    }
  }

  /** A table's name stands at i + 1. */
  predicate TableAt(tokens: seq<Token>, i: nat, name: string) {
    RelationAt(tokens, i, false) && Clipped(tokens[i + 1].text) == name
  }

  /** A procedure's or function's name stands at i + 1. */
  predicate ProcedureAt(tokens: seq<Token>, i: nat, name: string) {
    && (CallAt(tokens, i) || RelationAt(tokens, i, true) || (i == 0 && SelectedFunction(tokens) != []))
    && Clipped(tokens[i + 1].text) == name
  }

  ghost predicate NamesTable(tokens: seq<Token>, name: string) {
    exists i: nat :: TableAt(tokens, i, name)
  }

  ghost predicate NamesProcedure(tokens: seq<Token>, name: string) {
    exists i: nat :: ProcedureAt(tokens, i, name)
  }

  lemma TablesAre(tokens: seq<Token>, name: string)
    ensures var names := RawTables(tokens);
            (exists k :: 0 <= k < |names| && Clipped(names[k]) == name) <==> NamesTable(tokens, name)
  {
    hide NamedFrom, Clipped, IsRelationKeyword, LowerOf;
    var names := RawTables(tokens);
    if k :| 0 <= k < |names| && Clipped(names[k]) == name {
      NamedExactly(tokens, 0, false, names[k]);
      var i: nat :| RelationAt(tokens, i, false) && tokens[i + 1].text == names[k];
      assert TableAt(tokens, i, name);
    }
    if i: nat :| TableAt(tokens, i, name) {
      NamedExactly(tokens, 0, false, tokens[i + 1].text);
      assert tokens[i + 1].text in names;
    }
  }

  lemma ProceduresAre(tokens: seq<Token>, name: string)
    ensures var names := RawProcedures(tokens);
            (exists k :: 0 <= k < |names| && Clipped(names[k]) == name) <==>
            NamesProcedure(tokens, name)
  {
    hide NamedFrom, CalledFrom, Clipped, LowerOf, IsBuiltin, FirstPart, IsNotProcedure;
    hide IsRelationKeyword, IsProcedureKeyword;
    var names := RawProcedures(tokens);
    if k :| 0 <= k < |names| && Clipped(names[k]) == name {
      NamedExactly(tokens, 0, true, names[k]);
      CalledExactly(tokens, 0, names[k]);
      assert names[k] in names;
      if i: nat :| CallAt(tokens, i) && tokens[i + 1].text == names[k] {
        assert ProcedureAt(tokens, i, name);
      } else if i: nat :| RelationAt(tokens, i, true) && tokens[i + 1].text == names[k] {
        assert ProcedureAt(tokens, i, name);
      } else {
        assert ProcedureAt(tokens, 0, name);
      }
    }
    if i: nat :| ProcedureAt(tokens, i, name) {
      NamedExactly(tokens, 0, true, tokens[i + 1].text);
      CalledExactly(tokens, 0, tokens[i + 1].text);
      assert tokens[i + 1].text in names;
    }
  }

  /** What is reported is exactly what stands, by position, where a procedure or a table is named:
      trimmed, cut and a full name; none is missing unless ten are reported. */
  lemma ReportedExactly(masked: string, name: string)
    requires ObjectsOf(masked).Some? && IsFullName(name)
    ensures var tokens := KeptFrom(Tokens(masked), 0);
            var relations := ObjectsOf(masked).value.relations;
            && (|relations| < 10 ==> (name in relations <==> NamesTable(tokens, name)))
            && (name in relations ==> NamesTable(tokens, name))
    ensures var tokens := KeptFrom(Tokens(masked), 0);
            var procedures := ObjectsOf(masked).value.procedures;
            && (|procedures| < 10 ==> (name in procedures <==> NamesProcedure(tokens, name)))
            && (name in procedures ==> NamesProcedure(tokens, name))
  {
    hide Tokens, KeptFrom, NamedFrom, RawProcedures, Cleaned, OperationOf, IsFullName, Clipped;
    hide NamesTable, NamesProcedure, RawTables;
    var tokens := KeptFrom(Tokens(masked), 0);
    var tables, procedures := RawTables(tokens), RawProcedures(tokens);
    TablesAre(tokens, name);
    ProceduresAre(tokens, name);
    CleanedMeans(tables, name);
    CleanedMeans(procedures, name);
  }

  lemma SelectedIsName(tokens: seq<Token>)
    ensures forall name :: name in SelectedFunction(tokens) ==> IsNameIn(name, tokens)
  {
  }

  /** Names are read off the masked statement, so what a string holds cannot make one. */
  lemma StringsNameNothing(before: string, q: Privacy.Quoting, a: string, b: string, rest: string, system: string)
    requires Privacy.CanOpen(q, PrevAt(before, |before|), Mask.QuotesDouble(system))
    requires Privacy.Closed(q, a, rest) && Privacy.Closed(q, b, rest)
    requires Mask.Reaches(' ', Privacy.Statement(before, q, a, rest), |before|, Mask.QuotesDouble(system))
    ensures ObjectsOf(Mask.MaskedStatement(Privacy.Statement(before, q, a, rest), system))
         == ObjectsOf(Mask.MaskedStatement(Privacy.Statement(before, q, b, rest), system))
  {
    hide ObjectsOf, Mask.MaskedStatement;
    Privacy.ContentIsHidden(before, q, a, b, rest, system);
  }
}
