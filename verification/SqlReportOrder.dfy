// The order in which tables and procedures are reported, and with it which ones are left when there are
// more than ten.
module SqlReportOrder {
  import opened Delivery
  import opened SqlTokens
  import opened SqlObjects
  import Grammar = SqlNameGrammar

  /** The name was read at a place of this kind, at p or before it. */
  ghost predicate NamedBy(tokens: seq<Token>, functions: bool, p: int, name: string) {
    exists q: nat :: q <= p && RelationAt(tokens, q, functions) && tokens[q + 1].text == name
  }

  ghost predicate CalledBy(tokens: seq<Token>, p: int, name: string) {
    exists q: nat :: q <= p && CallAt(tokens, q) && tokens[q + 1].text == name
  }

  /** The scan lists the name at p after names that stand before p only. */
  lemma {:induction false} NamedInOrder(tokens: seq<Token>, i: nat, functions: bool, p: nat) returns (k: nat)
    requires !Taken(tokens, i) && i <= p && RelationAt(tokens, p, functions)
    ensures k < |NamedFrom(tokens, i, functions)| && NamedFrom(tokens, i, functions)[k] == tokens[p + 1].text
    ensures forall j :: 0 <= j <= k ==> NamedBy(tokens, functions, p, NamedFrom(tokens, i, functions)[j])
    decreases |tokens| - i
  {
    hide IsRelationKeyword, IsKeywordNotName, LowerOf;
    if p == i {
      k := 0;
    } else {
      var next := if NamesAt(tokens, i) then i + 2 else i + 1;
      if NamesAt(tokens, i) {
        assert Taken(tokens, i + 1);
      }
      k := NamedInOrder(tokens, next, functions, p);
      if RelationAt(tokens, i, functions) {
        k := k + 1;
      }
    }
  }

  lemma {:induction false} CalledInOrder(tokens: seq<Token>, i: nat, p: nat) returns (k: nat)
    requires !TakenAsCall(tokens, i) && i <= p && CallAt(tokens, p)
    ensures k < |CalledFrom(tokens, i)| && CalledFrom(tokens, i)[k] == tokens[p + 1].text
    ensures forall j :: 0 <= j <= k ==> CalledBy(tokens, p, CalledFrom(tokens, i)[j])
    decreases |tokens| - i
  {
    hide IsProcedureKeyword, IsNotProcedure, LowerOf, FirstPart;
    if p == i {
      k := 0;
    } else {
      var next := if CallAt(tokens, i) then i + 2 else i + 1;
      if CallAt(tokens, i) {
        assert TakenAsCall(tokens, i + 1);
      }
      k := CalledInOrder(tokens, next, p);
      if CallAt(tokens, i) {
        k := k + 1;
      }
    }
  }

  /** Tables are reported in the order they are first named in: a full name at p is reported before any
      that is not named at p or earlier, whether or not there are more than ten. */
  lemma TablesInOrder(masked: string, i: nat, p: nat)
    requires ObjectsOf(masked).Some? && i < |ObjectsOf(masked).value.relations|
    requires var tokens, name := KeptFrom(Tokens(masked), 0), ObjectsOf(masked).value.relations[i];
             && RelationAt(tokens, p, false) && IsFullName(Clipped(tokens[p + 1].text))
             && forall q: nat :: q <= p && RelationAt(tokens, q, false) ==> Clipped(tokens[q + 1].text) != name
    ensures Clipped(KeptFrom(Tokens(masked), 0)[p + 1].text) in ObjectsOf(masked).value.relations[..i]
  {
    hide Tokens, KeptFrom, NamedFrom, Cleaned, Clipped, IsFullName, RelationAt, OperationOf, RawProcedures;
    var tokens := KeptFrom(Tokens(masked), 0);
    var names := RawTables(tokens);
    var k := NamedInOrder(tokens, 0, false, p);
    forall j | 0 <= j <= k ensures Clipped(names[j]) != Cleaned(names)[i] {
      assert NamedBy(tokens, false, p, names[j]);
    }
    Grammar.ReportedInOrder(names, i, k);
  }

  /** Procedures called by a keyword are reported in their order and before all others. */
  lemma CallsInOrder(masked: string, i: nat, p: nat)
    requires ObjectsOf(masked).Some? && i < |ObjectsOf(masked).value.procedures|
    requires var tokens, name := KeptFrom(Tokens(masked), 0), ObjectsOf(masked).value.procedures[i];
             && CallAt(tokens, p) && IsFullName(Clipped(tokens[p + 1].text))
             && forall q: nat :: q <= p && CallAt(tokens, q) ==> Clipped(tokens[q + 1].text) != name
    ensures Clipped(KeptFrom(Tokens(masked), 0)[p + 1].text) in ObjectsOf(masked).value.procedures[..i]
  {
    hide Tokens, KeptFrom, NamedFrom, CalledFrom, SelectedFunction, Cleaned, Clipped, IsFullName, CallAt, OperationOf;
    var tokens := KeptFrom(Tokens(masked), 0);
    var names := RawProcedures(tokens);
    var k := CalledInOrder(tokens, 0, p);
    assert forall j :: 0 <= j <= k ==> names[j] == CalledFrom(tokens, 0)[j];
    forall j | 0 <= j <= k ensures Clipped(names[j]) != Cleaned(names)[i] {
      assert CalledBy(tokens, p, names[j]);
    }
    Grammar.ReportedInOrder(names, i, k);
  }

  /** Then come the functions in FROM and JOIN, in theirs, and a selected function comes last. */
  lemma FunctionsInOrder(masked: string, i: nat, p: nat)
    requires ObjectsOf(masked).Some? && i < |ObjectsOf(masked).value.procedures|
    requires var tokens, name := KeptFrom(Tokens(masked), 0), ObjectsOf(masked).value.procedures[i];
             && RelationAt(tokens, p, true) && IsFullName(Clipped(tokens[p + 1].text))
             && (forall q: nat :: CallAt(tokens, q) ==> Clipped(tokens[q + 1].text) != name)
             && forall q: nat :: q <= p && RelationAt(tokens, q, true) ==> Clipped(tokens[q + 1].text) != name
    ensures Clipped(KeptFrom(Tokens(masked), 0)[p + 1].text) in ObjectsOf(masked).value.procedures[..i]
  {
    hide Tokens, KeptFrom, NamedFrom, CalledFrom, SelectedFunction, Cleaned, Clipped, IsFullName, CallAt, OperationOf;
    hide RelationAt;
    var tokens := KeptFrom(Tokens(masked), 0);
    var names := RawProcedures(tokens);
    var called := CalledFrom(tokens, 0);
    var k := NamedInOrder(tokens, 0, true, p);
    assert forall j :: 0 <= j <= k ==> names[|called| + j] == NamedFrom(tokens, 0, true)[j];
    forall j | 0 <= j <= |called| + k ensures Clipped(names[j]) != Cleaned(names)[i] {
      if j < |called| {
        CalledExactly(tokens, 0, names[j]);
      } else {
        assert NamedBy(tokens, true, p, NamedFrom(tokens, 0, true)[j - |called|]);
      }
    }
    Grammar.ReportedInOrder(names, i, |called| + k);
  }
}
