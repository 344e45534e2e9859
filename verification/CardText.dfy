// Card numbers in text: one that stands alone is replaced, in one piece or in groups, and nothing else
// changes.
module CardText {
  import opened Ascii
  import opened CardRuns
  import opened Luhn
  import opened CardScrubber
  import opened CardStability

  /** Text that a card number's first digit can follow and that holds no digit itself. */
  predicate Leads(before: string) {
    NoDigits(before) && (before == "" || !IsWord(before[|before| - 1]))
  }

  /** Text that ends a run: it does not go on as a word, nor with a space or dash and a digit. */
  predicate Follows(after: string) {
    && (after == "" || !IsWord(after[0]))
    && (|after| > 1 && (after[0] == ' ' || after[0] == '-') ==> !IsDigit(after[1]))
  }

  /** A run that is no longer than itself: what is before and after it is scrubbed on its own. */
  lemma RunInText(before: string, run: string, after: string)
    requires Leads(before) && IsRun(run) && Follows(after)
    ensures Scrubbed(' ', before + run + after) == before + ScrubbedRun(run) + Scrubbed(run[|run| - 1], after)
  {
    hide MatchLen, ScrubbedRun, Scrubbed, IsRun;
    var prev := if before == "" then ' ' else before[|before| - 1];
    assert before + run + after == before + (run + after);
    NonDigitsAreCopied(' ', before, run + after);
    MatchEndsThere(run, after);
    RunStarts(run);
    MatchIsScrubbed(prev, run, after);
    assert before + (ScrubbedRun(run) + Scrubbed(run[|run| - 1], after))
        == before + ScrubbedRun(run) + Scrubbed(run[|run| - 1], after);
  }

  lemma RunStarts(run: string)
    requires IsRun(run)
    ensures run != "" && IsDigit(run[0])
  {
  }

  lemma MatchIsScrubbed(prev: char, run: string, after: string)
    requires run != "" && IsDigit(run[0]) && !IsWord(prev) && MatchLen(run + after) == |run|
    ensures Scrubbed(prev, run + after) == ScrubbedRun(run) + Scrubbed(run[|run| - 1], after)
  {
    hide MatchLen, ScrubbedRun;
    var s := run + after;
    assert s[..|run|] == run && s[|run|..] == after;
  }

  /** Groups that are a card number together, one of them or more, become the marker. */
  lemma WholeRunIsCard(groups: seq<Group>)
    requires WellFormed(groups) && IsCard(groups)
    ensures IsRun(Join(groups)) && ScrubbedRun(Join(groups)) == "[CREDIT CARD FILTERED]"
  {
    hide IsRun, Split, Pieces, Render, IsCard, WellFormed;
    SplitOfJoin(groups);
    WellFormedIsSome(groups);
    LongestIsAll(groups);
    PiecesFromCard(groups);
    LastHasNoSeparator(groups);
    assert groups[|groups|..] == [];
    NothingLeft(groups[|groups|..]);
  }

  lemma WellFormedIsSome(groups: seq<Group>)
    requires WellFormed(groups)
    ensures groups != []
  {
  }

  lemma LongestIsAll(groups: seq<Group>)
    requires groups != [] && IsCard(groups)
    ensures LongestCard(groups) == |groups|
  {
    hide IsCard;
    assert groups[..|groups|] == groups;
  }

  lemma {:induction false} LastHasNoSeparator(groups: seq<Group>)
    requires WellFormed(groups)
    ensures groups[|groups| - 1].sep == ""
  {
    if |groups| > 1 {
      LastHasNoSeparator(groups[1..]);
    }
  }

  /** A card number that stands alone in text is replaced, whether in one piece or in groups joined by
      single spaces and dashes; before and after it the text is as it would be by itself. */
  lemma CardIsReplaced(before: string, groups: seq<Group>, after: string)
    requires Leads(before) && WellFormed(groups) && IsCard(groups) && Follows(after)
    ensures Scrubbed(' ', before + Join(groups) + after)
         == before + "[CREDIT CARD FILTERED]" + Scrubbed('0', after)
  {
    hide Leads, Follows, WellFormed, IsCard, IsRun, ScrubbedRun, Scrubbed;
    var run := Join(groups);
    WholeRunIsCard(groups);
    RunInText(before, run, after);
    RestIsFree(run, after);
  }

  lemma RestIsFree(run: string, after: string)
    requires IsRun(run) && Follows(after)
    ensures Scrubbed(run[|run| - 1], after) == Scrubbed('0', after)
  {
    hide Scrubbed;
    PrevIsIrrelevant(run[|run| - 1], '0', after);
  }

  /** In particular the digits alone. */
  lemma PlainCardIsReplaced(before: string, digits: string, after: string)
    requires Leads(before) && AllDigits(digits) && CardNumber(digits) && Follows(after)
    ensures Scrubbed(' ', before + digits + after)
         == before + "[CREDIT CARD FILTERED]" + Scrubbed('0', after)
  {
    hide Leads, Follows, CardNumber, Scrubbed;
    var groups := [Group(digits, "")];
    assert groups[1..] == [] && Digits(groups) == digits + Digits([]);
    assert Digits([]) == "" && digits + "" == digits;
    assert Join(groups) == digits + "" + Join([]) && Join([]) == "";
    CardIsLong(digits);
    CardIsReplaced(before, groups, after);
  }

  lemma CardIsLong(digits: string)
    requires AllDigits(digits) && CardNumber(digits)
    ensures |digits| >= 13
  {
    hide HasCardPrefix, PassesLuhn;
  }

  /** A run in which no stretch of whole groups is a card number stays as it is. */
  lemma OtherRunsStay(before: string, groups: seq<Group>, after: string)
    requires Leads(before) && WellFormed(groups) && Follows(after)
    requires forall i, j :: 0 <= i < j <= |groups| ==> !IsCard(groups[i..j])
    ensures Scrubbed(' ', before + Join(groups) + after) == before + Join(groups) + Scrubbed('0', after)
  {
    hide Leads, Follows, WellFormed, IsRun, Scrubbed, IsCard, Split, Pieces, Render;
    SplitOfJoin(groups);
    var run := Join(groups);
    forall j | 0 <= j < |groups| ensures LongestCard(groups[j..]) == 0 {
      NoneFromHere(groups, j);
    }
    NothingToReplace(groups);
    RunInText(before, run, after);
    RestIsFree(run, after);
  }

  lemma NoneFromHere(groups: seq<Group>, j: nat)
    requires j < |groups|
    requires forall i, k :: 0 <= i < k <= |groups| ==> !IsCard(groups[i..k])
    ensures LongestCard(groups[j..]) == 0
  {
    hide IsCard;
    var rest := groups[j..];
    var n := LongestCard(rest);
    assert rest[..n] == groups[j..j + n];
  }

  /** Text without digits stays as it is. */
  lemma TextWithoutDigitsStays(text: string)
    requires NoDigits(text)
    ensures Scrubbed(' ', text) == text
  {
    NonDigitsAreCopied(' ', text, "");
    assert text + "" == text;
    EmptyStays(if text == "" then ' ' else text[|text| - 1], "");
  }
}
