// The card scrubber: scrubCardNumbers and scrubCardNumbersIn.
module CardScrubber {
  import opened Ascii
  import opened CardRuns
  import opened Luhn

  function Marker(): string {
    "[CREDIT CARD FILTERED]"
  }

  // ---------------------------------------------------------------- a run and its groups

  /** A group of digits and the separator after it, empty after the last group. */
  datatype Group = Group(digits: string, sep: string)

  predicate NotSep(c: char) {
    !IsSep(c)
  }

  function Split(run: string): (groups: seq<Group>)
    ensures groups != []
  {
    var k := SpanLen(NotSep, run);
    if k == |run| then [Group(run, "")] else [Group(run[..k], [run[k]])] + Split(run[k + 1..])
  }

  function Join(groups: seq<Group>): string {
    if groups == [] then "" else groups[0].digits + groups[0].sep + Join(groups[1..])
  }

  function Digits(groups: seq<Group>): string {
    if groups == [] then "" else groups[0].digits + Digits(groups[1..])
  }

  /** The digits of these groups together are a card number. */
  predicate IsCard(groups: seq<Group>) {
    AllDigits(Digits(groups)) && CardNumber(Digits(groups))
  }

  /** The longest stretch of whole groups from the first on, of at most k, that is a card number: how
      many groups it has, 0 when there is none. */
  function CardWithin(groups: seq<Group>, k: nat): (n: nat)
    requires k <= |groups|
    ensures n <= k
    ensures n > 0 ==> IsCard(groups[..n])
    ensures forall j :: n < j <= k ==> !IsCard(groups[..j])
  {
    if k == 0 then 0 else if IsCard(groups[..k]) then k else CardWithin(groups, k - 1)
  }

  function LongestCard(groups: seq<Group>): (n: nat)
    ensures n <= |groups|
  {
    CardWithin(groups, |groups|)
  }

  /** What becomes of a run's groups: single ones kept, stretches replaced. */
  datatype Piece = Kept(group: Group) | Card(stretch: seq<Group>)

  function Pieces(groups: seq<Group>): seq<Piece> {
    if groups == [] then []
    else
      var k := LongestCard(groups);
      if k > 0 then [Card(groups[..k])] + Pieces(groups[k..])
      else [Kept(groups[0])] + Pieces(groups[1..])
  }

  function Rendered(piece: Piece): string {
    match piece
    case Kept(group) => group.digits + group.sep
    case Card(stretch) => Marker() + (if stretch == [] then "" else stretch[|stretch| - 1].sep)
  }

  function Render(pieces: seq<Piece>): string {
    if pieces == [] then "" else Rendered(pieces[0]) + Render(pieces[1..])
  }

  function ScrubbedRun(run: string): string {
    Render(Pieces(Split(run)))
  }

  // ---------------------------------------------------------------- the whole text

  /** The text with every match of the run pattern scrubbed, leftmost first, the longest at each
      start; prev is the byte before s. */
  function Scrubbed(prev: char, s: string): string
    decreases |s|
  {
    if s == "" then ""
    else if IsDigit(s[0]) && !IsWord(prev) && MatchLen(s) > 0 then
      var n := MatchLen(s);
      ScrubbedRun(s[..n]) + Scrubbed(s[n - 1], s[n..])
    else [s[0]] + Scrubbed(s[0], s[1..])
  }

  // ---------------------------------------------------------------- the scanner

  method SplitRun(run: string) returns (groups: seq<Group>)
    ensures groups == Split(run)
  {
    hide Split;
    groups := [];
    var start := 0;
    var k := 0;
    assert run[0..] == run;
    while k < |run|
      invariant 0 <= start <= k <= |run|
      invariant forall j :: start <= j < k ==> NotSep(run[j])
      invariant Split(run) == groups + Split(run[start..])
    {
      if IsSep(run[k]) {
        SplitAt(groups, run, start, k);
        groups := groups + [Group(run[start..k], run[k..k + 1])];
        start := k + 1;
      }
      k := k + 1;
    }
    SplitAt(groups, run, start, k);
    groups := groups + [Group(run[start..], "")];
  }

  lemma SplitTurn(s: string)
    ensures var k := SpanLen(NotSep, s);
            Split(s) == if k == |s| then [Group(s, "")]
                        else [Group(s[..k], [s[k]])] + Split(s[k + 1..])
  {
    hide SpanLen;
  }

  lemma SplitAt(groups: seq<Group>, run: string, start: nat, k: nat)
    requires start <= k <= |run|
    requires forall j :: start <= j < k ==> NotSep(run[j])
    requires k < |run| ==> IsSep(run[k])
    ensures groups + Split(run[start..]) ==
            if k == |run| then groups + [Group(run[start..], "")]
            else groups + [Group(run[start..k], run[k..k + 1])] + Split(run[k + 1..])
  {
    hide SpanLen, Split;
    var u := run[start..];
    SpanLenIs(NotSep, u, k - start);
    SplitTurn(u);
    if k < |run| {
      DropDrop(run, start, k - start + 1);
      assert u[..k - start] == run[start..k] && [u[k - start]] == run[k..k + 1];
      var group := Group(run[start..k], run[k..k + 1]);
      assert groups + ([group] + Split(run[k + 1..])) == groups + [group] + Split(run[k + 1..]);
    }
  }

  lemma {:induction false} DigitsJoin(a: seq<Group>, b: seq<Group>)
    ensures Digits(a + b) == Digits(a) + Digits(b)
  {
    if a == [] {
      assert a + b == b;
    } else {
      assert (a + b)[1..] == a[1..] + b;
      DigitsJoin(a[1..], b);
    }
  }

  predicate AllDigitGroups(groups: seq<Group>) {
    forall g :: g in groups ==> AllDigits(g.digits)
  }

  lemma {:induction false} DigitsAreDigits(groups: seq<Group>)
    requires AllDigitGroups(groups)
    ensures AllDigits(Digits(groups))
  {
    if groups != [] {
      DigitsAreDigits(groups[1..]);
    }
  }

  /** Groups of digits, each but the last followed by a separator. */
  predicate WellFormed(groups: seq<Group>) {
    && groups != [] && groups[0].digits != "" && AllDigits(groups[0].digits)
    && if |groups| == 1 then groups[0].sep == ""
       else (groups[0].sep == " " || groups[0].sep == "-") && WellFormed(groups[1..])
  }

  lemma {:induction false} WellFormedDigits(groups: seq<Group>)
    requires WellFormed(groups)
    ensures AllDigitGroups(groups)
  {
    if |groups| > 1 {
      WellFormedDigits(groups[1..]);
    }
  }

  /** What follows a run's first separator is a run. */
  lemma RestOfRun(run: string, k: nat)
    requires IsRun(run) && k < |run| && IsSep(run[k])
    ensures k > 0 && k + 1 < |run| && IsRun(run[k + 1..])
  {
  }

  lemma {:induction false} SplitOfRun(run: string)
    requires IsRun(run)
    ensures WellFormed(Split(run)) && Join(Split(run)) == run
    decreases |run|
  {
    hide SpanLen, IsRun, Split, Join, WellFormed;
    var k := SpanLen(NotSep, run);
    FirstGroup(run);
    SplitTurn(run);
    if k < |run| {
      RestOfRun(run, k);
      var rest := run[k + 1..];
      SplitOfRun(rest);
      OneMoreGroup(Group(run[..k], [run[k]]), Split(rest));
      assert run == run[..k] + [run[k]] + rest;
    } else {
      assert run[..k] == run;
      OnlyGroup(run);
    }
  }

  lemma OnlyGroup(digits: string)
    requires digits != "" && AllDigits(digits)
    ensures WellFormed([Group(digits, "")]) && Join([Group(digits, "")]) == digits
  {
    assert [Group(digits, "")][1..] == [];
    assert Join([]) == "";
  }

  lemma OneMoreGroup(group: Group, rest: seq<Group>)
    requires group.digits != "" && AllDigits(group.digits) && (group.sep == " " || group.sep == "-")
    requires WellFormed(rest)
    ensures WellFormed([group] + rest) && Join([group] + rest) == group.digits + group.sep + Join(rest)
  {
    assert ([group] + rest)[1..] == rest;
  }

  lemma FirstGroup(run: string)
    requires IsRun(run)
    ensures var k := SpanLen(NotSep, run); k > 0 && AllDigits(run[..k])
  {
  }

  /** Past 19 digits there is nothing more to try. */
  lemma TooLong(groups: seq<Group>, k: nat)
    requires k <= |groups| && (k < |groups| ==> |Digits(groups[..k])| + |groups[k].digits| > 19)
    ensures LongestCard(groups) == CardWithin(groups, k)
    decreases |groups| - k
  {
    if k < |groups| {
      NextDigits(groups, k);
      if k + 1 < |groups| {
        NextDigits(groups, k + 1);
      }
      TooLong(groups, k + 1);
    }
  }

  lemma NextDigits(groups: seq<Group>, k: nat)
    requires k < |groups|
    ensures Digits(groups[..k + 1]) == Digits(groups[..k]) + groups[k].digits
  {
    assert groups[..k + 1] == groups[..k] + [groups[k]];
    assert Digits([groups[k]]) == groups[k].digits;
    DigitsJoin(groups[..k], [groups[k]]);
  }

  lemma NothingYet(groups: seq<Group>)
    ensures Digits(groups[..0]) == "" && CardWithin(groups, 0) == 0
  {
  }

  lemma NextCardWithin(groups: seq<Group>, k: nat)
    requires k < |groups|
    ensures CardWithin(groups, k + 1) == if IsCard(groups[..k + 1]) then k + 1 else CardWithin(groups, k)
  {
  }

  /** The search of scrubCardNumbersIn for the longest card number from one group on. */
  method FindCard(groups: seq<Group>, i: nat) returns (found: int)
    requires i < |groups| && AllDigitGroups(groups)
    ensures found == var n := LongestCard(groups[i..]); if n == 0 then -1 else i + n - 1
  {
    hide Digits, CardWithin;
    ghost var rest := groups[i..];
    NothingYet(rest);
    var joined := "";
    found := -1;
    var last := i;
    while last < |groups| && |joined| + |groups[last].digits| <= 19
      invariant i <= last <= |groups|
      invariant joined == Digits(rest[..last - i])
      invariant found == var n := CardWithin(rest, last - i); if n == 0 then -1 else i + n - 1
    {
      NextDigits(rest, last - i);
      NextCardWithin(rest, last - i);
      joined := joined + groups[last].digits;
      DigitsAreDigits(rest[..last - i + 1]);
      var card := IsCardNumber(joined);
      if card {
        found := last;
      }
      last := last + 1;
    }
    TooLong(rest, last - i);
  }

  method ScrubCardNumbersIn(run: string) returns (out: string)
    requires IsRun(run)
    ensures out == ScrubbedRun(run)
  {
    hide Pieces, Render, Split, Marker;
    var groups := SplitRun(run);
    SplitOfRun(run);
    WellFormedDigits(groups);
    out := "";
    var i := 0;
    assert groups[0..] == groups;
    while i < |groups|
      invariant 0 <= i <= |groups|
      invariant ScrubbedRun(run) == out + Render(Pieces(groups[i..]))
    {
      var found := FindCard(groups, i);
      PiecesStep(groups, i, out);
      if found >= 0 {
        out := out + Marker() + groups[found].sep;
        i := found + 1;
      } else {
        out := out + groups[i].digits + groups[i].sep;
        i := i + 1;
      }
    }
    NothingLeft(groups[i..]);
  }

  lemma NothingLeft(groups: seq<Group>)
    requires groups == []
    ensures Render(Pieces(groups)) == ""
  {
  }

  lemma RenderStep(piece: Piece, pieces: seq<Piece>)
    ensures Render([piece] + pieces) == Rendered(piece) + Render(pieces)
  {
  }

  lemma FirstPiece(groups: seq<Group>)
    requires groups != []
    ensures var k := LongestCard(groups);
            && k <= |groups|
            && Pieces(groups) == if k > 0 then [Card(groups[..k])] + Pieces(groups[k..])
                                 else [Kept(groups[0])] + Pieces(groups[1..])
  {
    hide CardWithin, IsCard;
  }

  lemma PiecesFromCard(groups: seq<Group>)
    requires LongestCard(groups) > 0
    ensures var k := LongestCard(groups);
            && 0 < k <= |groups|
            && Render(Pieces(groups)) == Marker() + groups[k - 1].sep + Render(Pieces(groups[k..]))
  {
    hide LongestCard, Marker, Render, Rendered, Pieces;
    var k := LongestCard(groups);
    FirstPiece(groups);
    RenderedCard(groups, k);
    RenderStep(Card(groups[..k]), Pieces(groups[k..]));
  }

  lemma RenderedCard(groups: seq<Group>, k: nat)
    requires 0 < k <= |groups|
    ensures Rendered(Card(groups[..k])) == Marker() + groups[k - 1].sep
  {
  }

  lemma PiecesFromKept(groups: seq<Group>)
    requires groups != [] && LongestCard(groups) == 0
    ensures Render(Pieces(groups)) == groups[0].digits + groups[0].sep + Render(Pieces(groups[1..]))
  {
  }

  lemma PiecesStep(groups: seq<Group>, i: nat, out: string)
    requires i < |groups|
    ensures var n := LongestCard(groups[i..]);
            && n <= |groups| - i
            && out + Render(Pieces(groups[i..])) ==
               if n > 0 then out + Marker() + groups[i + n - 1].sep + Render(Pieces(groups[i + n..]))
               else out + groups[i].digits + groups[i].sep + Render(Pieces(groups[i + 1..]))
  {
    hide LongestCard, Marker, Render, Pieces;
    var rest := groups[i..];
    var n := LongestCard(rest);
    if n > 0 {
      PiecesFromCard(rest);
      assert rest[n..] == groups[i + n..];
    } else {
      PiecesFromKept(rest);
      assert rest[1..] == groups[i + 1..];
    }
  }

  /** The greedy loop over digits and single separators. */
  method RunEnd(text: string, i: nat) returns (end: nat, lastSeparator: int)
    requires i < |text| && IsDigit(text[i])
    ensures end == i + ChainLen(text[i..]) && lastSeparator == EndAt(i, LastSep(text[i..]))
  {
    hide ChainLen, LastSep;
    end, lastSeparator := i + 1, -1;
    while end < |text|
      invariant i < end <= |text| && IsDigit(text[end - 1])
      invariant i + ChainLen(text[i..]) == end - 1 + ChainLen(text[end - 1..])
      invariant EndAt(i, LastSep(text[i..])) ==
                var later := EndAt(end - 1, LastSep(text[end - 1..]));
                if later >= 0 then later else lastSeparator
    {
      ChainStep(text, end - 1);
      if IsDigit(text[end]) {
        end := end + 1;
      } else if IsSep(text[end]) && end + 1 < |text| && IsDigit(text[end + 1]) {
        lastSeparator := end;
        end := end + 2;
      } else {
        break;
      }
    }
  }

  lemma ChainStep(text: string, k: nat)
    requires k < |text| && IsDigit(text[k])
    ensures if k + 1 < |text| && IsDigit(text[k + 1]) then
              && ChainLen(text[k..]) == 1 + ChainLen(text[k + 1..])
              && LastSep(text[k..]) == EndAt(1, LastSep(text[k + 1..]))
            else if k + 2 < |text| && IsSep(text[k + 1]) && IsDigit(text[k + 2]) then
              && ChainLen(text[k..]) == 2 + ChainLen(text[k + 2..])
              && LastSep(text[k..]) == if LastSep(text[k + 2..]) < 0 then 1 else 2 + LastSep(text[k + 2..])
            else ChainLen(text[k..]) == 1 && LastSep(text[k..]) == -1
  {
  }

  method ScrubCardNumbers(text: string) returns (scrubbed: string)
    ensures scrubbed == Scrubbed(' ', text)
  {
    hide Scrubbed, ScrubbedRun, ChainLen, LastSep, IsRun;
    var out := "";
    var copied := 0;
    var n := |text|;
    var i := 0;
    assert text[0..] == text;
    while i < n
      invariant 0 <= copied <= i <= n
      invariant Scrubbed(' ', text) == out + text[copied..i] + Scrubbed(PrevAt(text, i), text[i..])
      invariant copied == 0 ==> out == ""
    {
      if !IsDigit(text[i]) || (i > 0 && IsWord(text[i - 1])) {
        CopyStep(text, copied, i, out);
        i := i + 1;
        continue;
      }
      var end, lastSeparator := RunEnd(text, i);
      if end < n && IsWord(text[end]) {
        if lastSeparator < 0 {
          SkipStep(text, copied, i, end, out);
          i := end;
          continue;
        }
        end := lastSeparator;
      }
      MatchIsRun(text, i, end);
      RunStep(text, copied, i, end, out);
      out := out + text[copied..i];
      var scrubbedRun := ScrubCardNumbersIn(text[i..end]);
      out := out + scrubbedRun;
      copied, i := end, end;
    }
    EmptyStays(PrevAt(text, n), text[n..]);
    if copied == 0 {
      return text;
    }
    return out + text[copied..];
  }

  lemma MatchIsRun(text: string, i: nat, end: nat)
    requires i < |text| && IsDigit(text[i]) && i <= end && end - i == MatchLen(text[i..])
    ensures i < end <= |text| && IsRun(text[i..end])
  {
    hide IsRun, MatchLen;
    MatchLenIsLongest(text[i..]);
    assert text[i..][..end - i] == text[i..end];
  }

  lemma EmptyStays(prev: char, s: string)
    requires s == ""
    ensures Scrubbed(prev, s) == ""
  {
  }

  // One turn of the loop of scrubCardNumbers, by what it does.

  lemma CopiedByte(prev: char, s: string)
    requires s != "" && (!IsDigit(s[0]) || IsWord(prev) || MatchLen(s) < 0)
    ensures Scrubbed(prev, s) == [s[0]] + Scrubbed(s[0], s[1..])
  {
    hide MatchLen, ScrubbedRun;
  }

  lemma CopyStep(text: string, copied: nat, i: nat, out: string)
    requires copied <= i < |text|
    requires !IsDigit(text[i]) || IsWord(PrevAt(text, i))
    ensures out + text[copied..i] + Scrubbed(PrevAt(text, i), text[i..])
         == out + text[copied..i + 1] + Scrubbed(PrevAt(text, i + 1), text[i + 1..])
  {
    hide MatchLen, Scrubbed;
    CopiedByte(PrevAt(text, i), text[i..]);
    DropDrop(text, i, 1);
    var rest := Scrubbed(text[i], text[i + 1..]);
    assert text[copied..i] + [text[i]] == text[copied..i + 1];
    assert out + text[copied..i] + ([text[i]] + rest) == out + (text[copied..i] + [text[i]]) + rest;
  }

  lemma {:induction false} GluedDigitsAreCopied(prev: char, s: string, e: nat)
    requires e <= |s| && (forall k :: 0 <= k < e ==> IsDigit(s[k]))
    requires IsWord(prev) || (s != "" && IsDigit(s[0]) && MatchLen(s) < 0)
    ensures Scrubbed(prev, s) == s[..e] + Scrubbed(if e == 0 then prev else s[e - 1], s[e..])
    decreases e
  {
    hide MatchLen, Scrubbed;
    if e == 0 {
      assert s[0..] == s;
    } else {
      CopiedByte(prev, s);
      GluedDigitsAreCopied(s[0], s[1..], e - 1);
      DropDrop(s, 1, e - 1);
      assert s[..e] == [s[0]] + s[1..][..e - 1];
      assert e > 1 ==> s[1..][e - 2] == s[e - 1];
    }
  }

  lemma FoldSkipped(text: string, copied: nat, i: nat, end: nat, out: string, rest: string)
    requires copied <= i <= end <= |text|
    ensures out + text[copied..i] + (text[i..][..end - i] + rest) == out + text[copied..end] + rest
  {
    assert text[copied..i] + text[i..][..end - i] == text[copied..end];
  }

  lemma SkipStep(text: string, copied: nat, i: nat, end: nat, out: string)
    requires copied <= i < end <= |text| && IsDigit(text[i])
    requires MatchLen(text[i..]) < 0 && end == i + ChainLen(text[i..])
    ensures out + text[copied..i] + Scrubbed(PrevAt(text, i), text[i..])
         == out + text[copied..end] + Scrubbed(PrevAt(text, end), text[end..])
  {
    hide MatchLen, ScrubbedRun, Scrubbed;
    var u := text[i..];
    ChainWithoutSeparators(u);
    GluedDigitsAreCopied(PrevAt(text, i), u, end - i);
    DropDrop(text, i, end - i);
    var rest := Scrubbed(text[end - 1], text[end..]);
    FoldSkipped(text, copied, i, end, out, rest);
  }

  lemma RunStep(text: string, copied: nat, i: nat, end: nat, out: string)
    requires copied <= i < end <= |text| && IsDigit(text[i]) && !IsWord(PrevAt(text, i))
    requires end == i + MatchLen(text[i..])
    ensures out + text[copied..i] + Scrubbed(PrevAt(text, i), text[i..])
         == out + text[copied..i] + ScrubbedRun(text[i..end]) + text[end..end]
            + Scrubbed(PrevAt(text, end), text[end..])
  {
    hide MatchLen, ScrubbedRun;
    var u := text[i..];
    DropDrop(text, i, end - i);
    assert u[..end - i] == text[i..end];
    var rest := Scrubbed(text[end - 1], text[end..]);
    var run := ScrubbedRun(text[i..end]);
    assert Scrubbed(PrevAt(text, i), u) == run + rest;
    assert out + text[copied..i] + (run + rest) == out + text[copied..i] + run + text[end..end] + rest;
  }
}
