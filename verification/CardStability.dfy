// What the card scrubber leaves behind: nothing of a run is lost, no card number survives in it, and
// scrubbing again changes nothing.
module CardStability {
  import opened Ascii
  import opened CardRuns
  import opened Luhn
  import opened CardScrubber

  // ---------------------------------------------------------------- one run

  function Source(pieces: seq<Piece>): seq<Group> {
    if pieces == [] then []
    else
      (match pieces[0]
       case Kept(group) => [group]
       case Card(stretch) => stretch) + Source(pieces[1..])
  }

  predicate AllKept(pieces: seq<Piece>) {
    forall p :: p in pieces ==> p.Kept?
  }

  /** Every group of a run is kept as it was or is part of a replaced stretch, in order, and only
      stretches that are card numbers are replaced. */
  lemma {:induction false} RunIsAccountedFor(groups: seq<Group>)
    ensures Source(Pieces(groups)) == groups
    ensures forall p :: p in Pieces(groups) && p.Card? ==> IsCard(p.stretch)
    decreases |groups|
  {
    hide IsCard, CardWithin, Pieces;
    if groups == [] {
      NoPieces();
    } else {
      FirstPiece(groups);
      var n := LongestCard(groups);
      var k := if n > 0 then n else 1;
      RunIsAccountedFor(groups[k..]);
      var pieces := Pieces(groups);
      assert pieces == [pieces[0]] + Pieces(groups[k..]) && pieces[1..] == Pieces(groups[k..]);
      assert groups == groups[..k] + groups[k..];
    }
  }

  lemma NoPieces()
    ensures Pieces([]) == []
  {
  }

  lemma {:induction false} KeptPrefix(groups: seq<Group>, b: nat)
    requires b <= |Pieces(groups)| && AllKept(Pieces(groups)[..b])
    ensures b <= |groups| && Source(Pieces(groups)[..b]) == groups[..b]
    decreases b
  {
    hide IsCard, CardWithin;
    if b > 0 {
      var pieces := Pieces(groups);
      assert pieces[0] in pieces[..b];
      assert pieces[1..] == Pieces(groups[1..]);
      assert pieces[..b][1..] == pieces[1..][..b - 1];
      forall p | p in pieces[1..][..b - 1] ensures p.Kept? {
        assert p in pieces[..b];
      }
      KeptPrefix(groups[1..], b - 1);
      assert groups[..b] == [groups[0]] + groups[1..][..b - 1];
    }
  }

  /** No stretch of neighbouring groups that were kept is a card number. */
  lemma {:induction false} NoCardSurvives(groups: seq<Group>, a: nat, b: nat)
    requires a < b <= |Pieces(groups)| && AllKept(Pieces(groups)[a..b])
    ensures !IsCard(Source(Pieces(groups)[a..b]))
    decreases a
  {
    hide IsCard, Source, Pieces, CardWithin;
    var pieces := Pieces(groups);
    if groups == [] {
      NoPieces();
    }
    FirstPiece(groups);
    if a == 0 {
      assert pieces[0..b] == pieces[..b];
      KeptPrefix(groups, b);
      assert pieces[0] in pieces[..b];
    } else {
      var n := LongestCard(groups);
      var k := if n > 0 then n else 1;
      var rest := Pieces(groups[k..]);
      assert pieces[1..] == rest;
      assert pieces[a..b] == pieces[1..][a - 1..b - 1];
      NoCardSurvives(groups[k..], a - 1, b - 1);
    }
  }

  // ---------------------------------------------------------------- scrubbing what was scrubbed

  predicate NoDigits(s: string) {
    forall k :: 0 <= k < |s| ==> !IsDigit(s[k])
  }

  lemma {:induction false} NonDigitsAreCopied(prev: char, m: string, x: string)
    requires NoDigits(m)
    ensures Scrubbed(prev, m + x) == m + Scrubbed(if m == "" then prev else m[|m| - 1], x)
    decreases |m|
  {
    hide Scrubbed;
    if m == "" {
      assert m + x == x;
    } else {
      CopiedByte(prev, m + x);
      NonDigitsAreCopied(m[0], m[1..], x);
      DropOfJoin(m, x, 1);
      assert m == [m[0]] + m[1..];
      assert |m| > 1 ==> m[1..][|m| - 2] == m[|m| - 1];
    }
  }

  lemma PrevIsIrrelevant(p: char, q: char, s: string)
    requires s == "" || !IsDigit(s[0])
    ensures Scrubbed(p, s) == Scrubbed(q, s)
  {
    hide MatchLen, ScrubbedRun;
  }

  /** How many groups at the start are kept one by one. */
  function KeptCount(groups: seq<Group>): (m: nat)
    ensures m <= |groups|
    ensures forall j :: 0 <= j < m ==> LongestCard(groups[j..]) == 0
    ensures m < |groups| ==> LongestCard(groups[m..]) > 0
  {
    if groups == [] || LongestCard(groups) > 0 then 0
    else
      var m := 1 + KeptCount(groups[1..]);
      assert forall j :: 1 <= j <= |groups| ==> groups[j..] == groups[1..][j - 1..];
      m
  }

  lemma {:induction false} KeptStretchIsShown(groups: seq<Group>, m: nat)
    requires m <= |groups| && forall j :: 0 <= j < m ==> LongestCard(groups[j..]) == 0
    ensures Render(Pieces(groups)) == Join(groups[..m]) + Render(Pieces(groups[m..]))
    decreases m
  {
    hide CardWithin, Render, Pieces;
    assert groups[0..] == groups;
    if m > 0 {
      forall j | 0 <= j < m - 1 ensures LongestCard(groups[1..][j..]) == 0 {
        assert groups[1..][j..] == groups[j + 1..];
      }
      KeptStretchIsShown(groups[1..], m - 1);
      PiecesFromKept(groups);
      assert groups[1..][m - 1..] == groups[m..];
      assert groups[..m][1..] == groups[1..][..m - 1];
    }
  }

  /** The groups with the separator after the last one dropped. */
  function Capped(groups: seq<Group>): seq<Group>
    requires groups != []
  {
    groups[|groups| - 1 := Group(groups[|groups| - 1].digits, "")]
  }

  lemma {:induction false} CappedJoin(groups: seq<Group>)
    requires groups != []
    ensures Join(groups) == Join(Capped(groups)) + groups[|groups| - 1].sep
  {
    if |groups| == 1 {
      assert groups[1..] == [] == Capped(groups)[1..];
    } else {
      assert Capped(groups)[1..] == Capped(groups[1..]);
      CappedJoin(groups[1..]);
    }
  }

  lemma {:induction false} CappedIsWellFormed(groups: seq<Group>, m: nat)
    requires WellFormed(groups) && 0 < m <= |groups|
    ensures WellFormed(Capped(groups[..m]))
    decreases m
  {
    var c := Capped(groups[..m]);
    if m > 1 {
      CappedIsWellFormed(groups[1..], m - 1);
      assert c[1..] == Capped(groups[1..][..m - 1]);
    }
  }

  lemma SplitOff(d: string, sep: string, run: string)
    requires AllDigits(d) && (sep == " " || sep == "-")
    ensures Split(d + sep + run) == [Group(d, sep)] + Split(run)
  {
    hide SpanLen;
    var s := d + sep + run;
    var k := |d|;
    assert forall j :: 0 <= j < k ==> s[j] == d[j];
    assert s[k] == sep[0];
    SpanLenIs(NotSep, s, k);
    assert s[..k] == d && [s[k]] == sep && s[k + 1..] == run;
  }

  lemma SplitOne(d: string)
    requires AllDigits(d)
    ensures Split(d) == [Group(d, "")]
  {
  }

  /** Joined groups are a run, and splitting it gives them back. */
  lemma {:induction false} SplitOfJoin(groups: seq<Group>)
    requires WellFormed(groups)
    ensures IsRun(Join(groups)) && Split(Join(groups)) == groups
    decreases |groups|
  {
    hide Split;
    var d, sep := groups[0].digits, groups[0].sep;
    if |groups| == 1 {
      assert groups[1..] == [] && Join(groups) == d;
      SplitOne(d);
      assert groups == [Group(d, "")];
    } else {
      SplitOfJoin(groups[1..]);
      JoinedRun(d, sep, Join(groups[1..]));
      SplitOff(d, sep, Join(groups[1..]));
      assert groups == [Group(d, sep)] + groups[1..];
    }
  }

  lemma JoinedRun(d: string, sep: string, run: string)
    requires d != "" && AllDigits(d) && (sep == " " || sep == "-") && IsRun(run)
    ensures IsRun(d + sep + run)
  {
  }

  /** Dropping a separator changes no group's digits. */
  lemma {:induction false} CappedDigits(groups: seq<Group>)
    requires groups != []
    ensures Digits(Capped(groups)) == Digits(groups)
  {
    if |groups| > 1 {
      assert Capped(groups)[1..] == Capped(groups[1..]);
      CappedDigits(groups[1..]);
    } else {
      assert Capped(groups)[1..] == groups[1..];
    }
  }

  lemma CappedHasNoCard(groups: seq<Group>, m: nat, j: nat)
    requires j < m <= |groups| && LongestCard(groups[j..]) == 0
    ensures LongestCard(Capped(groups[..m])[j..]) == 0
  {
    hide CardNumber, Capped;
    var c := Capped(groups[..m]);
    assert |c| == m by {
      CappedStretch(groups, m, j, 1);
    }
    forall l | 0 < l <= m - j ensures !IsCard(c[j..][..l]) {
      CappedStretch(groups, m, j, l);
    }
  }

  lemma CappedStretch(groups: seq<Group>, m: nat, j: nat, l: nat)
    requires j < m <= |groups| && 0 < l <= m - j
    ensures |Capped(groups[..m])| == m
    ensures Digits(Capped(groups[..m])[j..][..l]) == Digits(groups[j..][..l])
  {
    var c, g := Capped(groups[..m]), groups[j..][..l];
    hide Digits, Capped;
    CappedPointwise(groups[..m]);
    assert forall k :: 0 <= k < m ==> groups[..m][k] == groups[k];
    assert forall k :: 0 <= k < l ==> g[k] == groups[j + k];
    assert c[j..][..l] == c[j..j + l];
    if j + l < m {
      assert c[j..j + l] == g;
    } else {
      CappedPointwise(g);
      assert c[j..j + l] == Capped(g);
      CappedDigits(g);
    }
  }

  lemma CappedPointwise(groups: seq<Group>)
    requires groups != []
    ensures |Capped(groups)| == |groups|
    ensures forall k :: 0 <= k < |groups| - 1 ==> Capped(groups)[k] == groups[k]
    ensures Capped(groups)[|groups| - 1] == Group(groups[|groups| - 1].digits, "")
  {
  }

  lemma {:induction false} NothingToReplace(groups: seq<Group>)
    requires forall j :: 0 <= j < |groups| ==> LongestCard(groups[j..]) == 0
    ensures Render(Pieces(groups)) == Join(groups)
  {
    KeptStretchIsShown(groups, |groups|);
    assert groups[..|groups|] == groups && groups[|groups|..] == [];
  }

  /** A kept stretch scrubs to itself when it is a run of its own. */
  lemma KeptStretchStays(groups: seq<Group>, m: nat)
    requires WellFormed(groups) && 0 < m <= |groups|
    requires forall j :: 0 <= j < m ==> LongestCard(groups[j..]) == 0
    ensures var run := Join(Capped(groups[..m])); IsRun(run) && ScrubbedRun(run) == run
  {
    hide CardWithin, Render, Pieces;
    var c := Capped(groups[..m]);
    CappedIsWellFormed(groups, m);
    SplitOfJoin(c);
    forall j | 0 <= j < |c| ensures LongestCard(c[j..]) == 0 {
      CappedHasNoCard(groups, m, j);
    }
    NothingToReplace(c);
  }

  /** Nothing after a run continues it into a longer match. */
  predicate EndsRun(z: string) {
    && (z == "" || !IsWord(z[0]))
    && (|z| >= 2 && IsSep(z[0]) && IsDigit(z[1]) ==>
          var k := SpanLen(IsDigit, z[1..]); 1 + k < |z| && IsWord(z[1 + k]))
  }

  lemma MatchEndsThere(run: string, z: string)
    requires IsRun(run) && EndsRun(z)
    ensures MatchLen(run + z) == |run|
  {
    hide MatchLen, SpanLen;
    var s := run + z;
    var n := |run|;
    assert s[..n] == run && s[0] == run[0];
    assert forall k :: n <= k < |s| ==> s[k] == z[k - n];
    MatchLenIsLongest(s);
    assert IsMatch(s, n);
    var r := MatchLen(s);
    if |z| >= 2 && IsSep(z[0]) && IsDigit(z[1]) {
      var k := SpanLen(IsDigit, z[1..]);
      forall p | n < p <= n + 1 + k ensures IsWord(s[p]) && (p == n + 1 + k ==> !IsDigit(s[p])) {
        assert s[p] == z[1..][p - n - 1];
      }
      RunStaysInChain(s, n + 1 + k, r);
    } else if z != "" {
      RunStaysInChain(s, n, r);
    }
  }

  lemma {:induction false} WellFormedAt(groups: seq<Group>, k: nat)
    requires WellFormed(groups) && 0 < k <= |groups|
    ensures var sep := groups[k - 1].sep;
            if k == |groups| then sep == "" else (sep == " " || sep == "-") && WellFormed(groups[k..])
    decreases k
  {
    if k > 1 {
      WellFormedAt(groups[1..], k - 1);
      assert groups[1..][k - 1..] == groups[k..];
    }
  }

  lemma MarkerAgain(p: char, sep: string, tail: string)
    requires sep == "" || sep == " " || sep == "-"
    requires Scrubbed(if sep == "" then ']' else sep[0], tail) == tail
    ensures var s := Marker() + sep + tail; Scrubbed(p, s) == s
  {
    hide Scrubbed;
    var m := Marker() + sep;
    assert NoDigits(m);
    NonDigitsAreCopied(p, m, tail);
  }

  lemma KeptAgain(p: char, run: string, z: string)
    requires !IsWord(p) && IsRun(run) && ScrubbedRun(run) == run
    requires EndsRun(z) && Scrubbed(' ', z) == z
    ensures Scrubbed(p, run + z) == run + z
  {
    hide MatchLen, ScrubbedRun, EndsRun;
    var s := run + z;
    MatchEndsThere(run, z);
    assert s[0] == run[0] && s[..|run|] == run && s[|run|..] == z;
    EndsBeforeNonDigit(z);
    PrevIsIrrelevant(s[|run| - 1], ' ', z);
  }

  lemma EndsBeforeNonDigit(z: string)
    requires EndsRun(z)
    ensures z == "" || !IsDigit(z[0])
  {
  }

  /** A separator and a replaced stretch after a run, or a separator alone, do not continue it. */
  lemma SeparatorAgain(sep: string, u: string)
    requires (sep == " " || sep == "-") && u != "" && !IsDigit(u[0])
    requires Scrubbed(sep[0], u) == u
    ensures EndsRun(sep + u) && Scrubbed(' ', sep + u) == sep + u
  {
  }

  lemma StartsWithMarker(groups: seq<Group>)
    requires LongestCard(groups) > 0
    ensures Render(Pieces(groups)) != "" && Render(Pieces(groups))[0] == '['
  {
  }

  lemma PiecesFromKeptStretch(groups: seq<Group>)
    requires groups != [] && LongestCard(groups) == 0
    ensures var m := KeptCount(groups);
            && m > 0
            && Render(Pieces(groups)) ==
               Join(Capped(groups[..m])) + groups[m - 1].sep + Render(Pieces(groups[m..]))
  {
    hide CardWithin, Render, Pieces, Join, Capped;
    var m := KeptCount(groups);
    KeptStretchIsShown(groups, m);
    CappedJoin(groups[..m]);
  }

  /** Scrubbing a scrubbed run again, whatever unchangeable text follows it. */
  lemma {:induction false} GroupsAgain(p: char, groups: seq<Group>, z: string)
    requires !IsWord(p) && WellFormed(groups) && EndsRun(z) && Scrubbed(' ', z) == z
    ensures var s := Render(Pieces(groups)) + z; Scrubbed(p, s) == s
    decreases |groups|
  {
    hide LongestCard, KeptCount, Scrubbed, Render, Pieces, EndsRun, IsRun, Join, Capped, ScrubbedRun, Marker;
    var shown := Render(Pieces(groups));
    if LongestCard(groups) > 0 {
      var k := LongestCard(groups);
      PiecesFromCard(groups);
      WellFormedAt(groups, k);
      var sep, tail := groups[k - 1].sep, Render(Pieces(groups[k..])) + z;
      if k == |groups| {
        NothingLeft(groups[k..]);
        assert tail == z;
        EndsBeforeNonDigit(z);
        PrevIsIrrelevant(']', ' ', z);
      } else {
        GroupsAgain(sep[0], groups[k..], z);
      }
      MarkerAgain(p, sep, tail);
      assert shown + z == Marker() + sep + tail;
    } else {
      var m := KeptCount(groups);
      PiecesFromKeptStretch(groups);
      WellFormedAt(groups, m);
      KeptStretchStays(groups, m);
      var run, sep := Join(Capped(groups[..m])), groups[m - 1].sep;
      var u := Render(Pieces(groups[m..])) + z;
      if m == |groups| {
        NothingLeft(groups[m..]);
        KeptAgain(p, run, z);
        assert shown + z == run + z;
      } else {
        GroupsAgain(sep[0], groups[m..], z);
        StartsWithMarker(groups[m..]);
        SeparatorAgain(sep, u);
        KeptAgain(p, run, sep + u);
        assert shown + z == run + (sep + u);
      }
    }
  }

  // ---------------------------------------------------------------- the whole text

  /** The text after a match, scrubbed, does not continue the match's run. */
  lemma TailEndsRun(s: string, n: nat)
    requires s != "" && IsDigit(s[0]) && n == MatchLen(s) > 0
    ensures EndsRun(Scrubbed(s[n - 1], s[n..]))
  {
    hide MatchLen, ScrubbedRun, SpanLen;
    var rest := s[n..];
    var z := Scrubbed(s[n - 1], rest);
    MatchLenIsLongest(s);
    if rest != "" {
      CopiedByte(s[n - 1], rest);
      var r := rest[1..];
      assert z == [rest[0]] + Scrubbed(rest[0], r) && z[1..] == Scrubbed(rest[0], r);
      if IsSep(rest[0]) && r != "" {
        if IsDigit(r[0]) {
          NoLaterMatch(s, n);
          NoMatchMeansGlued(r);
          GluedStays(rest[0], r);
        } else {
          CopiedByte(rest[0], r);
        }
      }
    }
  }

  /** The longest match being n, the digits after the separator there match nothing. */
  lemma NoLaterMatch(s: string, n: nat)
    requires s != "" && IsDigit(s[0]) && n == MatchLen(s) > 0
    requires n + 1 < |s| && IsSep(s[n]) && IsDigit(s[n + 1])
    ensures MatchLen(s[n + 1..]) < 0
  {
    hide MatchLen;
    var r := s[n + 1..];
    MatchLenIsLongest(s);
    MatchLenIsLongest(r);
    if MatchLen(r) > 0 {
      MatchesJoin(s, n, MatchLen(r));
    }
  }

  lemma MatchesJoin(s: string, n: nat, m: nat)
    requires IsMatch(s, n) && n + 1 < |s| && IsSep(s[n]) && IsMatch(s[n + 1..], m)
    ensures IsMatch(s, n + 1 + m)
  {
    var a, b, c := s[..n], s[n + 1..][..m], s[..n + 1 + m];
    assert forall k :: 0 <= k < n ==> c[k] == a[k];
    assert c[n] == s[n];
    assert forall k :: n < k < n + 1 + m ==> c[k] == b[k - n - 1];
    assert IsRun(c);
  }

  /** Digits glued to a word byte are copied with it. */
  lemma GluedStays(prev: char, s: string)
    requires s != "" && IsDigit(s[0]) && (IsWord(prev) || MatchLen(s) < 0)
    requires var k := SpanLen(IsDigit, s); k < |s| && IsWord(s[k])
    ensures var k := SpanLen(IsDigit, s);
            var t := Scrubbed(prev, s);
            k < |t| && SpanLen(IsDigit, t) == k && t[k] == s[k] && t[0] == s[0]
  {
    hide MatchLen, ScrubbedRun, Scrubbed, SpanLen;
    var k := SpanLen(IsDigit, s);
    GluedDigitsAreCopied(prev, s, k);
    CopiedByte(s[k - 1], s[k..]);
    var t := Scrubbed(prev, s);
    assert t[..k] == s[..k] && t[k] == s[k];
    assert forall j :: 0 <= j < k ==> t[j] == t[..k][j];
    SpanLenIs(IsDigit, t, k);
  }

  /** A run that matched nothing because a word byte is glued to it matches nothing once more. */
  lemma StillNoMatch(t: string)
    requires t != "" && IsDigit(t[0])
    requires var k := SpanLen(IsDigit, t); k < |t| && IsWord(t[k])
    ensures MatchLen(t) < 0
  {
  }

  lemma {:induction false} ScrubAgain(prev: char, prev': char, s: string)
    requires prev' == prev || s == "" || !IsDigit(s[0])
    ensures var t := Scrubbed(prev, s); Scrubbed(prev', t) == t
    decreases |s|
  {
    hide MatchLen, ScrubbedRun;
    if s != "" {
      var t := Scrubbed(prev, s);
      if IsDigit(s[0]) && !IsWord(prev) && MatchLen(s) > 0 {
        var n := MatchLen(s);
        MatchLenIsLongest(s);
        var z := Scrubbed(s[n - 1], s[n..]);
        ScrubAgain(s[n - 1], ' ', s[n..]);
        TailEndsRun(s, n);
        SplitOfRun(s[..n]);
        RunAgain(prev', s[..n], z);
      } else {
        ScrubAgain(s[0], s[0], s[1..]);
        var u := Scrubbed(s[0], s[1..]);
        assert t == [s[0]] + u && t[1..] == u;
        if IsDigit(s[0]) && !IsWord(prev) {
          NoMatchMeansGlued(s);
          GluedStays(prev, s);
          StillNoMatch(t);
        }
      }
    }
  }

  lemma RunAgain(p: char, run: string, z: string)
    requires !IsWord(p) && IsRun(run) && EndsRun(z) && Scrubbed(' ', z) == z
    ensures var s := ScrubbedRun(run) + z; Scrubbed(p, s) == s
  {
    hide Scrubbed, Split, Render, Pieces, EndsRun, IsRun;
    SplitOfRun(run);
    GroupsAgain(p, Split(run), z);
  }

  /** Scrubbing card numbers twice is scrubbing them once, for every text. */
  lemma ScrubTwice(text: string)
    ensures var once := Scrubbed(' ', text); Scrubbed(' ', once) == once
  {
    ScrubAgain(' ', ' ', text);
  }
}
