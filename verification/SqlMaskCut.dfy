// Masking twice, on every statement, those that maskSQL cuts after 4000 characters included.
module SqlMaskCut {
  import opened Ascii
  import opened SqlNumbers
  import opened SqlNumberGrammar
  import opened SqlMask
  import opened SqlMaskPrivacy
  import opened SqlMaskStability

  // ---------------------------------------------------------------- when a text masks to itself

  predicate LiteralAt(prev: char, t: string, i: nat, doubleQuotes: bool)
    requires i < |t|
  {
    LiteralLen(Before(prev, t, i), t[i..], doubleQuotes) >= 0
  }

  lemma LiteralLater(prev: char, t: string, i: nat, doubleQuotes: bool)
    requires 0 < i < |t|
    ensures LiteralAt(prev, t, i, doubleQuotes) == LiteralAt(t[0], t[1..], i - 1, doubleQuotes)
  {
    hide LiteralLen;
    DropDrop(t, 1, i - 1);
  }

  /** Where no literal starts, a text masks to itself; where one does, the first of them shows. */
  lemma {:induction false} FirstLiteral(prev: char, t: string, doubleQuotes: bool)
    ensures var m := Masked(prev, t, doubleQuotes);
            (m == t && forall i: nat :: i < |t| ==> !LiteralAt(prev, t, i, doubleQuotes))
            || exists i: nat :: i < |m| && i < |t| && m[i] != t[i] && LiteralAt(prev, t, i, doubleQuotes)
    decreases |t|
  {
    hide Masked, LiteralLen, LiteralAt;
    var m := Masked(prev, t, doubleQuotes);
    FirstByte(prev, t, doubleQuotes);
    if t != "" {
      FirstIsLiteral(prev, t, doubleQuotes);
      if LiteralLen(prev, t, doubleQuotes) >= 0 {
        assert m[0] != t[0];
      } else {
        FirstLiteral(t[0], t[1..], doubleQuotes);
        forall i: nat | 0 < i < |t|
          ensures LiteralAt(prev, t, i, doubleQuotes) == LiteralAt(t[0], t[1..], i - 1, doubleQuotes)
        {
          LiteralLater(prev, t, i, doubleQuotes);
        }
        var m' := Masked(t[0], t[1..], doubleQuotes);
        assert m == [t[0]] + m' && t == [t[0]] + t[1..];
        if i: nat :| i < |m'| && i < |t[1..]| && m'[i] != t[1..][i] && LiteralAt(t[0], t[1..], i, doubleQuotes) {
          assert m[i + 1] == m'[i] && t[i + 1] == t[1..][i];
        }
      }
    }
  }

  lemma FirstIsLiteral(prev: char, t: string, doubleQuotes: bool)
    requires t != ""
    ensures LiteralAt(prev, t, 0, doubleQuotes) <==> LiteralLen(prev, t, doubleQuotes) >= 0
    ensures LiteralLen(prev, t, doubleQuotes) >= 0 ==> t[0] != '?'
  {
    assert t[0..] == t;
    if t[0] == '?' {
      QuestionIsCopied(prev, t, doubleQuotes);
    }
  }

  // ---------------------------------------------------------------- only numbers can be left

  /** A number that stands alone starts at i, glued to nothing before it. */
  ghost predicate NumberAt(t: string, i: nat)
    requires i < |t|
  {
    var before := Before(' ', t, i);
    && (IsDigit(t[i]) || t[i] == '.') && !PartOfWord(before) && before != '.'
    && exists n: nat :: NumberPrefix(t[i..], n)
  }

  /** No quote, and no tag that opens a dollar-quoted body. */
  predicate OpensNothing(t: string, doubleQuotes: bool) {
    && '\'' !in t && (doubleQuotes ==> '"' !in t)
    && forall i: nat :: i < |t| && t[i] == '$' ==> DollarLen(t[i..]) == -1
  }

  lemma OnlyNumbers(t: string, i: nat, doubleQuotes: bool)
    requires i < |t| && OpensNothing(t, doubleQuotes)
    ensures LiteralAt(' ', t, i, doubleQuotes) <==> NumberAt(t, i)
  {
    hide CloseLen, DollarLen, NumberLen, IsNumber;
    var u, before := t[i..], Before(' ', t, i);
    assert u[0] == t[i] && t[i] in t;
    if IsDigit(t[i]) || t[i] == '.' {
      NumberLenIsLongest(u);
    } else if t[i] != '$' {
      var p := PrefixLen(u);
      assert p < |u| ==> u[p] == t[i + p] && t[i + p] in t;
    }
  }

  /** From any byte on, masked text is the masked form of the text from that byte's origin on. */
  lemma {:induction false} SuffixIsMasked(prev: char, s: string, i: nat, doubleQuotes: bool)
    requires i < |Masked(prev, s, doubleQuotes)|
    ensures var at := Origin(prev, s, i, doubleQuotes);
            Masked(prev, s, doubleQuotes)[i..] == Masked(Before(prev, s, at), s[at..], doubleQuotes)
    decreases |s|
  {
    hide Masked, Origin, Reaches, Step, Shown, LiteralLen, Before;
    NothingMasked(prev, doubleQuotes);
    var m := Masked(prev, s, doubleQuotes);
    FirstByte(prev, s, doubleQuotes);
    ScanTurn(prev, s, i, doubleQuotes);
    BeforeRest(prev, s, Step(prev, s, doubleQuotes), 0);
    if i == 0 {
      assert s[0..] == s && m[0..] == m;
    } else {
      var step := Step(prev, s, doubleQuotes);
      var at := Origin(s[step - 1], s[step..], i - 1, doubleQuotes);
      SuffixIsMasked(s[step - 1], s[step..], i - 1, doubleQuotes);
      DropDrop(m, 1, i - 1);
      DropDrop(s, step, at);
      BeforeRest(prev, s, step, at);
    }
  }

  lemma MaskedOpensNothing(s: string, doubleQuotes: bool)
    ensures OpensNothing(Masked(' ', s, doubleQuotes), doubleQuotes)
  {
    hide Masked, DollarLen, Origin, LiteralLen, Reaches;
    NoQuoteSurvives(' ', s, doubleQuotes);
    var m := Masked(' ', s, doubleQuotes);
    forall i: nat | i < |m| && m[i] == '$' ensures DollarLen(m[i..]) == -1 {
      OriginShows(' ', s, i, doubleQuotes);
      SuffixIsMasked(' ', s, i, doubleQuotes);
      var at := Origin(' ', s, i, doubleQuotes);
      NoTagAppears(Before(' ', s, at), s[at..], doubleQuotes);
    }
  }

  // ---------------------------------------------------------------- the cut

  function CutAfter(m: string, n: nat): string
    requires n <= |m|
  {
    m[..n] + "..."
  }

  /** A '$' that opens nothing opens nothing before a cut either. */
  lemma CutTag(v: string, r: nat)
    requires 0 < r <= |v| && v[0] == '$' && DollarLen(v) == -1
    ensures DollarLen(CutAfter(v, r)) == -1
  {
    hide SpanLen, IndexOf;
    var w := CutAfter(v, r);
    var k := SpanLen(IsTagByte, v[1..]);
    assert forall x :: 0 <= x < r ==> w[x] == v[x];
    assert w[r] == '.';
    if 1 + k < r {
      assert !IsTagByte(v[1..][k]) && v[1..][k] == v[1 + k];
      TagSpans(v, w, k);
    } else {
      TagSpans(v, w, r - 1);
    }
  }

  lemma TagSpans(v: string, w: string, j: nat)
    requires j + 1 < |w| && j < |v| && j <= SpanLen(IsTagByte, v[1..])
    requires forall x :: 0 < x <= j ==> w[x] == v[x]
    requires !IsTagByte(w[j + 1])
    ensures SpanLen(IsTagByte, w[1..]) == j
  {
    hide SpanLen;
    assert forall x :: 0 <= x < j ==> w[1..][x] == w[x + 1] == v[x + 1] == v[1..][x];
    assert w[1..][j] == w[j + 1];
    SpanLenIs(IsTagByte, w[1..], j);
  }

  lemma CutOpensNothing(m: string, n: nat, doubleQuotes: bool)
    requires n <= |m| && OpensNothing(m, doubleQuotes)
    ensures OpensNothing(CutAfter(m, n), doubleQuotes)
  {
    hide DollarLen;
    var u := CutAfter(m, n);
    assert forall c :: c in m[..n] ==> c in m;
    forall i: nat | i < |u| && u[i] == '$' ensures DollarLen(u[i..]) == -1 {
      assert i < n && u[i] == m[i];
      CutTag(m[i..], n - i);
      assert u[i..] == CutAfter(m[i..], n - i);
    }
  }

  /** The marks of a cut are no number. */
  lemma DotsAreCopied(u: string, i: nat)
    requires i < |u| && forall k :: i <= k < |u| ==> u[k] == '.'
    ensures !NumberAt(u, i)
  {
    hide IsNumber;
    var v := u[i..];
    forall n: nat | NumberPrefix(v, n) ensures false {
      NumberEndsInWord(v[..n]);
    }
  }

  // ---------------------------------------------------------------- the theorem

  /** Masking what maskSQL returned changes nothing if and only if that holds no standalone number
      outside a word; whatever the statement was, and whether or not it was cut. For one left whole that
      can be told from the statement: no number is glued to a number or dollar-quoted body in it. */
  lemma MaskSQLTwiceIff(statement: string, system: string)
    ensures var once := MaskedStatement(statement, system);
            MaskedStatement(once, system) == once <==> forall i: nat :: i < |once| ==> !NumberAt(once, i)
    ensures var once := MaskedStatement(statement, system);
            |Masked(' ', statement, QuotesDouble(system))| <= MAX_SQL_LENGTH ==>
              (MaskedStatement(once, system) == once <==>
               Blank(statement) || NoGluedNumber(' ', statement, QuotesDouble(system)))
  {
    hide MaskedStatement, Masked, NoGluedNumber, Blank, NumberAt;
    SameForWhole(statement, system);
    SameForAll(statement, system);
  }

  lemma SameForWhole(statement: string, system: string)
    ensures var once := MaskedStatement(statement, system);
            |Masked(' ', statement, QuotesDouble(system))| <= MAX_SQL_LENGTH ==>
              (MaskedStatement(once, system) == once <==>
               Blank(statement) || NoGluedNumber(' ', statement, QuotesDouble(system)))
  {
    hide MaskedStatement, Masked, NoGluedNumber, Blank;
    if |Masked(' ', statement, QuotesDouble(system))| <= MAX_SQL_LENGTH {
      WholeMaskedTwiceIff(statement, system);
    }
  }

  lemma SameForAll(statement: string, system: string)
    ensures var once := MaskedStatement(statement, system);
            MaskedStatement(once, system) == once <==> forall i: nat :: i < |once| ==> !NumberAt(once, i)
  {
    hide QuotesDouble, Masked, LiteralAt, NumberAt, OpensNothing;
    var dq := QuotesDouble(system);
    var m := Masked(' ', statement, dq);
    if !Blank(statement) {
      MaskedOpensNothing(statement, dq);
      if Blank(m) {
        BlankOnlyFromBlank(' ', statement, dq);
        assert false;
      }
      if |m| > MAX_SQL_LENGTH {
        CutTwice(m, system);
      } else {
        WholeTwice(m, system);
      }
    }
  }

  lemma NumbersDecide(u: string, doubleQuotes: bool)
    requires OpensNothing(u, doubleQuotes)
    ensures Masked(' ', u, doubleQuotes) == u <==> forall i: nat :: i < |u| ==> !NumberAt(u, i)
  {
    hide Masked, LiteralAt, NumberAt, OpensNothing;
    FirstLiteral(' ', u, doubleQuotes);
    forall i: nat | i < |u| ensures LiteralAt(' ', u, i, doubleQuotes) == NumberAt(u, i) {
      OnlyNumbers(u, i, doubleQuotes);
    }
  }

  lemma WholeTwice(u: string, system: string)
    requires OpensNothing(u, QuotesDouble(system)) && !Blank(u) && |u| <= MAX_SQL_LENGTH
    ensures MaskedStatement(u, system) == u <==> forall i: nat :: i < |u| ==> !NumberAt(u, i)
  {
    hide QuotesDouble, Masked, NumberAt, OpensNothing;
    NumbersDecide(u, QuotesDouble(system));
    LengthOnlyShrinks(' ', u, QuotesDouble(system));
  }

  lemma CutTwice(m: string, system: string)
    requires OpensNothing(m, QuotesDouble(system)) && |m| > MAX_SQL_LENGTH
    ensures var u := CutAfter(m, MAX_SQL_LENGTH);
            MaskedStatement(u, system) == u <==> forall i: nat :: i < |u| ==> !NumberAt(u, i)
  {
    hide QuotesDouble, Masked, NumberAt, LiteralAt, OpensNothing;
    var dq, u := QuotesDouble(system), CutAfter(m, MAX_SQL_LENGTH);
    CutOpensNothing(m, MAX_SQL_LENGTH, dq);
    NumbersDecide(u, dq);
    FirstLiteral(' ', u, dq);
    LengthOnlyShrinks(' ', u, dq);
    assert u[MAX_SQL_LENGTH] == '.' && !IsSpace('.');
    var v := Masked(' ', u, dq);
    if v != u {
      var i: nat :| i < |v| && i < |u| && v[i] != u[i] && LiteralAt(' ', u, i, dq);
      OnlyNumbers(u, i, dq);
      if i >= MAX_SQL_LENGTH {
        DotsAreCopied(u, i);
        assert false;
      }
      assert |v| > MAX_SQL_LENGTH ==> MaskedStatement(u, system)[i] == v[i];
    }
  }
}
