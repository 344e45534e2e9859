// When masking twice is the same as masking once. Not always: 1.5.6 becomes ?.6 and then ??. The
// lemmas below say exactly when.
module SqlMaskStability {
  import opened Ascii
  import opened SqlNumbers
  import opened SqlNumberGrammar
  import opened SqlMask
  import opened SqlMaskPrivacy

  // ---------------------------------------------------------------- the condition

  /** The run of word bytes at the start of s, with a dot before it if there is one. */
  function DottedRun(s: string): string {
    s[..RunLen(s)]
  }

  function RunLen(s: string): (n: nat)
    ensures n <= |s|
  {
    if s != "" && s[0] == '.' then 1 + SpanLen(IsWord, s[1..]) else SpanLen(IsWord, s)
  }

  /** No masked number is directly followed by a second dotted number, and no dollar-quoted body by
      a number: those are the literals that end in a word byte or '$'. */
  predicate NoGluedNumber(prev: char, s: string, doubleQuotes: bool)
    decreases |s|
  {
    s == "" ||
    var step := Step(prev, s, doubleQuotes);
    && (LiteralLen(prev, s, doubleQuotes) >= 0 && PartOfWord(s[step - 1]) ==> !IsNumber(DottedRun(s[step..])))
    && NoGluedNumber(s[step - 1], s[step..], doubleQuotes)
  }

  // ---------------------------------------------------------------- what one pass leaves in place

  lemma CopiedAfterWord(prev: char, s: string, doubleQuotes: bool)
    requires s != "" && PartOfWord(prev) && IsWord(s[0])
    ensures LiteralLen(prev, s, doubleQuotes) == -1
  {
  }

  /** The first byte of the masked text is the first byte of the text, or a '?'. */
  lemma FirstByte(prev: char, s: string, doubleQuotes: bool)
    ensures var t := Masked(prev, s, doubleQuotes);
            && (s == "" <==> t == "")
            && (s != "" ==> t[0] == (if LiteralLen(prev, s, doubleQuotes) >= 0 then '?' else s[0]))
            && (s != "" ==> t[1..] == var n := Step(prev, s, doubleQuotes); Masked(s[n - 1], s[n..], doubleQuotes))
  {
  }

  /** A run of word bytes after a word byte is copied, and what follows it in the output is again
      nothing or no word byte. */
  lemma {:induction false} WordRunIsCopied(prev: char, s: string, doubleQuotes: bool)
    requires PartOfWord(prev)
    ensures var w := SpanLen(IsWord, s);
            var t := Masked(prev, s, doubleQuotes);
            && w <= |t| && t[..w] == s[..w]
            && t[w..] == Masked(if w == 0 then prev else s[w - 1], s[w..], doubleQuotes)
            && Standalone(t, w)
    decreases |s|
  {
    hide LiteralLen, Masked;
    var w := SpanLen(IsWord, s);
    FirstByte(prev, s, doubleQuotes);
    if w == 0 {
      assert s[0..] == s;
    } else {
      CopiedAfterWord(prev, s, doubleQuotes);
      WordRunIsCopied(s[0], s[1..], doubleQuotes);
      GlueFirst(s, Masked(prev, s, doubleQuotes), w);
    }
  }

  lemma GlueFirst(s: string, t: string, w: nat)
    requires 0 < w <= |s| && w <= |t| && s[0] == t[0]
    requires t[1..][..w - 1] == s[1..][..w - 1]
    ensures t[..w] == s[..w]
    ensures t[w..] == t[1..][w - 1..] && s[w..] == s[1..][w - 1..]
    ensures w < |t| ==> t[w] == t[1..][w - 1]
    ensures w > 1 ==> s[w - 1] == s[1..][w - 2]
  {
  }

  // ---------------------------------------------------------------- the shape of numbers

  lemma SliceAllOf(p: char -> bool, t: string, lo: nat, hi: nat)
    requires lo <= hi <= |t| && AllOf(p, t[lo..hi])
    ensures forall j :: lo <= j < hi ==> p(t[j])
  {
  }

  /** Digits, or a dot and digits, or either glued to further word bytes. */
  predicate NumberStart(t: string) {
    && t != ""
    && (IsDigit(t[0]) || (t[0] == '.' && |t| > 1 && IsDigit(t[1])))
  }

  lemma NumbersStart(t: string)
    requires IsNumber(t)
    ensures NumberStart(t)
  {
  }

  /** Where a number holds its first byte, past the start, that is no word byte. */
  lemma NumberBreak(t: string, m: nat)
    requires IsNumber(t) && 0 < m < |t| && !IsWord(t[m]) && (forall j :: 0 < j < m ==> IsWord(t[j]))
    ensures IsDigits(t[..m]) || ((t[m] == '+' || t[m] == '-') && IsDigits(t[m + 1..]))
  {
    WordBytes();
    if !IsDecimal(t) {
      if IsRadix(t, 'x', 'X', IsHex) {
        RadixIsWord(t, 'x', 'X', IsHex);
      } else {
        RadixIsWord(t, 'b', 'B', IsBinary);
      }
      assert false;
    }
    var k :| 0 <= k <= |t| && IsMantissa(t[..k]) && (k == |t| || IsExponent(t[k..]));
    if m < k {
      MantissaBreak(t[..k], m);
      assert t[..k][..m] == t[..m];
    } else {
      ExponentBreak(t[k..], m - k);
      assert t[k..][2..] == t[k + 2..];
    }
  }

  lemma RadixIsWord(t: string, marker: char, upper: char, digit: char -> bool)
    requires IsRadix(t, marker, upper, digit) && IsWord(marker) && IsWord(upper)
    requires forall c :: digit(c) ==> IsWord(c)
    ensures AllOf(IsWord, t)
  {
  }

  lemma ExponentBreak(e: string, m: nat)
    requires IsExponent(e) && m < |e| && !IsWord(e[m])
    ensures m == 1 && (e[1] == '+' || e[1] == '-') && IsDigits(e[2..])
  {
  }

  lemma MantissaBreak(u: string, m: nat)
    requires IsMantissa(u) && 0 < m < |u| && !IsWord(u[m])
    ensures IsDigits(u[..m])
  {
  }

  // ---------------------------------------------------------------- numbers in masked text

  /** Digits the first pass left after a sign are glued to a word byte, in its output too. */
  lemma DigitsAreInWord(s: string, k: nat)
    requires k == SpanLen(IsDigit, s) && 0 < k < |s| && IsWord(s[k])
    ensures SpanLen(IsWord, s[1..]) >= k
  {
    assert forall j :: 0 < j < |s| ==> s[1..][j - 1] == s[j];
  }

  lemma NoExponentDigitsLeft(sign: char, s: string, doubleQuotes: bool, n: nat)
    requires sign == '+' || sign == '-'
    requires var t := Masked(sign, s, doubleQuotes); n <= |t| && Standalone(t, n)
    ensures !IsDigits(Masked(sign, s, doubleQuotes)[..n])
  {
    hide Masked, NumberLen, SpanLen;
    var t := Masked(sign, s, doubleQuotes);
    FirstByte(sign, s, doubleQuotes);
    if n > 0 && IsDigits(t[..n]) {
      assert IsDigit(t[..n][0]) && s[0] == t[0] && !IsDigit('?');
      DigitIsCopiedIff(sign, s, doubleQuotes);
      GluedDigits(s);
      WordRunIsCopied(s[0], s[1..], doubleQuotes);
      var k := SpanLen(IsDigit, s);
      var w := SpanLen(IsWord, s[1..]);
      WordBytes();
      DigitsAreInWord(s, k);
      assert forall j :: 0 < j < |s| ==> s[j] == s[1..][j - 1];
      assert forall j :: 0 < j <= w ==> t[j] == t[1..][..w][j - 1] == s[j];
      assert t[..n] == t[0..n];
      SliceAllOf(IsDigit, t, 0, n);
    }
  }

  /** The masked text right after a copied digit or dot: that byte's dotted run is still there, and no
      word byte follows it. */
  lemma RunIsCopied(prev: char, s: string, doubleQuotes: bool)
    requires s != "" && NumberStart(s) && LiteralLen(prev, s, doubleQuotes) < 0
    ensures var d := DottedRun(s);
            var t := Masked(prev, s, doubleQuotes);
            && 0 < |d| == RunLen(s) <= |t| && t[..|d|] == d
            && t[|d|..] == Masked(s[|d| - 1], s[|d|..], doubleQuotes)
            && Standalone(t, |d|)
  {
    hide LiteralLen, Masked, SpanLen;
    FirstByte(prev, s, doubleQuotes);
    var t := Masked(prev, s, doubleQuotes);
    assert t == [s[0]] + t[1..];
    if s[0] != '.' {
      RunAfter(s[0], s, t, doubleQuotes);
    } else {
      DigitAfterDotIsCopied(s[1..], doubleQuotes);
      var u, v := s[1..], t[1..];
      FirstByte('.', u, doubleQuotes);
      assert v == [u[0]] + v[1..];
      RunAfter(u[0], u, v, doubleQuotes);
      DotBefore(s, t, SpanLen(IsWord, u));
    }
  }

  lemma DotBefore(s: string, t: string, w: nat)
    requires 1 <= w < |s| && w < |t| && s[0] == '.' == t[0] && t[1..][..w] == s[1..][..w]
    ensures s[..w + 1] == t[..w + 1]
    ensures t[1..][w..] == t[w + 1..] && s[1..][w..] == s[w + 1..]
    ensures w + 1 < |t| ==> t[1..][w] == t[w + 1]
    ensures s[1..][w - 1] == s[w]
  {
  }

  lemma DigitAfterDotIsCopied(s: string, doubleQuotes: bool)
    requires s != "" && IsDigit(s[0])
    ensures LiteralLen('.', s, doubleQuotes) == -1
  {
  }

  lemma RunAfter(c: char, s: string, t: string, doubleQuotes: bool)
    requires s != "" && IsDigit(s[0]) && c == s[0]
    requires t == [c] + Masked(c, s[1..], doubleQuotes)
    ensures var w := SpanLen(IsWord, s);
            && 0 < w <= |t| && t[..w] == s[..w]
            && t[w..] == Masked(s[w - 1], s[w..], doubleQuotes) && Standalone(t, w)
  {
    hide LiteralLen, Masked;
    WordRunIsCopied(c, s[1..], doubleQuotes);
    var w := SpanLen(IsWord, s);
    assert t[1..] == Masked(c, s[1..], doubleQuotes);
    assert w == 1 + SpanLen(IsWord, s[1..]);
    assert s[1..][w - 1..] == s[w..] && t[1..][w - 1..] == t[w..];
    assert t[..w] == [c] + t[1..][..w - 1];
  }

  /** Whether the masked text reads as a number from a copied digit or dot on is decided by that
      byte's dotted run alone. */
  lemma NumberInMasked(prev: char, s: string, doubleQuotes: bool)
    requires s != "" && (IsDigit(s[0]) || s[0] == '.') && LiteralLen(prev, s, doubleQuotes) < 0
    ensures var t := Masked(prev, s, doubleQuotes);
            t != "" && t[0] == s[0] && (NumberLen(t) >= 0 <==> IsNumber(DottedRun(s)))
  {
    hide Masked, LiteralLen, NumberLen, IsNumber;
    var t := Masked(prev, s, doubleQuotes);
    var d := DottedRun(s);
    FirstByte(prev, s, doubleQuotes);
    NumberLenIsLongest(t);
    if NumberStart(s) {
      RunIsCopied(prev, s, doubleQuotes);
      if IsNumber(d) {
        assert NumberPrefix(t, |d|);
      }
      if NumberLen(t) >= 0 {
        NumberIsTheRun(prev, s, doubleQuotes, NumberLen(t));
      }
    } else {
      if IsNumber(d) {
        NumbersStart(d);
        assert false;
      }
      FirstByte('.', s[1..], doubleQuotes);
      assert |t| > 1 ==> t[1..][0] == t[1];
      if NumberLen(t) >= 0 {
        NumbersStart(t[..NumberLen(t)]);
        assert false;
      }
    }
  }

  lemma NumberIsTheRun(prev: char, s: string, doubleQuotes: bool, n: nat)
    requires s != "" && NumberStart(s) && LiteralLen(prev, s, doubleQuotes) < 0
    requires n > 0 && NumberPrefix(Masked(prev, s, doubleQuotes), n)
    ensures IsNumber(DottedRun(s))
  {
    hide Masked, LiteralLen, NumberLen, IsNumber;
    var t := Masked(prev, s, doubleQuotes);
    var d := DottedRun(s);
    RunIsCopied(prev, s, doubleQuotes);
    RunIsWord(s);
    assert forall j :: 0 <= j < |d| ==> t[j] == t[..|d|][j];
    if n > |d| {
      var u := t[..n];
      assert u[..|d|] == d && u[|d|] == t[|d|];
      NumberBreak(u, |d|);
      if IsDigits(d) {
        DigitsAreNumber(d);
      } else {
        var r := s[|d|..];
        FirstByte(s[|d| - 1], r, doubleQuotes);
        assert t[|d|..][0] == t[|d|] != '?';
        assert t[|d|..][1..] == t[|d| + 1..] == Masked(r[0], r[1..], doubleQuotes);
        TakeThenDrop(t, n, |d| + 1);
        NoExponentDigitsLeft(r[0], r[1..], doubleQuotes, n - |d| - 1);
      }
    } else {
      assert n == |d|;
    }
  }

  lemma RunIsWord(s: string)
    requires s != "" && NumberStart(s)
    ensures forall j :: 0 < j < |DottedRun(s)| ==> IsWord(DottedRun(s)[j])
  {
  }

  lemma TakeThenDrop(t: string, n: nat, k: nat)
    requires k <= n <= |t|
    ensures t[..n][k..] == t[k..][..n - k]
    ensures n < |t| ==> t[k..][n - k] == t[n]
  {
  }

  lemma DigitsAreNumber(d: string)
    requires IsDigits(d)
    ensures IsNumber(d)
  {
    assert d[..|d|] == d;
    assert IsMantissa(d[..|d|]);
  }

  // ---------------------------------------------------------------- the second pass

  /** A '$' the first pass left alone opens nothing in its output either. */
  lemma NoTagAppears(prev: char, s: string, doubleQuotes: bool)
    requires s != "" && s[0] == '$' && LiteralLen(prev, s, doubleQuotes) < 0
    ensures var t := Masked(prev, s, doubleQuotes); t != "" && t[0] == '$' && DollarLen(t) == -1
  {
    hide Masked, SpanLen, IndexOf;
    var t := Masked(prev, s, doubleQuotes);
    FirstByte(prev, s, doubleQuotes);
    var u, v := s[1..], t[1..];
    WordRunIsCopied('$', u, doubleQuotes);
    var k, w := SpanLen(IsTagByte, u), SpanLen(IsWord, u);
    assert forall j :: 0 <= j < k ==> IsWord(u[j]);
    assert k <= w;
    FirstByte(if w == 0 then '$' else u[w - 1], u[w..], doubleQuotes);
    assert forall j :: 0 <= j < w ==> v[j] == v[..w][j] == u[j];
    assert w < |v| ==> v[w..][0] == v[w];
    assert k < |u| ==> u[k] != '$' by {
      assert k < |u| ==> s[1 + k] == u[k];
    }
    assert k < |v| ==> !IsTagByte(v[k]) && v[k] != '$';
    SpanLenIs(IsTagByte, v, k);
    assert k < |v| ==> t[1 + k] == v[k];
  }

  /** What the first pass copied the second copies too, unless a literal before it has become a '?'
      and it starts a number. */
  lemma CopiedAgainUnless(prev: char, prev': char, s: string, doubleQuotes: bool)
    requires s != "" && LiteralLen(prev, s, doubleQuotes) < 0
    requires prev' == prev || (prev' == '?' && prev != '.')
    ensures LiteralLen(prev', Masked(prev, s, doubleQuotes), doubleQuotes) >= 0 <==>
            prev' != prev && PartOfWord(prev) && IsNumber(DottedRun(s))
  {
    hide Masked, NumberLen, IsNumber;
    var t := Masked(prev, s, doubleQuotes);
    var c := s[0];
    FirstByte(prev, s, doubleQuotes);
    if IsDigit(c) || c == '.' {
      NumberInMasked(prev, s, doubleQuotes);
      if !PartOfWord(prev) && prev != '.' && IsNumber(DottedRun(s)) {
        var d := DottedRun(s);
        assert s[..|d|] == d;
        NumbersStart(d);
        assert NumberPrefix(s, |d|);
        NumberLenIsLongest(s);
        assert false;
      }
    } else {
      if IsNumber(DottedRun(s)) {
        NumbersStart(DottedRun(s));
        assert false;
      }
      if c == '$' {
        NoTagAppears(prev, s, doubleQuotes);
      } else {
        NoQuoteSurvives(prev, s, doubleQuotes);
      }
    }
  }

  lemma {:induction false} CloseEnds(s: string, quote: char)
    ensures var n := CloseLen(s, quote); n < |s| ==> n > 0 && s[n - 1] == quote
    decreases |s|
  {
    if s != "" {
      if s[0] == '\\' && |s| > 1 {
        CloseEnds(s[2..], quote);
      } else if s[0] == quote && |s| > 1 && s[1] == quote {
        CloseEnds(s[2..], quote);
      } else if s[0] != quote {
        CloseEnds(s[1..], quote);
      }
    }
  }

  lemma NumberEndsInWord(t: string)
    requires IsNumber(t)
    ensures t != "" && IsWord(t[|t| - 1])
  {
    WordBytes();
    NumbersStart(t);
    var m := |t| - 1;
    if m == 0 {
    } else if !IsDecimal(t) {
      if IsRadix(t, 'x', 'X', IsHex) {
        RadixIsWord(t, 'x', 'X', IsHex);
      } else {
        RadixIsWord(t, 'b', 'B', IsBinary);
      }
    } else {
      var k :| 0 <= k <= |t| && IsMantissa(t[..k]) && (k == |t| || IsExponent(t[k..]));
      if k == |t| {
        assert t[..k] == t;
        if !IsDigits(t) {
          var d :| 0 <= d < |t| && t[d] == '.' && AllOf(IsDigit, t[..d]) && IsDigits(t[d + 1..]);
          assert t[d + 1..][m - d - 1] == t[m];
        }
      } else {
        var e := t[k..];
        assert IsDigits(e[1..]) ==> IsDigit(e[1..][m - k - 1]);
        assert IsDigits(e[2..]) ==> IsDigit(e[2..][m - k - 2]);
      }
    }
  }

  lemma DollarEndsInDollar(s: string)
    requires s != "" && s[0] == '$'
    ensures var n := DollarLen(s); 0 <= n < |s| ==> s[n - 1] == '$'
  {
    hide SpanLen, IndexOf;
    var j := 1 + SpanLen(IsTagByte, s[1..]);
    if j < |s| && s[j] == '$' {
      var tag := s[..j + 1];
      var at := IndexOf(s[j + 1..], tag);
      if at >= 0 {
        assert s[j + 1..][at..at + |tag|][j] == tag[j] == '$';
      }
    }
  }

  lemma LiteralEndsNotInDot(prev: char, s: string, doubleQuotes: bool)
    requires s != ""
    ensures var n := LiteralLen(prev, s, doubleQuotes); 0 <= n < |s| ==> s[n - 1] != '.'
  {
    hide IsNumber, NumberLen, CloseLen, DollarLen;
    var c := s[0];
    var n := LiteralLen(prev, s, doubleQuotes);
    if 0 <= n < |s| {
      if c == '\'' || (c == '"' && doubleQuotes) {
        CloseEnds(s[1..], c);
      } else if c == '$' {
        DollarEndsInDollar(s);
      } else if IsDigit(c) || c == '.' {
        NumberLenIsLongest(s);
        NumberEndsInWord(s[..n]);
      } else {
        CloseEnds(s[PrefixLen(s) + 1..], '\'');
      }
    }
  }

  /** Masking from prev' what was masked from prev, where the byte before is as it was or has been
      masked away. */
  lemma {:induction false} SecondPass(prev: char, prev': char, s: string, doubleQuotes: bool)
    requires prev' == prev || (prev' == '?' && (prev == '.' ==> s == ""))
    ensures var t := Masked(prev, s, doubleQuotes);
            Masked(prev', t, doubleQuotes) == t <==>
            NoGluedNumber(prev, s, doubleQuotes)
            && (prev' != prev && PartOfWord(prev) ==> !IsNumber(DottedRun(s)))
    decreases |s|
  {
    hide LiteralLen, DottedRun, IsNumber, Masked;
    var t := Masked(prev, s, doubleQuotes);
    FirstByte(prev, s, doubleQuotes);
    if s == "" {
      EmptyIsNoNumber();
      FirstByte(prev', t, doubleQuotes);
    } else {
      var step := Step(prev, s, doubleQuotes);
      if LiteralLen(prev, s, doubleQuotes) >= 0 {
        LiteralEndsNotInDot(prev, s, doubleQuotes);
        SecondPass(s[step - 1], '?', s[step..], doubleQuotes);
        QuestionIsCopied(prev', t, doubleQuotes);
        if PartOfWord(prev) {
          LiteralAfterWord(prev, s, doubleQuotes);
        }
      } else {
        SecondPass(s[0], s[0], s[1..], doubleQuotes);
        CopiedAgainUnless(prev, prev', s, doubleQuotes);
      }
      SameAgain(prev', t, doubleQuotes);
    }
  }

  /** A text is its own masked form exactly when the scan finds no literal in it. */
  lemma SameAgain(prev: char, t: string, doubleQuotes: bool)
    requires t != ""
    ensures Masked(prev, t, doubleQuotes) == t <==>
            LiteralLen(prev, t, doubleQuotes) < 0 && Masked(t[0], t[1..], doubleQuotes) == t[1..]
  {
    hide LiteralLen;
    FirstByte(prev, t, doubleQuotes);
    if t[0] == '?' {
      QuestionIsCopied(prev, t, doubleQuotes);
    }
    var m := Masked(prev, t, doubleQuotes);
    assert m == [m[0]] + m[1..] && t == [t[0]] + t[1..];
  }

  lemma EmptyIsNoNumber()
    ensures !IsNumber(DottedRun(""))
  {
  }

  lemma QuestionIsCopied(prev: char, t: string, doubleQuotes: bool)
    requires t != "" && t[0] == '?'
    ensures LiteralLen(prev, t, doubleQuotes) == -1
  {
  }

  /** Right after a word byte or '$' no number is a literal. */
  lemma LiteralAfterWord(prev: char, s: string, doubleQuotes: bool)
    requires s != "" && LiteralLen(prev, s, doubleQuotes) >= 0 && PartOfWord(prev)
    ensures !IsNumber(DottedRun(s))
  {
  }

  // ---------------------------------------------------------------- the theorem

  /** Masking a masked text changes nothing exactly when the first pass left no number glued to a
      number or dollar-quoted body it masked. */
  lemma MaskedTwiceIff(s: string, doubleQuotes: bool)
    ensures var t := Masked(' ', s, doubleQuotes);
            Masked(' ', t, doubleQuotes) == t <==> NoGluedNumber(' ', s, doubleQuotes)
  {
    SecondPass(' ', ' ', s, doubleQuotes);
  }

  lemma {:induction false} BlankOnlyFromBlank(prev: char, s: string, doubleQuotes: bool)
    requires Blank(Masked(prev, s, doubleQuotes))
    ensures Blank(s)
    decreases |s|
  {
    hide LiteralLen;
    if s != "" {
      FirstByte(prev, s, doubleQuotes);
      var t := Masked(prev, s, doubleQuotes);
      assert IsSpace(t[0]) && t[0] == s[0];
      assert AllOf(IsSpace, t[1..]);
      BlankOnlyFromBlank(s[0], s[1..], doubleQuotes);
      assert s == [s[0]] + s[1..];
    }
  }

  /** The same for maskSQL itself, on every statement its 4000-character cut leaves whole. */
  lemma WholeMaskedTwiceIff(statement: string, system: string)
    requires |Masked(' ', statement, QuotesDouble(system))| <= MAX_SQL_LENGTH
    ensures var once := MaskedStatement(statement, system);
            MaskedStatement(once, system) == once <==>
            Blank(statement) || NoGluedNumber(' ', statement, QuotesDouble(system))
  {
    hide QuotesDouble, Masked, NoGluedNumber;
    var dq := QuotesDouble(system);
    var t := Masked(' ', statement, dq);
    if !Blank(statement) {
      MaskedTwiceIff(statement, dq);
      if Blank(t) {
        BlankOnlyFromBlank(' ', statement, dq);
        assert false;
      }
      if Masked(' ', t, dq) == t {
      } else {
        LengthOnlyShrinks(' ', t, dq);
      }
    }
  }

  lemma {:induction false} LengthOnlyShrinks(prev: char, s: string, doubleQuotes: bool)
    ensures |Masked(prev, s, doubleQuotes)| <= |s|
    decreases |s|
  {
    hide LiteralLen;
    if s != "" {
      var step := Step(prev, s, doubleQuotes);
      LengthOnlyShrinks(s[step - 1], s[step..], doubleQuotes);
    }
  }

  lemma ExampleNumbers()
    ensures NumberLen("1.5.6") == 3
    ensures NumberLen(".6") == 2
  {
    var s, r := "1.5.6", ".6";
    SpanLenIs(IsDigit, s, 1);
    assert s[2..] == "5.6";
    SpanLenIs(IsDigit, s[2..], 1);
    assert Bases(s) == [3, 1];
    assert s[3..] == r;
    assert FromBase(s, 3) == 3;
    SpanLenIs(IsDigit, r, 0);
    SpanLenIs(IsDigit, r[1..], 1);
    assert Bases(r) == [2];
    assert FromBase(r, 2) == 2;
  }

  lemma EmptyMasked(prev: char)
    ensures Masked(prev, "", false) == ""
  {
  }

  lemma ExampleRest()
    ensures Masked('5', ".6", false) == ".6"
    ensures Masked('?', ".6", false) == "?"
  {
    hide NumberLen, DollarLen, CloseLen, Masked;
    ExampleNumbers();
    assert ".6"[1..] == "6" && "6"[1..] == "" && ".6"[2..] == "";
    EmptyMasked('6');
    EmptyMasked('.');
    MaskedTurn('.', "6", false);
    MaskedTurn('5', ".6", false);
    MaskedTurn('?', ".6", false);
  }

  /** Masking is not idempotent on every statement. */
  lemma MaskingTwiceCanDiffer()
    ensures Masked(' ', "1.5.6", false) == "?.6"
    ensures Masked(' ', "?.6", false) == "??"
  {
    hide NumberLen, Masked;
    var s, r := "1.5.6", "?.6";
    ExampleNumbers();
    ExampleRest();
    assert LiteralLen(' ', s, false) == 3;
    QuestionIsCopied(' ', r, false);
    hide LiteralLen;
    FirstByte(' ', s, false);
    FirstByte(' ', r, false);
    assert s[3..] == ".6" && r[1..] == ".6";
    var t, u := Masked(' ', s, false), Masked(' ', r, false);
    assert t == [t[0]] + t[1..] && u == [u[0]] + u[1..];
  }
}
