// What masking hides.
module SqlMaskPrivacy {
  import opened Ascii
  import opened SqlNumbers
  import opened SqlNumberGrammar
  import opened SqlMask

  // ---------------------------------------------------------------- what can survive

  /** No quote survives: not one string's opener, closer or content. */
  lemma {:induction false} NoQuoteSurvives(prev: char, s: string, doubleQuotes: bool)
    ensures '\'' !in Masked(prev, s, doubleQuotes)
    ensures doubleQuotes ==> '"' !in Masked(prev, s, doubleQuotes)
    decreases |s|
  {
    if s != "" {
      var step := Step(prev, s, doubleQuotes);
      NoQuoteSurvives(s[step - 1], s[step..], doubleQuotes);
    }
  }

  /** A digit the scan rests on is copied exactly when it is glued to a word byte, '$' or '.' before
      it, or starts no standalone number at all. */
  lemma DigitIsCopiedIff(prev: char, s: string, doubleQuotes: bool)
    requires s != "" && IsDigit(s[0])
    ensures LiteralLen(prev, s, doubleQuotes) < 0 <==>
            IsWord(prev) || prev == '$' || prev == '.' || !exists n: nat :: NumberPrefix(s, n)
  {
    NumberLenIsLongest(s);
  }

  /** And in the last case a word byte is glued to the end of its digits. */
  lemma GluedDigits(s: string)
    requires s != "" && IsDigit(s[0])
    requires !exists n: nat :: NumberPrefix(s, n)
    ensures var k := SpanLen(IsDigit, s); k < |s| && IsWord(s[k])
  {
    var k := SpanLen(IsDigit, s);
    DigitsPrefix(s);
    assert s[..k][..k] == s[..k];
    assert IsMantissa(s[..k]);
    assert IsDecimal(s[..k]);
    assert !NumberPrefix(s, k);
  }

  /** Where in the text the turn of the scan starts that writes byte i of the masked text. */
  function Origin(prev: char, s: string, i: nat, doubleQuotes: bool): (at: nat)
    ensures at <= |s|
    decreases |s|
  {
    if i == 0 || s == "" then 0
    else
      var step := Step(prev, s, doubleQuotes);
      step + Origin(s[step - 1], s[step..], i - 1, doubleQuotes)
  }

  function Before(prev: char, s: string, at: nat): char
    requires at <= |s|
  {
    if at == 0 then prev else s[at - 1]
  }

  /** Every byte of the masked text is a question mark for the literal at its origin or the copied byte
      there. */
  lemma {:induction false} OriginShows(prev: char, s: string, i: nat, doubleQuotes: bool)
    requires i < |Masked(prev, s, doubleQuotes)|
    ensures var at := Origin(prev, s, i, doubleQuotes);
            && at < |s| && Reaches(prev, s, at, doubleQuotes)
            && Masked(prev, s, doubleQuotes)[i] ==
               if LiteralLen(Before(prev, s, at), s[at..], doubleQuotes) >= 0 then '?' else s[at]
    decreases |s|
  {
    hide Masked, Origin, Reaches, Step, LiteralLen, Before;
    NothingMasked(prev, doubleQuotes);
    MaskedTurn(prev, s, doubleQuotes);
    ScanTurn(prev, s, i, doubleQuotes);
    BeforeRest(prev, s, Step(prev, s, doubleQuotes), 0);
    if i == 0 {
      assert s[0..] == s;
    } else {
      var step := Step(prev, s, doubleQuotes);
      var rest := s[step..];
      OriginShows(s[step - 1], rest, i - 1, doubleQuotes);
      var at := Origin(s[step - 1], rest, i - 1, doubleQuotes);
      DropDrop(s, step, at);
      BeforeRest(prev, s, step, at);
    }
  }

  lemma BeforeRest(prev: char, s: string, step: nat, at: nat)
    requires 0 < step && step + at <= |s|
    ensures Before(prev, s, 0) == prev && Before(s[step - 1], s[step..], at) == Before(prev, s, step + at)
  {
  }

  lemma NothingMasked(prev: char, doubleQuotes: bool)
    ensures Masked(prev, "", doubleQuotes) == ""
  {
  }

  lemma ScanTurn(prev: char, s: string, i: nat, doubleQuotes: bool)
    requires s != ""
    ensures Origin(prev, s, 0, doubleQuotes) == 0 && Reaches(prev, s, 0, doubleQuotes)
    ensures i > 0 ==>
              var step := Step(prev, s, doubleQuotes);
              var at := Origin(s[step - 1], s[step..], i - 1, doubleQuotes);
              && Origin(prev, s, i, doubleQuotes) == step + at
              && (Reaches(s[step - 1], s[step..], at, doubleQuotes) ==> Reaches(prev, s, step + at, doubleQuotes))
  {
    hide Step;
  }

  /** The digit there is glued to a word byte, '$' or '.' before it, or its digits run into a word byte. */
  predicate Glued(prev: char, s: string, at: nat)
    requires at < |s|
  {
    var before, k := Before(prev, s, at), SpanLen(IsDigit, s[at..]);
    IsWord(before) || before == '$' || before == '.' || (at + k < |s| && IsWord(s[at + k]))
  }

  /** So every digit in any masked text is a copied one that was glued. */
  lemma EveryDigitWasGlued(prev: char, s: string, i: nat, doubleQuotes: bool)
    requires i < |Masked(prev, s, doubleQuotes)| && IsDigit(Masked(prev, s, doubleQuotes)[i])
    ensures var at := Origin(prev, s, i, doubleQuotes);
            at < |s| && s[at] == Masked(prev, s, doubleQuotes)[i] && Glued(prev, s, at)
  {
    hide LiteralLen, Masked, Origin, SpanLen;
    OriginShows(prev, s, i, doubleQuotes);
    var at := Origin(prev, s, i, doubleQuotes);
    var before := Before(prev, s, at);
    assert !IsDigit('?');
    DigitIsCopiedIff(before, s[at..], doubleQuotes);
    if !PartOfWord(before) && before != '.' {
      GluedDigits(s[at..]);
    }
  }

  // ---------------------------------------------------------------- locality

  predicate IsNumberByte(c: char) {
    IsWord(c) || c == '.' || c == '+' || c == '-'
  }

  lemma AllOfJoin(p: char -> bool, t: string, k: nat)
    requires k <= |t| && AllOf(p, t[..k]) && AllOf(p, t[k..])
    ensures AllOf(p, t)
  {
  }

  lemma MantissaBytes(t: string)
    requires IsMantissa(t)
    ensures AllOf(IsNumberByte, t)
  {
  }

  lemma ExponentBytes(t: string)
    requires IsExponent(t)
    ensures AllOf(IsNumberByte, t)
  {
  }

  lemma NumberBytes(t: string)
    requires IsNumber(t)
    ensures AllOf(IsNumberByte, t)
  {
    WordBytes();
    if IsDecimal(t) {
      var k :| 0 <= k <= |t| && IsMantissa(t[..k]) && (k == |t| || IsExponent(t[k..]));
      MantissaBytes(t[..k]);
      if k < |t| {
        ExponentBytes(t[k..]);
      }
      AllOfJoin(IsNumberByte, t, k);
    } else {
      AllOfJoin(IsNumberByte, t, 2);
    }
  }

  // A quote or a dollar is no part of a number and ends a tag, so a scan that has not passed one cannot
  // have looked beyond it. Below, u + [stop] is the common text and x and y are what follows.

  predicate Stops(stop: char) {
    stop == '\'' || stop == '"' || stop == '$'
  }

  lemma NumberStops(u: string, stop: char, x: string, y: string)
    requires u != "" && (IsDigit(u[0]) || u[0] == '.') && Stops(stop)
    ensures NumberLen(u + [stop] + x) == NumberLen(u + [stop] + y) <= |u|
  {
    StopPrefix(u, stop, x, y);
    StopPrefix(u, stop, y, x);
    NumberLenIsLongest(u + [stop] + x);
    NumberLenIsLongest(u + [stop] + y);
  }

  lemma StopPrefix(u: string, stop: char, x: string, y: string)
    requires Stops(stop)
    ensures forall n: nat :: NumberPrefix(u + [stop] + x, n) ==> n <= |u| && NumberPrefix(u + [stop] + y, n)
  {
    hide NumberPrefix;
    forall n: nat | NumberPrefix(u + [stop] + x, n) ensures n <= |u| && NumberPrefix(u + [stop] + y, n) {
      StopsPrefix(u, stop, x, y, n);
    }
  }

  lemma StopsPrefix(u: string, stop: char, x: string, y: string, n: nat)
    requires Stops(stop) && NumberPrefix(u + [stop] + x, n)
    ensures n <= |u| && NumberPrefix(u + [stop] + y, n)
  {
    hide IsNumber, IsNumberByte;
    var s, r := u + [stop] + x, u + [stop] + y;
    NumberBytes(s[..n]);
    StopIsNoNumberByte(stop);
    assert s[|u|] == stop == r[|u|];
    assert forall k :: 0 <= k < n ==> s[..n][k] == s[k];
    assert n <= |u|;
    assert s[..n] == u[..n] == r[..n];
    assert n < |u| ==> s[n] == u[n] == r[n];
  }

  lemma StopIsNoNumberByte(stop: char)
    requires Stops(stop)
    ensures !IsNumberByte(stop)
  {
  }

  lemma DropStop(u: string, stop: char, x: string, n: nat)
    requires n <= |u|
    ensures (u + [stop] + x)[n..] == u[n..] + [stop] + x
  {
  }

  lemma {:induction false} CloseIsLocal(u: string, stop: char, x: string, y: string, quote: char)
    requires quote == '\'' || quote == '"'
    requires CloseLen(u + [stop] + x, quote) <= |u|
    ensures CloseLen(u + [stop] + y, quote) == CloseLen(u + [stop] + x, quote)
    decreases |u|
  {
    var s, r := u + [stop] + x, u + [stop] + y;
    if u != "" {
      var step := if u[0] == '\\' || (u[0] == quote && s[1] == quote) then 2 else 1;
      if |u| >= step && (step == 2 || u[0] != quote) {
        DropStop(u, stop, x, step);
        DropStop(u, stop, y, step);
        CloseIsLocal(u[step..], stop, x, y, quote);
      }
    }
  }

  lemma {:induction false} IndexIsLocal(u: string, x: string, y: string, t: string)
    requires 0 <= IndexOf(u + x, t) && IndexOf(u + x, t) + |t| <= |u|
    ensures IndexOf(u + y, t) == IndexOf(u + x, t)
    decreases |u|
  {
    var s, r := u + x, u + y;
    assert |t| <= |u| ==> s[..|t|] == u[..|t|] == r[..|t|];
    if s[..|t|] != t {
      DropOfJoin(u, x, 1);
      DropOfJoin(u, y, 1);
      IndexIsLocal(u[1..], x, y, t);
    }
  }

  /** A tag ends at the latest where the stop stands. */
  lemma TagIsLocal(u: string, stop: char, x: string, y: string)
    requires u != "" && u[0] == '$' && Stops(stop)
    ensures SpanLen(IsTagByte, (u + [stop] + x)[1..]) == SpanLen(IsTagByte, (u + [stop] + y)[1..]) < |u|
  {
    hide SpanLen;
    var s, r := (u + [stop] + x)[1..], (u + [stop] + y)[1..];
    var k := |u| - 1;
    assert s[k] == stop == r[k] && !IsTagByte(stop);
    assert forall j :: 0 <= j < k ==> s[j] == u[j + 1] == r[j];
    var j := SpanLen(IsTagByte, s);
    assert j <= k;
    SpanLenIs(IsTagByte, r, j);
  }

  lemma DollarIsLocal(u: string, stop: char, x: string, y: string)
    requires u != "" && u[0] == '$' && Stops(stop) && DollarLen(u + [stop] + x) <= |u|
    ensures DollarLen(u + [stop] + y) == DollarLen(u + [stop] + x)
  {
    hide SpanLen, IndexOf;
    var s, r := u + [stop] + x, u + [stop] + y;
    TagIsLocal(u, stop, x, y);
    var j := 1 + SpanLen(IsTagByte, s[1..]);
    if j < |u| && s[j] == '$' {
      var v := u[j + 1..] + [stop];
      DropStop(u, stop, x, j + 1);
      DropStop(u, stop, y, j + 1);
      TakeOfJoin(u + [stop], x, j + 1);
      TakeOfJoin(u + [stop], y, j + 1);
      IndexIsLocal(v, x, y, s[..j + 1]);
    }
  }

  lemma LiteralIsLocal(prev: char, u: string, stop: char, x: string, y: string, doubleQuotes: bool)
    requires u != "" && Stops(stop) && LiteralLen(prev, u + [stop] + x, doubleQuotes) <= |u|
    ensures LiteralLen(prev, u + [stop] + y, doubleQuotes) == LiteralLen(prev, u + [stop] + x, doubleQuotes)
  {
    hide CloseLen, DollarLen, NumberLen;
    var s, r := u + [stop] + x, u + [stop] + y;
    var c := u[0];
    DropStop(u, stop, x, 1);
    DropStop(u, stop, y, 1);
    if c == '\'' || (c == '"' && doubleQuotes) {
      CloseIsLocal(u[1..], stop, x, y, c);
    } else if c == '$' {
      DollarIsLocal(u, stop, x, y);
    } else if IsDigit(c) || c == '.' {
      NumberStops(u, stop, x, y);
    } else {
      var p := PrefixLen(s);
      assert p == PrefixLen(r);
      if p > 0 && !PartOfWord(prev) && p < |u| && u[p] == '\'' {
        DropStop(u, stop, x, p + 1);
        DropStop(u, stop, y, p + 1);
        CloseIsLocal(u[p + 1..], stop, x, y, '\'');
      }
    }
  }

  /** A literal's opening, of which stop is the first byte that cannot be part of a word. */
  function Opened(pre: string, stop: char, x: string): string {
    pre + [stop] + x
  }

  lemma StepIsLocal(prev: char, p: string, pre: string, stop: char, x: string, y: string, doubleQuotes: bool)
    requires p != "" && Stops(stop) && Step(prev, p + Opened(pre, stop, x), doubleQuotes) <= |p|
    ensures Step(prev, p + Opened(pre, stop, y), doubleQuotes) == Step(prev, p + Opened(pre, stop, x), doubleQuotes)
    ensures Shown(prev, p + Opened(pre, stop, y), doubleQuotes) == Shown(prev, p + Opened(pre, stop, x), doubleQuotes)
  {
    hide LiteralLen;
    assert p + Opened(pre, stop, x) == p + pre + [stop] + x;
    assert p + Opened(pre, stop, y) == p + pre + [stop] + y;
    LiteralIsLocal(prev, p + pre, stop, x, y, doubleQuotes);
  }

  /** Text before a point the scan rests on is masked without regard to what a literal opened at that
      point holds. */
  lemma {:induction false} PrefixIsLocal(prev: char, p: string, pre: string, stop: char, x: string, y: string,
                                         doubleQuotes: bool)
    requires Stops(stop) && Reaches(prev, p + Opened(pre, stop, x), |p|, doubleQuotes)
    requires var last := if p == "" then prev else p[|p| - 1];
             Masked(last, Opened(pre, stop, x), doubleQuotes) == Masked(last, Opened(pre, stop, y), doubleQuotes)
    ensures Masked(prev, p + Opened(pre, stop, x), doubleQuotes) == Masked(prev, p + Opened(pre, stop, y), doubleQuotes)
    decreases |p|
  {
    hide Step, Shown, Opened, Masked;
    var s, r := p + Opened(pre, stop, x), p + Opened(pre, stop, y);
    if p == "" {
      assert s == Opened(pre, stop, x) && r == Opened(pre, stop, y);
    } else {
      StepIsLocal(prev, p, pre, stop, x, y, doubleQuotes);
      var step := Step(prev, s, doubleQuotes);
      MaskedTurn(prev, s, doubleQuotes);
      MaskedTurn(prev, r, doubleQuotes);
      DropOfJoin(p, Opened(pre, stop, x), step);
      DropOfJoin(p, Opened(pre, stop, y), step);
      assert s[step - 1] == r[step - 1] == p[step - 1];
      PrefixIsLocal(p[step - 1], p[step..], pre, stop, x, y, doubleQuotes);
    }
  }

  // ---------------------------------------------------------------- a literal's content is hidden

  /** The three ways to open a literal: a single quote with its type prefix, a double quote, and a
      dollar-quoted body's tag. */
  datatype Quoting = Single(pre: string) | Double | Dollar(name: string)

  function Closer(q: Quoting): string {
    match q
    case Single(_) => "'"
    case Double => "\""
    case Dollar(name) => "$" + name + "$"
  }

  function Opener(q: Quoting): string {
    if q.Single? then q.pre + "'" else Closer(q)
  }

  /** It opens a literal there: a type prefix is no end of a word, double quotes count as strings, a tag
      holds letters and underscores only. */
  predicate CanOpen(q: Quoting, prev: char, doubleQuotes: bool) {
    match q
    case Single(pre) =>
      || pre == ""
      || (pre in {"E", "e", "X", "x", "N", "n", "B", "b", "U&", "u&"} && !IsWord(prev) && prev != '$')
    case Double => doubleQuotes
    case Dollar(name) => forall k :: 0 <= k < |name| ==> IsLetter(name[k]) || name[k] == '_'
  }

  function QuoteOf(q: Quoting): char
    requires !q.Dollar?
  {
    if q.Single? then '\'' else '"'
  }

  /** The literal that holds body ends where rest begins. */
  predicate Closed(q: Quoting, body: string, rest: string) {
    var s := body + Closer(q) + rest;
    if q.Dollar? then IndexOf(s, Closer(q)) == |body| else CloseLen(s, QuoteOf(q)) == |body| + 1
  }

  /** What a quoted string can hold: pairs of quotes, a backslash with the byte after it, and any other
      byte. */
  predicate StringBody(quote: char, body: string) {
    || body == ""
    || (body[0] != quote && body[0] != '\\' && StringBody(quote, body[1..]))
    || (|body| > 1 && (body[0] == '\\' || body[..2] == [quote, quote]) && StringBody(quote, body[2..]))
  }

  /** With something after it, a string ends exactly at a quote that has a well-formed body before it
      and is not doubled; at the end of the statement a well-formed body is enough. */
  lemma {:induction false} ClosedBodyIff(quote: char, body: string, rest: string)
    requires quote == '\'' || quote == '"'
    ensures var n := CloseLen(body + [quote] + rest, quote);
            && (rest != "" ==> (n == |body| + 1 <==> StringBody(quote, body) && rest[0] != quote))
            && (rest == "" && StringBody(quote, body) ==> n == |body| + 1)
    decreases |body|
  {
    var s := body + [quote] + rest;
    if body == "" {
      assert s[1..] == rest;
    } else if body[0] == '\\' || (body[0] == quote && |body| > 1 && body[1] == quote) {
      if |body| == 1 {
        assert s[2..] == rest;
      } else {
        DropStop(body, quote, rest, 2);
        ClosedBodyIff(quote, body[2..], rest);
      }
    } else if body[0] != quote {
      DropStop(body, quote, rest, 1);
      ClosedBodyIff(quote, body[1..], rest);
    }
  }

  predicate OccursAt(t: string, s: string, k: nat) {
    k + |t| <= |s| && s[k..k + |t|] == t
  }

  /** A dollar-quoted body ends at the first return of its tag, wherever that is. */
  lemma ClosedDollarIff(name: string, body: string, rest: string)
    ensures var tag := Closer(Dollar(name));
            Closed(Dollar(name), body, rest) <==>
            forall k: nat :: OccursAt(tag, body + tag + rest, k) ==> k >= |body|
  {
    hide IndexOf;
    var tag := Closer(Dollar(name));
    var s := body + tag + rest;
    assert s[|body|..|body| + |tag|] == tag;
    IndexOfIsFirst(s, tag, |body|);
    assert OccursAt(tag, s, IndexOf(s, tag));
    forall k: nat | OccursAt(tag, s, k) ensures IndexOf(s, tag) <= k {
      IndexOfIsFirst(s, tag, k);
    }
  }

  function Literal(q: Quoting, body: string): string {
    Opener(q) + body + Closer(q)
  }

  lemma CloseIsAt(q: Quoting, body: string, rest: string)
    ensures var s := Literal(q, body) + rest;
            var n := |Literal(q, body)|;
            && s[n..] == rest && s[n - 1] == Closer(q)[|Closer(q)| - 1]
            && s[|Opener(q)|..] == body + Closer(q) + rest
  {
  }

  lemma SingleLen(prev: char, pre: string, body: string, rest: string, doubleQuotes: bool)
    requires CanOpen(Single(pre), prev, doubleQuotes) && Closed(Single(pre), body, rest)
    ensures LiteralLen(prev, Literal(Single(pre), body) + rest, doubleQuotes) == |Literal(Single(pre), body)|
  {
    hide CloseLen, NumberLen, DollarLen, NumberLiteralLen;
    CloseIsAt(Single(pre), body, rest);
    assert |pre| == 2 ==> pre[0] !in "EeXxNnBb" && !IsDigit(pre[0]);
  }

  lemma DollarLiteralLen(name: string, body: string, rest: string)
    requires forall k :: 0 <= k < |name| ==> IsLetter(name[k]) || name[k] == '_'
    requires Closed(Dollar(name), body, rest)
    ensures DollarLen(Literal(Dollar(name), body) + rest) == |Literal(Dollar(name), body)|
  {
    hide IndexOf, SpanLen, DollarLen, Closer;
    var tag := Closer(Dollar(name));
    AfterOpening(tag, body, tag, rest);
    TagSpan(name, body + tag + rest);
    DollarByTag(tag + (body + tag + rest), |tag|);
  }

  lemma AfterOpening(open: string, body: string, close: string, rest: string)
    ensures var s := open + (body + close + rest);
            open + body + close + rest == s && s[..|open|] == open && s[|open|..] == body + close + rest
  {
    assert open + body + close + rest == open + (body + close + rest);
  }

  lemma TagSpan(name: string, x: string)
    requires forall k :: 0 <= k < |name| ==> IsLetter(name[k]) || name[k] == '_'
    ensures var tag := Closer(Dollar(name));
            var s := tag + x;
            |tag| == |name| + 2 && SpanLen(IsTagByte, s[1..]) == |tag| - 2 && s[|tag| - 1] == '$'
  {
    hide SpanLen, IsLetter;
    var s := Closer(Dollar(name)) + x;
    var t := s[1..];
    assert forall k :: 0 <= k < |name| ==> t[k] == s[k + 1] == name[k];
    assert t[|name|] == s[|name| + 1] == '$';
    DollarIsNoTagByte();
    SpanLenIs(IsTagByte, t, |name|);
  }

  lemma DollarIsNoTagByte()
    ensures !IsTagByte('$')
  {
  }

  lemma DollarByTag(s: string, n: nat)
    requires 1 < n <= |s| && SpanLen(IsTagByte, s[1..]) == n - 2 && s[n - 1] == '$'
    requires IndexOf(s[n..], s[..n]) >= 0
    ensures DollarLen(s) == n + IndexOf(s[n..], s[..n]) + n
  {
    hide IndexOf, SpanLen;
  }

  lemma LiteralIsMasked(prev: char, q: Quoting, body: string, rest: string, doubleQuotes: bool)
    requires CanOpen(q, prev, doubleQuotes) && Closed(q, body, rest)
    ensures Masked(prev, Literal(q, body) + rest, doubleQuotes)
         == "?" + Masked(Closer(q)[|Closer(q)| - 1], rest, doubleQuotes)
  {
    hide CloseLen, NumberLen, DollarLen, Masked, Literal, IndexOf;
    var s := Literal(q, body) + rest;
    CloseIsAt(q, body, rest);
    assert |Literal(q, body)| > 0 && s[0] == Opener(q)[0] by { LiteralStarts(q, body, rest); }
    match q {
      case Single(pre) => SingleLen(prev, pre, body, rest, doubleQuotes);
      case Double =>
      case Dollar(name) => DollarLiteralLen(name, body, rest);
    }
    assert |Literal(q, body)| == |Opener(q)| + |body| + |Closer(q)| by { LiteralStarts(q, body, rest); }
    assert LiteralLen(prev, s, doubleQuotes) == |Literal(q, body)|;
    MaskedTurn(prev, s, doubleQuotes);
  }

  lemma LiteralStarts(q: Quoting, body: string, rest: string)
    ensures |Literal(q, body)| == |Opener(q)| + |body| + |Closer(q)| && Opener(q) != ""
    ensures (Literal(q, body) + rest)[0] == Opener(q)[0]
  {
  }

  function Statement(before: string, q: Quoting, body: string, rest: string): string {
    before + (Literal(q, body) + rest)
  }

  /** The byte of the opening at which a scan before it stops, with what is before and after that. */
  lemma OpeningStops(q: Quoting, body: string, rest: string) returns (pre: string, stop: char, x: string)
    ensures Literal(q, body) + rest == Opened(pre, stop, x) && Stops(stop)
    ensures pre == (if q.Single? then q.pre else "") && stop == Closer(q)[0]
  {
    pre, stop := if q.Single? then q.pre else "", Closer(q)[0];
    x := (Literal(q, body) + rest)[|pre| + 1..];
  }

  /** Two statements that differ only inside one literal, a string of any type prefix, a double-quoted
      string where these count, or a dollar-quoted body, that the scan of the first reaches between
      literals, are masked to the same text. */
  lemma ContentIsHidden(before: string, q: Quoting, a: string, b: string, rest: string, system: string)
    requires CanOpen(q, PrevAt(before, |before|), QuotesDouble(system))
    requires Closed(q, a, rest) && Closed(q, b, rest)
    requires Reaches(' ', Statement(before, q, a, rest), |before|, QuotesDouble(system))
    ensures MaskedStatement(Statement(before, q, a, rest), system)
         == MaskedStatement(Statement(before, q, b, rest), system)
  {
    hide Masked, Reaches, CloseLen, ToLower, Literal, IndexOf, Opened, Opener;
    var dq := QuotesDouble(system);
    LiteralIsMasked(PrevAt(before, |before|), q, a, rest, dq);
    LiteralIsMasked(PrevAt(before, |before|), q, b, rest, dq);
    var pre, stop, x := OpeningStops(q, a, rest);
    var pre', stop', y := OpeningStops(q, b, rest);
    PrefixIsLocal(' ', before, pre, stop, x, y, dq);
    NotBlank(before, pre, stop, x);
    NotBlank(before, pre, stop, y);
  }

  lemma NotBlank(before: string, pre: string, stop: char, x: string)
    requires Stops(stop)
    ensures !Blank(before + Opened(pre, stop, x))
  {
    var at := |before + pre|;
    assert (before + Opened(pre, stop, x))[at] == stop && !IsSpace(stop);
  }
}
