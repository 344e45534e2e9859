// The number part of the SQL masker: numberEnd, radixNumberEnd, exponentEnd and digitsEnd, and the
// grammar of SQL number literals they recognise.
module SqlNumbers {
  import opened Ascii

  // ---------------------------------------------------------------- the grammar

  predicate IsDigits(t: string) {
    t != "" && AllOf(IsDigit, t)
  }

  /** 0x1F or 0b101, either case of the marker. */
  predicate IsRadix(t: string, marker: char, upper: char, digit: char -> bool) {
    |t| >= 3 && t[0] == '0' && (t[1] == marker || t[1] == upper) && AllOf(digit, t[2..])
  }

  /** 15, 1.5 or .5 */
  predicate IsMantissa(t: string) {
    || IsDigits(t)
    || exists k :: 0 <= k < |t| && t[k] == '.' && AllOf(IsDigit, t[..k]) && IsDigits(t[k + 1..])
  }

  /** e10, E-3 or e+2 */
  predicate IsExponent(t: string) {
    && |t| >= 2
    && (t[0] == 'e' || t[0] == 'E')
    && (IsDigits(t[1..]) || ((t[1] == '+' || t[1] == '-') && IsDigits(t[2..])))
  }

  predicate IsDecimal(t: string) {
    exists k :: 0 <= k <= |t| && IsMantissa(t[..k]) && (k == |t| || IsExponent(t[k..]))
  }

  predicate IsNumber(t: string) {
    || IsRadix(t, 'x', 'X', IsHex)
    || IsRadix(t, 'b', 'B', IsBinary)
    || IsDecimal(t)
  }

  /** The first n bytes of s are a number and nothing is glued to it. */
  predicate NumberPrefix(s: string, n: nat) {
    n <= |s| && IsNumber(s[..n]) && Standalone(s, n)
  }

  // ---------------------------------------------------------------- what the scanner computes

  // Each function takes the text from the scanner's position on and gives a length, or -1.

  function RadixLen(s: string, marker: char, upper: char, digit: char -> bool): (n: int)
    requires s != ""
    ensures n == -1 || 0 < n <= |s|
  {
    if s[0] != '0' || |s| <= 2 || (s[1] != marker && s[1] != upper) || !digit(s[2]) then -1
    else 2 + SpanLen(digit, s[2..])
  }

  function ExponentLen(s: string): (n: int)
    ensures -1 <= n <= |s|
  {
    if s == "" || (s[0] != 'e' && s[0] != 'E') then -1
    else
      var m := if |s| > 1 && (s[1] == '+' || s[1] == '-') then 2 else 1;
      if m >= |s| || !IsDigit(s[m]) then -1 else m + SpanLen(IsDigit, s[m..])
  }

  /** The longest standalone end from one mantissa: with its exponent, else without, else none. */
  function FromBase(s: string, base: nat): (n: int)
    requires base <= |s|
    ensures n == -1 || base <= n <= |s|
  {
    var e := ExponentLen(s[base..]);
    if e >= 0 && Standalone(s, base + e) then base + e
    else if Standalone(s, base) then base
    else -1
  }

  /** The mantissas that start s, longest first: 1.5 offers 1.5 and 1. */
  function Bases(s: string): (bases: seq<nat>)
    ensures forall b :: 0 <= b < |bases| ==> 0 < bases[b] <= |s|
    ensures |bases| == 2 ==> bases[1] < bases[0]
  {
    var k := SpanLen(IsDigit, s);
    if k == 0 then
      if |s| > 1 && IsDigit(s[1]) then [1 + SpanLen(IsDigit, s[1..])] else []
    else if k + 1 < |s| && s[k] == '.' && IsDigit(s[k + 1]) then
      [k + 1 + SpanLen(IsDigit, s[k + 1..]), k]
    else [k]
  }

  function FirstFrom(s: string, bases: seq<nat>): (n: int)
    requires forall b :: 0 <= b < |bases| ==> 0 < bases[b] <= |s|
    ensures n == -1 || 0 < n <= |s|
  {
    if bases == [] then -1
    else if FromBase(s, bases[0]) >= 0 then FromBase(s, bases[0])
    else FirstFrom(s, bases[1..])
  }

  function NumberLen(s: string): (n: int)
    requires s != ""
    ensures n == -1 || 0 < n <= |s|
  {
    var hex := RadixLen(s, 'x', 'X', IsHex);
    if hex >= 0 && Standalone(s, hex) then hex
    else
      var bin := RadixLen(s, 'b', 'B', IsBinary);
      if bin >= 0 && Standalone(s, bin) then bin else FirstFrom(s, Bases(s))
  }

  // ---------------------------------------------------------------- the scanner

  method RadixNumberEnd(s: string, i: nat, marker: char, upper: char, digit: char -> bool) returns (end: int)
    requires i < |s|
    ensures end == EndAt(i, RadixLen(s[i..], marker, upper, digit))
  {
    if s[i] != '0' || i + 2 >= |s| || (s[i + 1] != marker && s[i + 1] != upper) || !digit(s[i + 2]) {
      return -1;
    }
    assert s[i..][2..] == s[i + 2..];
    end := SpanEnd(digit, s, i + 2);
  }

  method ExponentEnd(s: string, k: nat) returns (end: int)
    requires k <= |s|
    ensures end == EndAt(k, ExponentLen(s[k..]))
  {
    if k >= |s| || (s[k] != 'e' && s[k] != 'E') {
      return -1;
    }
    var m := k + 1;
    if m < |s| && (s[m] == '+' || s[m] == '-') {
      m := m + 1;
    }
    if m >= |s| || !IsDigit(s[m]) {
      return -1;
    }
    assert s[k..][m - k..] == s[m..];
    end := SpanEnd(IsDigit, s, m);
  }

  method BasesAt(s: string, i: nat) returns (bases: seq<nat>)
    requires i < |s|
    ensures |bases| == |Bases(s[i..])|
    ensures forall b :: 0 <= b < |bases| ==> bases[b] == i + Bases(s[i..])[b]
  {
    hide SpanLen;
    bases := [];
    if IsDigit(s[i]) {
      var k := SpanEnd(IsDigit, s, i);
      if k + 1 < |s| && s[k] == '.' && IsDigit(s[k + 1]) {
        assert s[i..][k - i + 1..] == s[k + 1..];
        var f := SpanEnd(IsDigit, s, k + 1);
        bases := [f];
      }
      bases := bases + [k];
    } else if i + 1 < |s| && IsDigit(s[i + 1]) {
      assert s[i..][1..] == s[i + 1..];
      var f := SpanEnd(IsDigit, s, i + 1);
      bases := [f];
    }
  }

  /** The candidate mantissas are tried longest first, each with its exponent before without. */
  method FirstEnd(s: string, i: nat, bases: seq<nat>, ghost all: seq<nat>) returns (end: int)
    requires i <= |s| && |bases| == |all|
    requires forall b :: 0 <= b < |all| ==> 0 < all[b] <= |s[i..]|
    requires forall b :: 0 <= b < |bases| ==> bases[b] == i + all[b]
    ensures end == EndAt(i, FirstFrom(s[i..], all))
  {
    hide FromBase, FirstFrom;
    ghost var u := s[i..];
    var b := 0;
    assert all[b..] == all;
    while b < |bases|
      invariant 0 <= b <= |bases|
      invariant FirstFrom(u, all) == FirstFrom(u, all[b..])
    {
      var base := bases[b];
      FirstFromStep(u, all, b);
      FromBaseAt(s, i, base);
      end := ExponentEnd(s, base);
      if end >= 0 && (end >= |s| || !IsWord(s[end])) {
        return;
      }
      if base >= |s| || !IsWord(s[base]) {
        return base;
      }
      b := b + 1;
    }
    NoneFrom(u, all[b..]);
    return -1;
  }

  lemma NoneFrom(s: string, bases: seq<nat>)
    requires bases == []
    ensures FirstFrom(s, bases) == -1
  {
  }

  lemma FirstFromStep(s: string, bases: seq<nat>, b: nat)
    requires b < |bases| && forall k :: 0 <= k < |bases| ==> 0 < bases[k] <= |s|
    ensures var n := FromBase(s, bases[b]);
            FirstFrom(s, bases[b..]) == if n >= 0 then n else FirstFrom(s, bases[b + 1..])
  {
    hide FromBase;
    assert bases[b..][0] == bases[b] && bases[b..][1..] == bases[b + 1..];
  }

  /** The same from a position in the whole text. */
  lemma FromBaseAt(s: string, i: nat, base: nat)
    requires i <= base <= |s|
    ensures var e := EndAt(base, ExponentLen(s[base..]));
            EndAt(i, FromBase(s[i..], base - i)) ==
            if e >= 0 && Standalone(s, e) then e else if Standalone(s, base) then base else -1
  {
    hide ExponentLen;
    DropDrop(s, i, base - i);
  }

  method NumberEnd(s: string, i: nat) returns (end: int)
    requires i < |s|
    ensures end == EndAt(i, NumberLen(s[i..]))
  {
    end := RadixNumberEnd(s, i, 'x', 'X', IsHex);
    if end >= 0 && (end >= |s| || !IsWord(s[end])) {
      return;
    }
    end := RadixNumberEnd(s, i, 'b', 'B', IsBinary);
    if end >= 0 && (end >= |s| || !IsWord(s[end])) {
      return;
    }
    var bases := BasesAt(s, i);
    end := FirstEnd(s, i, bases, Bases(s[i..]));
  }
}
