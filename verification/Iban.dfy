// The IBAN check of the scrubber: isIBAN, and the big number its digit-at-a-time loop stands for.
module Iban {
  import opened Ascii

  predicate IsUpper(c: char) {
    'A' <= c <= 'Z'
  }

  /** A letter reads as two digits, A as 10 to Z as 35. Any other byte reads as its distance from '0',
      in arithmetic modulo 256 on bytes. */
  function ValueOf(c: char): nat {
    if IsUpper(c) then c as int - 'A' as int + 10 else (c as int - '0' as int) % 256
  }

  function BaseOf(c: char): nat {
    if IsUpper(c) then 100 else 10
  }

  /** The number the expanded text spells. */
  function Expanded(s: string): nat {
    if s == "" then 0
    else Expanded(s[..|s| - 1]) * BaseOf(s[|s| - 1]) + ValueOf(s[|s| - 1])
  }

  function WithoutSpaces(s: string): string {
    if s == "" then ""
    else if s[0] == ' ' then WithoutSpaces(s[1..])
    else [s[0]] + WithoutSpaces(s[1..])
  }

  function Rearranged(compact: string): string
    requires |compact| >= 4
  {
    compact[4..] + compact[..4]
  }

  /** ISO/IEC 7064 MOD 97-10 over the rearranged, expanded text. */
  predicate ValidIban(candidate: string) {
    var compact := WithoutSpaces(candidate);
    15 <= |compact| <= 34 && Expanded(Rearranged(compact)) % 97 == 1
  }

  method IsIban(candidate: string) returns (valid: bool)
    ensures valid == ValidIban(candidate)
  {
    var compact := WithoutSpaces(candidate);
    if |compact| < 15 || |compact| > 34 {
      return false;
    }
    var rearranged := compact[4..] + compact[..4];
    var remainder := 0;
    var k := 0;
    while k < |rearranged|
      invariant 0 <= k <= |rearranged|
      invariant remainder == Expanded(rearranged[..k]) % 97
    {
      var c := rearranged[k];
      ghost var e := Expanded(rearranged[..k]);
      assert rearranged[..k + 1][..k] == rearranged[..k];
      if IsUpper(c) {
        var value := c as int - 'A' as int + 10;
        Push(e, value / 10);
        Push(e * 10 + value / 10, value % 10);
        remainder := (remainder * 10 + value / 10) % 97;
        remainder := (remainder * 10 + value % 10) % 97;
      } else {
        Push(e, (c as int - '0' as int) % 256);
        remainder := (remainder * 10 + (c as int - '0' as int) % 256) % 97;
      }
      k := k + 1;
    }
    assert rearranged[..k] == rearranged;
    return remainder == 1;
  }

  /** Appending a digit to a number and to its remainder by 97. */
  lemma Push(e: nat, d: nat)
    ensures (e % 97 * 10 + d) % 97 == (e * 10 + d) % 97
  {
  }

  lemma ModShift(a: int, q: int)
    ensures (a + 97 * q) % 97 == a % 97
  {
  }

  // ---------------------------------------------------------------- what the check computes

  /** The digits a character is written out as: A as 10 to Z as 35. */
  function WrittenOut(c: char): string
    requires '0' <= c <= '9' || 'A' <= c <= 'Z'
  {
    if c <= '9' then [c]
    else ["10", "11", "12", "13", "14", "15", "16", "17", "18", "19", "20", "21", "22", "23", "24", "25", "26",
          "27", "28", "29", "30", "31", "32", "33", "34", "35"][c as int - 'A' as int]
  }

  predicate AllParts(s: string) {
    forall k :: 0 <= k < |s| ==> '0' <= s[k] <= '9' || 'A' <= s[k] <= 'Z'
  }

  function AllWrittenOut(s: string): string
    requires AllParts(s)
  {
    if s == "" then "" else AllWrittenOut(s[..|s| - 1]) + WrittenOut(s[|s| - 1])
  }

  /** The number a text of digits is in the decimal system. */
  function ReadDecimal(digits: string): nat
    requires forall k :: 0 <= k < |digits| ==> IsDigit(digits[k])
  {
    if digits == "" then 0
    else
      var c := digits[|digits| - 1];
      assert IsDigit(c);
      ReadDecimal(digits[..|digits| - 1]) * 10 + (c as int - '0' as int)
  }

  lemma ReadOneMore(digits: string, c: char)
    requires IsDigit(c) && forall k :: 0 <= k < |digits| ==> IsDigit(digits[k])
    ensures ReadDecimal(digits + [c]) == ReadDecimal(digits) * 10 + (c as int - '0' as int)
  {
    assert (digits + [c])[..|digits|] == digits;
  }

  lemma WrittenOutIs(c: char)
    requires '0' <= c <= '9' || 'A' <= c <= 'Z'
    ensures var w := WrittenOut(c);
            if IsDigit(c) then w == [c] && ValueOf(c) == c as int - '0' as int && BaseOf(c) == 10
            else
              && |w| == 2 && IsDigit(w[0]) && IsDigit(w[1]) && BaseOf(c) == 100
              && ValueOf(c) == (w[0] as int - '0' as int) * 10 + (w[1] as int - '0' as int)
  {
  }

  /** Expanding is writing every character out and reading the result as one decimal number. */
  lemma {:induction false} ExpandedIsWrittenOut(s: string)
    requires AllParts(s)
    ensures forall k :: 0 <= k < |AllWrittenOut(s)| ==> IsDigit(AllWrittenOut(s)[k])
    ensures Expanded(s) == ReadDecimal(AllWrittenOut(s))
  {
    hide WrittenOut, ReadDecimal, ValueOf, BaseOf;
    if s == "" {
      ReadNothing();
    } else {
      var m := |s| - 1;
      ExpandedIsWrittenOut(s[..m]);
      var before, w := AllWrittenOut(s[..m]), WrittenOut(s[m]);
      WrittenOutIs(s[m]);
      if IsDigit(s[m]) {
        ReadOneMore(before, s[m]);
      } else {
        assert before + w == before + [w[0]] + [w[1]];
        ReadOneMore(before, w[0]);
        ReadOneMore(before + [w[0]], w[1]);
      }
    }
  }

  lemma ReadNothing()
    ensures ReadDecimal("") == 0
  {
  }

  /** A candidate of digits, capital letters and spaces is valid when, spaces out, it has 15 to 34
      characters and, the first four moved to the end and all written out, leaves 1 by 97. */
  lemma ValidIbanIff(candidate: string)
    requires AllParts(WithoutSpaces(candidate))
    ensures var c := WithoutSpaces(candidate);
            ValidIban(candidate) <==>
            && 15 <= |c| <= 34 && AllParts(c[4..] + c[..4])
            && (forall k :: 0 <= k < |AllWrittenOut(c[4..] + c[..4])| ==> IsDigit(AllWrittenOut(c[4..] + c[..4])[k]))
            && ReadDecimal(AllWrittenOut(c[4..] + c[..4])) % 97 == 1
  {
    hide Expanded, AllWrittenOut, ReadDecimal, WithoutSpaces;
    var c := WithoutSpaces(candidate);
    if 15 <= |c| {
      ExpandedIsWrittenOut(c[4..] + c[..4]);
    }
  }

  // ---------------------------------------------------------------- what the check detects

  /** 10 is invertible by 97, its inverse being 68. */
  lemma TenCancels(d: int, q: int)
    requires 10 * d == 97 * q
    ensures d == 97 * (68 * q - 7 * d)
  {
  }

  lemma DifferByMultiple(a: nat, b: nat) returns (q: int)
    requires a % 97 == b % 97
    ensures a - b == 97 * q
  {
    q := a / 97 - b / 97;
  }

  /** Numbers that differ, but not by a multiple of 97, still do after further digits are appended. */
  lemma SuffixKeepsDifference(s: string, t: string, i: nat)
    requires |s| == |t| && i <= |s| && s[i..] == t[i..]
    requires Expanded(s[..i]) % 97 != Expanded(t[..i]) % 97
    ensures Expanded(s) % 97 != Expanded(t) % 97
  {
    assert s == s[..i] + s[i..] && t == t[..i] + t[i..];
    DifferAfter(s[..i], t[..i], s[i..]);
  }

  lemma {:induction false} DifferAfter(s: string, t: string, z: string)
    requires Expanded(s) % 97 != Expanded(t) % 97
    ensures Expanded(s + z) % 97 != Expanded(t + z) % 97
    decreases |z|
  {
    hide Expanded;
    if z == "" {
      assert s + z == s && t + z == t;
    } else {
      var m := |z| - 1;
      DifferAfter(s, t, z[..m]);
      assert s + z == s + z[..m] + [z[m]] && t + z == t + z[..m] + [z[m]];
      OneMore(s + z[..m], z[m]);
      OneMore(t + z[..m], z[m]);
      AppendKeepsDifference(Expanded(s + z[..m]), Expanded(t + z[..m]), z[m]);
    }
  }

  lemma AppendKeepsDifference(a: nat, b: nat, c: char)
    requires a % 97 != b % 97
    ensures (a * BaseOf(c) + ValueOf(c)) % 97 != (b * BaseOf(c) + ValueOf(c)) % 97
  {
    var v := ValueOf(c);
    if (a * BaseOf(c) + v) % 97 == (b * BaseOf(c) + v) % 97 {
      var q := DifferByMultiple(a * BaseOf(c) + v, b * BaseOf(c) + v);
      var d := a - b;
      if IsUpper(c) {
        TenCancels(10 * d, q);
        TenCancels(d, 68 * q - 7 * (10 * d));
        ModShift(b, 68 * (68 * q - 7 * (10 * d)) - 7 * d);
      } else {
        TenCancels(d, q);
        ModShift(b, 68 * q - 7 * d);
      }
    }
  }

  predicate SameKind(c: char, d: char) {
    (IsDigit(c) && IsDigit(d)) || (IsUpper(c) && IsUpper(d))
  }

  lemma CloseApart(a: nat, b: nat)
    requires a != b && -97 < a - b < 97
    ensures a % 97 != b % 97
  {
  }

  lemma OneCharacter(s: string, j: nat, c: char)
    requires j < |s| && c != s[j] && SameKind(s[j], c)
    ensures Expanded(s[j := c]) % 97 != Expanded(s) % 97
  {
    var t := s[j := c];
    var a, b := s[..j + 1], t[..j + 1];
    assert a[..j] == b[..j];
    var e := Expanded(a[..j]) * BaseOf(c);
    assert Expanded(a) == e + ValueOf(s[j]) && Expanded(b) == e + ValueOf(c);
    hide Expanded;
    CloseApart(Expanded(a), Expanded(b));
    SuffixKeepsDifference(s, t, j + 1);
  }

  lemma {:induction false} SpacesStayOut(s: string, i: nat, c: char) returns (j: nat)
    requires i < |s| && s[i] != ' ' && c != ' '
    ensures j < |WithoutSpaces(s)| && WithoutSpaces(s)[j] == s[i]
    ensures WithoutSpaces(s[i := c]) == WithoutSpaces(s)[j := c]
  {
    var t := s[i := c];
    if i == 0 {
      assert t[1..] == s[1..];
      j := 0;
    } else {
      j := SpacesStayOut(s[1..], i - 1, c);
      assert t[1..] == s[1..][i - 1 := c];
      if s[0] != ' ' {
        j := j + 1;
      }
    }
  }

  /** Replacing one digit by another, or one letter by another, in a valid IBAN, spaced or compact,
      makes it invalid. */
  lemma IbanDetectsOneCharacter(candidate: string, i: nat, c: char)
    requires ValidIban(candidate) && i < |candidate|
    requires c != candidate[i] && SameKind(candidate[i], c)
    ensures !ValidIban(candidate[i := c])
  {
    var j := SpacesStayOut(candidate, i, c);
    var compact := WithoutSpaces(candidate);
    var at := if j >= 4 then j - 4 else |compact| - 4 + j;
    assert Rearranged(compact[j := c]) == Rearranged(compact)[at := c];
    OneCharacter(Rearranged(compact), at, c);
  }

  // ---------------------------------------------------------------- swapped neighbours

  predicate IsPart(c: char) {
    IsDigit(c) || IsUpper(c)
  }

  /** The swaps that go unnoticed: of equal characters, and of B with 1, M with 2 and X with 3. */
  predicate UnseenSwap(a: char, b: char) {
    a == b
    || (IsUpper(a) && IsDigit(b) && ValueOf(a) == 11 * ValueOf(b))
    || (IsDigit(a) && IsUpper(b) && ValueOf(b) == 11 * ValueOf(a))
  }

  lemma {:induction false} SameAfter(s: string, t: string, z: string)
    requires Expanded(s) % 97 == Expanded(t) % 97
    ensures Expanded(s + z) % 97 == Expanded(t + z) % 97
    decreases |z|
  {
    if z == "" {
      assert s + z == s && t + z == t;
    } else {
      var m := |z| - 1;
      SameAfter(s, t, z[..m]);
      assert (s + z)[..|s + z| - 1] == s + z[..m] && (t + z)[..|t + z| - 1] == t + z[..m];
      var e, f := Expanded(s + z[..m]), Expanded(t + z[..m]);
      var q := DifferByMultiple(e, f);
      assert Expanded(s + z) == Expanded(t + z) + 97 * (q * BaseOf(z[m]));
      ModShift(Expanded(t + z), q * BaseOf(z[m]));
    }
  }

  function PairValue(e: nat, a: char, b: char): nat {
    (e * BaseOf(a) + ValueOf(a)) * BaseOf(b) + ValueOf(b)
  }

  /** 9 is invertible by 97, its inverse being 54. */
  lemma NineCancels(d: int, q: int)
    requires 9 * d == 97 * q
    ensures d == 97 * (54 * q - 5 * d)
  {
  }

  lemma PairDifference(e: nat, a: char, b: char)
    ensures PairValue(e, a, b) - PairValue(e, b, a)
         == ValueOf(a) * (BaseOf(b) - 1) - ValueOf(b) * (BaseOf(a) - 1)
  {
    var x, y, m, n := ValueOf(a), ValueOf(b), BaseOf(a), BaseOf(b);
    assert e * m * n == e * n * m;
  }

  lemma PairIff(e: nat, a: char, b: char)
    requires IsPart(a) && IsPart(b)
    ensures PairValue(e, a, b) % 97 == PairValue(e, b, a) % 97 <==> UnseenSwap(a, b)
  {
    if UnseenSwap(a, b) {
      PairDifference(e, a, b);
    }
    if PairValue(e, a, b) % 97 == PairValue(e, b, a) % 97 {
      SamePair(e, a, b);
    }
  }

  lemma SamePair(e: nat, a: char, b: char)
    requires IsPart(a) && IsPart(b)
    requires PairValue(e, a, b) % 97 == PairValue(e, b, a) % 97
    ensures UnseenSwap(a, b)
  {
    hide PairValue, ValueOf;
    PairDifference(e, a, b);
    PartValues(a);
    PartValues(b);
    var q := DifferByMultiple(PairValue(e, a, b), PairValue(e, b, a));
    MultipleMeans(ValueOf(a), ValueOf(b), IsUpper(a), IsUpper(b), q);
    if IsUpper(a) == IsUpper(b) {
      SameValue(a, b);
    }
  }

  lemma MultipleMeans(x: nat, y: nat, upperX: bool, upperY: bool, q: int)
    requires (if upperX then 10 <= x <= 35 else x <= 9) && (if upperY then 10 <= y <= 35 else y <= 9)
    requires (if upperY then 99 * x else 9 * x) - (if upperX then 99 * y else 9 * y) == 97 * q
    ensures if upperX == upperY then x == y else if upperX then x == 11 * y else y == 11 * x
  {
    if upperX && upperY {
      NoMultiple(2 * (x - y), q - (x - y));
    } else if upperX {
      NoMultipleOfNine(x - 11 * y, q);
    } else if upperY {
      NoMultipleOfNine(y - 11 * x, -q);
    } else {
      NoMultipleOfNine(x - y, q);
    }
  }

  lemma NoMultiple(d: int, q: int)
    requires d == 97 * q && -97 < d < 97
    ensures d == 0
  {
  }

  lemma NoMultipleOfNine(d: int, q: int)
    requires 9 * d == 97 * q && -97 < d < 97
    ensures d == 0
  {
    NineCancels(d, q);
    NoMultiple(d, 54 * q - 5 * d);
  }

  lemma PartValues(c: char)
    requires IsPart(c)
    ensures if IsUpper(c) then 10 <= ValueOf(c) <= 35 else ValueOf(c) <= 9
  {
  }

  lemma SameValue(a: char, b: char)
    requires IsPart(a) && IsPart(b) && ValueOf(a) == ValueOf(b)
    ensures a == b
  {
  }

  /** Swapping two neighbours in the rearranged text. */
  lemma SwapIff(x: string, a: char, b: char, z: string)
    requires IsPart(a) && IsPart(b)
    ensures Expanded(x + [a, b] + z) % 97 == Expanded(x + [b, a] + z) % 97 <==> UnseenSwap(a, b)
  {
    var s, t := x + [a, b], x + [b, a];
    TwoMore(x, a, b);
    TwoMore(x, b, a);
    PairIff(Expanded(x), a, b);
    hide Expanded, PairValue;
    if UnseenSwap(a, b) {
      SameAfter(s, t, z);
    } else {
      assert (s + z)[..|s|] == s && (t + z)[..|s|] == t && (s + z)[|s|..] == z == (t + z)[|s|..];
      SuffixKeepsDifference(s + z, t + z, |s|);
    }
  }

  lemma TwoMore(x: string, a: char, b: char)
    ensures Expanded(x + [a, b]) == PairValue(Expanded(x), a, b)
  {
    hide Expanded;
    OneMore(x, a);
    OneMore(x + [a], b);
    assert x + [a, b] == x + [a] + [b];
  }

  lemma OneMore(x: string, c: char)
    ensures Expanded(x + [c]) == Expanded(x) * BaseOf(c) + ValueOf(c)
  {
    assert (x + [c])[..|x|] == x;
  }

  // The fourth and the fifth character are neighbours in the IBAN, but last and first once rearranged.

  /** What the text is multiplied by when it stands before w. */
  function WeightOf(w: string): nat {
    if w == "" then 1 else WeightOf(w[..|w| - 1]) * BaseOf(w[|w| - 1])
  }

  lemma {:induction false} ExpandedOfJoin(x: string, w: string)
    ensures Expanded(x + w) == Expanded(x) * WeightOf(w) + Expanded(w)
    decreases |w|
  {
    if w == "" {
      assert x + w == x;
    } else {
      var m := |w| - 1;
      assert (x + w)[..|x + w| - 1] == x + w[..m];
      ExpandedOfJoin(x, w[..m]);
      Distribute(Expanded(x), WeightOf(w[..m]), Expanded(w[..m]), BaseOf(w[m]), ValueOf(w[m]));
    }
  }

  lemma Distribute(x: nat, k: nat, e: nat, base: nat, v: nat)
    ensures (x * k + e) * base + v == x * (k * base) + (e * base + v)
  {
  }

  function PowerOfTen(n: nat): nat {
    if n == 0 then 1 else PowerOfTen(n - 1) * 10
  }

  function DigitCount(w: string): (n: nat)
    ensures |w| <= n <= 2 * |w|
  {
    if w == "" then 0 else DigitCount(w[..|w| - 1]) + (if IsUpper(w[|w| - 1]) then 2 else 1)
  }

  lemma {:induction false} WeightIsPower(w: string)
    ensures WeightOf(w) == PowerOfTen(DigitCount(w))
  {
    if w != "" {
      WeightIsPower(w[..|w| - 1]);
    }
  }

  lemma ProductRemainder(x: nat, y: nat)
    ensures x * y % 97 == (x % 97) * (y % 97) % 97
  {
    var q, r, a, b := x / 97, y / 97, x % 97, y % 97;
    assert x == 97 * q + a && y == 97 * r + b;
    assert x * y == a * b + 97 * (q * y + r * a) by {
      assert x * y == 97 * q * y + a * y && a * y == a * (97 * r) + a * b;
    }
    ModShift(a * b, q * y + r * a);
  }

  lemma {:induction false} PowersMultiply(a: nat, b: nat)
    ensures PowerOfTen(a + b) == PowerOfTen(a) * PowerOfTen(b)
    decreases b
  {
    if b > 0 {
      PowersMultiply(a, b - 1);
      NextPower(a + b - 1);
      NextPower(b - 1);
      hide PowerOfTen;
      TimesTen(PowerOfTen(a), PowerOfTen(b - 1));
    }
  }

  lemma NextPower(n: nat)
    ensures PowerOfTen(n + 1) == PowerOfTen(n) * 10
  {
  }

  lemma TimesTen(x: nat, y: nat)
    ensures x * (y * 10) == x * y * 10
  {
  }

  predicate IsOne(n: nat) {
    PowerOfTen(n) % 97 == 1
  }

  lemma SumIsOne(a: nat, b: nat)
    requires IsOne(a) && IsOne(b)
    ensures IsOne(a + b)
  {
    hide PowerOfTen;
    PowersMultiply(a, b);
    ProductRemainder(PowerOfTen(a), PowerOfTen(b));
  }

  lemma {:induction false} MultiplesAreOne(g: nat, x: nat)
    requires IsOne(g)
    ensures IsOne(g * x)
    decreases x
  {
    if x == 0 {
      assert PowerOfTen(g * x) == 1;
    } else {
      hide PowerOfTen, IsOne;
      MultiplesAreOne(g, x - 1);
      assert g * (x - 1) + g == g * x;
      SumIsOne(g * (x - 1), g);
    }
  }

  lemma DifferenceIsOne(a: nat, b: nat)
    requires a >= b && IsOne(a) && IsOne(b)
    ensures IsOne(a - b)
  {
    hide PowerOfTen;
    PowersMultiply(a - b, b);
    ProductRemainder(PowerOfTen(a - b), PowerOfTen(b));
  }

  /** If two powers of ten are 1 by 97, so is the one to a common divisor. */
  lemma {:induction false} CommonDivisor(a: nat, b: nat) returns (g: nat, x: nat, y: nat)
    requires 0 < a && 0 < b && IsOne(a) && IsOne(b)
    ensures IsOne(g) && a == g * x && b == g * y && x > 0 && y > 0
    decreases a + b
  {
    hide IsOne;
    if a == b {
      return a, 1, 1;
    } else if a > b {
      DifferenceIsOne(a, b);
      g, x, y := CommonDivisor(a - b, b);
      assert g * (x + y) == a;
      x := x + y;
    } else {
      DifferenceIsOne(b, a);
      g, x, y := CommonDivisor(a, b - a);
      assert g * (x + y) == b;
      y := x + y;
    }
  }

  lemma OddFactor(g: nat, x: nat, half: nat)
    requires g * x == 2 * half && x % 2 == 1
    ensures g % 2 == 0 && g / 2 * x == half
  {
    var h, y := g / 2, x / 2;
    assert g == 2 * h + g % 2 && x == 2 * y + 1;
    assert g * x == 2 * (h * x) + g % 2 * x;
    assert g % 2 * x == 2 * (g % 2 * y) + g % 2;
  }

  /** A proper divisor of 96 divides 48 or 32. */
  lemma ProperDivisor(g: nat, x: nat) returns (y: nat)
    requires g * x == 96 && x > 1
    ensures g * y == 48 || g * y == 32
  {
    if x % 2 == 0 {
      y := x / 2;
      assert g * x == 2 * (g * y);
    } else {
      OddFactor(g, x, 48);
      OddFactor(g / 2, x, 24);
      OddFactor(g / 2 / 2, x, 12);
      OddFactor(g / 2 / 2 / 2, x, 6);
      OddFactor(g / 2 / 2 / 2 / 2, x, 3);
      FactorsOfThree(g / 2 / 2 / 2 / 2 / 2, x);
      y := 1;
    }
  }

  lemma FactorsOfThree(k: nat, x: nat)
    requires k * x == 3 && x > 1
    ensures k == 1 && x == 3
  {
  }

  lemma Doubled(n: nat, p: nat)
    requires PowerOfTen(n) % 97 == p
    ensures PowerOfTen(2 * n) % 97 == p * p % 97
  {
    hide PowerOfTen;
    PowersMultiply(n, n);
    ProductRemainder(PowerOfTen(n), PowerOfTen(n));
  }

  lemma PowersUpTo32()
    ensures PowerOfTen(16) % 97 == 62 && PowerOfTen(32) % 97 == 61
  {
    FirstPower();
    hide PowerOfTen;
    Doubled(1, 10);
    Doubled(2, 3);
    Doubled(4, 9);
    Doubled(8, 81);
    Doubled(16, 62);
  }

  lemma FirstPower()
    ensures PowerOfTen(1) % 97 == 10
  {
    assert PowerOfTen(0) == 1;
  }

  lemma PowersByDoubling()
    ensures IsOne(96) && !IsOne(48) && !IsOne(32)
  {
    hide PowerOfTen;
    PowersUpTo32();
    PowersMultiply(32, 16);
    ProductRemainder(PowerOfTen(32), PowerOfTen(16));
    Doubled(48, 96);
  }

  /** The powers of ten come back to 1, by 97, at the 96th and not before. */
  lemma TenHasNoShortPeriod(k: nat)
    requires 0 < k < 96
    ensures !IsOne(k)
  {
    hide IsOne;
    PowersByDoubling();
    if IsOne(k) {
      var g, x, y := CommonDivisor(96, k);
      NotWhole(g, x, y, k);
      var z := ProperDivisor(g, x);
      MultiplesAreOne(g, z);
    }
  }

  lemma NotWhole(g: nat, x: nat, y: nat, k: nat)
    requires g * x == 96 && g * y == k < 96 && x > 0 && y > 0
    ensures x > 1
  {
  }

  /** Small numbers are invertible by 97. */
  lemma SmallCancels(d: int, z: int, q: int)
    requires d * z == 97 * q && d != 0 && -26 < d < 26
    ensures z % 97 == 0
  {
    var n := if d > 0 then d else -d;
    var inverse, times := InverseOf(n);
    var r := if d > 0 then q else -q;
    assert n * z == 97 * r;
    assert inverse * (n * z) == (97 * times + 1) * z;
    assert z == 97 * (inverse * r - times * z);
    ModShift(0, inverse * r - times * z);
  }

  lemma InverseOf(n: nat) returns (inverse: nat, times: nat)
    requires 0 < n < 26
    ensures inverse * n == 97 * times + 1
  {
    var inverses := [1, 49, 65, 73, 39, 81, 14, 85, 54, 68, 53, 89, 15,
                     7, 13, 91, 40, 27, 46, 34, 37, 75, 38, 93, 66];
    inverse := inverses[n - 1];
    times := inverse * n / 97;
  }

  /** The text with one character before and one after it. */
  lemma EndsValue(first: char, middle: string, last: char)
    ensures Expanded([first] + middle + [last])
         == (ValueOf(first) * WeightOf(middle) + Expanded(middle)) * BaseOf(last) + ValueOf(last)
  {
    hide Expanded, WeightOf;
    ExpandedOfJoin([first], middle);
    assert Expanded([first]) == ValueOf(first) by {
      OneMore("", first);
      assert "" + [first] == [first];
      ExpandedOfNothing();
    }
    OneMore([first] + middle, last);
  }

  lemma ExpandedOfNothing()
    ensures Expanded("") == 0
  {
  }

  /** Whether swapping the fourth character of an IBAN with the fifth goes unnoticed, w being the weight
      of what stands between them once rearranged: never, when they are different and of the same kind;
      otherwise when 97 divides this. */
  predicate UnseenAtEnds(fourth: char, fifth: char, w: nat) {
    var a, b := ValueOf(fourth), ValueOf(fifth);
    if IsUpper(fourth) == IsUpper(fifth) then fourth == fifth
    else (100 * w * (a - b) + (if IsUpper(fifth) then b - 10 * a + 9 else 10 * b - a - 9)) % 97 == 0
  }

  lemma EndsIff(fourth: char, fifth: char, middle: string)
    requires IsPart(fourth) && IsPart(fifth) && |middle| <= 32
    requires Expanded([fifth] + middle + [fourth]) % 97 == 1
    ensures Expanded([fourth] + middle + [fifth]) % 97 == 1 <==> UnseenAtEnds(fourth, fifth, WeightOf(middle))
  {
    hide Expanded, WeightOf, ValueOf;
    EndsValue(fifth, middle, fourth);
    EndsValue(fourth, middle, fifth);
    var a, b, w, e := ValueOf(fourth), ValueOf(fifth), WeightOf(middle), Expanded(middle);
    PartValues(fourth);
    PartValues(fifth);
    if IsUpper(fourth) == IsUpper(fifth) {
      WeightIsNotOne(middle);
      if fourth != fifth {
        DifferentValues(fourth, fifth);
        EndsDiffer(b, a, w, e, BaseOf(fourth));
      }
    } else if IsUpper(fourth) {
      LetterThenDigit(a, b, w, e);
    } else {
      DigitThenLetter(a, b, w, e);
    }
  }

  lemma DifferentValues(a: char, b: char)
    requires IsPart(a) && IsPart(b) && a != b && IsUpper(a) == IsUpper(b)
    ensures ValueOf(a) != ValueOf(b)
  {
  }

  lemma LetterThenDigit(a: nat, b: nat, w: nat, e: nat)
    requires ((b * w + e) * 100 + a) % 97 == 1
    ensures ((a * w + e) * 10 + b) % 97 == 1 <==> (100 * w * (a - b) + (10 * b - a - 9)) % 97 == 0
  {
    var x, y, d := (b * w + e) * 100 + a, (a * w + e) * 10 + b, 100 * w * (a - b) + (10 * b - a - 9);
    CrossTerms(a, b, w);
    assert 10 * y - x == d + 9;
    TenTimesIff(x, y, d);
  }

  lemma CrossTerms(a: int, b: int, w: int)
    ensures 100 * w * (a - b) == 100 * (a * w) - 100 * (b * w)
  {
  }

  lemma TenTimesIff(x: nat, y: nat, d: int)
    requires x % 97 == 1 && 10 * y - x == d + 9
    ensures y % 97 == 1 <==> d % 97 == 0
  {
    var q := x / 97;
    if y % 97 == 1 {
      var r := y / 97;
      assert d == 97 * (10 * r - q);
      ModShift(0, 10 * r - q);
    }
    if d % 97 == 0 {
      var p := d / 97;
      assert 10 * (y - 1) == 97 * (q + p);
      TenCancels(y - 1, q + p);
      ModShift(1, 68 * (q + p) - 7 * (y - 1));
    }
  }

  lemma DigitThenLetter(a: nat, b: nat, w: nat, e: nat)
    requires ((b * w + e) * 10 + a) % 97 == 1
    ensures ((a * w + e) * 100 + b) % 97 == 1 <==> (100 * w * (a - b) + (b - 10 * a + 9)) % 97 == 0
  {
    var x, y, d := (b * w + e) * 10 + a, (a * w + e) * 100 + b, 100 * w * (a - b) + (b - 10 * a + 9);
    CrossTerms(a, b, w);
    assert y == 10 * x + d - 9;
    var q := x / 97;
    assert y == d + 1 + 97 * (10 * q);
    ModShift(d + 1, 10 * q);
    NextRemainder(d);
  }

  lemma NextRemainder(d: int)
    ensures (d + 1) % 97 == 1 <==> d % 97 == 0
  {
  }

  lemma WeightIsNotOne(w: string)
    requires |w| <= 32
    ensures WeightOf(w) > 0 && WeightOf(w) * 10 % 97 != 1 && WeightOf(w) * 100 % 97 != 1
  {
    var n := DigitCount(w);
    WeightIsPower(w);
    PowersArePositive(n);
    TenHasNoShortPeriod(n + 1);
    TenHasNoShortPeriod(n + 2);
    NextPower(n);
    NextPower(n + 1);
  }

  lemma {:induction false} PowersArePositive(n: nat)
    ensures PowerOfTen(n) > 0
  {
    if n > 0 {
      PowersArePositive(n - 1);
    }
  }

  lemma EndsDiffer(a: nat, b: nat, w: nat, e: nat, base: nat)
    requires a != b && -26 < a - b < 26 && base * w % 97 != 1 && base * w > 0
    ensures ((a * w + e) * base + b) % 97 != ((b * w + e) * base + a) % 97
  {
    Factored(a, b, w, e, base);
    DifferentRemainders((a * w + e) * base + b, (b * w + e) * base + a, a - b, base * w);
  }

  lemma DifferentRemainders(x: int, y: int, d: int, v: int)
    requires x - y == d * (v - 1) && d != 0 && -26 < d < 26 && v > 0 && v % 97 != 1
    ensures x % 97 != y % 97
  {
    if x % 97 == y % 97 {
      SmallCancels(d, v - 1, x / 97 - y / 97);
      NotOneMore(v);
      assert false;
    }
  }

  lemma Factored(a: int, b: int, w: int, e: int, base: int)
    ensures (a * w + e) * base + b - ((b * w + e) * base + a) == (a - b) * (base * w - 1)
  {
    Spread(a, w, e, base);
    Spread(b, w, e, base);
    CrossProduct(a, b, base * w);
  }

  lemma Spread(a: int, w: int, e: int, base: int)
    ensures (a * w + e) * base == a * (base * w) + e * base
  {
  }

  lemma CrossProduct(a: int, b: int, v: int)
    ensures (a - b) * (v - 1) == a * v - b * v - a + b
  {
  }

  lemma NotOneMore(w: int)
    requires w > 0 && (w - 1) % 97 == 0
    ensures w % 97 == 1
  {
  }

  // ---------------------------------------------------------------- swaps in the candidate

  lemma {:induction false} SpacesJoin(x: string, y: string)
    ensures WithoutSpaces(x + y) == WithoutSpaces(x) + WithoutSpaces(y)
    decreases |x|
  {
    if x == "" {
      assert x + y == y;
    } else {
      assert (x + y)[1..] == x[1..] + y;
      SpacesJoin(x[1..], y);
    }
  }

  function Swapped(s: string, i: nat): string
    requires i + 1 < |s|
  {
    s[..i] + [s[i + 1], s[i]] + s[i + 2..]
  }

  lemma CompactPair(x: string, a: char, b: char, z: string)
    requires a != ' ' && b != ' '
    ensures WithoutSpaces(x + [a, b] + z) == WithoutSpaces(x) + [a, b] + WithoutSpaces(z)
  {
    SpacesJoin(x + [a, b], z);
    SpacesJoin(x, [a, b]);
    assert [a, b][1..] == [b] && [b][1..] == [];
    assert WithoutSpaces([b]) == [b];
  }

  lemma RearrangedPair(x: string, a: char, b: char, z: string) returns (before: string, after: string)
    requires |x| + 2 + |z| >= 4 && |x| != 3
    ensures forall c, d :: Rearranged(x + [c, d] + z) == before + [c, d] + after
  {
    if |x| >= 4 {
      before, after := x[4..], z + x[..4];
    } else {
      before, after := z[2 - |x|..] + x, z[..2 - |x|];
    }
    forall c, d ensures Rearranged(x + [c, d] + z) == before + [c, d] + after {
      RearrangedAt(x, c, d, z, before, after);
    }
  }

  lemma RearrangedAt(x: string, c: char, d: char, z: string, before: string, after: string)
    requires |x| + 2 + |z| >= 4 && |x| != 3
    requires if |x| >= 4 then before == x[4..] && after == z + x[..4]
             else before == z[2 - |x|..] + x && after == z[..2 - |x|]
    ensures Rearranged(x + [c, d] + z) == before + [c, d] + after
  {
    var s := x + [c, d] + z;
    if |x| >= 4 {
      assert s[4..] == x[4..] + [c, d] + z && s[..4] == x[..4];
    } else {
      assert s[4..] == z[2 - |x|..] && s[..4] == x + [c, d] + z[..2 - |x|];
    }
  }

  lemma RearrangedEnds(x: string, c: char, d: char, z: string)
    requires |x| == 3
    ensures Rearranged(x + [c, d] + z) == [d] + (z + x) + [c]
  {
    var s := x + [c, d] + z;
    assert s[4..] == [d] + z && s[..4] == x + [c];
  }

  /** Whether swapping the characters at i and i + 1 goes unnoticed. */
  predicate SwapUnseen(candidate: string, i: nat)
    requires i + 1 < |candidate|
  {
    var a, b, x := candidate[i], candidate[i + 1], WithoutSpaces(candidate[..i]);
    if |x| == 3 then UnseenAtEnds(a, b, WeightOf(WithoutSpaces(candidate[i + 2..]) + x)) else UnseenSwap(a, b)
  }

  lemma CompactSwap(candidate: string, i: nat)
    requires i + 1 < |candidate| && candidate[i] != ' ' && candidate[i + 1] != ' '
    ensures var a, b := candidate[i], candidate[i + 1];
            var x, z := WithoutSpaces(candidate[..i]), WithoutSpaces(candidate[i + 2..]);
            && WithoutSpaces(candidate) == x + [a, b] + z
            && WithoutSpaces(Swapped(candidate, i)) == x + [b, a] + z
  {
    hide WithoutSpaces;
    var a, b := candidate[i], candidate[i + 1];
    assert candidate == candidate[..i] + [a, b] + candidate[i + 2..];
    CompactPair(candidate[..i], a, b, candidate[i + 2..]);
    CompactPair(candidate[..i], b, a, candidate[i + 2..]);
  }

  /** Swapping two neighbours in a valid IBAN, spaced or compact, leaves it valid if and only if they are
      equal, or B and 1, M and 2 or X and 3; but the fourth character and the fifth, one of them a letter
      and one a digit, if and only if 97 divides what UnseenAtEnds says. */
  lemma IbanMissesSwapIff(candidate: string, i: nat)
    requires ValidIban(candidate) && i + 1 < |candidate| && IsPart(candidate[i]) && IsPart(candidate[i + 1])
    ensures ValidIban(Swapped(candidate, i)) <==> SwapUnseen(candidate, i)
  {
    hide Expanded, WithoutSpaces, UnseenSwap, UnseenAtEnds, Rearranged, Swapped, WeightOf;
    var a, b := candidate[i], candidate[i + 1];
    var x, z := WithoutSpaces(candidate[..i]), WithoutSpaces(candidate[i + 2..]);
    CompactSwap(candidate, i);
    if |x| == 3 {
      RearrangedEnds(x, a, b, z);
      RearrangedEnds(x, b, a, z);
      EndsIff(a, b, z + x);
    } else {
      var before, after := RearrangedPair(x, a, b, z);
      SwapIff(before, a, b, after);
      SameOrNot(Expanded(before + [a, b] + after), Expanded(before + [b, a] + after));
    }
  }

  lemma SameOrNot(x: nat, y: nat)
    requires x % 97 == 1
    ensures y % 97 == 1 <==> x % 97 == y % 97
  {
  }

  /** Swapping two different neighbouring digits, or two different letters, makes it invalid wherever they
      stand. */
  lemma IbanDetectsSwap(candidate: string, i: nat)
    requires ValidIban(candidate) && i + 1 < |candidate|
    requires SameKind(candidate[i], candidate[i + 1]) && candidate[i] != candidate[i + 1]
    ensures !ValidIban(Swapped(candidate, i))
  {
    hide Swapped, ValidIban, WithoutSpaces;
    IbanMissesSwapIff(candidate, i);
  }

  // ---------------------------------------------------------------- a swap that goes unnoticed

  lemma {:induction false} NothingToDrop(s: string)
    requires ' ' !in s
    ensures WithoutSpaces(s) == s
  {
    if s != "" {
      NothingToDrop(s[1..]);
    }
  }

  function Zeros(n: nat): string {
    if n == 0 then "" else Zeros(n - 1) + "0"
  }

  lemma {:induction false} ZerosAddNothing(n: nat)
    ensures |Zeros(n)| == n && ' ' !in Zeros(n) && Expanded(Zeros(n)) == 0 && WeightOf(Zeros(n)) == PowerOfTen(n)
  {
    if n == 0 {
      ExpandedOfNothing();
    } else {
      hide Expanded, WeightOf;
      ZerosAddNothing(n - 1);
      Appended(Zeros(n - 1), '0');
    }
  }

  lemma Appended(x: string, c: char)
    ensures Expanded(x + [c]) == Expanded(x) * BaseOf(c) + ValueOf(c)
    ensures WeightOf(x + [c]) == WeightOf(x) * BaseOf(c)
  {
    assert (x + [c])[..|x|] == x;
  }

  /** What stands between the fourth and the fifth character of the example, once rearranged. */
  lemma ExampleMiddle(zeros: string) returns (middle: string)
    requires Expanded(zeros) == 0 && WeightOf(zeros) == 100000000
    ensures middle == zeros + "21" + "GB0"
    ensures Expanded(middle) == 2116110 && WeightOf(middle) == 1000000000000000
  {
    hide Expanded, WeightOf;
    Appended(zeros, '2');
    Appended(zeros + "2", '1');
    Appended(zeros + "2" + "1", 'G');
    Appended(zeros + "2" + "1" + "G", 'B');
    Appended(zeros + "2" + "1" + "G" + "B", '0');
    middle := zeros + "2" + "1" + "G" + "B" + "0";
  }

  function Example(fourth: char, fifth: char): string {
    "GB0" + [fourth, fifth] + (Zeros(8) + "21")
  }

  lemma ExampleIsValidIff(fourth: char, fifth: char)
    requires IsPart(fourth) && IsPart(fifth)
    ensures ValidIban(Example(fourth, fifth)) <==>
            ((ValueOf(fifth) * 1000000000000000 + 2116110) * BaseOf(fourth) + ValueOf(fourth)) % 97 == 1
  {
    hide Expanded, WeightOf, ValueOf, BaseOf, Zeros, Rearranged;
    ZerosAddNothing(8);
    EightZeros();
    var s, z := Example(fourth, fifth), Zeros(8) + "21";
    NothingToDrop(s);
    RearrangedEnds("GB0", fourth, fifth, z);
    var middle := ExampleMiddle(Zeros(8));
    assert z + "GB0" == middle;
    EndsValue(fifth, middle, fourth);
  }

  lemma EightZeros()
    ensures PowerOfTen(8) == 100000000
  {
  }

  /** The fourth and the fifth character can change places unnoticed without being one of the pairs: 3
      and D in GB03 D000 0000 021. */
  lemma FourthAndFifthCanSwap()
    ensures var s := Example('3', 'D');
            && |s| == 15 && s[3..5] == "3D" && Swapped(s, 3) == Example('D', '3') && !UnseenSwap('3', 'D')
            && ValidIban(s) && ValidIban(Swapped(s, 3))
  {
    hide ValidIban, Zeros;
    ZerosAddNothing(8);
    ExampleIsValidIff('3', 'D');
    ExampleIsValidIff('D', '3');
    var z := Zeros(8) + "21";
    assert Example('3', 'D')[5..] == z && Example('3', 'D')[..3] == "GB0";
  }
}
