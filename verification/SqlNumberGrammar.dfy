// numberEnd against its grammar: the fixed order in which it tries the forms of a number loses
// nothing against full backtracking.
module SqlNumberGrammar {
  import opened Ascii
  import opened SqlNumbers

  lemma WordBytes()
    ensures forall c :: IsHex(c) ==> IsWord(c)
    ensures forall c :: IsBinary(c) ==> IsHex(c)
    ensures forall c :: IsDigit(c) ==> IsWord(c)
  {
  }

  // ---------------------------------------------------------------- what is returned is a number

  lemma RadixSound(s: string, marker: char, upper: char, digit: char -> bool)
    requires s != ""
    ensures var n := RadixLen(s, marker, upper, digit);
            n >= 0 ==> n >= 3 && IsRadix(s[..n], marker, upper, digit)
  {
  }

  lemma DigitsPrefix(s: string)
    ensures var n := SpanLen(IsDigit, s);
            AllOf(IsDigit, s[..n]) && (n > 0 ==> IsDigits(s[..n]))
  {
  }

  lemma ExponentSound(s: string)
    ensures var n := ExponentLen(s); n >= 0 ==> IsExponent(s[..n])
  {
  }

  lemma FromBaseSound(s: string, base: nat)
    requires base <= |s| && IsMantissa(s[..base])
    ensures var n := FromBase(s, base); n >= 0 ==> NumberPrefix(s, n) && n >= base
  {
    var n := FromBase(s, base);
    if n >= 0 {
      assert s[..n][..base] == s[..base];
      if n > base {
        ExponentSound(s[base..]);
        assert s[..n][base..] == s[base..][..n - base];
      }
      assert IsDecimal(s[..n]);
    }
  }

  lemma FractionMantissa(s: string, k: nat)
    requires k + 1 < |s| && s[k] == '.' && AllOf(IsDigit, s[..k]) && IsDigit(s[k + 1])
    ensures IsMantissa(s[..k + 1 + SpanLen(IsDigit, s[k + 1..])])
  {
    var f := k + 1 + SpanLen(IsDigit, s[k + 1..]);
    DigitsPrefix(s[k + 1..]);
    var t := s[..f];
    assert t[..k] == s[..k] && t[k + 1..] == s[k + 1..][..f - k - 1];
    assert t[k] == '.';
  }

  lemma BasesSound(s: string)
    requires s != "" && (IsDigit(s[0]) || s[0] == '.')
    ensures forall b :: 0 <= b < |Bases(s)| ==> 0 < Bases(s)[b] && IsMantissa(s[..Bases(s)[b]])
  {
    var k := SpanLen(IsDigit, s);
    if k == 0 {
      if |s| > 1 && IsDigit(s[1]) {
        FractionMantissa(s, 0);
      }
    } else {
      DigitsPrefix(s);
      if k + 1 < |s| && s[k] == '.' && IsDigit(s[k + 1]) {
        FractionMantissa(s, k);
      }
    }
  }

  lemma {:induction false} FirstFromSound(s: string, bases: seq<nat>)
    requires forall b :: 0 <= b < |bases| ==> 0 < bases[b] <= |s| && IsMantissa(s[..bases[b]])
    ensures var n := FirstFrom(s, bases); n >= 0 ==> n > 0 && NumberPrefix(s, n)
  {
    if bases != [] {
      FromBaseSound(s, bases[0]);
      FirstFromSound(s, bases[1..]);
    }
  }

  // ---------------------------------------------------------------- nothing longer is a number

  lemma RadixComplete(s: string, n: nat, marker: char, upper: char, digit: char -> bool)
    requires n <= |s| && Standalone(s, n) && IsRadix(s[..n], marker, upper, digit)
    requires forall c :: digit(c) ==> IsWord(c)
    ensures RadixLen(s, marker, upper, digit) == n
  {
  }

  lemma DigitsComplete(s: string, n: nat)
    requires n <= |s| && AllOf(IsDigit, s[..n]) && (n < |s| ==> !IsDigit(s[n]))
    ensures SpanLen(IsDigit, s) == n
  {
    forall k | 0 <= k < n ensures IsDigit(s[k]) {
      assert s[..n][k] == s[k];
    }
    SpanLenIs(IsDigit, s, n);
  }

  lemma ExponentComplete(s: string, n: nat)
    requires n <= |s| && Standalone(s, n) && IsExponent(s[..n])
    ensures ExponentLen(s) == n
  {
    var t := s[..n];
    var m := if t[1] == '+' || t[1] == '-' then 2 else 1;
    assert t[1..][0] == t[1] && !IsDigit('+') && !IsDigit('-');
    assert IsDigits(t[m..]);
    assert t[m..] == s[m..][..n - m];
    assert IsDigit(t[m..][0]);
    DigitsComplete(s[m..], n - m);
  }

  lemma FromBaseComplete(s: string, k: nat, n: nat)
    requires k <= n <= |s| && Standalone(s, n) && (k == n || IsExponent(s[k..n]))
    ensures FromBase(s, k) == n
  {
    if k < n {
      assert s[k..][..n - k] == s[k..n];
      ExponentComplete(s[k..], n - k);
    }
  }

  lemma WholeMantissa(s: string, k: nat)
    requires k <= |s| && IsDigits(s[..k]) && (k < |s| ==> !IsDigit(s[k]))
    ensures Bases(s) == [k] || (|Bases(s)| == 2 && Bases(s)[1] == k && s[k] == '.')
    ensures k > 1 ==> IsDigit(s[1])
  {
  }

  lemma FractionIsTried(s: string, d: nat, k: nat)
    requires d < k <= |s| && s[d] == '.' && AllOf(IsDigit, s[..d]) && IsDigits(s[d + 1..k])
    requires k < |s| ==> !IsDigit(s[k])
    ensures Bases(s) == if d == 0 then [k] else [k, d]
    ensures d > 1 ==> IsDigit(s[1])
  {
    DigitsComplete(s, d);
    assert s[d + 1..k] == s[d + 1..][..k - d - 1];
    assert IsDigit(s[d + 1..k][0]);
    DigitsComplete(s[d + 1..], k - d - 1);
    assert d > 1 ==> IsDigit(s[..d][1]);
  }

  /** A mantissa that no further digit follows is one the scanner tries, and tries first unless a
      fraction follows it. */
  lemma MantissaIsTried(s: string, k: nat)
    requires k <= |s| && IsMantissa(s[..k]) && (k < |s| ==> !IsDigit(s[k]))
    ensures k > 0
    ensures Bases(s) == [k] || (|Bases(s)| == 2 && Bases(s)[0] == k)
            || (|Bases(s)| == 2 && Bases(s)[1] == k < |s| && s[k] == '.')
    ensures k > 1 ==> IsDigit(s[1]) || s[1] == '.' || s[0] == '.'
  {
    var t := s[..k];
    if IsDigits(t) {
      WholeMantissa(s, k);
    } else {
      var d :| 0 <= d < |t| && t[d] == '.' && AllOf(IsDigit, t[..d]) && IsDigits(t[d + 1..]);
      assert t[..d] == s[..d] && t[d + 1..] == s[d + 1..k];
      FractionIsTried(s, d, k);
    }
  }

  /** The mantissa and exponent of a decimal number, as positions in the text it starts. */
  lemma DecimalParts(s: string, n: nat) returns (k: nat)
    requires s != "" && n <= |s| && IsDecimal(s[..n]) && Standalone(s, n)
    ensures k <= n && IsMantissa(s[..k]) && (k == n || IsExponent(s[k..n]))
    ensures k < |s| ==> !IsDigit(s[k])
  {
    var t := s[..n];
    k :| 0 <= k <= |t| && IsMantissa(t[..k]) && (k == |t| || IsExponent(t[k..]));
    assert t[..k] == s[..k] && t[k..] == s[k..n];
    assert k < n ==> t[k..][0] == s[k];
  }

  lemma DecimalComplete(s: string, n: nat)
    requires s != "" && n <= |s| && IsDecimal(s[..n]) && Standalone(s, n)
    ensures n <= FirstFrom(s, Bases(s))
  {
    hide IsDecimal, IsMantissa, Bases, FromBase, FirstFrom;
    var k := DecimalParts(s, n);
    MantissaIsTried(s, k);
    FromBaseComplete(s, k, n);
    assert k < n ==> s[k..n][0] == s[k];
    OneOrTwo(s, Bases(s));
  }

  lemma OneOrTwo(s: string, bases: seq<nat>)
    requires forall b :: 0 <= b < |bases| ==> 0 < bases[b] <= |s|
    ensures |bases| == 1 ==> FirstFrom(s, bases) == FromBase(s, bases[0])
    ensures |bases| == 2 ==>
              FirstFrom(s, bases) ==
              if FromBase(s, bases[0]) >= 0 then FromBase(s, bases[0]) else FromBase(s, bases[1])
  {
    hide FromBase;
    if |bases| == 2 {
      assert bases[1..] == [bases[1]] && bases[1..][1..] == [];
    }
  }

  lemma DecimalIsNotRadix(s: string, n: nat)
    requires s != "" && n <= |s| && IsDecimal(s[..n]) && Standalone(s, n)
    ensures RadixLen(s, 'x', 'X', IsHex) == RadixLen(s, 'b', 'B', IsBinary) == -1
  {
    var k := DecimalParts(s, n);
    MantissaIsTried(s, k);
    if k < n {
      assert s[k..n][0] == s[k];
    }
  }

  /** numberEnd finds the longest standalone number of the grammar starting where it looks, and
      nothing exactly when there is none. */
  lemma NumberLenIsLongest(s: string)
    requires s != "" && (IsDigit(s[0]) || s[0] == '.')
    ensures var r := NumberLen(s);
            && (r >= 0 ==> r > 0 && NumberPrefix(s, r))
            && (forall n: nat :: NumberPrefix(s, n) ==> n <= r)
  {
    WordBytes();
    RadixSound(s, 'x', 'X', IsHex);
    RadixSound(s, 'b', 'B', IsBinary);
    BasesSound(s);
    FirstFromSound(s, Bases(s));
    forall n: nat | NumberPrefix(s, n) ensures n <= NumberLen(s) {
      if IsRadix(s[..n], 'x', 'X', IsHex) {
        RadixComplete(s, n, 'x', 'X', IsHex);
      } else if IsRadix(s[..n], 'b', 'B', IsBinary) {
        RadixComplete(s, n, 'b', 'B', IsBinary);
      } else {
        DecimalComplete(s, n);
        DecimalIsNotRadix(s, n);
      }
    }
  }
}
