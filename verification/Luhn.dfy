// The card-number check of the scrubber: isCardNumber and hasCardPrefix.
module Luhn {
  import opened Ascii

  predicate AllDigits(s: string) {
    forall k :: 0 <= k < |s| ==> IsDigit(s[k])
  }

  function DigitValue(c: char): (v: nat)
    requires IsDigit(c)
    ensures v <= 9
  {
    c as int - '0' as int
  }

  /** The number opens with a block some card network issues; a block has one to four digits. */
  predicate HasCardPrefix(digits: string)
    requires |digits| >= 4 && AllDigits(digits)
  {
    var two := DigitValue(digits[0]) * 10 + DigitValue(digits[1]);
    var three := two * 10 + DigitValue(digits[2]);
    var four := three * 10 + DigitValue(digits[3]);
    || digits[0] == '4'
    || 51 <= two <= 55 || two in {34, 37, 65, 36, 62}
    || 2221 <= four <= 2720 || four == 6011 || 3528 <= four <= 3589
    || 644 <= three <= 649 || 300 <= three <= 305
  }

  /** What a digit adds to the Luhn sum at its position counted from the right: every second one is
      doubled, less 9 when that passes 9. */
  function Weighted(position: nat, c: char): (v: nat)
    requires IsDigit(c)
    ensures v <= 9
  {
    var v := DigitValue(c);
    if position % 2 == 0 then v else if 2 * v > 9 then 2 * v - 9 else 2 * v
  }

  function LuhnSum(digits: string): nat
    requires AllDigits(digits)
  {
    if digits == "" then 0
    else Weighted(|digits| - 1, digits[0]) + LuhnSum(digits[1..])
  }

  predicate PassesLuhn(digits: string)
    requires AllDigits(digits)
  {
    LuhnSum(digits) % 10 == 0
  }

  predicate CardNumber(digits: string)
    requires AllDigits(digits)
  {
    13 <= |digits| <= 19 && HasCardPrefix(digits) && PassesLuhn(digits)
  }

  method IsCardNumber(digits: string) returns (card: bool)
    requires AllDigits(digits)
    ensures card == CardNumber(digits)
  {
    if |digits| < 13 || |digits| > 19 || !HasCardPrefix(digits) {
      return false;
    }
    var sum := 0;
    var k := 0;
    assert digits[|digits|..] == "";
    while k < |digits|
      invariant 0 <= k <= |digits|
      invariant sum == LuhnSum(digits[|digits| - k..])
    {
      var at := |digits| - 1 - k;
      var value := DigitValue(digits[at]);
      if k % 2 == 1 {
        value := value * 2;
        if value > 9 {
          value := value - 9;
        }
      }
      assert digits[at..][1..] == digits[at + 1..];
      sum := sum + value;
      k := k + 1;
    }
    assert digits[0..] == digits;
    return sum % 10 == 0;
  }

  // ---------------------------------------------------------------- what the check computes

  /** From the right end: of the last two digits the first counts double, the digits of its double added
      up, and the last as it is. */
  lemma {:induction false} LuhnFromTheRight(front: string, d: char, c: char)
    requires AllDigits(front) && IsDigit(d) && IsDigit(c)
    ensures AllDigits(front + [d, c])
    ensures LuhnSum(front + [d, c])
         == LuhnSum(front) + (2 * DigitValue(d) / 10 + 2 * DigitValue(d) % 10) + DigitValue(c)
  {
    var s := front + [d, c];
    if front == "" {
      assert s[1..] == [c] && [c][1..] == "";
      assert LuhnSum([c]) == DigitValue(c) + LuhnSum("");
    } else {
      assert s[1..] == front[1..] + [d, c];
      LuhnFromTheRight(front[1..], d, c);
    }
  }

  lemma LuhnOfOne(c: char)
    requires IsDigit(c)
    ensures LuhnSum("") == 0 && LuhnSum([c]) == DigitValue(c)
  {
    assert [c][1..] == "";
  }

  /** Of two texts of one length the first comes no later in the order of their characters. */
  predicate NotAfter(a: string, b: string)
    requires |a| == |b|
  {
    a == "" || a[0] < b[0] || (a[0] == b[0] && NotAfter(a[1..], b[1..]))
  }

  /** The blocks of numbers the card networks issue. */
  predicate IssuedByNetwork(digits: string)
    requires |digits| >= 4
  {
    || digits[..1] == "4"
    || digits[..2] in {"51", "52", "53", "54", "55", "34", "37", "36", "62", "65"}
    || digits[..3] in {"300", "301", "302", "303", "304", "305", "644", "645", "646", "647", "648", "649"}
    || digits[..4] == "6011"
    || (NotAfter("2221", digits[..4]) && NotAfter(digits[..4], "2720"))
    || (NotAfter("3528", digits[..4]) && NotAfter(digits[..4], "3589"))
  }

  lemma NotAfterIsAtMost(a: string, b: string)
    requires |a| == |b| == 4 && AllDigits(a) && AllDigits(b)
    ensures NotAfter(a, b) <==> FourDigits(a) <= FourDigits(b)
  {
    var a1, b1 := a[1..], b[1..];
    var a2, b2 := a1[1..], b1[1..];
    var a3, b3 := a2[1..], b2[1..];
    assert NotAfter(a3, b3) <==> a[3] <= b[3] by {
      assert a3[1..] == "" == b3[1..];
    }
    assert NotAfter(a2, b2) <==> a[2] < b[2] || (a[2] == b[2] && NotAfter(a3, b3));
    assert NotAfter(a1, b1) <==> a[1] < b[1] || (a[1] == b[1] && NotAfter(a2, b2));
  }

  function FourDigits(s: string): nat
    requires |s| == 4 && AllDigits(s)
  {
    DigitValue(s[0]) * 1000 + DigitValue(s[1]) * 100 + DigitValue(s[2]) * 10 + DigitValue(s[3])
  }

  lemma PrefixIsNetworks(digits: string)
    requires |digits| >= 4 && AllDigits(digits)
    ensures HasCardPrefix(digits) <==> IssuedByNetwork(digits)
  {
    var block := digits[..4];
    NotAfterIsAtMost("2221", block);
    NotAfterIsAtMost(block, "2720");
    NotAfterIsAtMost("3528", block);
    NotAfterIsAtMost(block, "3589");
    hide NotAfter;
    TwoDigits(digits);
    ThreeDigits(digits);
    assert block == "6011" <==> FourDigits(block) == 6011 by {
      assert block == [block[0], block[1], block[2], block[3]];
    }
  }

  lemma TwoDigits(digits: string)
    requires |digits| >= 4 && AllDigits(digits)
    ensures var two := DigitValue(digits[0]) * 10 + DigitValue(digits[1]);
            digits[..2] in {"51", "52", "53", "54", "55", "34", "37", "36", "62", "65"} <==>
            51 <= two <= 55 || two in {34, 37, 36, 62, 65}
  {
    assert digits[..2] == [digits[0], digits[1]];
  }

  lemma ThreeDigits(digits: string)
    requires |digits| >= 4 && AllDigits(digits)
    ensures var three := DigitValue(digits[0]) * 100 + DigitValue(digits[1]) * 10 + DigitValue(digits[2]);
            digits[..3] in {"300", "301", "302", "303", "304", "305", "644", "645", "646", "647", "648", "649"} <==>
            300 <= three <= 305 || 644 <= three <= 649
  {
    assert digits[..3] == [digits[0], digits[1], digits[2]];
  }

  /** A card number has 13 to 19 digits, starts with a network's block and passes the check. */
  lemma CardNumberIff(digits: string)
    requires AllDigits(digits)
    ensures CardNumber(digits) <==> 13 <= |digits| <= 19 && IssuedByNetwork(digits) && LuhnSum(digits) % 10 == 0
  {
    if |digits| >= 4 {
      PrefixIsNetworks(digits);
    }
  }

  /** Any 12 to 18 digits that start with a network's block become a card number by one more digit, and
      by one only. */
  lemma CheckDigit(front: string) returns (check: char)
    requires AllDigits(front) && 12 <= |front| <= 18 && IssuedByNetwork(front)
    ensures IsDigit(check) && AllDigits(front + [check]) && CardNumber(front + [check])
    ensures forall c :: IsDigit(c) && c != check ==> !CardNumber(front + [c])
  {
    hide IssuedByNetwork, LuhnSum, CardNumber;
    var without := LuhnSum(front + ['0']);
    var value := (10 - without % 10) % 10;
    check := ('0' as int + value) as char;
    CompletedBy(front, check);
    forall c | IsDigit(c) && c != check ensures !CardNumber(front + [c]) {
      CompletedBy(front, c);
      OneDigitFits(without, value, DigitValue(c));
    }
    OneDigitFits(without, value, value);
  }

  lemma OneDigitFits(without: nat, value: nat, other: nat)
    requires value == (10 - without % 10) % 10 && other <= 9
    ensures (without + other) % 10 == 0 <==> other == value
  {
  }

  lemma LastDigitAdds(front: string, c: char)
    requires AllDigits(front) && front != "" && IsDigit(c)
    ensures LuhnSum(front + [c]) == LuhnSum(front + ['0']) + DigitValue(c)
  {
    var last := |front| - 1;
    var p, d := front[..last], front[last];
    LuhnFromTheRight(p, d, c);
    LuhnFromTheRight(p, d, '0');
    assert p + [d, c] == front + [c] && p + [d, '0'] == front + ['0'];
  }

  lemma SameBlock(a: string, b: string)
    requires |a| >= 4 && |b| >= 4 && a[..4] == b[..4]
    ensures IssuedByNetwork(a) == IssuedByNetwork(b)
  {
    assert forall k :: 0 <= k <= 4 ==> a[..k] == a[..4][..k] == b[..4][..k] == b[..k];
  }

  lemma CompletedBy(front: string, c: char)
    requires AllDigits(front) && 12 <= |front| <= 18 && IssuedByNetwork(front) && IsDigit(c)
    ensures AllDigits(front + [c])
    ensures CardNumber(front + [c]) <==> (LuhnSum(front + ['0']) + DigitValue(c)) % 10 == 0
  {
    hide LuhnSum, IssuedByNetwork, CardNumber;
    var s := front + [c];
    LastDigitAdds(front, c);
    CardNumberIff(s);
    assert s[..4] == front[..4];
    SameBlock(s, front);
  }

  // ---------------------------------------------------------------- what the check detects

  /** The sum is a sum over positions: changing one digit changes it by that digit's weight alone. */
  lemma {:induction false} OneDigit(digits: string, i: nat, c: char)
    requires AllDigits(digits) && i < |digits| && IsDigit(c)
    ensures AllDigits(digits[i := c])
    ensures LuhnSum(digits[i := c]) - LuhnSum(digits)
         == Weighted(|digits| - 1 - i, c) - Weighted(|digits| - 1 - i, digits[i])
  {
    if i == 0 {
      assert digits[0 := c][1..] == digits[1..];
    } else {
      OneDigit(digits[1..], i - 1, c);
      assert digits[i := c][1..] == digits[1..][i - 1 := c];
    }
  }

  /** Every change of one digit, anywhere in a number of any length, changes the check's outcome. */
  lemma LuhnDetectsOneDigit(digits: string, i: nat, c: char)
    requires AllDigits(digits) && i < |digits| && IsDigit(c) && c != digits[i]
    ensures AllDigits(digits[i := c])
    ensures LuhnSum(digits) % 10 != LuhnSum(digits[i := c]) % 10
  {
    hide LuhnSum, IsTens;
    OneDigit(digits, i, c);
    WeightedApart(|digits| - 1 - i, c, digits[i]);
    SameRest(LuhnSum(digits[i := c]), LuhnSum(digits));
  }

  predicate IsTens(d: int) {
    d % 10 == 0
  }

  lemma WeightedApart(p: nat, a: char, b: char)
    requires IsDigit(a) && IsDigit(b) && a != b
    ensures !IsTens(Weighted(p, a) - Weighted(p, b))
  {
  }

  lemma SameRest(x: int, y: int)
    ensures x % 10 == y % 10 <==> IsTens(x - y)
  {
  }

  lemma NoTwoCardsDifferInOneDigit(a: string, b: string, i: nat)
    requires AllDigits(a) && AllDigits(b) && |a| == |b| && i < |a|
    requires forall k :: 0 <= k < |a| && k != i ==> a[k] == b[k]
    requires CardNumber(a) && CardNumber(b)
    ensures a == b
  {
    assert b == a[i := b[i]];
    if a[i] != b[i] {
      LuhnDetectsOneDigit(a, i, b[i]);
    }
  }

  function Swapped(digits: string, i: nat): string
    requires i + 1 < |digits|
  {
    digits[i := digits[i + 1]][i + 1 := digits[i]]
  }

  function SwapChange(p: nat, a: char, b: char): int
    requires IsDigit(a) && IsDigit(b)
  {
    Weighted(p + 1, b) - Weighted(p + 1, a) + Weighted(p, a) - Weighted(p, b)
  }

  lemma SwapShift(digits: string, i: nat)
    requires AllDigits(digits) && i + 1 < |digits|
    ensures AllDigits(Swapped(digits, i))
    ensures LuhnSum(Swapped(digits, i)) - LuhnSum(digits) == SwapChange(|digits| - 2 - i, digits[i], digits[i + 1])
  {
    hide LuhnSum, Weighted;
    OneDigit(digits, i, digits[i + 1]);
    OneDigit(digits[i := digits[i + 1]], i + 1, digits[i]);
  }

  lemma SwapGoesUnnoticedIff(p: nat, a: char, b: char)
    requires IsDigit(a) && IsDigit(b)
    ensures IsTens(SwapChange(p, a, b)) <==> UnseenSwap(a, b)
  {
  }

  predicate UnseenSwap(a: char, b: char) {
    a == b || (a == '0' && b == '9') || (a == '9' && b == '0')
  }

  /** Swapping two neighbouring digits goes unnoticed exactly when they are equal or are 0 and 9. */
  lemma LuhnMissesSwapIff(digits: string, i: nat)
    requires AllDigits(digits) && i + 1 < |digits|
    ensures AllDigits(Swapped(digits, i))
    ensures LuhnSum(Swapped(digits, i)) % 10 == LuhnSum(digits) % 10 <==> UnseenSwap(digits[i], digits[i + 1])
  {
    hide LuhnSum, SwapChange, Swapped, UnseenSwap, IsTens;
    SwapShift(digits, i);
    SwapGoesUnnoticedIff(|digits| - 2 - i, digits[i], digits[i + 1]);
    SameRest(LuhnSum(Swapped(digits, i)), LuhnSum(digits));
  }
}
