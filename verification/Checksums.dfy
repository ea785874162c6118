/** The checksums that confirm a detected card, routing or account number
    (crates/detector-regex/src/lib.rs). */
module Checksums {
  import opened Common

  const U32_MAX: nat := 0xFFFF_FFFF

  function Digit(c: char): (d: nat)
    requires IsDigit(c)
    ensures d <= 9
  {
    c as int - '0' as int
  }

  // ---- Luhn (ISO/IEC 7812-1, Annex B) ---------------------------------------------

  predicate Separator(c: char) { c == ' ' || c == '-' }

  /** A digit's weight: doubled digits are reduced by nine. */
  function Weighted(d: nat, double: bool): (w: nat)
    requires d <= 9
    ensures w <= 9
  {
    if !double then d else if 2 * d > 9 then 2 * d - 9 else 2 * d
  }

  /** Every other digit counts double, from the right; separators are skipped and
      any other character rejects the value. */
  datatype Tally = Tally(sum: nat, double: bool)

  /** The tally of the characters from `i` on. */
  function Luhn(value: Text, i: nat): (r: Option<Tally>)
    requires i <= |value|
    ensures r.Some? ==> r.value.sum <= 9 * (|value| - i)
    decreases |value| - i
  {
    if i == |value| then Some(Tally(0, false))
    else
      var r := Luhn(value, i + 1);
      if r.None? || Separator(value[i]) then r
      else if !IsDigit(value[i]) then None
      else Some(Tally(r.value.sum + Weighted(Digit(value[i]), r.value.double), !r.value.double))
  }

  predicate IsLuhn(value: Text) {
    Luhn(value, 0).Some? && Luhn(value, 0).value.sum % 10 == 0
  }

  /** What a 32-bit sum decides. */
  predicate LuhnAccepts(value: Text) {
    Luhn(value, 0).Some? && Luhn(value, 0).value.sum % (U32_MAX + 1) % 10 == 0
  }

  /** The two are the same where the sum fits 32 bits. */
  lemma {:induction false} ShortIsLuhn(value: Text)
    requires 9 * |value| <= U32_MAX
    ensures LuhnAccepts(value) <==> IsLuhn(value)
  {
    if Luhn(value, 0).Some? { assert Luhn(value, 0).value.sum % (U32_MAX + 1) == Luhn(value, 0).value.sum; }
  }

  function Nines(n: nat): (s: Text)
    ensures |s| == n
  {
    if n == 0 then "" else ['9'] + Nines(n - 1)
  }

  lemma {:induction false} NinesTally(n: nat)
    ensures Luhn(Nines(n), 0) == Some(Tally(9 * n, n % 2 == 1))
  {
    if n > 0 {
      NinesTally(n - 1);
      LuhnTail(Nines(n), 1);
    }
  }

  /** The tally of a suffix is that of the suffix as a text. */
  lemma {:induction false} LuhnTail(value: Text, i: nat)
    requires i <= |value|
    ensures Luhn(value, i) == Luhn(value[i..], 0)
    decreases |value| - i
  {
    if i < |value| {
      LuhnTail(value, i + 1);
      LuhnTail(value[i..], 1);
      assert value[i..][1..] == value[i + 1..];
    }
  }

  /** The bound is needed: 477218590 nines satisfy the Luhn rule, and their sum wraps
      to 14. */
  lemma {:induction false} WrappedSumRejects(n: nat)
    requires n == 477218590
    ensures IsLuhn(Nines(n)) && !LuhnAccepts(Nines(n))
  {
    NinesTally(n);
  }

  lemma {:induction false} LuhnRejects(value: Text, i: nat, j: nat)
    requires i <= j <= |value| && Luhn(value, j).None?
    ensures Luhn(value, i).None?
    decreases j - i
  {
    if i < j { LuhnRejects(value, i, j - 1); }
  }

  /** The loop over the bytes from the right. Its sum is a 32-bit number, so a value
      with more than a ninth of 2^32 digits may be judged by a wrapped sum. */
  method LuhnValid(value: Text) returns (valid: bool)
    ensures valid <==> LuhnAccepts(value)
    ensures 9 * |value| <= U32_MAX ==> (valid <==> IsLuhn(value))
  {
    var sum, double := 0, false;
    var i := |value|;
    while i > 0
      invariant 0 <= i <= |value| && sum <= U32_MAX
      invariant Luhn(value, i).Some? && Luhn(value, i).value.double == double
      invariant sum == Luhn(value, i).value.sum % (U32_MAX + 1)
    {
      i := i - 1;
      var byte := value[i];
      if Separator(byte) { continue; }
      if !IsDigit(byte) {
        LuhnRejects(value, 0, i);
        return false;
      }
      var digit := Digit(byte);
      if double {
        digit := digit * 2;
        if digit > 9 { digit := digit - 9; }
      }
      LuhnWraps(value, i, digit);
      sum := (sum + digit) % (U32_MAX + 1);
      double := !double;
    }
    if 9 * |value| <= U32_MAX { ShortIsLuhn(value); }
    return sum % 10 == 0;
  }

  /** One more digit, in 32 bits. */
  lemma {:induction false} LuhnWraps(value: Text, i: nat, digit: nat)
    requires i < |value| && IsDigit(value[i]) && Luhn(value, i + 1).Some?
    requires digit == Weighted(Digit(value[i]), Luhn(value, i + 1).value.double)
    ensures Luhn(value, i).Some? && Luhn(value, i).value.double == !Luhn(value, i + 1).value.double
    ensures Luhn(value, i).value.sum % (U32_MAX + 1)
            == (Luhn(value, i + 1).value.sum % (U32_MAX + 1) + digit) % (U32_MAX + 1)
  {
    WrapAdd(Luhn(value, i + 1).value.sum, digit);
  }

  /** Wrapping after each addition is wrapping the sum. */
  lemma WrapAdd(sum: nat, digit: nat)
    ensures (sum % (U32_MAX + 1) + digit) % (U32_MAX + 1) == (sum + digit) % (U32_MAX + 1)
  {
    var m := U32_MAX + 1;
    assert sum == m * (sum / m) + sum % m;
    assert (sum + digit) - (sum % m + digit) == m * (sum / m);
  }

  lemma {:induction false} LuhnSame(a: Text, b: Text, i: nat)
    requires |a| == |b| && i <= |a| && forall k :: i <= k < |a| ==> a[k] == b[k]
    ensures Luhn(a, i) == Luhn(b, i)
    decreases |a| - i
  {
    if i < |a| { LuhnSame(a, b, i + 1); }
  }

  lemma LuhnDigit(value: Text, i: nat)
    requires i < |value| && IsDigit(value[i]) && Luhn(value, i + 1).Some?
    ensures var later := Luhn(value, i + 1).value;
            Luhn(value, i) == Some(Tally(later.sum + Weighted(Digit(value[i]), later.double), !later.double))
  {
  }

  /** Where the rest agrees, the sums keep their difference. */
  lemma {:induction false} LuhnCarries(a: Text, b: Text, i: nat, j: nat)
    requires |a| == |b| && i <= j <= |a| && forall k :: i <= k < j ==> a[k] == b[k]
    requires Luhn(a, j).Some? && Luhn(b, j).Some? && Luhn(a, j).value.double == Luhn(b, j).value.double
    requires Luhn(a, i).Some?
    ensures Luhn(b, i).Some? && Luhn(a, i).value.double == Luhn(b, i).value.double
    ensures Luhn(b, i).value.sum - Luhn(a, i).value.sum == Luhn(b, j).value.sum - Luhn(a, j).value.sum
    decreases j - i
  {
    if i < j { LuhnCarries(a, b, i + 1, j); }
  }

  lemma {:induction false} LuhnSome(value: Text, i: nat)
    requires Luhn(value, 0).Some? && i <= |value|
    ensures Luhn(value, i).Some?
  {
    if Luhn(value, i).None? { LuhnRejects(value, 0, i); }
  }

  lemma Tenths(s: int, t: int)
    requires s % 10 == 0
    ensures t % 10 == 0 <==> (t - s) % 10 == 0
    ensures s != t && -10 < t - s < 10 ==> t % 10 != 0
  {
  }

  /** Any single digit change is detected, on any length; by the 32-bit sum where it
      does not wrap. */
  lemma {:induction false} LuhnDetectsDigit(value: Text, i: nat, c: char)
    requires IsLuhn(value) && i < |value| && IsDigit(value[i]) && IsDigit(c) && c != value[i]
    ensures !IsLuhn(value[i := c])
    ensures 9 * |value| <= U32_MAX ==> !LuhnAccepts(value[i := c])
  {
    var other := value[i := c];
    if 9 * |value| <= U32_MAX { ShortIsLuhn(other); }
    LuhnSame(value, other, i + 1);
    LuhnSome(value, i + 1);
    LuhnDigit(value, i);
    LuhnDigit(other, i);
    LuhnCarries(value, other, 0, i);
    Tenths(Luhn(value, 0).value.sum, Luhn(other, 0).value.sum);
  }

  predicate ZeroAndNine(c: char, d: char) { (c == '0' && d == '9') || (c == '9' && d == '0') }

  /** The tally of two neighbouring digits and the rest. */
  lemma {:induction false} LuhnPair(value: Text, i: nat)
    requires i + 1 < |value| && IsDigit(value[i]) && IsDigit(value[i + 1]) && Luhn(value, i + 2).Some?
    ensures Luhn(value, i).Some?
    ensures var later, x, y := Luhn(value, i + 2).value, Digit(value[i]), Digit(value[i + 1]);
            Luhn(value, i).value
              == Tally(later.sum + Weighted(y, later.double) + Weighted(x, !later.double), later.double)
  {
    LuhnDigit(value, i + 1);
    LuhnDigit(value, i);
  }

  /** The text with two neighbouring characters swapped. */
  function Swapped(value: Text, i: nat): Text
    requires i + 1 < |value|
  {
    value[i := value[i + 1]][i + 1 := value[i]]
  }

  /** What a swap does to the sum. */
  lemma {:induction false} LuhnSwap(value: Text, i: nat)
    requires Luhn(value, 0).Some? && i + 1 < |value| && IsDigit(value[i]) && IsDigit(value[i + 1])
    ensures Luhn(value, i + 2).Some? && Luhn(Swapped(value, i), 0).Some?
    ensures var x, y, double := Digit(value[i]), Digit(value[i + 1]), Luhn(value, i + 2).value.double;
            Luhn(Swapped(value, i), 0).value.sum - Luhn(value, 0).value.sum
            == Weighted(x, double) + Weighted(y, !double) - Weighted(y, double) - Weighted(x, !double)
  {
    var other := Swapped(value, i);
    LuhnSame(value, other, i + 2);
    LuhnSome(value, i + 2);
    LuhnPair(value, i);
    LuhnPair(other, i);
    LuhnCarries(value, other, 0, i);
  }

  /** Swapping two neighbouring different digits is detected exactly when they are
      not 0 and 9; by the 32-bit sum too, where it does not wrap. */
  lemma {:induction false} LuhnDetectsSwap(value: Text, i: nat)
    requires IsLuhn(value) && i + 1 < |value| && IsDigit(value[i]) && IsDigit(value[i + 1])
    ensures !IsLuhn(Swapped(value, i)) <==> value[i] != value[i + 1] && !ZeroAndNine(value[i], value[i + 1])
    ensures 9 * |value| <= U32_MAX ==> (LuhnAccepts(Swapped(value, i)) <==> IsLuhn(Swapped(value, i)))
  {
    if 9 * |value| <= U32_MAX { ShortIsLuhn(Swapped(value, i)); }
    LuhnSwap(value, i);
    Tenths(Luhn(value, 0).value.sum, Luhn(Swapped(value, i), 0).value.sum);
  }

  /** How many of the characters from `i` on are digits. */
  function DigitsFrom(value: Text, i: nat): nat
    requires i <= |value|
    decreases |value| - i
  {
    if i == |value| then 0 else DigitsFrom(value, i + 1) + if '0' <= value[i] <= '9' then 1 else 0
  }

  /** The sum of the digits from `i` on: each with an even number of digits to its
      right as it is, each other one doubled and reduced by nine above nine. */
  function PositionSum(value: Text, i: nat): nat
    requires i <= |value|
    decreases |value| - i
  {
    if i == |value| then 0
    else if !('0' <= value[i] <= '9') then PositionSum(value, i + 1)
    else
      var d := value[i] as int - '0' as int;
      PositionSum(value, i + 1)
      + if DigitsFrom(value, i + 1) % 2 == 0 then d else if d >= 5 then 2 * d - 9 else 2 * d
  }

  /** The Luhn rule by position: only digits, spaces and hyphens, and a sum by position
      that is a multiple of ten. */
  lemma {:induction false} LuhnByPosition(value: Text)
    ensures IsLuhn(value) <==>
            && (forall i :: 0 <= i < |value| ==> '0' <= value[i] <= '9' || value[i] == ' ' || value[i] == '-')
            && PositionSum(value, 0) % 10 == 0
  {
    TallyByPosition(value, 0);
  }

  lemma {:induction false} TallyByPosition(value: Text, i: nat)
    requires i <= |value|
    ensures Luhn(value, i).Some? <==>
            forall k :: i <= k < |value| ==> '0' <= value[k] <= '9' || value[k] == ' ' || value[k] == '-'
    ensures Luhn(value, i).Some? ==>
              Luhn(value, i).value == Tally(PositionSum(value, i), DigitsFrom(value, i) % 2 == 1)
    decreases |value| - i
  {
    if i < |value| { TallyByPosition(value, i + 1); }
  }

  // ---- ABA routing numbers -----------------------------------------------------------

  predicate NineDigits(v: Text) {
    |v| == 9 && forall i :: 0 <= i < 9 ==> IsDigit(v[i])
  }

  /** A digit times its weight; the weights are 3, 7, 1, 3, 7, 1, 3, 7, 1. */
  function AbaTerm(i: nat, c: char): nat
    requires IsDigit(c)
  {
    if i % 3 == 0 then 3 * Digit(c) else if i % 3 == 1 then 7 * Digit(c) else Digit(c)
  }

  function AbaSum(v: Text, n: nat): nat
    requires NineDigits(v) && n <= 9
  {
    if n == 0 then 0 else AbaSum(v, n - 1) + AbaTerm(n - 1, v[n - 1])
  }

  /** `aba_valid`. */
  predicate AbaValid(v: Text) {
    NineDigits(v) && AbaSum(v, 9) % 10 == 0
  }

  /** The rule written out, over the nine digits. */
  lemma {:induction false} AbaWrittenOut(v: Text)
    requires NineDigits(v)
    ensures var d := seq(9, i requires 0 <= i < 9 => v[i] as int - '0' as int);
            AbaValid(v) <==>
            (3 * (d[0] + d[3] + d[6]) + 7 * (d[1] + d[4] + d[7]) + (d[2] + d[5] + d[8])) % 10 == 0
  {
    assert AbaSum(v, 3) == AbaTerm(0, v[0]) + AbaTerm(1, v[1]) + AbaTerm(2, v[2]) by {
      assert AbaSum(v, 1) == AbaTerm(0, v[0]);
    }
    assert AbaSum(v, 6) == AbaSum(v, 3) + AbaTerm(3, v[3]) + AbaTerm(4, v[4]) + AbaTerm(5, v[5]) by {
      assert AbaSum(v, 5) == AbaSum(v, 4) + AbaTerm(4, v[4]);
    }
    assert AbaSum(v, 9) == AbaSum(v, 6) + AbaTerm(6, v[6]) + AbaTerm(7, v[7]) + AbaTerm(8, v[8]) by {
      assert AbaSum(v, 8) == AbaSum(v, 7) + AbaTerm(7, v[7]);
    }
  }

  lemma {:induction false} AbaChange(v: Text, i: nat, c: char, n: nat)
    requires NineDigits(v) && i < n <= 9 && IsDigit(c)
    ensures NineDigits(v[i := c]) && AbaSum(v[i := c], n) - AbaSum(v, n) == AbaTerm(i, c) - AbaTerm(i, v[i])
  {
    if n - 1 == i {
      AbaSame(v, v[i := c], i);
    } else {
      AbaChange(v, i, c, n - 1);
    }
  }

  lemma {:induction false} AbaSame(a: Text, b: Text, n: nat)
    requires NineDigits(a) && NineDigits(b) && n <= 9 && forall k :: 0 <= k < n ==> a[k] == b[k]
    ensures AbaSum(a, n) == AbaSum(b, n)
  {
    if n > 0 { AbaSame(a, b, n - 1); }
  }

  lemma {:induction false} TermsDiffer(s: int, t: int, i: nat, c: char, d: char)
    requires s % 10 == 0 && IsDigit(c) && IsDigit(d) && t - s == AbaTerm(i, c) - AbaTerm(i, d) && c != d
    ensures t % 10 != 0
  {
    var x := Digit(c) - Digit(d);
    if i % 3 == 0 {
      assert t - s == 3 * x;
    } else if i % 3 == 1 {
      assert t - s == 7 * x;
    } else {
      assert t - s == x;
    }
  }

  /** Any single digit change is detected. */
  lemma {:induction false} AbaDetectsDigit(v: Text, i: nat, c: char)
    requires AbaValid(v) && i < 9 && IsDigit(c) && c != v[i]
    ensures !AbaValid(v[i := c])
  {
    AbaChange(v, i, c, 9);
    TermsDiffer(AbaSum(v, 9), AbaSum(v[i := c], 9), i, c, v[i]);
  }

  lemma FifthsOfDifference(d: int)
    requires -9 <= d <= 9
    ensures (4 * d) % 10 == 0 <==> d % 5 == 0
    ensures (6 * d) % 10 == 0 <==> d % 5 == 0
    ensures (2 * d) % 10 == 0 <==> d % 5 == 0
  {
  }

  lemma {:induction false} AbaSwapChange(v: Text, i: nat)
    requires NineDigits(v) && i < 8
    ensures var other, d := v[i := v[i + 1]][i + 1 := v[i]], Digit(v[i + 1]) - Digit(v[i]);
            && NineDigits(other)
            && AbaSum(v, 9) - AbaSum(other, 9) == if i % 3 == 0 then 4 * d else if i % 3 == 1 then 0 - 6 * d else 2 * d
  {
    AbaChange(v, i, v[i + 1], 9);
    AbaChange(v[i := v[i + 1]], i + 1, v[i], 9);
  }

  lemma TenthsApart(s: int, t: int, m: int)
    requires s % 10 == 0 && (s - t == m || t - s == m)
    ensures t % 10 == 0 <==> m % 10 == 0
  {
  }

  /** Swapping two neighbouring digits is detected exactly when their difference
      is not a multiple of five. */
  lemma {:induction false} AbaDetectsSwap(v: Text, i: nat)
    requires AbaValid(v) && i < 8
    ensures !AbaValid(v[i := v[i + 1]][i + 1 := v[i]]) <==> (Digit(v[i + 1]) - Digit(v[i])) % 5 != 0
  {
    var d := Digit(v[i + 1]) - Digit(v[i]);
    AbaSwapChange(v, i);
    FifthsOfDifference(d);
    TenthsApart(AbaSum(v, 9), AbaSum(v[i := v[i + 1]][i + 1 := v[i]], 9),
                if i % 3 == 0 then 4 * d else if i % 3 == 1 then 6 * d else 2 * d);
  }

  // ---- IBAN (ISO 13616, MOD 97-10 of ISO/IEC 7064) ---------------------------------------

  predicate IsUpper(c: char) { 'A' <= c <= 'Z' }

  /** `A` is 10, `Z` is 35. */
  function LetterValue(c: char): (e: nat)
    requires IsUpper(c)
    ensures 10 <= e <= 35
  {
    c as int - 'A' as int + 10
  }

  /** Only digits and upper-case letters. */
  predicate Coded(text: Text) {
    forall i :: 0 <= i < |text| ==> IsDigit(text[i]) || IsUpper(text[i])
  }

  /** The decimal digits of the text with each letter written as its value. */
  function Expanded(text: Text): (r: seq<nat>)
    requires Coded(text)
    ensures forall i :: 0 <= i < |r| ==> r[i] <= 9
  {
    if text == "" then []
    else
      var front, c := Expanded(text[..|text| - 1]), text[|text| - 1];
      if IsDigit(c) then front + [Digit(c)] else front + [LetterValue(c) / 10, LetterValue(c) % 10]
  }

  function Number(digits: seq<nat>): nat {
    if digits == [] then 0 else 10 * Number(digits[..|digits| - 1]) + digits[|digits| - 1]
  }

  /** The characters that are not spaces, among the first `n`. */
  function Compact(value: Text, n: nat): (r: Text)
    requires n <= |value|
    ensures ' ' !in r
  {
    if n == 0 then ""
    else if value[n - 1] == ' ' then Compact(value, n - 1)
    else Compact(value, n - 1) + [value[n - 1]]
  }

  /** The first four characters moved to the end. */
  function Rotated(compact: Text): Text
    requires |compact| >= 4
  {
    compact[4..] + compact[..4]
  }

  /** The standard's rule: the whole rearranged and expanded number leaves 1. */
  predicate IsIban(value: Text) {
    var compact := Compact(value, |value|);
    15 <= |compact| <= 34 && Coded(Rotated(compact)) && Number(Expanded(Rotated(compact))) % 97 == 1
  }

  lemma NumberNext(digits: seq<nat>, d: nat)
    ensures Number(digits + [d]) == 10 * Number(digits) + d
  {
    assert (digits + [d])[..|digits|] == digits;
  }

  lemma Reduced(n: nat, factor: nat, d: nat)
    ensures (factor * (n % 97) + d) % 97 == (factor * n + d) % 97
  {
    var q := n / 97;
    assert n == 97 * q + n % 97;
    assert factor * n == factor * (97 * q) + factor * (n % 97) == 97 * (factor * q) + factor * (n % 97);
  }

  /** The remainder after one more character. */
  function Next(remainder: nat, c: char): (r: nat)
    requires IsDigit(c) || IsUpper(c)
    ensures r < 97
  {
    if IsDigit(c) then (remainder * 10 + Digit(c)) % 97 else (remainder * 100 + LetterValue(c)) % 97
  }

  /** The remainder after the first `n` characters. */
  function Remainder(text: Text, n: nat): (r: nat)
    requires n <= |text| && forall i :: 0 <= i < n ==> IsDigit(text[i]) || IsUpper(text[i])
    ensures r < 97
  {
    if n == 0 then 0 else Next(Remainder(text, n - 1), text[n - 1])
  }

  lemma {:induction false} NumberOfNext(front: seq<nat>, c: char)
    requires IsDigit(c) || IsUpper(c)
    ensures IsDigit(c) ==> Number(front + [Digit(c)]) == 10 * Number(front) + Digit(c)
    ensures IsUpper(c) ==>
              Number(front + [LetterValue(c) / 10, LetterValue(c) % 10]) == 100 * Number(front) + LetterValue(c)
  {
    if IsDigit(c) {
      NumberNext(front, Digit(c));
    } else {
      var tens, ones := LetterValue(c) / 10, LetterValue(c) % 10;
      NumberNext(front, tens);
      NumberNext(front + [tens], ones);
      assert front + [tens] + [ones] == front + [tens, ones];
    }
  }

  /** A number with one more character written behind it. */
  function Longer(before: nat, c: char): nat
    requires IsDigit(c) || IsUpper(c)
  {
    if IsDigit(c) then 10 * before + Digit(c) else 100 * before + LetterValue(c)
  }

  /** One more character multiplies the number by 10 or 100. */
  lemma {:induction false} ExpandedNext(text: Text, n: nat)
    requires n < |text| && Coded(text[..n + 1])
    ensures Coded(text[..n]) && (IsDigit(text[n]) || IsUpper(text[n]))
    ensures Number(Expanded(text[..n + 1])) == Longer(Number(Expanded(text[..n])), text[n])
  {
    var longer := text[..n + 1];
    assert longer[..n] == text[..n] && longer[n] == text[n];
    assert forall i :: 0 <= i < n ==> text[..n][i] == longer[i];
    NumberOfNext(Expanded(text[..n]), text[n]);
  }

  /** The running remainder is that of the whole expanded number. */
  lemma {:induction false} RemainderOfNumber(text: Text, n: nat)
    requires n <= |text| && Coded(text[..n])
    ensures forall i :: 0 <= i < n ==> IsDigit(text[i]) || IsUpper(text[i])
    ensures Remainder(text, n) == Number(Expanded(text[..n])) % 97
  {
    CodedFront(text, n);
    if n > 0 {
      ExpandedNext(text, n - 1);
      RemainderOfNumber(text, n - 1);
      RemainderNext(text, n - 1, Number(Expanded(text[..n - 1])));
    }
  }

  lemma {:induction false} RemainderNext(text: Text, n: nat, before: nat)
    requires n < |text| && (forall i :: 0 <= i < n + 1 ==> IsDigit(text[i]) || IsUpper(text[i]))
    requires Remainder(text, n) == before % 97
    ensures Remainder(text, n + 1) == Longer(before, text[n]) % 97
  {
    NextReduces(before, text[n]);
  }

  lemma {:induction false} CodedFront(text: Text, n: nat)
    requires n <= |text| && Coded(text[..n])
    ensures forall i :: 0 <= i < n ==> IsDigit(text[i]) || IsUpper(text[i])
  {
    forall i | 0 <= i < n ensures IsDigit(text[i]) || IsUpper(text[i]) { assert text[..n][i] == text[i]; }
  }

  lemma {:induction false} NextReduces(n: nat, c: char)
    requires IsDigit(c) || IsUpper(c)
    ensures Next(n % 97, c) == Longer(n, c) % 97
  {
    if IsDigit(c) {
      Reduced(n, 10, Digit(c));
    } else {
      Reduced(n, 100, LetterValue(c));
    }
  }

  /** The short remainder loop decides the rule on the whole number. */
  method IbanValid(value: Text) returns (valid: bool)
    ensures valid <==> IsIban(value)
  {
    var compact := Compact(value, |value|);
    if !(15 <= |compact| <= 34) { return false; }
    var text := Rotated(compact);
    var remainder := 0;
    for n := 0 to |text|
      invariant forall i :: 0 <= i < n ==> IsDigit(text[i]) || IsUpper(text[i])
      invariant remainder == Remainder(text, n)
    {
      var byte := text[n];
      if IsDigit(byte) {
        remainder := (remainder * 10 + Digit(byte)) % 97;
      } else if IsUpper(byte) {
        remainder := (remainder * 100 + LetterValue(byte)) % 97;
      } else {
        return false;
      }
    }
    assert text[..|text|] == text;
    RemainderOfNumber(text, |text|);
    return remainder == 1;
  }

  /** The number a text stands for when each letter is written as two digits, from
      10 for A to 35 for Z. */
  function Worth(text: Text): nat {
    if text == "" then 0
    else
      var front, c := Worth(text[..|text| - 1]), text[|text| - 1] as int;
      if 48 <= c <= 57 then 10 * front + (c - 48) else if 65 <= c <= 90 then 100 * front + (c - 55) else front
  }

  lemma {:induction false} WorthOfCoded(text: Text)
    requires Coded(text)
    ensures Worth(text) == Number(Expanded(text))
  {
    if text != "" {
      assert text[..|text|] == text;
      WorthOfCoded(text[..|text| - 1]);
      ExpandedNext(text, |text| - 1);
    }
  }

  /** Without spaces a value passes exactly when it has 15 to 34 digits and capital
      letters whose number, the first four moved to the end, leaves 1. */
  lemma IbanWrittenOut(value: Text)
    requires ' ' !in value
    ensures IsIban(value)
            <==> 15 <= |value| <= 34
                 && (forall i :: 0 <= i < |value| ==> '0' <= value[i] <= '9' || 'A' <= value[i] <= 'Z')
                 && Worth(value[4..] + value[..4]) % 97 == 1
  {
    CompactWithoutSpace(value, |value|);
    assert value[..|value|] == value;
    if 15 <= |value| {
      var text := value[4..] + value[..4];
      CodedRotation(value);
      if Coded(text) { WorthOfCoded(text); }
    }
  }

  lemma CodedRotation(value: Text)
    requires |value| >= 4
    ensures Coded(value[4..] + value[..4]) <==> Coded(value)
  {
    var text := value[4..] + value[..4];
    assert forall i :: 0 <= i < |text| ==> text[i] == value[if i < |value| - 4 then i + 4 else i - |value| + 4];
    assert forall i :: 0 <= i < |value| ==> value[i] == text[if i < 4 then i + |value| - 4 else i - 4];
  }

  lemma {:induction false} CompactWithoutSpace(value: Text, n: nat)
    requires ' ' !in value && n <= |value|
    ensures Compact(value, n) == value[..n]
  {
    if n > 0 { CompactWithoutSpace(value, n - 1); }
  }

  /** A space anywhere makes no difference. */
  lemma SpaceIsIgnored(a: Text, b: Text)
    ensures IsIban(a + " " + b) <==> IsIban(a + b)
  {
    CompactSplits(a + " ", b, |b|);
    CompactSplits(a, b, |b|);
    CompactSplits(a, " ", 1);
    assert Compact(" ", 1) == Compact(" ", 0) == "";
    assert Compact(a + " ", |a + " "|) == Compact(a, |a|);
    assert |a + " " + b| == |a + " "| + |b| && |a + b| == |a| + |b|;
    assert Compact(a + " " + b, |a + " " + b|) == Compact(a + b, |a + b|);
  }

  lemma {:induction false} CompactSplits(a: Text, b: Text, n: nat)
    requires n <= |b|
    ensures Compact(a + b, |a| + n) == Compact(a, |a|) + Compact(b, n)
  {
    if n == 0 {
      CompactPrefix(a, b, |a|);
    } else {
      CompactSplits(a, b, n - 1);
    }
  }

  lemma {:induction false} CompactPrefix(a: Text, b: Text, n: nat)
    requires n <= |a|
    ensures Compact(a + b, n) == Compact(a, n)
  {
    if n > 0 { CompactPrefix(a, b, n - 1); }
  }

  lemma QuotientGap(u: int, v: int)
    requires u % 97 == v % 97
    ensures u - v == 97 * (u / 97 - v / 97)
  {
  }

  lemma NoSmallMultiple(x: int, m: int)
    requires x == 97 * m && -97 < x < 97
    ensures x == 0
  {
  }

  /** Multiplication by 10 loses nothing modulo 97: 68 * 10 = 7 * 97 + 1. */
  lemma {:induction false} TimesTenInjective(r: nat, s: nat, d: nat)
    requires r < 97 && s < 97 && (r * 10 + d) % 97 == (s * 10 + d) % 97
    ensures r == s
  {
    var x, q := r - s, (r * 10 + d) / 97 - (s * 10 + d) / 97;
    QuotientGap(r * 10 + d, s * 10 + d);
    assert 10 * x == 97 * q;
    NoSmallMultiple(x, 68 * q - 7 * x);
  }

  /** Nor does multiplication by 100: 65 * 100 = 67 * 97 + 1. */
  lemma {:induction false} TimesHundredInjective(r: nat, s: nat, d: nat)
    requires r < 97 && s < 97 && (r * 100 + d) % 97 == (s * 100 + d) % 97
    ensures r == s
  {
    var x, q := r - s, (r * 100 + d) / 97 - (s * 100 + d) / 97;
    QuotientGap(r * 100 + d, s * 100 + d);
    assert 100 * x == 97 * q;
    NoSmallMultiple(x, 65 * q - 67 * x);
  }

  lemma {:induction false} NextInjective(r: nat, s: nat, c: char)
    requires r < 97 && s < 97 && (IsDigit(c) || IsUpper(c)) && Next(r, c) == Next(s, c)
    ensures r == s
  {
    if IsDigit(c) {
      TimesTenInjective(r, s, Digit(c));
    } else {
      TimesHundredInjective(r, s, LetterValue(c));
    }
  }

  /** Different characters of one class leave different remainders. */
  lemma {:induction false} NextDiffers(r: nat, c: char, d: char)
    requires SameClass(c, d) && c != d
    ensures Next(r, c) != Next(r, d)
  {
    if IsDigit(c) {
      CloseDiffers(r * 10, Digit(c), Digit(d));
    } else {
      CloseDiffers(r * 100, LetterValue(c), LetterValue(d));
    }
  }

  lemma CloseDiffers(n: int, a: int, b: int)
    requires a != b && -97 < a - b < 97
    ensures (n + a) % 97 != (n + b) % 97
  {
  }

  /** Different remainders stay different where the rest agrees. */
  lemma {:induction false} RemaindersStayDifferent(a: Text, b: Text, i: nat, n: nat)
    requires |a| == |b| && i <= n <= |a| && Coded(a) && Coded(b) && forall k :: i <= k < n ==> a[k] == b[k]
    requires Remainder(a, i) != Remainder(b, i)
    ensures Remainder(a, n) != Remainder(b, n)
    decreases n - i
  {
    if i < n {
      RemaindersStayDifferent(a, b, i, n - 1);
      if Remainder(a, n) == Remainder(b, n) { NextInjective(Remainder(a, n - 1), Remainder(b, n - 1), a[n - 1]); }
    }
  }

  lemma {:induction false} SameRemainder(a: Text, b: Text, n: nat)
    requires n <= |a| && n <= |b| && Coded(a) && Coded(b) && forall k :: 0 <= k < n ==> a[k] == b[k]
    ensures Remainder(a, n) == Remainder(b, n)
  {
    if n > 0 { SameRemainder(a, b, n - 1); }
  }

  predicate SameClass(c: char, d: char) {
    (IsDigit(c) && IsDigit(d)) || (IsUpper(c) && IsUpper(d))
  }

  /** Two coded texts that differ in one character of the same class leave
      different remainders. */
  lemma {:induction false} OneChangeDiffers(a: Text, i: nat, c: char)
    requires i < |a| && Coded(a) && SameClass(a[i], c) && a[i] != c
    ensures Coded(a[i := c]) && Remainder(a[i := c], |a|) != Remainder(a, |a|)
  {
    var b := a[i := c];
    SameRemainder(a, b, i);
    NextDiffers(Remainder(a, i), a[i], c);
    RemaindersStayDifferent(a, b, i + 1, |a|);
  }

  /** Where a change to the value shows in the compact text. */
  lemma {:induction false} CompactChange(value: Text, n: nat, i: nat, c: char)
    requires i < n <= |value| && value[i] != ' ' && c != ' '
    ensures var k := |Compact(value, i)|;
            k < |Compact(value, n)| && Compact(value, n)[k] == value[i]
            && Compact(value[i := c], n) == Compact(value, n)[k := c]
  {
    CompactSame(value, value[i := c], i);
    if i < n - 1 { CompactChange(value, n - 1, i, c); }
  }

  lemma {:induction false} CompactSame(a: Text, b: Text, n: nat)
    requires n <= |a| && n <= |b| && forall k :: 0 <= k < n ==> a[k] == b[k]
    ensures Compact(a, n) == Compact(b, n)
  {
    if n > 0 { CompactSame(a, b, n - 1); }
  }

  lemma {:induction false} RotatedChange(compact: Text, k: nat, c: char)
    requires |compact| >= 4 && k < |compact|
    ensures var at := if k >= 4 then k - 4 else k + |compact| - 4;
            Rotated(compact)[at] == compact[k] && Rotated(compact[k := c]) == Rotated(compact)[at := c]
  {
  }

  /** Any single digit-for-digit or letter-for-letter change is detected. */
  lemma {:induction false} IbanDetectsChange(value: Text, i: nat, c: char)
    requires IsIban(value) && i < |value| && SameClass(value[i], c) && value[i] != c
    ensures !IsIban(value[i := c])
  {
    var compact, k := Compact(value, |value|), |Compact(value, i)|;
    CompactChange(value, |value|, i, c);
    RotatedChange(compact, k, c);
    var text, at := Rotated(compact), if k >= 4 then k - 4 else k + |compact| - 4;
    OneChangeDiffers(text, at, c);
    assert text[..|text|] == text && text[at := c][..|text|] == text[at := c];
    RemainderOfNumber(text, |text|);
    RemainderOfNumber(text[at := c], |text|);
  }
}
