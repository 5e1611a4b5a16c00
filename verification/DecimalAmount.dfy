/**
 * Fixed-point amounts: decimal strings against integer base units.
 * Models packages/sdp-solana/src/amount.ts. A string denotes the exact rational
 * Numerator / 10^Scale, so no rounding enters any statement below.
 */
module DecimalAmount {
  import opened Sequences
  import opened Text
  import opened Wrappers

  datatype AmountError = InvalidAmount | InvalidDecimals | TooPrecise | OutOfRange

  predicate IsDigit(c: char) { '0' <= c <= '9' }

  predicate AllDigits(s: string) { forall i :: 0 <= i < |s| ==> IsDigit(s[i]) }

  /** Digits with at most one dot among them, and at least one digit. */
  predicate IsDecimal(s: string) {
    && (exists i :: 0 <= i < |s| && IsDigit(s[i]))
    && (forall i :: 0 <= i < |s| ==> IsDigit(s[i]) || s[i] == '.')
    && (forall i, j :: 0 <= i < j < |s| ==> !(s[i] == '.' && s[j] == '.'))
  }

  method IsDecimalString(value: string) returns (ok: bool)
    ensures ok == IsDecimal(value)
  {
    if value == "" { return false; }
    var hasDigit, seenDot := false, false;
    for k := 0 to |value|
      invariant hasDigit <==> exists i :: 0 <= i < k && IsDigit(value[i])
      invariant seenDot <==> exists i :: 0 <= i < k && value[i] == '.'
      invariant forall i :: 0 <= i < k ==> IsDigit(value[i]) || value[i] == '.'
      invariant forall i, j :: 0 <= i < j < k ==> !(value[i] == '.' && value[j] == '.')
    {
      if value[k] == '.' {
        if seenDot { return false; }
        seenDot := true;
        continue;
      }
      if !IsDigit(value[k]) { return false; }
      hasDigit := true;
    }
    return hasDigit;
  }

  // ---------------------------------------------------------------- numerals

  function Pow10(k: nat): (p: nat)
    ensures p > 0
  {
    if k == 0 then 1 else 10 * Pow10(k - 1)
  }

  lemma {:induction false} PowAdd(a: nat, b: nat)
    ensures Pow10(a + b) == Pow10(a) * Pow10(b)
  {
    if a > 0 {
      PowAdd(a - 1, b);
      MulAssoc(10, Pow10(a - 1), Pow10(b));
    }
  }

  lemma Cancel(a: int, b: int, p: nat)
    requires p > 0 && a * p == b * p
    ensures a == b
  {
    assert (a - b) * p == a * p - b * p;
    ZeroFactor(a - b, p);
  }

  lemma ZeroFactor(x: int, p: nat)
    requires p > 0 && x * p == 0
    ensures x == 0
  {
  }

  lemma MulAssoc(a: int, b: int, c: int)
    ensures a * (b * c) == (a * b) * c
  {
  }

  /** Scaling by 10^(high - low) and then by 10^low scales by 10^high. */
  lemma ScaleTwice(n: nat, low: nat, high: nat)
    requires low <= high
    ensures n * Pow10(high) == (n * Pow10(high - low)) * Pow10(low)
  {
    PowAdd(high - low, low);
    MulAssoc(n, Pow10(high - low), Pow10(low));
  }

  /** The number a digit string spells, most significant digit first. */
  function NatOf(s: string): nat
    requires AllDigits(s)
  {
    if s == "" then 0 else 10 * NatOf(s[..|s| - 1]) + (s[|s| - 1] as int - '0' as int)
  }

  function DigitChar(d: nat): (c: char)
    requires d < 10
    ensures IsDigit(c) && c as int - '0' as int == d
  {
    ('0' as int + d) as char
  }

  /** `BigInt.prototype.toString` in base ten. */
  function ToString(n: nat): (s: string)
    ensures |s| > 0 && AllDigits(s)
  {
    if n < 10 then [DigitChar(n)] else ToString(n / 10) + [DigitChar(n % 10)]
  }

  lemma {:induction false} NatOfToString(n: nat)
    ensures NatOf(ToString(n)) == n
  {
    if n >= 10 {
      NatOfToString(n / 10);
      assert ToString(n)[..|ToString(n)| - 1] == ToString(n / 10);
    } else {
      assert ToString(n)[..0] == "";
    }
  }

  lemma {:induction false} NatOfConcat(a: string, b: string)
    requires AllDigits(a) && AllDigits(b)
    ensures AllDigits(a + b)
    ensures NatOf(a + b) == NatOf(a) * Pow10(|b|) + NatOf(b)
  {
    if b == "" {
      assert a + b == a;
    } else {
      var front := b[..|b| - 1];
      NatOfConcat(a, front);
      assert (a + b)[..|a + b| - 1] == a + front;
      AppendDigit(NatOf(a), Pow10(|front|), NatOf(front), b[|b| - 1] as int - '0' as int);
    }
  }

  lemma AppendDigit(x: int, p: int, y: int, d: int)
    ensures 10 * (x * p + y) + d == x * (10 * p) + (10 * y + d)
  {
  }

  lemma {:induction false} NatOfZeros(k: nat)
    ensures AllDigits(Repeat('0', k)) && NatOf(Repeat('0', k)) == 0
  {
    if k > 0 {
      NatOfZeros(k - 1);
      assert Repeat('0', k)[..k - 1] == Repeat('0', k - 1);
    }
  }

  /** Padding on the right with k zeroes multiplies by 10^k. */
  lemma {:induction false} PadRight(s: string, k: nat)
    requires AllDigits(s)
    ensures AllDigits(s + Repeat('0', k)) && NatOf(s + Repeat('0', k)) == NatOf(s) * Pow10(k)
  {
    NatOfZeros(k);
    NatOfConcat(s, Repeat('0', k));
  }

  lemma {:induction false} PadLeft(k: nat, s: string)
    requires AllDigits(s)
    ensures AllDigits(Repeat('0', k) + s) && NatOf(Repeat('0', k) + s) == NatOf(s)
  {
    NatOfZeros(k);
    NatOfConcat(Repeat('0', k), s);
  }

  // ------------------------------------------------------- parts of a decimal

  /** Index of the first dot, or the length when there is none. */
  function DotIndex(s: string): (i: nat)
    ensures i <= |s| && (i < |s| ==> s[i] == '.')
    ensures forall j :: 0 <= j < i ==> s[j] != '.'
  {
    if s == "" || s[0] == '.' then 0 else 1 + DotIndex(s[1..])
  }

  /** The first component of `value.split(".")`. */
  function WholePart(s: string): string {
    s[..DotIndex(s)]
  }

  /** The second component of `value.split(".")`, empty when there is no dot. */
  function FractionPart(s: string): string {
    if DotIndex(s) == |s| then "" else WholePart(s[DotIndex(s) + 1..])
  }

  function DecimalScale(value: string): nat {
    |FractionPart(Trim(value))|
  }

  lemma Parts(s: string)
    requires IsDecimal(s)
    ensures AllDigits(WholePart(s)) && AllDigits(FractionPart(s))
    ensures s == WholePart(s) || s == WholePart(s) + "." + FractionPart(s)
    ensures s == WholePart(s) ==> FractionPart(s) == ""
  {
    var d := DotIndex(s);
    assert AllDigits(s[..d]);
    if d < |s| {
      AfterTheDot(s, d);
      assert s == s[..d] + "." + s[d + 1..];
    }
  }

  lemma {:induction false} NoDot(s: string)
    requires AllDigits(s)
    ensures DotIndex(s) == |s|
  {
    assert DotIndex(s) < |s| ==> IsDigit(s[DotIndex(s)]);
  }

  lemma AfterTheDot(s: string, d: nat)
    requires IsDecimal(s) && d < |s| && s[d] == '.'
    ensures AllDigits(s[d + 1..]) && WholePart(s[d + 1..]) == s[d + 1..]
  {
    var rest := s[d + 1..];
    forall i | 0 <= i < |rest| ensures IsDigit(rest[i]) {
      assert rest[i] == s[d + 1 + i];
    }
    NoDot(rest);
  }

  /** A decimal begins and ends with a digit or a dot, so trimming leaves it alone. */
  lemma DecimalTrim(s: string)
    requires IsDecimal(s)
    ensures Trim(s) == s
  {
    assert !IsSpace(s[0]) && !IsSpace(s[|s| - 1]);
    TrimIdle(s);
  }

  /** A decimal denotes Numerator(s) / 10^|FractionPart(s)|. */
  ghost function Numerator(s: string): nat
    requires IsDecimal(s)
  {
    Parts(s);
    NatOf(WholePart(s) + FractionPart(s))
  }

  /** Two decimals denote the same rational number. */
  ghost predicate SameValue(s: string, t: string)
    requires IsDecimal(s) && IsDecimal(t)
  {
    Numerator(s) * Pow10(|FractionPart(t)|) == Numerator(t) * Pow10(|FractionPart(s)|)
  }

  /** The decimal s denotes n / 10^decimals. */
  ghost predicate Denotes(s: string, n: nat, decimals: nat)
    requires IsDecimal(s)
  {
    Numerator(s) * Pow10(decimals) == n * Pow10(|FractionPart(s)|)
  }

  // -------------------------------------------------------------------- parse

  function ParseDecimalAmount(value: string, decimals: int): Result<nat, AmountError> {
    var s := Trim(value);
    if !IsDecimal(s) then Failure(InvalidAmount)
    else if decimals < 0 then Failure(InvalidDecimals)
    else if |FractionPart(s)| > decimals then Failure(TooPrecise)
    else
      Parts(s);
      PadRight(FractionPart(s), decimals - |FractionPart(s)|);
      Success(NatOf(WholeOrZero(s) + FractionPart(s) + Repeat('0', decimals - |FractionPart(s)|)))
  }

  function WholeOrZero(s: string): string {
    if WholePart(s) == "" then "0" else WholePart(s)
  }

  lemma WholeOrZeroValue(s: string)
    requires IsDecimal(s)
    ensures AllDigits(WholeOrZero(s) + FractionPart(s))
    ensures NatOf(WholeOrZero(s) + FractionPart(s)) == Numerator(s)
  {
    Parts(s);
    if WholePart(s) == "" {
      assert Repeat('0', 1) == "0";
      PadLeft(1, FractionPart(s));
      assert WholePart(s) + FractionPart(s) == FractionPart(s);
    }
  }

  /** A parse that succeeds returns the one integer n with value == n / 10^decimals. */
  lemma {:induction false} ParseExact(value: string, decimals: nat)
    requires IsDecimal(Trim(value))
    ensures var s := Trim(value);
            ParseDecimalAmount(value, decimals) ==
            if |FractionPart(s)| <= decimals
            then Success(Numerator(s) * Pow10(decimals - |FractionPart(s)|))
            else Failure(TooPrecise)
    ensures ParseDecimalAmount(value, decimals).Success?
            ==> Denotes(Trim(value), ParseDecimalAmount(value, decimals).value, decimals)
  {
    var s := Trim(value);
    var f := |FractionPart(s)|;
    if f <= decimals {
      WholeOrZeroValue(s);
      PadRight(WholeOrZero(s) + FractionPart(s), decimals - f);
      ScaleTwice(Numerator(s), f, decimals);
    }
  }

  /** The parser as written: strip leading zeroes by index, then convert what is left. */
  method ParseDecimal(value: string, decimals: int) returns (r: Result<nat, AmountError>)
    ensures r == ParseDecimalAmount(value, decimals)
  {
    var normalized := Trim(value);
    var ok := IsDecimalString(normalized);
    if !ok { return Failure(InvalidAmount); }
    if decimals < 0 { return Failure(InvalidDecimals); }
    var whole, fraction := WholeOrZero(normalized), FractionPart(normalized);
    if |fraction| > decimals { return Failure(TooPrecise); }
    Parts(normalized);
    PadRight(fraction, decimals - |fraction|);
    var combined := whole + fraction + Repeat('0', decimals - |fraction|);
    assert AllDigits(combined);
    var sanitized := WithoutLeadingZeros(combined);
    return Success(NatOf(sanitized));
  }

  method WithoutLeadingZeros(combined: string) returns (sanitized: string)
    requires AllDigits(combined)
    ensures AllDigits(sanitized) && NatOf(sanitized) == NatOf(combined)
  {
    var startIndex := 0;
    while startIndex < |combined| && combined[startIndex] == '0'
      invariant startIndex <= |combined|
      invariant forall i :: 0 <= i < startIndex ==> combined[i] == '0'
    {
      startIndex := startIndex + 1;
    }
    DropZeros(combined, startIndex);
    return if startIndex >= |combined| then "0" else combined[startIndex..];
  }

  lemma {:induction false} DropZeros(s: string, k: nat)
    requires AllDigits(s) && k <= |s| && forall i :: 0 <= i < k ==> s[i] == '0'
    ensures AllDigits(s[k..]) && NatOf(s[k..]) == NatOf(s)
    ensures NatOf("0") == 0
  {
    PadLeft(k, s[k..]);
    assert s == Repeat('0', k) + s[k..];
    assert Repeat('0', 1) == "0";
    NatOfZeros(1);
  }

  // ------------------------------------------------------------------- format

  function StripTrailingZeros(s: string): (t: string)
    ensures |t| <= |s|
  {
    if s != "" && s[|s| - 1] == '0' then StripTrailingZeros(s[..|s| - 1]) else s
  }

  lemma {:induction false} Stripped(s: string)
    ensures var t := StripTrailingZeros(s);
            s == t + Repeat('0', |s| - |t|) && (t != "" ==> t[|t| - 1] != '0')
  {
    if s != "" && s[|s| - 1] == '0' {
      Stripped(s[..|s| - 1]);
      assert s == s[..|s| - 1] + "0";
    }
  }

  lemma {:induction false} StripsTo(s: string, k: nat)
    requires k <= |s| && forall i :: k <= i < |s| ==> s[i] == '0'
    requires k == 0 || s[k - 1] != '0'
    ensures StripTrailingZeros(s) == s[..k]
  {
    if k < |s| {
      StripsTo(s[..|s| - 1], k);
    }
  }

  /** The digits of n, padded so that at least one precedes the point. */
  function PaddedDigits(n: nat, decimals: nat): (s: string)
    ensures |s| > decimals
  {
    var digits := ToString(n);
    if |digits| <= decimals then Repeat('0', decimals + 1 - |digits|) + digits else digits
  }

  lemma PaddingKeepsValue(digits: string, k: nat)
    requires AllDigits(digits)
    ensures var padded := if |digits| <= k then Repeat('0', k + 1 - |digits|) + digits else digits;
            AllDigits(padded) && NatOf(padded) == NatOf(digits)
  {
    if |digits| <= k {
      PadLeft(k + 1 - |digits|, digits);
    }
  }

  lemma {:induction false} PaddedValue(n: nat, decimals: nat)
    ensures AllDigits(PaddedDigits(n, decimals)) && NatOf(PaddedDigits(n, decimals)) == n
  {
    NatOfToString(n);
    PaddingKeepsValue(ToString(n), decimals);
  }

  function PrintedWhole(n: nat, decimals: nat): string {
    var digits := PaddedDigits(n, decimals);
    digits[..|digits| - decimals]
  }

  function PrintedFraction(n: nat, decimals: nat): string {
    var digits := PaddedDigits(n, decimals);
    StripTrailingZeros(digits[|digits| - decimals..])
  }

  function FormatNonNegative(n: nat, decimals: nat): string {
    Join(PrintedWhole(n, decimals), PrintedFraction(n, decimals))
  }

  function Join(whole: string, fraction: string): string {
    if fraction == "" then whole else whole + "." + fraction
  }

  function FormatDecimalAmount(value: int, decimals: int): Result<string, AmountError> {
    if decimals < 0 then Failure(InvalidDecimals)
    else if value < 0 then Success("-" + FormatNonNegative(-value, decimals))
    else Success(FormatNonNegative(value, decimals))
  }

  /** The printer as written: slice at the point, then walk the fraction back over its zeroes. */
  method FormatDecimal(value: int, decimals: int) returns (r: Result<string, AmountError>)
    ensures r == FormatDecimalAmount(value, decimals)
  {
    if decimals < 0 { return Failure(InvalidDecimals); }
    var negative := value < 0;
    var absolute: nat := if negative then -value else value;
    var printed := FormatAbsolute(absolute, decimals);
    return Success(if negative then "-" + printed else printed);
  }

  method FormatAbsolute(absolute: nat, decimals: nat) returns (printed: string)
    ensures printed == FormatNonNegative(absolute, decimals)
  {
    if decimals == 0 {
      WholeNumber(absolute);
      return ToString(absolute);
    }
    var digits := PadDigits(absolute, decimals);
    var whole := digits[..|digits| - decimals];
    var fraction := WithoutTrailingZeros(digits[|digits| - decimals..]);
    return if fraction != "" then whole + "." + fraction else whole;
  }

  method PadDigits(absolute: nat, decimals: nat) returns (digits: string)
    ensures digits == PaddedDigits(absolute, decimals)
  {
    digits := ToString(absolute);
    if |digits| <= decimals {
      digits := Repeat('0', decimals + 1 - |digits|) + digits;
    }
  }

  lemma {:induction false} WholeNumber(n: nat)
    ensures FormatNonNegative(n, 0) == ToString(n)
  {
    var digits := ToString(n);
    assert digits[..|digits|] == digits && digits[|digits|..] == "";
  }

  method WithoutTrailingZeros(fraction: string) returns (r: string)
    ensures r == StripTrailingZeros(fraction)
  {
    var trimIndex := |fraction|;
    while trimIndex > 0 && fraction[trimIndex - 1] == '0'
      invariant 0 <= trimIndex <= |fraction|
      invariant forall i :: trimIndex <= i < |fraction| ==> fraction[i] == '0'
    {
      trimIndex := trimIndex - 1;
    }
    StripsTo(fraction, trimIndex);
    return fraction[..trimIndex];
  }

  lemma {:induction false} PrintedValue(n: nat, decimals: nat)
    ensures var whole, fraction := PrintedWhole(n, decimals), PrintedFraction(n, decimals);
            && whole != "" && AllDigits(whole + fraction) && |fraction| <= decimals
            && NatOf(whole + fraction) * Pow10(decimals - |fraction|) == n
            && (fraction != "" ==> fraction[|fraction| - 1] != '0')
  {
    PaddedValue(n, decimals);
    PrintedDigits(n, decimals);
    var whole, fraction := PrintedWhole(n, decimals), PrintedFraction(n, decimals);
    FrontDigits(whole + fraction, Repeat('0', decimals - |fraction|));
    PadRight(whole + fraction, decimals - |fraction|);
  }

  /** The printed parts are the padded digits without their trailing zeroes. */
  lemma PrintedDigits(n: nat, decimals: nat)
    ensures var whole, fraction := PrintedWhole(n, decimals), PrintedFraction(n, decimals);
            && whole != "" && |fraction| <= decimals
            && PaddedDigits(n, decimals) == whole + fraction + Repeat('0', decimals - |fraction|)
            && (fraction != "" ==> fraction[|fraction| - 1] != '0')
  {
    var digits := PaddedDigits(n, decimals);
    StrippedTail(digits, |digits| - decimals);
  }

  lemma StrippedTail(s: string, k: nat)
    requires k <= |s|
    ensures var kept := StripTrailingZeros(s[k..]);
            && s == s[..k] + kept + Repeat('0', |s| - k - |kept|)
            && (kept != "" ==> kept[|kept| - 1] != '0')
  {
    var kept := StripTrailingZeros(s[k..]);
    Stripped(s[k..]);
    Associate(s[..k], kept, Repeat('0', |s| - k - |kept|));
  }

  lemma FrontDigits(a: string, b: string)
    requires AllDigits(a + b)
    ensures AllDigits(a)
  {
    assert forall i :: 0 <= i < |a| ==> a[i] == (a + b)[i];
  }

  lemma BackDigits(a: string, b: string)
    requires AllDigits(a + b)
    ensures AllDigits(b)
  {
    assert forall i :: 0 <= i < |b| ==> b[i] == (a + b)[|a| + i];
  }

  /** What is printed is a decimal of at most the given scale denoting n / 10^decimals. */
  lemma FormatShape(n: nat, decimals: nat)
    ensures var s := FormatNonNegative(n, decimals);
            && IsDecimal(s) && WholePart(s) != "" && |FractionPart(s)| <= decimals
            && Denotes(s, n, decimals)
            && (FractionPart(s) != "" ==> FractionPart(s)[|FractionPart(s)| - 1] != '0')
  {
    var whole, fraction := PrintedWhole(n, decimals), PrintedFraction(n, decimals);
    PrintedValue(n, decimals);
    FrontDigits(whole, fraction);
    BackDigits(whole, fraction);
    SplitAt(whole, fraction);
    ScaledDenotes(Join(whole, fraction), n, decimals);
  }

  lemma {:induction false} ScaledDenotes(s: string, n: nat, decimals: nat)
    requires IsDecimal(s) && |FractionPart(s)| <= decimals
    requires Numerator(s) * Pow10(decimals - |FractionPart(s)|) == n
    ensures Denotes(s, n, decimals)
  {
    ScaleTwice(Numerator(s), |FractionPart(s)|, decimals);
  }

  /** Where the parts of "whole.fraction" and of a bare "whole" are. */
  lemma SplitAt(whole: string, fraction: string)
    requires AllDigits(whole) && AllDigits(fraction) && whole + fraction != ""
    ensures var s := Join(whole, fraction);
            IsDecimal(s) && WholePart(s) == whole && FractionPart(s) == fraction
  {
    if fraction == "" {
      NoDot(whole);
      assert IsDigit(whole[0]);
    } else {
      DottedIsDecimal(whole, fraction);
      DottedParts(whole, fraction);
    }
  }

  lemma DottedIsDecimal(whole: string, fraction: string)
    requires AllDigits(whole) && AllDigits(fraction) && fraction != ""
    ensures IsDecimal(whole + "." + fraction)
  {
    var s := whole + "." + fraction;
    assert s[|whole| + 1] == fraction[0];
    forall i | 0 <= i < |s| ensures IsDigit(s[i]) || (i == |whole| && s[i] == '.') {
      assert i < |whole| ==> s[i] == whole[i];
      assert i > |whole| ==> s[i] == fraction[i - |whole| - 1];
    }
  }

  lemma DottedParts(whole: string, fraction: string)
    requires AllDigits(whole) && AllDigits(fraction)
    ensures var s := whole + "." + fraction; WholePart(s) == whole && FractionPart(s) == fraction
  {
    var s := whole + "." + fraction;
    assert s[|whole|] == '.';
    assert forall i :: 0 <= i < |whole| ==> s[i] == whole[i];
    assert DotIndex(s) == |whole|;
    assert s[|whole| + 1..] == fraction;
    NoDot(fraction);
  }

  /** The parser inverts the printer on every non-negative amount, and refuses every negative one. */
  lemma ParseInvertsFormat(n: int, decimals: nat)
    ensures var printed := FormatDecimalAmount(n, decimals);
            && printed.Success?
            && ParseDecimalAmount(printed.value, decimals) ==
               if n >= 0 then Success(n) else Failure(InvalidAmount)
  {
    if n >= 0 {
      var s := FormatNonNegative(n, decimals);
      FormatShape(n, decimals);
      DecimalTrim(s);
      ParseExact(s, decimals);
      Cancel(ParseDecimalAmount(s, decimals).value, n, Pow10(|FractionPart(s)|));
    } else {
      var s := "-" + FormatNonNegative(-n, decimals);
      FormatShape(-n, decimals);
      var t := FormatNonNegative(-n, decimals);
      assert s[|s| - 1] == t[|t| - 1];
      TrimIdle(s);
      assert s[0] == '-';
    }
  }

  // ------------------------------------------------------------------ compare

  function CompareDecimalAmounts(left: string, right: string): Result<int, AmountError> {
    var decimals := if DecimalScale(left) >= DecimalScale(right) then DecimalScale(left) else DecimalScale(right);
    var l := ParseDecimalAmount(left, decimals);
    var r := ParseDecimalAmount(right, decimals);
    if l.Failure? then Failure(l.error)
    else if r.Failure? then Failure(r.error)
    else Success(if l.value == r.value then 0 else if l.value < r.value then -1 else 1)
  }

  /** Comparing never fails on decimals and orders them as the rationals they denote. */
  lemma CompareExact(left: string, right: string)
    requires IsDecimal(Trim(left)) && IsDecimal(Trim(right))
    ensures var l, r := Trim(left), Trim(right);
            var a := Numerator(l) * Pow10(|FractionPart(r)|);
            var b := Numerator(r) * Pow10(|FractionPart(l)|);
            CompareDecimalAmounts(left, right) == Success(if a == b then 0 else if a < b then -1 else 1)
  {
    var l, r := Trim(left), Trim(right);
    var fl, fr := |FractionPart(l)|, |FractionPart(r)|;
    var d := if fl >= fr then fl else fr;
    ParseExact(left, d);
    ParseExact(right, d);
    CommonScale(Numerator(l), Numerator(r), fl, fr);
  }

  /** Bringing both to the larger of two scales orders them like cross-multiplying. */
  lemma CommonScale(m: nat, n: nat, fm: nat, fn: nat)
    ensures var d := if fm >= fn then fm else fn;
            var x, y := m * Pow10(d - fm), n * Pow10(d - fn);
            && (x < y <==> m * Pow10(fn) < n * Pow10(fm))
            && (x == y <==> m * Pow10(fn) == n * Pow10(fm))
  {
    var d := if fm >= fn then fm else fn;
    var k := if fm >= fn then fn else fm;
    ScaleTwice(m, k, fn);
    ScaleTwice(n, k, fm);
    ScaleKeepsOrder(m * Pow10(d - fm), n * Pow10(d - fn), Pow10(k));
  }

  lemma ScaleKeepsOrder(x: int, y: int, p: int)
    requires p > 0
    ensures x < y <==> x * p < y * p
    ensures x == y <==> x * p == y * p
  {
    assert y * p - x * p == (y - x) * p;
  }
}
