/**
 * The amount gate at a mint's precision. Models packages/sdp-kamino/src/amounts.ts:
 * an amount is accepted as an exact u64 count of base units, and the caller is handed
 * back the one canonical spelling of that count.
 */
module MintAmount {
  import opened Wrappers
  import opened Text
  import opened Sequences
  import opened DecimalAmount

  const MAX_U64: nat := 0xFFFF_FFFF_FFFF_FFFF

  /** A mint whose scale is larger is refused. */
  const MAX_MINT_DECIMALS: nat := 18

  /** Drop the zeroes after the last non-zero place, and a point left with nothing behind it. */
  function TrimInsignificantFractionalZeroes(value: string): string {
    var dot := DotIndex(value);
    if dot == |value| then value else Join(value[..dot], StripTrailingZeros(value[dot + 1..]))
  }

  method TrimFractionalZeroes(value: string) returns (r: string)
    ensures r == TrimInsignificantFractionalZeroes(value)
  {
    var dot := DotIndex(value);
    if dot == |value| { return value; }
    var whole := value[..dot];
    var fractionEnd := |value|;
    while fractionEnd > dot + 1 && value[fractionEnd - 1] == '0'
      invariant dot + 1 <= fractionEnd <= |value|
      invariant forall i :: fractionEnd <= i < |value| ==> value[i] == '0'
    {
      fractionEnd := fractionEnd - 1;
    }
    StripsTo(value[dot + 1..], fractionEnd - dot - 1);
    AroundTheDot(value, dot, fractionEnd);
    return if fractionEnd == dot + 1 then whole else value[..fractionEnd];
  }

  lemma AroundTheDot(value: string, dot: nat, end: nat)
    requires dot < end <= |value| && value[dot] == '.'
    ensures value[..end] == value[..dot] + "." + value[dot + 1..][..end - dot - 1]
  {
  }

  function AcceptAtMintScale(value: string, decimals: nat): Result<string, AmountError> {
    var normalized := Trim(value);
    if !IsDecimal(normalized) then Failure(InvalidAmount)
    else
      var canonical := TrimInsignificantFractionalZeroes(normalized);
      if DecimalScale(canonical) > decimals then Failure(TooPrecise)
      else
        var baseUnits := ParseDecimalAmount(canonical, decimals);
        if baseUnits.Failure? then Failure(baseUnits.error)
        else if baseUnits.value > MAX_U64 then Failure(OutOfRange)
        else FormatDecimalAmount(baseUnits.value, decimals)
  }

  predicate IsZeroAmount(canonical: string) {
    canonical == "0"
  }

  /** The one family of decimals refused although it denotes zero: ".0", ".00", and so on. */
  predicate IsBareZeroFraction(s: string) {
    s != "" && s[0] == '.' && forall i :: 1 <= i < |s| ==> s[i] == '0'
  }

  /** The decimal s denotes n / 10^decimals for some n that fits in a u64. */
  ghost predicate FitsMint(s: string, decimals: nat)
    requires IsDecimal(s)
  {
    exists n: nat :: n <= MAX_U64 && Denotes(s, n, decimals)
  }

  lemma TrimmedShape(s: string)
    requires IsDecimal(s) && !IsBareZeroFraction(s)
    ensures var t := TrimInsignificantFractionalZeroes(s);
            && IsDecimal(t)
            && WholePart(t) == WholePart(s)
            && FractionPart(t) == StripTrailingZeros(FractionPart(s))
  {
    var whole, fraction := WholePart(s), FractionPart(s);
    var kept := StripTrailingZeros(fraction);
    Parts(s);
    if s != whole {
      Stripped(fraction);
      assert s[|whole| + 1..] == fraction;
      assert s == whole + "." + (kept + Repeat('0', |fraction| - |kept|));
      assert AllDigits(kept) by { assert forall i :: 0 <= i < |kept| ==> kept[i] == fraction[i]; }
      SplitAt(whole, kept);
    }
  }

  lemma TrimmedParts(s: string)
    requires IsDecimal(s) && !IsBareZeroFraction(s)
    ensures var t := TrimInsignificantFractionalZeroes(s);
            && IsDecimal(t) && SameValue(s, t)
            && (FractionPart(t) != "" ==> FractionPart(t)[|FractionPart(t)| - 1] != '0')
  {
    TrimmedShape(s);
    Stripped(FractionPart(s));
    StrippedSameValue(s, TrimInsignificantFractionalZeroes(s));
  }

  lemma {:induction false} StrippedSameValue(s: string, t: string)
    requires IsDecimal(s) && IsDecimal(t) && WholePart(t) == WholePart(s) && |FractionPart(t)| <= |FractionPart(s)|
    requires FractionPart(s) == FractionPart(t) + Repeat('0', |FractionPart(s)| - |FractionPart(t)|)
    ensures SameValue(s, t)
  {
    var kept, dropped := |FractionPart(t)|, |FractionPart(s)| - |FractionPart(t)|;
    Parts(s);
    Parts(t);
    Associate(WholePart(t), FractionPart(t), Repeat('0', dropped));
    PadRight(WholePart(t) + FractionPart(t), dropped);
    ScaleTwice(Numerator(t), kept, |FractionPart(s)|);
  }

  lemma BareZeroTrimsToNothing(s: string)
    requires IsBareZeroFraction(s)
    ensures TrimInsignificantFractionalZeroes(s) == ""
  {
    StripsTo(s[1..], 0);
  }

  lemma DenotesTransfers(s: string, t: string, n: nat, decimals: nat)
    requires IsDecimal(s) && IsDecimal(t) && SameValue(s, t)
    ensures Denotes(s, n, decimals) <==> Denotes(t, n, decimals)
  {
    CrossMultiply(Numerator(s), Pow10(|FractionPart(s)|), Numerator(t), Pow10(|FractionPart(t)|), n, Pow10(decimals));
  }

  lemma CrossMultiply(a: nat, p: nat, b: nat, q: nat, n: nat, d: nat)
    requires p > 0 && q > 0 && a * q == b * p
    ensures a * d == n * p <==> b * d == n * q
  {
    Commute(a, d, q);
    Commute(b, d, p);
    Commute(n, p, q);
    Commute(n, q, p);
    assert (a * q) * d == (b * p) * d;
    Commute(a, q, d);
    Commute(b, p, d);
    assert (a * d) * q == (b * d) * p;
    assert (n * p) * q == (n * q) * p;
    if a * d == n * p { Cancel(b * d, n * q, p); }
    if b * d == n * q { Cancel(a * d, n * p, q); }
  }

  lemma Commute(x: int, y: int, z: int)
    ensures (x * y) * z == (x * z) * y
  {
  }

  /** A decimal whose last fractional digit is not zero needs every one of its places. */
  lemma NeedsItsScale(t: string, n: nat, decimals: nat)
    requires IsDecimal(t) && Denotes(t, n, decimals)
    requires FractionPart(t) != "" ==> FractionPart(t)[|FractionPart(t)| - 1] != '0'
    ensures |FractionPart(t)| <= decimals
  {
    var scale := |FractionPart(t)|;
    if scale > decimals {
      ScaleTwice(n, decimals, scale);
      Cancel(Numerator(t), n * Pow10(scale - decimals), Pow10(decimals));
      EndsInZero(t, n, scale - decimals);
    }
  }

  lemma {:induction false} EndsInZero(t: string, n: nat, k: nat)
    requires IsDecimal(t) && FractionPart(t) != "" && k > 0
    requires Numerator(t) == n * Pow10(k)
    ensures FractionPart(t)[|FractionPart(t)| - 1] == '0'
  {
    Parts(t);
    var digits := WholePart(t) + FractionPart(t);
    var last := digits[|digits| - 1];
    assert last == FractionPart(t)[|FractionPart(t)| - 1];
    MulAssoc(n, 10, Pow10(k - 1));
    Commute(n, 10, Pow10(k - 1));
    LastDigit(NatOf(digits[..|digits| - 1]), last as int - '0' as int, n * Pow10(k - 1));
  }

  lemma LastDigit(front: nat, digit: nat, tens: nat)
    requires digit < 10 && 10 * front + digit == 10 * tens
    ensures digit == 0
  {
  }

  lemma DenotesUnique(s: string, m: nat, n: nat, decimals: nat)
    requires IsDecimal(s) && Denotes(s, m, decimals) && Denotes(s, n, decimals)
    ensures m == n
  {
    Cancel(m, n, Pow10(|FractionPart(s)|));
  }

  /** If s denotes n / 10^decimals, the gate answers on n alone. */
  lemma AcceptsDenoted(value: string, n: nat, decimals: nat)
    requires IsDecimal(Trim(value)) && !IsBareZeroFraction(Trim(value)) && Denotes(Trim(value), n, decimals)
    ensures AcceptAtMintScale(value, decimals) ==
            if n <= MAX_U64 then Success(FormatNonNegative(n, decimals)) else Failure(OutOfRange)
  {
    var s := Trim(value);
    var t := TrimInsignificantFractionalZeroes(s);
    TrimmedParts(s);
    DenotesTransfers(s, t, n, decimals);
    NeedsItsScale(t, n, decimals);
    DecimalTrim(t);
    ParseExact(t, decimals);
    DenotesUnique(t, ParseDecimalAmount(t, decimals).value, n, decimals);
  }

  /**
   * The gate accepts exactly the decimals, other than the bare zero fractions, whose value
   * is a whole number of base units that fits in a u64; and it returns that same value.
   */
  lemma AcceptsExactlyRepresentable(value: string, decimals: nat)
    ensures AcceptAtMintScale(value, decimals).Success? <==>
            && IsDecimal(Trim(value))
            && !IsBareZeroFraction(Trim(value))
            && FitsMint(Trim(value), decimals)
  {
    var s := Trim(value);
    if IsDecimal(s) && IsBareZeroFraction(s) {
      BareZeroTrimsToNothing(s);
    } else if IsDecimal(s) {
      var t := TrimInsignificantFractionalZeroes(s);
      TrimmedParts(s);
      DecimalTrim(t);
      ParseExact(t, decimals);
      if AcceptAtMintScale(value, decimals).Success? {
        var n := ParseDecimalAmount(t, decimals).value;
        DenotesTransfers(s, t, n, decimals);
        assert FitsMint(s, decimals);
      }
      if FitsMint(s, decimals) {
        var n: nat :| n <= MAX_U64 && Denotes(s, n, decimals);
        AcceptsDenoted(value, n, decimals);
      }
    }
  }

  /**
   * What an accepted amount is: a canonical spelling r of the same value, which parses to a
   * base-unit count n in u64 range; r is "0" exactly when the value is zero.
   */
  lemma AcceptedAmount(value: string, decimals: nat) returns (n: nat)
    requires AcceptAtMintScale(value, decimals).Success?
    ensures var r := AcceptAtMintScale(value, decimals).value;
            && n <= MAX_U64
            && IsDecimal(Trim(value)) && Denotes(Trim(value), n, decimals)
            && IsDecimal(r) && Denotes(r, n, decimals)
            && r == FormatNonNegative(n, decimals)
            && ParseDecimalAmount(r, decimals) == Success(n)
            && (IsZeroAmount(r) <==> n == 0)
  {
    AcceptsExactlyRepresentable(value, decimals);
    n :| n <= MAX_U64 && Denotes(Trim(value), n, decimals);
    AcceptsDenoted(value, n, decimals);
    FormatShape(n, decimals);
    ParseInvertsFormat(n, decimals);
    FormatZero(decimals);
    ParseInvertsFormat(0, decimals);
  }

  lemma FormatZero(decimals: nat)
    ensures FormatNonNegative(0, decimals) == "0"
  {
    var digits := PaddedDigits(0, decimals);
    assert digits == Repeat('0', decimals + 1);
    StripsTo(digits[1..], 0);
    assert digits[..1] == "0";
  }

  /** Equal values have one accepted spelling, and accepting a spelling again changes nothing. */
  lemma AcceptedIsCanonical(value: string, other: string, decimals: nat)
    requires AcceptAtMintScale(value, decimals).Success?
    requires AcceptAtMintScale(other, decimals).Success?
    ensures SameValueTrimmed(value, other) <==>
            AcceptAtMintScale(value, decimals) == AcceptAtMintScale(other, decimals)
    ensures AcceptAtMintScale(AcceptAtMintScale(value, decimals).value, decimals)
            == AcceptAtMintScale(value, decimals)
  {
    var m := AcceptedAmount(value, decimals);
    var n := AcceptedAmount(other, decimals);
    SameValueDenotes(Trim(value), Trim(other), m, n, decimals);
    var r := AcceptAtMintScale(value, decimals).value;
    DecimalTrim(r);
    FormatShape(m, decimals);
    AcceptsDenoted(r, m, decimals);
  }

  ghost predicate SameValueTrimmed(value: string, other: string) {
    IsDecimal(Trim(value)) && IsDecimal(Trim(other)) && SameValue(Trim(value), Trim(other))
  }

  lemma SameValueDenotes(s: string, t: string, m: nat, n: nat, decimals: nat)
    requires IsDecimal(s) && IsDecimal(t) && Denotes(s, m, decimals) && Denotes(t, n, decimals)
    ensures SameValue(s, t) <==> m == n
  {
    if SameValue(s, t) {
      DenotesTransfers(s, t, m, decimals);
      DenotesUnique(t, m, n, decimals);
    }
    if m == n {
      CrossMultiply(Numerator(s), Pow10(|FractionPart(s)|), n, Pow10(decimals), Numerator(t), Pow10(|FractionPart(t)|));
    }
  }

  lemma NothingIsRefused(decimals: nat)
    ensures DecimalScale("") == 0 && ParseDecimalAmount("", decimals) == Failure(InvalidAmount)
  {
    assert Trim("") == "";
  }

  lemma BareZeroFails(s: string, decimals: nat)
    requires IsDecimal(s) && IsBareZeroFraction(s)
    ensures AcceptAtMintScale(s, decimals) == Failure(InvalidAmount)
  {
    DecimalTrim(s);
    BareZeroTrimsToNothing(s);
    NothingIsRefused(decimals);
  }

  lemma ZeroFraction(zeroes: string)
    requires zeroes != "" && forall i :: 0 <= i < |zeroes| ==> zeroes[i] == '0'
    ensures IsDecimal("." + zeroes) && Numerator("." + zeroes) == 0
  {
    SplitAt("", zeroes);
    assert Join("", zeroes) == "." + zeroes;
    assert "" + zeroes == Repeat('0', |zeroes|);
    NatOfZeros(|zeroes|);
  }

  /** Every bare zero fraction denotes zero, which fits every mint, and yet is refused. */
  lemma BareZeroIsRefused(zeroes: string, decimals: nat)
    requires zeroes != "" && forall i :: 0 <= i < |zeroes| ==> zeroes[i] == '0'
    ensures IsDecimal("." + zeroes) && FitsMint("." + zeroes, decimals)
    ensures AcceptAtMintScale("." + zeroes, decimals) == Failure(InvalidAmount)
  {
    ZeroFraction(zeroes);
    assert Denotes("." + zeroes, 0, decimals);
    BareZeroFails("." + zeroes, decimals);
  }
}
