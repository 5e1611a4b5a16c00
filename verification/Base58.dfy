/**
 * Base58 text of key bytes. Models encodeBase58 of packages/sdp-env-config/src/local-keypair.ts,
 * an in-place conversion between bases, against the number the bytes spell.
 */
module Base58 {
  import opened Arithmetic
  import opened Sequences

  type Byte = b: int | 0 <= b < 256

  /**
   * The alphabet "123456789ABCDEFGHJKLMNPQRSTUVWXYZabcdefghijkmnopqrstuvwxyz" by position: digits
   * without 0, capitals without I and O, small letters without l.
   */
  function Letter(d: nat): char
    requires d < 58
  {
    if d < 9 then ('1' as int + d) as char
    else if d < 17 then ('A' as int + d - 9) as char
    else if d < 22 then ('J' as int + d - 17) as char
    else if d < 33 then ('P' as int + d - 22) as char
    else if d < 44 then ('a' as int + d - 33) as char
    else ('m' as int + d - 44) as char
  }

  // ----------------------------------------------------- numbers and digits

  /** The digits of n in the given base, least significant first; none for zero. */
  function Digits(n: nat, base: nat): seq<nat>
    requires base >= 2
  {
    if n == 0 then [] else [n % base] + Digits(n / base, base)
  }

  lemma {:induction false} DigitsShape(n: nat, base: nat)
    requires base >= 2
    ensures forall i :: 0 <= i < |Digits(n, base)| ==> Digits(n, base)[i] < base
    ensures n > 0 ==> Digits(n, base) != [] && Digits(n, base)[|Digits(n, base)| - 1] != 0
  {
    if n > 0 {
      DigitsShape(n / base, base);
      if n / base == 0 { Split(n, base); }
    }
  }

  /** The number spelled by digits, least significant first. */
  function Value(ds: seq<nat>, base: nat): nat {
    if ds == [] then 0 else ds[0] + base * Value(ds[1..], base)
  }

  lemma Split(n: nat, base: nat)
    requires base >= 2
    ensures n == n % base + base * (n / base)
  {
  }

  /** The lowest digit of a number and the rest of it. */
  lemma LowestDigit(n: nat, base: nat) returns (d: nat, q: nat)
    requires base >= 2 && n > 0
    ensures n == d + base * q && q < n && Digits(n, base) == [d] + Digits(q, base)
  {
    d, q := n % base, n / base;
    Split(n, base);
  }

  lemma {:induction false} ValueOfDigits(n: nat, base: nat)
    requires base >= 2
    ensures Value(Digits(n, base), base) == n
  {
    if n > 0 {
      var d, q := LowestDigit(n, base);
      ValueOfDigits(q, base);
      SpelledBy(n, d, q, Digits(q, base), base);
    }
  }

  lemma {:induction false} SpelledBy(n: nat, d: nat, q: nat, ds: seq<nat>, base: nat)
    requires n == d + base * q && Value(ds, base) == q
    ensures Value([d] + ds, base) == n
  {
    ValueOfCons(d, ds, base);
  }

  lemma {:induction false} ValueOfCons(d: nat, ds: seq<nat>, base: nat)
    ensures Value([d] + ds, base) == d + base * Value(ds, base)
  {
    assert ([d] + ds)[1..] == ds;
  }

  lemma DigitsStep(d: nat, q: nat, base: nat)
    requires base >= 2 && d < base && d + base * q > 0
    ensures Digits(d + base * q, base) == [d] + Digits(q, base)
  {
    DivMod(d, q, base);
  }

  /** Digit strings without a leading zero are the digits of the number they spell. */
  lemma {:induction false} DigitsOfValue(ds: seq<nat>, base: nat)
    requires base >= 2 && forall i :: 0 <= i < |ds| ==> ds[i] < base
    requires ds != [] ==> ds[|ds| - 1] != 0
    ensures Digits(Value(ds, base), base) == ds
  {
    if ds != [] {
      var rest := Value(ds[1..], base);
      DigitsOfValue(ds[1..], base);
      Positive(ds[0], rest, base);
      DigitsStep(ds[0], rest, base);
      assert ds == [ds[0]] + ds[1..];
    }
  }

  lemma Positive(d: nat, q: nat, base: nat)
    requires base >= 2 && (d > 0 || q > 0)
    ensures d + base * q > 0
  {
  }

  /** The number spelled by bytes, most significant first. */
  function BigEndian(bytes: seq<Byte>): nat {
    if bytes == [] then 0 else 256 * BigEndian(bytes[..|bytes| - 1]) + bytes[|bytes| - 1]
  }

  function Reverse<T>(s: seq<T>): (r: seq<T>)
    ensures |r| == |s| && forall i :: 0 <= i < |s| ==> r[i] == s[|s| - 1 - i]
  {
    if s == [] then [] else Reverse(s[1..]) + [s[0]]
  }

  lemma {:induction false} BigEndianIsReversed(bytes: seq<Byte>)
    ensures BigEndian(bytes) == Value(Reverse(bytes), 256)
  {
    if bytes != [] {
      var front := bytes[..|bytes| - 1];
      BigEndianIsReversed(front);
      assert Reverse(bytes)[1..] == Reverse(front);
    }
  }

  // -------------------------------------------------- the one-byte step

  /** Multiply by 256 and add: what one pass over the digits leaves, given the carry into it. */
  function MultiplyAdd(ds: seq<nat>, carry: nat): seq<nat> {
    if ds == [] then Digits(carry, 58)
    else [(ds[0] * 256 + carry) % 58] + MultiplyAdd(ds[1..], (ds[0] * 256 + carry) / 58)
  }

  /** A pass over the digits of n gives the digits of 256 n + carry: no zero is left on top. */
  lemma {:induction false} MultiplyAddDigits(n: nat, carry: nat)
    ensures MultiplyAdd(Digits(n, 58), carry) == Digits(256 * n + carry, 58)
    decreases n
  {
    if n > 0 {
      var low, high := n % 58, n / 58;
      var v := low * 256 + carry;
      MultiplyAddDigits(high, v / 58);
      assert 256 * n + carry == v % 58 + 58 * (256 * high + v / 58);
      DigitsStep(v % 58, 256 * high + v / 58, 58);
      MultiplyAddCons(low, Digits(high, 58), carry);
    }
  }

  /** Whatever digits it starts from, a pass multiplies their number by 256, adds the carry, and leaves digits. */
  lemma {:induction false} MultiplyAddValue(ds: seq<nat>, carry: nat)
    ensures Value(MultiplyAdd(ds, carry), 58) == 256 * Value(ds, 58) + carry
    ensures forall i :: 0 <= i < |MultiplyAdd(ds, carry)| ==> MultiplyAdd(ds, carry)[i] < 58
  {
    if ds == [] {
      ValueOfDigits(carry, 58);
      DigitsShape(carry, 58);
    } else {
      var v := ds[0] * 256 + carry;
      MultiplyAddValue(ds[1..], v / 58);
      ValueOfCons(v % 58, MultiplyAdd(ds[1..], v / 58), 58);
    }
  }

  lemma {:induction false} MultiplyAddCons(d: nat, ds: seq<nat>, carry: nat)
    ensures MultiplyAdd([d] + ds, carry) == [(d * 256 + carry) % 58] + MultiplyAdd(ds, (d * 256 + carry) / 58)
  {
    assert ([d] + ds)[1..] == ds;
  }

  /** Appending a byte to big-endian bytes is one pass over the digits. */
  lemma AppendedByte(bytes: seq<Byte>, k: nat)
    requires k < |bytes|
    ensures MultiplyAdd(Digits(BigEndian(bytes[..k]), 58), bytes[k]) == Digits(BigEndian(bytes[..k + 1]), 58)
  {
    MultiplyAddDigits(BigEndian(bytes[..k]), bytes[k]);
    assert bytes[..k + 1][..k] == bytes[..k];
  }

  // ------------------------------------------------------------ the encoder

  function LeadingZeros(bytes: seq<Byte>): (k: nat)
    ensures k <= |bytes| && (forall i :: 0 <= i < k ==> bytes[i] == 0) && (k < |bytes| ==> bytes[k] != 0)
  {
    if bytes == [] || bytes[0] != 0 then 0 else 1 + LeadingZeros(bytes[1..])
  }

  function Letters(ds: seq<nat>): (s: string)
    requires forall i :: 0 <= i < |ds| ==> ds[i] < 58
    ensures |s| == |ds| && forall i :: 0 <= i < |ds| ==> s[i] == Letter(ds[i])
  {
    if ds == [] then "" else [Letter(ds[0])] + Letters(ds[1..])
  }

  /** One '1' per leading zero byte, then the number's base-58 digits, most significant first. */
  function Encode(bytes: seq<Byte>): string {
    DigitsShape(BigEndian(bytes), 58);
    Repeat('1', LeadingZeros(bytes)) + Letters(Reverse(Digits(BigEndian(bytes), 58)))
  }

  lemma {:induction false} SkipLeadingZeros(bytes: seq<Byte>, k: nat)
    requires k <= |bytes| && forall i :: 0 <= i < k ==> bytes[i] == 0
    ensures BigEndian(bytes) == BigEndian(bytes[k..])
  {
    if k < |bytes| {
      SkipLeadingZeros(bytes[..|bytes| - 1], k);
      assert bytes[..|bytes| - 1][k..] == bytes[k..][..|bytes| - k - 1];
    } else if bytes != [] {
      SkipLeadingZeros(bytes[..|bytes| - 1], k - 1);
      assert bytes[k..] == [] == bytes[..|bytes| - 1][k - 1..];
    }
  }

  method CountLeadingZeroes(bytes: seq<Byte>) returns (leadingZeroes: nat)
    ensures leadingZeroes == LeadingZeros(bytes)
  {
    leadingZeroes := 0;
    while leadingZeroes < |bytes| && bytes[leadingZeroes] == 0
      invariant 0 <= leadingZeroes <= |bytes|
      invariant leadingZeroes + LeadingZeros(bytes[leadingZeroes..]) == LeadingZeros(bytes)
    {
      assert bytes[leadingZeroes..][1..] == bytes[leadingZeroes + 1..];
      leadingZeroes := leadingZeroes + 1;
    }
  }

  /** The digits of the bytes' number, built up one byte at a time. */
  method CollectDigits(bytes: seq<Byte>) returns (digits: seq<nat>)
    ensures digits == Digits(BigEndian(bytes), 58)
  {
    digits := [];
    for k := 0 to |bytes|
      invariant digits == Digits(BigEndian(bytes[..k]), 58)
    {
      AppendedByte(bytes, k);
      DigitsShape(BigEndian(bytes[..k]), 58);
      digits := AppendByte(digits, bytes[k]);
    }
    assert bytes[..|bytes|] == bytes;
  }

  /**
   * The encoder as written, updating one digit list in place. Digits stay below 58 and the carry
   * inside a pass never exceeds a byte, so the arithmetic is exact in small integers.
   */
  method EncodeBase58(bytes: seq<Byte>) returns (text: string)
    ensures text == Encode(bytes)
  {
    if bytes == [] { return ""; }
    var leadingZeroes := CountLeadingZeroes(bytes);
    SkipLeadingZeros(bytes, leadingZeroes);
    if leadingZeroes == |bytes| {
      assert bytes[leadingZeroes..] == [];
      return Repeat(Letter(0), leadingZeroes);
    }
    var digits := CollectDigits(bytes[leadingZeroes..]);
    DigitsShape(BigEndian(bytes), 58);
    return Repeat(Letter(0), leadingZeroes) + Letters(Reverse(digits));
  }

  /** One position of a pass: its digit is final, and the rest of the pass sees the new carry. */
  lemma {:induction false} PassStep(ds: seq<nat>, i: nat, done: seq<nat>, carry: nat)
    requires i < |ds|
    ensures var value := ds[i] * 256 + carry;
            done + MultiplyAdd(ds[i..], carry) == done + [value % 58] + MultiplyAdd(ds[i + 1..], value / 58)
  {
    assert ds[i..] == [ds[i]] + ds[i + 1..];
    MultiplyAddCons(ds[i], ds[i + 1..], carry);
  }

  /** One byte's pass: every digit in turn, then the digits of what carries out. */
  method AppendByte(ds: seq<nat>, byte: Byte) returns (digits: seq<nat>)
    requires forall i :: 0 <= i < |ds| ==> ds[i] < 58
    ensures digits == MultiplyAdd(ds, byte)
    ensures Value(digits, 58) == 256 * Value(ds, 58) + byte && forall i :: 0 <= i < |digits| ==> digits[i] < 58
  {
    digits := ds;
    var carry: nat := byte;
    var i := 0;
    while i < |digits|
      invariant 0 <= i <= |digits| == |ds|
      invariant carry <= 255
      invariant forall j :: 0 <= j < |digits| ==> digits[j] < 58
      invariant digits[i..] == ds[i..]
      invariant digits[..i] + MultiplyAdd(ds[i..], carry) == MultiplyAdd(ds, byte)
    {
      PassStep(ds, i, digits[..i], carry);
      assert digits[i] == ds[i..][0];
      var value := digits[i] * 256 + carry;
      ghost var done := digits[..i];
      digits := digits[i := value % 58];
      assert digits[..i + 1] == done + [value % 58];
      carry := value / 58;
      i := i + 1;
    }
    assert digits[..i] == digits && ds[i..] == [];
    digits := AppendCarry(digits, carry);
    MultiplyAddValue(ds, byte);
  }

  /** What carries out of a pass becomes new most significant digits. */
  method AppendCarry(ds: seq<nat>, out: nat) returns (digits: seq<nat>)
    ensures digits == ds + Digits(out, 58)
  {
    digits := ds;
    var carry := out;
    while carry > 0
      invariant digits + Digits(carry, 58) == ds + Digits(out, 58)
    {
      assert Digits(carry, 58) == [carry % 58] + Digits(carry / 58, 58);
      assert digits + Digits(carry, 58) == digits + [carry % 58] + Digits(carry / 58, 58);
      digits := digits + [carry % 58];
      carry := carry / 58;
    }
  }

  // ------------------------------------------------------------ a decoder

  /** The first position at or after `low` whose letter is c, or 58 when there is none. */
  function IndexOf(c: char, low: nat := 0): (d: nat)
    requires low <= 58
    ensures low <= d <= 58 && (d < 58 ==> Letter(d) == c) && (forall j :: low <= j < d ==> Letter(j) != c)
    decreases 58 - low
  {
    if low == 58 || Letter(low) == c then low else IndexOf(c, low + 1)
  }

  function Ones(text: string): (k: nat)
    ensures k <= |text| && (forall i :: 0 <= i < k ==> text[i] == '1') && (k < |text| ==> text[k] != '1')
  {
    if text == "" || text[0] != '1' then 0 else 1 + Ones(text[1..])
  }

  function DigitsOf(text: string): (ds: seq<nat>)
    ensures |ds| == |text| && forall i :: 0 <= i < |text| ==> ds[i] == IndexOf(text[i])
  {
    if text == "" then [] else [IndexOf(text[0])] + DigitsOf(text[1..])
  }

  /** The reference decoder: a zero byte per leading '1', then the bytes of the number spelled. */
  function Decode(text: string): seq<nat> {
    seq(Ones(text), _ => 0) + Reverse(Digits(Value(Reverse(DigitsOf(text[Ones(text)..])), 58), 256))
  }

  lemma LetterIndex(d: nat)
    requires d < 58
    ensures IndexOf(Letter(d)) == d
    ensures Letter(d) == '1' <==> d == 0
  {
    var i := IndexOf(Letter(d));
    assert i < 58 && Letter(i) == Letter(d);
  }

  /** Decoding an encoding gives the bytes back, leading zeroes included; so no two keys share a text. */
  lemma DecodeInvertsEncode(bytes: seq<Byte>)
    ensures Decode(Encode(bytes)) == bytes
  {
    var z := LeadingZeros(bytes);
    EncodedParts(bytes);
    ValueOfDigits(BigEndian(bytes), 58);
    BytesOfNumber(bytes);
    ZeroesInFront(bytes, z);
  }

  lemma ZeroesInFront(bytes: seq<Byte>, z: nat)
    requires z <= |bytes| && forall i :: 0 <= i < z ==> bytes[i] == 0
    ensures bytes == seq(z, _ => 0) + bytes[z..]
  {
  }

  /** The bytes after the leading zeroes are the base-256 digits of the number. */
  lemma {:induction false} BytesOfNumber(bytes: seq<Byte>)
    ensures Reverse(Digits(BigEndian(bytes), 256)) == bytes[LeadingZeros(bytes)..]
  {
    var rest := bytes[LeadingZeros(bytes)..];
    SkipLeadingZeros(bytes, LeadingZeros(bytes));
    BigEndianIsReversed(rest);
    DigitsOfValue(Reverse(rest), 256);
    assert Reverse(Reverse(rest)) == rest;
  }

  lemma {:induction false} LettersDecode(ds: seq<nat>)
    requires forall i :: 0 <= i < |ds| ==> ds[i] < 58
    ensures DigitsOf(Letters(ds)) == ds
  {
    if ds != [] {
      LetterIndex(ds[0]);
      LettersDecode(ds[1..]);
      assert Letters(ds)[1..] == Letters(ds[1..]);
    }
  }

  lemma {:induction false} OnesBefore(z: nat, letters: string)
    requires letters != "" ==> letters[0] != '1'
    ensures Ones(Repeat('1', z) + letters) == z && (Repeat('1', z) + letters)[z..] == letters
  {
    var text := Repeat('1', z) + letters;
    assert letters != "" ==> text[z] == letters[0];
  }

  /** How the decoder splits an encoding. */
  lemma {:induction false} EncodedParts(bytes: seq<Byte>)
    ensures Ones(Encode(bytes)) == LeadingZeros(bytes)
    ensures Reverse(DigitsOf(Encode(bytes)[LeadingZeros(bytes)..])) == Digits(BigEndian(bytes), 58)
  {
    DigitsShape(BigEndian(bytes), 58);
    LettersSplit(LeadingZeros(bytes), Digits(BigEndian(bytes), 58));
  }

  lemma {:induction false} LettersSplit(z: nat, digits: seq<nat>)
    requires forall i :: 0 <= i < |digits| ==> digits[i] < 58
    requires digits != [] ==> digits[|digits| - 1] != 0
    ensures var text := Repeat('1', z) + Letters(Reverse(digits));
            Ones(text) == z && Reverse(DigitsOf(text[z..])) == digits
  {
    var reversed := Reverse(digits);
    if digits != [] {
      LetterIndex(reversed[0]);
    }
    OnesBefore(z, Letters(reversed));
    LettersDecode(reversed);
    assert Reverse(reversed) == digits;
  }

  lemma EncodeIsInjective(a: seq<Byte>, b: seq<Byte>)
    requires Encode(a) == Encode(b)
    ensures a == b
  {
    DecodeInvertsEncode(a);
    DecodeInvertsEncode(b);
  }
}
