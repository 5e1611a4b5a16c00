/**
 * The bytes of a K-Vault redemption. Models decodeKvaultWithdrawShares and
 * rewriteKvaultWithdrawShares of packages/sdp-kamino/src/withdraw-instructions.ts.
 */
module KvaultCodec {
  import opened Wrappers

  type Address = string
  type Byte = b: int | 0 <= b < 256

  /** An instruction the provider's SDK returned: any program, any bytes. */
  datatype SdkInstruction = SdkInstruction(programAddress: Address, accounts: seq<Address>, data: Option<seq<Byte>>)

  const BURN_ALL_SENTINEL: nat := 18446744073709551615

  const WITHDRAW_DISCRIMINATOR: seq<Byte> := [183, 18, 70, 156, 148, 109, 161, 34]
  const WITHDRAW_FROM_AVAILABLE_DISCRIMINATOR: seq<Byte> := [19, 131, 112, 155, 170, 220, 34, 57]

  /** The unsigned integer that `bytes` spells, least significant byte first. */
  function LittleEndian(bytes: seq<Byte>): nat {
    if bytes == [] then 0 else bytes[0] + 256 * LittleEndian(bytes[1..])
  }

  /** The low `width` bytes of n, least significant first. */
  function ToLittleEndian(n: nat, width: nat): (bytes: seq<Byte>)
    ensures |bytes| == width
  {
    if width == 0 then [] else [n % 256] + ToLittleEndian(n / 256, width - 1)
  }

  function Pow256(k: nat): (p: nat)
    ensures p > 0
  {
    if k == 0 then 1 else 256 * Pow256(k - 1)
  }

  lemma {:induction false} LittleEndianRoundTrip(n: nat, width: nat)
    requires n < Pow256(width)
    ensures LittleEndian(ToLittleEndian(n, width)) == n
  {
    if width > 0 {
      LittleEndianRoundTrip(n / 256, width - 1);
      assert ToLittleEndian(n, width)[1..] == ToLittleEndian(n / 256, width - 1);
    }
  }

  lemma LowByte(low: Byte, rest: nat, p: nat)
    requires rest < p
    ensures (low + 256 * rest) % 256 == low && (low + 256 * rest) / 256 == rest && low + 256 * rest < 256 * p
  {
  }

  lemma {:induction false} ToLittleEndianRoundTrip(bytes: seq<Byte>)
    ensures LittleEndian(bytes) < Pow256(|bytes|)
    ensures ToLittleEndian(LittleEndian(bytes), |bytes|) == bytes
  {
    if bytes != [] {
      ToLittleEndianRoundTrip(bytes[1..]);
      LowByte(bytes[0], LittleEndian(bytes[1..]), Pow256(|bytes| - 1));
      assert bytes == [bytes[0]] + bytes[1..];
    }
  }

  lemma U64Range()
    ensures Pow256(8) == BURN_ALL_SENTINEL + 1
  {
    assert Pow256(4) == 0x1_0000_0000;
  }

  predicate IsRedemption(ins: SdkInstruction, kvault: Address) {
    && ins.programAddress == kvault
    && ins.data.Some? && |ins.data.value| >= 16
    && ins.data.value[..8] in {WITHDRAW_DISCRIMINATOR, WITHDRAW_FROM_AVAILABLE_DISCRIMINATOR}
  }

  /** The shares an instruction redeems, or None when it is not a share redemption. */
  function Decode(ins: SdkInstruction, kvault: Address): Option<nat> {
    if IsRedemption(ins, kvault) then Some(LittleEndian(ins.data.value[8..16])) else None
  }

  /** The same instruction with its u64 argument replaced; refused when there is no room for one. */
  function Rewrite(ins: SdkInstruction, shares: nat): Option<SdkInstruction> {
    if ins.data.None? || |ins.data.value| < 16 then None
    else Some(ins.(data := Some(ins.data.value[..8] + ToLittleEndian(shares, 8) + ins.data.value[16..])))
  }

  /** The decoder as written: accumulate from byte 15 down to byte 8. */
  method DecodeShares(ins: SdkInstruction, kvault: Address) returns (shares: Option<nat>)
    ensures shares == Decode(ins, kvault)
  {
    if ins.programAddress != kvault { return None; }
    if ins.data.None? || |ins.data.value| < 16 { return None; }
    var data := ins.data.value;
    if data[..8] != WITHDRAW_DISCRIMINATOR && data[..8] != WITHDRAW_FROM_AVAILABLE_DISCRIMINATOR { return None; }
    var value: nat := 0;
    var index := 8;
    while index > 0
      invariant 0 <= index <= 8
      invariant value == LittleEndian(data[8 + index..16])
    {
      index := index - 1;
      assert data[8 + index..16][1..] == data[8 + index + 1..16];
      value := value * 256 + data[8 + index];
    }
    return Some(value);
  }

  /** The rewriter as written: peel one byte off `remaining` per index. */
  method RewriteShares(ins: SdkInstruction, shares: nat) returns (r: Option<SdkInstruction>)
    ensures r == Rewrite(ins, shares)
  {
    if ins.data.None? || |ins.data.value| < 16 { return None; }
    var current := ins.data.value;
    var data: seq<Byte> := current;
    var remaining := shares;
    for index := 0 to 8
      invariant data == Written(current, shares, index)
      invariant ToLittleEndian(remaining, 8 - index) == ToLittleEndian(shares, 8)[index..]
    {
      data := data[8 + index := remaining % 256];
      WrittenNext(current, shares, index, remaining);
      remaining := remaining / 256;
    }
    assert ToLittleEndian(shares, 8)[..8] == ToLittleEndian(shares, 8);
    return Some(ins.(data := Some(data)));
  }

  /** The data once the first `index` bytes of the amount have been written. */
  function Written(current: seq<Byte>, shares: nat, index: nat): seq<Byte>
    requires index <= 8 && |current| >= 16
  {
    current[..8] + ToLittleEndian(shares, 8)[..index] + current[8 + index..]
  }

  lemma WrittenNext(current: seq<Byte>, shares: nat, index: nat, remaining: nat)
    requires index < 8 && |current| >= 16
    requires ToLittleEndian(remaining, 8 - index) == ToLittleEndian(shares, 8)[index..]
    ensures Written(current, shares, index)[8 + index := remaining % 256] == Written(current, shares, index + 1)
    ensures ToLittleEndian(remaining / 256, 7 - index) == ToLittleEndian(shares, 8)[index + 1..]
  {
    var bytes := ToLittleEndian(shares, 8);
    assert ToLittleEndian(remaining, 8 - index)[0] == bytes[index];
    assert bytes[index..][1..] == bytes[index + 1..];
    assert bytes[..index + 1] == bytes[..index] + [remaining % 256];
  }

  /**
   * Rewriting then decoding returns the amount written, for every u64, and touches only bytes
   * 8 to 15; rewriting an instruction with its own amount changes nothing.
   */
  lemma RewriteDecodes(ins: SdkInstruction, kvault: Address, shares: nat)
    requires IsRedemption(ins, kvault) && shares <= BURN_ALL_SENTINEL
    ensures Rewrite(ins, shares).Some?
    ensures var out := Rewrite(ins, shares).value;
            && Decode(out, kvault) == Some(shares)
            && out.programAddress == ins.programAddress && out.accounts == ins.accounts
            && |out.data.value| == |ins.data.value|
            && forall i :: 0 <= i < |ins.data.value| && !(8 <= i < 16) ==> out.data.value[i] == ins.data.value[i]
    ensures Rewrite(ins, Decode(ins, kvault).value) == Some(ins)
  {
    var data := ins.data.value;
    var out := Rewrite(ins, shares).value.data.value;
    U64Range();
    LittleEndianRoundTrip(shares, 8);
    assert out[..8] == data[..8] && out[8..16] == ToLittleEndian(shares, 8);
    ToLittleEndianRoundTrip(data[8..16]);
    assert data[..8] + data[8..16] + data[16..] == data;
  }

  /** A decoded amount is a u64. */
  lemma DecodedIsU64(ins: SdkInstruction, kvault: Address)
    requires IsRedemption(ins, kvault)
    ensures Decode(ins, kvault).value <= BURN_ALL_SENTINEL
  {
    U64Range();
    ToLittleEndianRoundTrip(ins.data.value[8..16]);
  }
}
