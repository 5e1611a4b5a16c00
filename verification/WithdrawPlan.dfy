/**
 * The K-Vault exit planner and what running its plans does. Models the planning part of
 * buildKaminoWithdrawPlan (packages/sdp-kamino/src/sdk.ts) over an arbitrary SDK bundle.
 */
module WithdrawPlan {
  import opened Wrappers
  import opened KvaultCodec
  import opened ShareLedger
  import opened WithdrawInstructions
  import D = DecimalAmount
  import M = MintAmount

  /** What the SDK returned: three lists, absent entries included. */
  datatype Bundle = Bundle(
    unstake: seq<Option<SdkInstruction>>, withdraw: seq<Option<SdkInstruction>>, post: seq<Option<SdkInstruction>>)

  datatype Input = Input(
    shares: string, exit: Exit, rentRefundTo: Option<Address>, accounts: seq<AccountBalance>, bundle: Bundle,
    tokenProgram: Address, ataProgram: Address, permitted: set<Address>)

  datatype Plan = Plan(instructions: seq<Instruction>, acceptedShares: string, createsShareAccount: bool)

  function Present(xs: seq<Option<SdkInstruction>>): seq<Instruction> {
    if xs == [] then []
    else (if xs[0].Some? then [Sdk(xs[0].value)] else []) + Present(xs[1..])
  }

  lemma {:induction false} PresentIsSdk(xs: seq<Option<SdkInstruction>>)
    ensures forall i :: 0 <= i < |Present(xs)| ==> Present(xs)[i].Sdk?
  {
    if xs != [] {
      PresentIsSdk(xs[1..]);
    }
  }

  function TagPlain(instructions: seq<Instruction>, role: Role): seq<Tagged> {
    seq(|instructions|, i requires 0 <= i < |instructions| => Tagged(instructions[i], role, None))
  }

  /** In the withdraw list the bytes decide whether an instruction redeems. */
  function TagDecoded(ins: Instruction, kvault: Address): Tagged {
    var shares := if ins.Sdk? then Decode(ins.sdk, kvault) else None;
    Tagged(ins, if shares.None? then Prepare else Withdraw, shares)
  }

  function TagWithdraw(instructions: seq<Instruction>, kvault: Address): seq<Tagged> {
    seq(|instructions|, i requires 0 <= i < |instructions| => TagDecoded(instructions[i], kvault))
  }

  function FirstRedemption(ts: seq<Tagged>): (i: int)
    ensures -1 <= i < |ts|
    ensures i >= 0 ==> ts[i].role == Withdraw
    ensures forall j :: 0 <= j < (if i == -1 then |ts| else i) ==> ts[j].role != Withdraw
  {
    if ts == [] then -1
    else if ts[0].role == Withdraw then 0
    else
      var rest := FirstRedemption(ts[1..]);
      if rest == -1 then -1 else rest + 1
  }

  function Instructions(ts: seq<Tagged>): (r: seq<Instruction>)
    ensures |r| == |ts| && forall i :: 0 <= i < |ts| ==> r[i] == ts[i].instruction
  {
    seq(|ts|, i requires 0 <= i < |ts| => ts[i].instruction)
  }

  function OptionToSeq<T>(x: Option<T>): seq<T> {
    if x.Some? then [x.value] else []
  }

  function ProgramOf(input: Input, ins: Instruction): Address {
    match ins
    case Sdk(sdk) => sdk.programAddress
    case CreateAssociatedToken(_, _, _, _) => input.ataProgram
    case _ => input.tokenProgram
  }

  /** The accepted spelling of the requested shares. */
  function Accepted(input: Input): Result<string, D.AmountError> {
    M.AcceptAtMintScale(input.shares, input.exit.chain.shareDecimals)
  }

  /** The accepted request in base units. */
  function Requested(input: Input): nat
    requires Accepted(input).Success?
  {
    var units := D.ParseDecimalAmount(Accepted(input).value, input.exit.chain.shareDecimals);
    if units.Success? then units.value else 0
  }

  function Decoded(input: Input): seq<Tagged> {
    TagPlain(Present(input.bundle.unstake), Unstake)
    + TagWithdraw(Present(input.bundle.withdraw), input.exit.chain.kvault)
    + TagPlain(Present(input.bundle.post), Post)
  }

  /** The instructions placed right before the first redemption: consolidation, then the guard. */
  function BeforeRedemption(input: Input, requested: nat, consolidation: Consolidation): seq<Instruction> {
    consolidation.instructions + OptionToSeq(BalanceGuard(input.exit, requested))
  }

  function Guarded(decoded: seq<Tagged>, pre: seq<Instruction>): Result<seq<Tagged>, KaminoError> {
    var first := FirstRedemption(decoded);
    if pre == [] then Success(decoded)
    else if first == -1 then Failure(VaultUnreadable)
    else Success(decoded[..first] + TagPlain(pre, Prepare) + decoded[first..])
  }

  function CreatesShareAccount(input: Input): bool {
    !exists i :: 0 <= i < |input.accounts| && input.accounts[i].address == input.exit.chain.shareAta
  }

  function Close(input: Input, requested: nat, consolidation: Consolidation): Option<Instruction> {
    CloseInstruction(input.exit, if CreatesShareAccount(input) then input.exit.rentPayer else input.rentRefundTo,
                     consolidation.postConsolidationAtaBaseUnits, requested, consolidation.totalBaseUnits)
  }

  /** The instructions for an accepted request, every redemption decoded and the total checked. */
  function Redemptions(input: Input, requested: nat, consolidation: Consolidation): Result<seq<Tagged>, KaminoError> {
    var guarded := Guarded(Decoded(input), BeforeRedemption(input, requested, consolidation));
    if guarded.Failure? then guarded
    else
      var tagged := ResolveBurnAll(guarded.value, requested, BalanceGuard(input.exit, requested).Some?);
      if tagged.Failure? then tagged
      else if TaggedTotal(tagged.value, BURN_ALL_SENTINEL) != requested then Failure(VaultUnreadable)
      else tagged
  }

  function PlanInstructions(input: Input, requested: nat): Result<seq<Instruction>, KaminoError> {
    var consolidated := Consolidate(input.exit, requested, input.accounts);
    if consolidated.Failure? then Failure(consolidated.error)
    else
      var tagged := Redemptions(input, requested, consolidated.value);
      if tagged.Failure? then Failure(tagged.error)
      else Success(Instructions(tagged.value) + OptionToSeq(Close(input, requested, consolidated.value)))
  }

  function BuildWithdrawPlan(input: Input): Result<Plan, KaminoError> {
    var accepted := Accepted(input);
    if input.exit.chain.shareDecimals > M.MAX_MINT_DECIMALS then Failure(VaultUnreadable)
    else if accepted.Failure? || M.IsZeroAmount(accepted.value) then Failure(InvalidAmount)
    else
      var instructions := PlanInstructions(input, Requested(input));
      if instructions.Failure? then Failure(instructions.error)
      else if exists i :: 0 <= i < |instructions.value| && ProgramOf(input, instructions.value[i]) !in input.permitted
      then Failure(ProgramMismatch)
      else Success(Plan(instructions.value, accepted.value, CreatesShareAccount(input)))
  }

  // ------------------------------------------------- the phases of a plan

  ghost predicate Built(input: Input) {
    BuildWithdrawPlan(input).Success?
  }

  lemma BuiltMeans(input: Input)
    requires Built(input)
    ensures Accepted(input).Success? && !M.IsZeroAmount(Accepted(input).value)
    ensures PlanInstructions(input, Requested(input)) == Success(BuildWithdrawPlan(input).value.instructions)
    ensures BuildWithdrawPlan(input).value.acceptedShares == Accepted(input).value
  {
  }

  /** What an accepted request is: positive, a u64, and what the recorded amount parses to. */
  lemma RequestIsAccepted(input: Input)
    requires Built(input)
    ensures Accepted(input).Success? && 0 < Requested(input) <= BURN_ALL_SENTINEL
    ensures PlanInstructions(input, Requested(input)) == Success(BuildWithdrawPlan(input).value.instructions)
    ensures BuildWithdrawPlan(input).value.acceptedShares == Accepted(input).value
    ensures D.ParseDecimalAmount(Accepted(input).value, input.exit.chain.shareDecimals) == Success(Requested(input))
  {
    BuiltMeans(input);
    var n := M.AcceptedAmount(input.shares, input.exit.chain.shareDecimals);
  }

  /** A tag tells the truth about its instruction's bytes. */
  ghost predicate Truthful(t: Tagged, kvault: Address) {
    t.instruction.Sdk? && t.shares == Decode(t.instruction.sdk, kvault) && (t.shares.Some? <==> t.role == Withdraw)
  }

  lemma {:induction false} TruthfulTotal(c: Chain, ts: seq<Tagged>)
    requires forall i :: 0 <= i < |ts| ==> Truthful(ts[i], c.kvault)
    ensures EncodedTotal(c, Instructions(ts)) == TaggedTotal(ts, BURN_ALL_SENTINEL)
    ensures SentinelCount(ts) == 0 ==> SentinelFree(c, Instructions(ts))
  {
    if ts != [] {
      TruthfulTotal(c, ts[1..]);
      assert Instructions(ts)[1..] == Instructions(ts[1..]);
      assert Instructions(ts) == [ts[0].instruction] + Instructions(ts[1..]);
    }
  }

  lemma {:induction false} TotalConcat(a: seq<Tagged>, b: seq<Tagged>, sentinel: nat)
    ensures TaggedTotal(a + b, sentinel) == TaggedTotal(a, sentinel) + TaggedTotal(b, sentinel)
    ensures SentinelCount(a + b) == SentinelCount(a) + SentinelCount(b)
  {
    if a == [] {
      assert a + b == b;
    } else {
      assert (a + b)[1..] == a[1..] + b;
      TotalConcat(a[1..], b, sentinel);
    }
  }

  lemma {:induction false} NoSharesNoTotal(ts: seq<Tagged>, sentinel: nat)
    requires forall i :: 0 <= i < |ts| ==> ts[i].shares.None?
    ensures TaggedTotal(ts, sentinel) == 0 && SentinelCount(ts) == 0
  {
    if ts != [] {
      NoSharesNoTotal(ts[1..], sentinel);
    }
  }

  /** Rewriting keeps a redemption truthful about its new amount. */
  lemma ResolvedIsTruthful(c: Chain, ts: seq<Tagged>, requested: nat, guarded: bool, i: nat)
    requires ResolveBurnAll(ts, requested, guarded).Success?
    requires i < |ts| && |ResolveBurnAll(ts, requested, guarded).value| == |ts|
    requires Truthful(ts[i], c.kvault)
    ensures Truthful(ResolveBurnAll(ts, requested, guarded).value[i], c.kvault)
  {
    if SentinelCount(ts) > 0 {
      var remainder := requested - TaggedTotal(Redeeming(ts), 0);
      assert RewriteTagged(ts[i], remainder) == Some(RewriteAll(ts, remainder).value[i]);
      if IsSentinel(ts[i]) {
        RewriteDecodes(ts[i].instruction.sdk, c.kvault, remainder);
      }
    }
  }

  lemma SplitAround(u: seq<Tagged>, w: seq<Tagged>, p: seq<Tagged>, k: nat)
    requires k <= |w|
    ensures (u + w + p)[..|u| + k] == u + w[..k] && (u + w + p)[|u| + k..] == w[k..] + p
  {
  }

  ghost predicate NoneRedeem(ts: seq<Tagged>) {
    forall i :: 0 <= i < |ts| ==> ts[i].role != Withdraw
  }

  /** Only the middle list redeems, so the first redemption is the middle list's own first one. */
  lemma {:induction false} FirstOfMiddle(u: seq<Tagged>, w: seq<Tagged>, p: seq<Tagged>)
    requires NoneRedeem(u) && NoneRedeem(p) && FirstRedemption(u + w + p) >= 0
    ensures FirstRedemption(w) >= 0 && FirstRedemption(u + w + p) == |u| + FirstRedemption(w)
  {
    var ts := u + w + p;
    var first := FirstRedemption(ts);
    assert ts[first] == w[first - |u|];
    var own := FirstRedemption(w);
    assert own >= 0;
    assert ts[|u| + own] == w[own];
  }

  lemma TagsAreTruthful(instructions: seq<Instruction>, kvault: Address)
    requires forall i :: 0 <= i < |instructions| ==> instructions[i].Sdk?
    ensures forall i :: 0 <= i < |instructions| ==> Truthful(TagWithdraw(instructions, kvault)[i], kvault)
  {
  }

  /** The bundle around the first redemption of its withdraw list. */
  lemma SplitDecoded(input: Input) returns (before: seq<Tagged>, from: seq<Tagged>)
    requires FirstRedemption(Decoded(input)) >= 0
    ensures Decoded(input)[..FirstRedemption(Decoded(input))]
            == TagPlain(Present(input.bundle.unstake), Unstake) + before
    ensures Decoded(input)[FirstRedemption(Decoded(input))..] == from + TagPlain(Present(input.bundle.post), Post)
    ensures forall i :: 0 <= i < |before| ==> Truthful(before[i], input.exit.chain.kvault) && before[i].shares.None?
    ensures forall i :: 0 <= i < |from| ==> Truthful(from[i], input.exit.chain.kvault)
    ensures from != [] && from[0].role == Withdraw
    ensures before + from == TagWithdraw(Present(input.bundle.withdraw), input.exit.chain.kvault)
  {
    var unstake := TagPlain(Present(input.bundle.unstake), Unstake);
    var withdraw := TagWithdraw(Present(input.bundle.withdraw), input.exit.chain.kvault);
    var post := TagPlain(Present(input.bundle.post), Post);
    PresentIsSdk(input.bundle.withdraw);
    TagsAreTruthful(Present(input.bundle.withdraw), input.exit.chain.kvault);
    FirstOfMiddle(unstake, withdraw, post);
    var own := FirstRedemption(withdraw);
    SplitAround(unstake, withdraw, post, own);
    before, from := SplitOwn(withdraw, own, input.exit.chain.kvault);
  }

  lemma {:induction false} SplitOwn(
    withdraw: seq<Tagged>, own: nat, kvault: Address) returns (before: seq<Tagged>, from: seq<Tagged>)
    requires own == FirstRedemption(withdraw)
    requires forall i :: 0 <= i < |withdraw| ==> Truthful(withdraw[i], kvault)
    ensures before == withdraw[..own] && from == withdraw[own..] && before + from == withdraw
    ensures forall i :: 0 <= i < |before| ==> Truthful(before[i], kvault) && before[i].shares.None?
    ensures forall i :: 0 <= i < |from| ==> Truthful(from[i], kvault)
    ensures from != [] && from[0].role == Withdraw
  {
    before, from := withdraw[..own], withdraw[own..];
  }
}
