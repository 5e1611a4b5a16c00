/**
 * The phases of every plan that WithdrawPlan builds, in execution order.
 */
module WithdrawExecution {
  import opened Wrappers
  import opened KvaultCodec
  import opened ShareLedger
  import opened WithdrawInstructions
  import opened WithdrawPlan

  ghost function Closing(input: Input, requested: nat, c: Consolidation): seq<Instruction> {
    OptionToSeq(Close(input, requested, c))
  }

  /**
   * A plan in execution order: unstake; SDK prerequisites that redeem nothing; consolidation
   * and guard; redemptions encoding the request; cleanup; close.
   */
  ghost predicate Phased(
    input: Input, requested: nat, plan: seq<Instruction>, prepare: seq<Instruction>, redeem: seq<Instruction>)
  {
    var chain := input.exit.chain;
    var c := Consolidate(input.exit, requested, input.accounts);
    && c.Success?
    && plan == Present(input.bundle.unstake) + prepare + BeforeRedemption(input, requested, c.value) + redeem
               + Present(input.bundle.post) + Closing(input, requested, c.value)
    && Quiet(chain, prepare)
    && AllSdk(redeem) && EncodedTotal(chain, redeem) == requested
    && (requested != BURN_ALL_SENTINEL ==> SentinelFree(chain, redeem))
  }

  ghost predicate RolesMatchShares(ts: seq<Tagged>) {
    forall i :: 0 <= i < |ts| ==> (ts[i].shares.Some? <==> ts[i].role == Withdraw)
  }

  lemma DecodedRoles(input: Input)
    ensures RolesMatchShares(Decoded(input))
  {
    PresentIsSdk(input.bundle.withdraw);
  }

  /** A plan is only returned around a redemption. */
  lemma HasRedemption(input: Input, requested: nat, c: Consolidation)
    requires Redemptions(input, requested, c).Success? && requested > 0
    ensures FirstRedemption(Decoded(input)) >= 0
  {
    var ts := Decoded(input);
    DecodedRoles(input);
    if FirstRedemption(ts) == -1 {
      NoSharesNoTotal(ts, BURN_ALL_SENTINEL);
    }
  }

  /**
   * The guarded list: what is added stands right before the first redemption of the withdraw list,
   * nothing before it redeems, and the rest of the withdraw list follows in order.
   */
  lemma GuardedParts(input: Input, requested: nat, c: Consolidation) returns (before: seq<Tagged>, from: seq<Tagged>)
    requires Redemptions(input, requested, c).Success? && requested > 0
    ensures Guarded(Decoded(input), BeforeRedemption(input, requested, c)) ==
            Success(Quieted(input, requested, c, before) + from + TagPlain(Present(input.bundle.post), Post))
    ensures forall i :: 0 <= i < |before| ==> Truthful(before[i], input.exit.chain.kvault) && before[i].shares.None?
    ensures forall i :: 0 <= i < |from| ==> Truthful(from[i], input.exit.chain.kvault)
    ensures from != [] && from[0].role == Withdraw
    ensures before + from == TagWithdraw(Present(input.bundle.withdraw), input.exit.chain.kvault)
  {
    HasRedemption(input, requested, c);
    before, from := SplitDecoded(input);
    var first := FirstRedemption(Decoded(input));
    assert Decoded(input) == Decoded(input)[..first] + Decoded(input)[first..];
    Regroup(TagPlain(Present(input.bundle.unstake), Unstake), before,
            TagPlain(BeforeRedemption(input, requested, c), Prepare),
            from, TagPlain(Present(input.bundle.post), Post));
  }

  lemma Regroup(u: seq<Tagged>, b: seq<Tagged>, t: seq<Tagged>, f: seq<Tagged>, p: seq<Tagged>)
    ensures (u + b) + t + (f + p) == (u + b + t) + f + p
    ensures t == [] ==> (u + b) + (f + p) == (u + b + t) + f + p
  {
  }

  /** Everything tagged before the redemptions: none of it names shares. */
  ghost function Quieted(input: Input, requested: nat, c: Consolidation, before: seq<Tagged>): seq<Tagged> {
    TagPlain(Present(input.bundle.unstake), Unstake) + before + TagPlain(BeforeRedemption(input, requested, c), Prepare)
  }

  lemma UnchangedAround(out: seq<Tagged>, quiet: seq<Tagged>, from: seq<Tagged>, post: seq<Tagged>)
    requires |out| == |quiet + from + post|
    requires forall i :: 0 <= i < |out| && !IsSentinel((quiet + from + post)[i]) ==> out[i] == (quiet + from + post)[i]
    requires forall i :: 0 <= i < |quiet| ==> !IsSentinel(quiet[i])
    requires forall i :: 0 <= i < |post| ==> !IsSentinel(post[i])
    ensures out == quiet + out[|quiet|..|quiet| + |from|] + post
  {
    var ts := quiet + from + post;
    assert forall i :: 0 <= i < |quiet| ==> ts[i] == quiet[i];
    assert forall i :: 0 <= i < |post| ==> ts[|quiet| + |from| + i] == post[i];
  }

  lemma ResolvedParts(
    chain: Chain, quiet: seq<Tagged>, from: seq<Tagged>, post: seq<Tagged>, requested: nat, guarded: bool)
    returns (redeem: seq<Tagged>)
    requires forall i :: 0 <= i < |quiet| ==> quiet[i].shares.None? && quiet[i].role != Withdraw
    requires forall i :: 0 <= i < |post| ==> post[i].shares.None? && post[i].role != Withdraw
    requires forall i :: 0 <= i < |from| ==> Truthful(from[i], chain.kvault)
    requires ResolveBurnAll(quiet + from + post, requested, guarded).Success?
    ensures ResolveBurnAll(quiet + from + post, requested, guarded).value == quiet + redeem + post
    ensures forall i :: 0 <= i < |redeem| ==> Truthful(redeem[i], chain.kvault)
    ensures TaggedTotal(redeem, BURN_ALL_SENTINEL) == TaggedTotal(quiet + redeem + post, BURN_ALL_SENTINEL)
    ensures SentinelCount(redeem) > 0 ==> guarded
  {
    var ts := quiet + from + post;
    ResolvedTotal(ts, requested, guarded);
    var out := ResolveBurnAll(ts, requested, guarded).value;
    UnchangedAround(out, quiet, from, post);
    redeem := out[|quiet|..|quiet| + |from|];
    forall i | 0 <= i < |redeem| ensures Truthful(redeem[i], chain.kvault) {
      assert ts[|quiet| + i] == from[i];
      ResolvedIsTruthful(chain, ts, requested, guarded, |quiet| + i);
    }
    NoSharesNoTotal(quiet, BURN_ALL_SENTINEL);
    NoSharesNoTotal(post, BURN_ALL_SENTINEL);
    TotalConcat(quiet + redeem, post, BURN_ALL_SENTINEL);
    TotalConcat(quiet, redeem, BURN_ALL_SENTINEL);
  }

  /** Instructions tagged before the redemptions, and the redemptions once resolved. */
  ghost predicate ResolvedTo(input: Input, requested: nat, c: Consolidation, before: seq<Tagged>, rs: seq<Tagged>) {
    && Redemptions(input, requested, c)
       == Success(Quieted(input, requested, c, before) + rs + TagPlain(Present(input.bundle.post), Post))
    && AllTruthful(before, input.exit.chain) && NoneNamesShares(before)
    && AllTruthful(rs, input.exit.chain) && TaggedTotal(rs, BURN_ALL_SENTINEL) == requested
    && (SentinelCount(rs) > 0 ==> requested == BURN_ALL_SENTINEL)
  }

  ghost predicate AllTruthful(ts: seq<Tagged>, chain: Chain) {
    forall i :: 0 <= i < |ts| ==> Truthful(ts[i], chain.kvault)
  }

  ghost predicate NoneNamesShares(ts: seq<Tagged>) {
    forall i :: 0 <= i < |ts| ==> ts[i].shares.None?
  }

  lemma ResolutionParts(input: Input, requested: nat, c: Consolidation) returns (before: seq<Tagged>, rs: seq<Tagged>)
    requires Redemptions(input, requested, c).Success? && requested > 0
    ensures ResolvedTo(input, requested, c, before, rs)
  {
    var from;
    before, from := GuardedParts(input, requested, c);
    var quiet, post := Quieted(input, requested, c, before), TagPlain(Present(input.bundle.post), Post);
    rs := ResolvedParts(input.exit.chain, quiet, from, post, requested, BalanceGuard(input.exit, requested).Some?);
  }

  lemma TruthfulIsSdk(chain: Chain, ts: seq<Tagged>)
    requires AllTruthful(ts, chain)
    ensures AllSdk(Instructions(ts))
    ensures NoneNamesShares(ts) ==> Quiet(chain, Instructions(ts))
  {
  }

  lemma PlanPhases(input: Input, requested: nat) returns (prepare: seq<Instruction>, redeem: seq<Instruction>)
    requires PlanInstructions(input, requested).Success? && requested > 0
    ensures Phased(input, requested, PlanInstructions(input, requested).value, prepare, redeem)
  {
    var c := Consolidate(input.exit, requested, input.accounts).value;
    var before, rs := ResolutionParts(input, requested, c);
    prepare, redeem := Instructions(before), Instructions(rs);
    TruthfulIsSdk(input.exit.chain, before);
    TruthfulIsSdk(input.exit.chain, rs);
    TruthfulTotal(input.exit.chain, rs);
    InstructionsOfParts(input, requested, c, before, rs);
  }

  lemma InstructionsOfParts(input: Input, requested: nat, c: Consolidation, before: seq<Tagged>, rs: seq<Tagged>)
    ensures Instructions(Quieted(input, requested, c, before) + rs + TagPlain(Present(input.bundle.post), Post)) ==
            Present(input.bundle.unstake) + Instructions(before) + BeforeRedemption(input, requested, c)
            + Instructions(rs) + Present(input.bundle.post)
  {
    InstructionsConcat(TagPlain(Present(input.bundle.unstake), Unstake), before);
    InstructionsConcat(TagPlain(Present(input.bundle.unstake), Unstake) + before,
                       TagPlain(BeforeRedemption(input, requested, c), Prepare));
    InstructionsConcat(Quieted(input, requested, c, before), rs);
    InstructionsConcat(Quieted(input, requested, c, before) + rs, TagPlain(Present(input.bundle.post), Post));
    InstructionsOfPlain(Present(input.bundle.unstake), Unstake);
    InstructionsOfPlain(BeforeRedemption(input, requested, c), Prepare);
    InstructionsOfPlain(Present(input.bundle.post), Post);
  }

  lemma InstructionsConcat(a: seq<Tagged>, b: seq<Tagged>)
    ensures Instructions(a + b) == Instructions(a) + Instructions(b)
  {
  }

  lemma InstructionsOfPlain(plan: seq<Instruction>, role: Role)
    ensures Instructions(TagPlain(plan, role)) == plan
  {
  }

  // ------------------------------------------ what this code itself adds

  lemma {:induction false} BuiltHereEncodesNothing(c: Chain, plan: seq<Instruction>)
    requires forall i :: 0 <= i < |plan| ==> !plan[i].Sdk?
    ensures EncodedTotal(c, plan) == 0 && SentinelFree(c, plan)
  {
    if plan != [] {
      BuiltHereEncodesNothing(c, plan[1..]);
    }
  }

  lemma {:induction false} TransfersAreBuiltHere(e: Exit, pulls: seq<AccountBalance>)
    ensures forall i :: 0 <= i < |pulls| ==> !Transfers(e, pulls)[i].Sdk?
  {
    if pulls != [] {
      TransfersAreBuiltHere(e, pulls[1..]);
    }
  }

  ghost function Head(input: Input, requested: nat, prepare: seq<Instruction>): seq<Instruction>
    requires Consolidate(input.exit, requested, input.accounts).Success?
  {
    Present(input.bundle.unstake) + prepare
    + BeforeRedemption(input, requested, Consolidate(input.exit, requested, input.accounts).value)
  }

  ghost function Tail(input: Input, requested: nat): seq<Instruction>
    requires Consolidate(input.exit, requested, input.accounts).Success?
  {
    Present(input.bundle.post) + Closing(input, requested, Consolidate(input.exit, requested, input.accounts).value)
  }

  lemma PhasesInOrder(
    input: Input, requested: nat, plan: seq<Instruction>, prepare: seq<Instruction>, redeem: seq<Instruction>)
    requires Phased(input, requested, plan, prepare, redeem)
    ensures plan == Head(input, requested, prepare) + redeem + Tail(input, requested)
  {
  }
}
