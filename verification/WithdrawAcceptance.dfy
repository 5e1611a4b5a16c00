/**
 * When the planner of WithdrawPlan builds a plan at all: an exact condition on the request, the
 * balances and the SDK's withdraw list, for every bundle.
 */
module WithdrawAcceptance {
  import opened Wrappers
  import opened KvaultCodec
  import opened Sequences
  import opened ShareLedger
  import opened WithdrawInstructions
  import opened WithdrawPlan
  import opened WithdrawExecution
  import M = MintAmount

  /** The SDK's withdraw list with each instruction's decoded shares. */
  function Answer(input: Input): seq<Tagged> {
    TagWithdraw(Present(input.bundle.withdraw), input.exit.chain.kvault)
  }

  /**
   * The list redeems exactly the request; or its last redemption, and no other, burns everything,
   * and the ones before it redeem less than the request.
   */
  predicate Answers(ts: seq<Tagged>, requested: nat) {
    if SentinelCount(ts) == 0 then TaggedTotal(ts, 0) == requested
    else
      && SentinelCount(ts) == 1
      && FirstSentinel(Redeeming(ts)) == |Redeeming(ts)| - 1
      && TaggedTotal(ts, 0) < requested
  }

  /** Every program the plan invokes is one the cluster permits. */
  ghost predicate Permitted(input: Input, requested: nat) {
    var ata := AmountIn(input.accounts, input.exit.chain.shareAta);
    && (forall ins :: ins in Outside(input) ==> ProgramOf(input, ins) in input.permitted)
    && (requested > ata ==> input.ataProgram in input.permitted)
    && ((requested > ata || requested == BURN_ALL_SENTINEL || requested == Sum(input.accounts)) ==>
          input.tokenProgram in input.permitted)
  }

  /** Everything the SDK returned, in order. */
  ghost function Outside(input: Input): seq<Instruction> {
    Present(input.bundle.unstake) + Present(input.bundle.withdraw) + Present(input.bundle.post)
  }

  // ------------------------------------- what insertion leaves untouched

  ghost predicate Idle(ts: seq<Tagged>) {
    forall i :: 0 <= i < |ts| ==> ts[i].shares.None? && ts[i].role != Withdraw
  }

  /** Two lists that redeem the same, in the same order. */
  ghost predicate SameRedemptions(a: seq<Tagged>, b: seq<Tagged>) {
    && Redeeming(a) == Redeeming(b)
    && SentinelCount(a) == SentinelCount(b)
    && TaggedTotal(a, 0) == TaggedTotal(b, 0)
  }

  lemma {:induction false} RedeemingConcat(a: seq<Tagged>, b: seq<Tagged>)
    ensures Redeeming(a + b) == Redeeming(a) + Redeeming(b)
  {
    if a == [] {
      assert a + b == b;
    } else {
      assert (a + b)[1..] == a[1..] + b && (a + b)[0] == a[0];
      RedeemingConcat(a[1..], b);
      Associate(if a[0].role == Withdraw then [a[0]] else [], Redeeming(a[1..]), Redeeming(b));
    }
  }

  lemma {:induction false} IdleRedeemsNothing(ts: seq<Tagged>)
    requires Idle(ts)
    ensures Redeeming(ts) == [] && SentinelCount(ts) == 0 && TaggedTotal(ts, 0) == 0
  {
    if ts != [] {
      IdleRedeemsNothing(ts[1..]);
    }
  }

  lemma IdleInFront(idle: seq<Tagged>, ts: seq<Tagged>)
    requires Idle(idle)
    ensures SameRedemptions(idle + ts, ts)
  {
    IdleRedeemsNothing(idle);
    RedeemingConcat(idle, ts);
    TotalConcat(idle, ts, 0);
  }

  lemma IdleBehind(ts: seq<Tagged>, idle: seq<Tagged>)
    requires Idle(idle)
    ensures SameRedemptions(ts + idle, ts)
  {
    IdleRedeemsNothing(idle);
    RedeemingConcat(ts, idle);
    TotalConcat(ts, idle, 0);
  }

  lemma IdleBetween(a: seq<Tagged>, idle: seq<Tagged>, b: seq<Tagged>)
    requires Idle(idle)
    ensures SameRedemptions(a + idle + b, a + b)
  {
    IdleBehind(a, idle);
    RedeemingConcat(a + idle, b);
    RedeemingConcat(a, b);
    TotalConcat(a + idle, b, 0);
    TotalConcat(a, b, 0);
  }

  /** Unstake in front, cleanup behind, and what is inserted before the first redemption redeem nothing. */
  lemma GuardedRedeemsTheAnswer(input: Input, pre: seq<Instruction>)
    requires Guarded(Decoded(input), pre).Success?
    ensures SameRedemptions(Guarded(Decoded(input), pre).value, Answer(input))
  {
    var u, w, p :=
      TagPlain(Present(input.bundle.unstake), Unstake), Answer(input), TagPlain(Present(input.bundle.post), Post);
    IdleInFront(u, w);
    IdleBehind(u + w, p);
    if pre != [] {
      var first := FirstRedemption(Decoded(input));
      assert Decoded(input) == Decoded(input)[..first] + Decoded(input)[first..];
      IdleBetween(Decoded(input)[..first], TagPlain(pre, Prepare), Decoded(input)[first..]);
    }
  }

  lemma {:induction false} NoRedemptionAnswersNothing(ts: seq<Tagged>)
    requires RolesMatchShares(ts) && FirstRedemption(ts) == -1
    ensures SentinelCount(ts) == 0 && TaggedTotal(ts, 0) == 0
  {
    NoSharesNoTotal(ts, 0);
  }

  // --------------------------------------------------------- resolution

  /** A sentinel comes from an SDK instruction with room for another amount. */
  ghost predicate Rewritable(ts: seq<Tagged>) {
    forall i :: 0 <= i < |ts| && IsSentinel(ts[i]) ==> ts[i].instruction.Sdk? && Rewrite(ts[i].instruction.sdk, 0).Some?
  }

  lemma {:induction false} RewriteSucceeds(ts: seq<Tagged>, remainder: nat)
    requires Rewritable(ts)
    ensures RewriteAll(ts, remainder).Some?
  {
    if ts != [] {
      assert forall i :: 0 <= i < |ts[1..]| ==> ts[1..][i] == ts[i + 1];
      RewriteSucceeds(ts[1..], remainder);
    }
  }

  /** Resolution and the total check together succeed exactly on lists that answer the request. */
  lemma ResolvesExactlyWhen(ts: seq<Tagged>, requested: nat, guarded: bool)
    requires RolesMatchShares(ts) && Rewritable(ts)
    requires 0 < requested <= BURN_ALL_SENTINEL && (requested == BURN_ALL_SENTINEL ==> guarded)
    ensures ResolveBurnAll(ts, requested, guarded).Success?
            && TaggedTotal(ResolveBurnAll(ts, requested, guarded).value, BURN_ALL_SENTINEL) == requested
            <==> Answers(ts, requested)
  {
    RedeemingTotal(ts, 0);
    if SentinelCount(ts) == 0 {
      OneSentinel(ts, BURN_ALL_SENTINEL);
    } else {
      if Answers(ts, requested) {
        RewriteSucceeds(ts, requested - TaggedTotal(ts, 0));
      }
      if ResolveBurnAll(ts, requested, guarded).Success? {
        ResolvedTotal(ts, requested, guarded);
      }
    }
  }

  // -------------------------------------------------------- the theorem

  lemma GuardedIsRewritable(input: Input, pre: seq<Instruction>)
    requires Guarded(Decoded(input), pre).Success?
    ensures RolesMatchShares(Guarded(Decoded(input), pre).value) && Rewritable(Guarded(Decoded(input), pre).value)
  {
    PresentIsSdk(input.bundle.withdraw);
    TagsAreTruthful(Present(input.bundle.withdraw), input.exit.chain.kvault);
    var ts := Guarded(Decoded(input), pre).value;
    forall i | 0 <= i < |ts|
      ensures ts[i].shares.Some? <==> ts[i].role == Withdraw
      ensures IsSentinel(ts[i]) ==> ts[i].instruction.Sdk? && Rewrite(ts[i].instruction.sdk, 0).Some?
    {
      assert ts[i] in TagPlain(pre, Prepare) || ts[i] in Decoded(input);
    }
  }

  /** The redemptions can be settled exactly when the SDK's withdraw list answers the request. */
  lemma RedeemsExactlyWhen(input: Input, requested: nat, c: Consolidation)
    requires 0 < requested <= BURN_ALL_SENTINEL
    ensures Redemptions(input, requested, c).Success? <==> Answers(Answer(input), requested)
  {
    var pre := BeforeRedemption(input, requested, c);
    if Guarded(Decoded(input), pre).Failure? {
      DecodedRoles(input);
      NoRedemptionAnswersNothing(Decoded(input));
      GuardedRedeemsTheAnswer(input, []);
    } else {
      GuardedRedeemsTheAnswer(input, pre);
      GuardedIsRewritable(input, pre);
      ResolvesExactlyWhen(Guarded(Decoded(input), pre).value, requested, BalanceGuard(input.exit, requested).Some?);
    }
  }

  // -------------------------------------------------- what it may invoke

  ghost predicate AllPermitted(input: Input, plan: seq<Instruction>) {
    forall i :: 0 <= i < |plan| ==> ProgramOf(input, plan[i]) in input.permitted
  }

  lemma PermittedJoin(input: Input, a: seq<Instruction>, b: seq<Instruction>)
    ensures AllPermitted(input, a + b) <==> AllPermitted(input, a) && AllPermitted(input, b)
  {
    if AllPermitted(input, a + b) {
      assert forall i :: 0 <= i < |a| ==> a[i] == (a + b)[i];
      assert forall i :: 0 <= i < |b| ==> b[i] == (a + b)[|a| + i];
    }
  }

  lemma OneIsPermitted(input: Input, ins: Instruction)
    ensures AllPermitted(input, [ins]) <==> ProgramOf(input, ins) in input.permitted
  {
    assert [ins][0] == ins;
  }

  /** Resolution never changes which program an instruction invokes. */
  lemma ResolvedKeepsPrograms(input: Input, ts: seq<Tagged>, requested: nat, guarded: bool)
    requires ResolveBurnAll(ts, requested, guarded).Success?
    ensures AllPermitted(input, Instructions(ResolveBurnAll(ts, requested, guarded).value))
            <==> AllPermitted(input, Instructions(ts))
  {
    if SentinelCount(ts) > 0 {
      var remainder := requested - TaggedTotal(Redeeming(ts), 0);
      var out := ResolveBurnAll(ts, requested, guarded).value;
      forall i | 0 <= i < |ts| ensures ProgramOf(input, Instructions(out)[i]) == ProgramOf(input, Instructions(ts)[i]) {
        assert RewriteTagged(ts[i], remainder) == Some(out[i]);
      }
    }
  }

  lemma DecodedIsOutside(input: Input)
    ensures Instructions(Decoded(input)) == Outside(input)
  {
  }

  /** Inserting changes the order only. */
  lemma GuardedIsPermitted(input: Input, pre: seq<Instruction>)
    requires Guarded(Decoded(input), pre).Success?
    ensures AllPermitted(input, Instructions(Guarded(Decoded(input), pre).value))
            <==> AllPermitted(input, Outside(input)) && AllPermitted(input, pre)
  {
    DecodedIsOutside(input);
    if pre != [] {
      var first := FirstRedemption(Decoded(input));
      var front, back := Decoded(input)[..first], Decoded(input)[first..];
      InstructionsConcat(front, TagPlain(pre, Prepare));
      InstructionsConcat(front + TagPlain(pre, Prepare), back);
      InstructionsOfPlain(pre, Prepare);
      PermittedJoin(input, Instructions(front) + pre, Instructions(back));
      PermittedJoin(input, Instructions(front), pre);
      assert Decoded(input) == front + back;
      InstructionsConcat(front, back);
      PermittedJoin(input, Instructions(front), Instructions(back));
    }
  }

  /**
   * What is inserted invokes the account program when it consolidates, and the token program when
   * it moves anything.
   */
  lemma PreIsPermitted(input: Input, requested: nat)
    requires Consolidate(input.exit, requested, input.accounts).Success?
    ensures var ata := AmountIn(input.accounts, input.exit.chain.shareAta);
            AllPermitted(input,
              BeforeRedemption(input, requested, Consolidate(input.exit, requested, input.accounts).value))
            <==> && (requested > ata ==> input.ataProgram in input.permitted)
                 && (requested > ata || requested == BURN_ALL_SENTINEL ==> input.tokenProgram in input.permitted)
  {
    var c := Consolidate(input.exit, requested, input.accounts).value;
    PermittedJoin(input, c.instructions, OptionToSeq(BalanceGuard(input.exit, requested)));
    GuardIsPermitted(input, requested);
    if requested > AmountIn(input.accounts, input.exit.chain.shareAta) {
      var pulls := Pulls(input.accounts, input.exit.chain.shareAta,
        requested - AmountIn(input.accounts, input.exit.chain.shareAta));
      assert Sum(pulls) > 0 && pulls != [];
      TransfersInvoke(input, pulls);
      OneIsPermitted(input, CreateAta(input.exit));
      PermittedJoin(input, [CreateAta(input.exit)], Transfers(input.exit, pulls));
    }
  }

  lemma GuardIsPermitted(input: Input, requested: nat)
    ensures AllPermitted(input, OptionToSeq(BalanceGuard(input.exit, requested)))
            <==> (requested == BURN_ALL_SENTINEL ==> input.tokenProgram in input.permitted)
  {
    if requested == BURN_ALL_SENTINEL {
      OneIsPermitted(input, BalanceGuard(input.exit, requested).value);
    }
  }

  lemma {:induction false} TransfersInvoke(input: Input, pulls: seq<AccountBalance>)
    ensures AllPermitted(input, Transfers(input.exit, pulls)) <==> pulls == [] || input.tokenProgram in input.permitted
  {
    if pulls != [] {
      TransfersInvoke(input, pulls[1..]);
      PermittedJoin(input, [TransferTo(input.exit, pulls[0])], Transfers(input.exit, pulls[1..]));
      OneIsPermitted(input, TransferTo(input.exit, pulls[0]));
    }
  }

  lemma PlanIsPermitted(input: Input, requested: nat)
    requires PlanInstructions(input, requested).Success?
    ensures AllPermitted(input, PlanInstructions(input, requested).value) <==> Permitted(input, requested)
  {
    var c := Consolidate(input.exit, requested, input.accounts).value;
    var ts := Guarded(Decoded(input), BeforeRedemption(input, requested, c)).value;
    var out := Redemptions(input, requested, c).value;
    PermittedJoin(input, Instructions(out), OptionToSeq(Close(input, requested, c)));
    ResolvedKeepsPrograms(input, ts, requested, BalanceGuard(input.exit, requested).Some?);
    GuardedIsPermitted(input, BeforeRedemption(input, requested, c));
    PreIsPermitted(input, requested);
    CloseIsPermitted(input, requested);
  }

  lemma CloseIsPermitted(input: Input, requested: nat)
    requires Consolidate(input.exit, requested, input.accounts).Success?
    ensures AllPermitted(input,
            OptionToSeq(Close(input, requested, Consolidate(input.exit, requested, input.accounts).value)))
            <==> (requested == Sum(input.accounts) ==> input.tokenProgram in input.permitted)
  {
    ClosesExactlyOnFullExit(input.exit, if CreatesShareAccount(input) then input.exit.rentPayer else input.rentRefundTo,
                            requested, input.accounts);
    var close := Close(input, requested, Consolidate(input.exit, requested, input.accounts).value);
    if close.Some? { OneIsPermitted(input, close.value); }
  }

  /**
   * Acceptance, for every input. A plan is built if and only if the mint's scale is at most
   * eighteen, the request is a positive representable amount that the owner's balances cover,
   * within u64 range, the SDK's withdraw list answers it, and every program the plan invokes is
   * permitted. What the other two lists redeem never matters.
   */
  lemma BuiltExactlyWhen(input: Input)
    ensures Built(input) <==>
            && input.exit.chain.shareDecimals <= M.MAX_MINT_DECIMALS
            && Accepted(input).Success?
            && !M.IsZeroAmount(Accepted(input).value)
            && Requested(input) <= Sum(input.accounts) <= BURN_ALL_SENTINEL
            && Answers(Answer(input), Requested(input))
            && Permitted(input, Requested(input))
  {
    if Accepted(input).Success? && !M.IsZeroAmount(Accepted(input).value) {
      var n := M.AcceptedAmount(input.shares, input.exit.chain.shareDecimals);
      ConsolidationCovers(input.exit, n, input.accounts);
      if n <= Sum(input.accounts) <= BURN_ALL_SENTINEL {
        RedeemsExactlyWhen(input, n, Consolidate(input.exit, n, input.accounts).value);
        if PlanInstructions(input, n).Success? {
          PlanIsPermitted(input, n);
        }
      }
    }
  }
}
