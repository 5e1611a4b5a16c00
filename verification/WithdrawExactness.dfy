/**
 * What a plan of WithdrawPlan promises: what it does on the ledger it was built from, what any
 * successful run of it burns, and exactly when that is the accepted request and nothing else.
 */
module WithdrawExactness {
  import opened Wrappers
  import opened KvaultCodec
  import opened MapTotals
  import opened ShareLedger
  import opened WithdrawInstructions
  import opened WithdrawPlan
  import opened WithdrawExecution
  import opened WithdrawSettlement

  ghost function PlanRun(input: Input, l: Ledger): Option<Ledger>
    requires Built(input)
  {
    Run(input.exit.chain, l, BuildWithdrawPlan(input).value.instructions)
  }

  /** What the unstake and cleanup lists burn beyond the request, in a run that completes. */
  ghost function BurnedOutside(input: Input, requested: nat, l: Ledger): int
    requires Completes(input, requested, l)
  {
    var held := Held(input, requested, l);
    (Balance(l, input.exit.chain.shareAta) - Unstaked(input, l).value)
      + (held - requested - Left(input, requested, held).value)
  }

  /** A plan runs exactly when every step has what it needs, and burns the request and what the outer lists burn. */
  lemma {:induction false} PlanRuns(input: Input, l: Ledger)
    requires Built(input) && Valid(l)
    ensures Accepted(input).Success? && 0 < Requested(input) <= BURN_ALL_SENTINEL
    ensures Consolidate(input.exit, Requested(input), input.accounts).Success?
    ensures PlanRun(input, l).Some? <==> Completes(input, Requested(input), l)
    ensures PlanRun(input, l).Some? ==>
              && Finished(l, PlanRun(input, l), input.exit.chain.shareAta, PullsOf(input, Requested(input)),
                          Requested(input) == Sum(input.accounts),
                          Left(input, Requested(input), Held(input, Requested(input), l)).value)
              && Total(l)
                 == Total(PlanRun(input, l).value) + Requested(input) + BurnedOutside(input, Requested(input), l)
              && Balance(l, input.exit.chain.shareAta) - Unstaked(input, l).value + Held(input, Requested(input), l)
                 <= Total(l)
  {
    RequestIsAccepted(input);
    var prepare, redeem := PlanPhases(input, Requested(input));
    PhasedRuns(input, Requested(input), BuildWithdrawPlan(input).value.instructions, prepare, redeem, l);
  }

  // ------------------------------------------- what the outer lists hold

  /** The lists the planner does not decode redeem nothing. */
  ghost predicate OutsideQuiet(input: Input) {
    Quiet(input.exit.chain, Present(input.bundle.unstake)) && Quiet(input.exit.chain, Present(input.bundle.post))
  }

  /** The literal amounts that the unstake and cleanup lists encode. The planner never decodes these lists. */
  ghost function UnstakeLiterals(input: Input): nat {
    LiteralTotal(input.exit.chain, Present(input.bundle.unstake))
  }

  ghost function CleanupLiterals(input: Input): nat {
    LiteralTotal(input.exit.chain, Present(input.bundle.post))
  }

  ghost predicate UnstakeBurnsAll(input: Input) {
    !SentinelFree(input.exit.chain, Present(input.bundle.unstake))
  }

  ghost predicate CleanupBurnsAll(input: Input) {
    !SentinelFree(input.exit.chain, Present(input.bundle.post))
  }

  /** In each outer list no literal redemption follows one that burns everything. */
  ghost predicate OutsideSettles(input: Input) {
    && NothingAfterBurnAll(input.exit.chain, Present(input.bundle.unstake))
    && NothingAfterBurnAll(input.exit.chain, Present(input.bundle.post))
  }

  /** What a run that completes burns outside, list by list. */
  lemma BurnedOutsideIs(input: Input, requested: nat, l: Ledger)
    requires Completes(input, requested, l)
    ensures OutsideSettles(input) && UnstakeLiterals(input) <= Balance(l, input.exit.chain.shareAta)
    ensures Unstaked(input, l).value
            == if UnstakeBurnsAll(input) then 0 else Balance(l, input.exit.chain.shareAta) - UnstakeLiterals(input)
    ensures var after := Held(input, requested, l) - requested;
            && CleanupLiterals(input) <= after
            && Left(input, requested, Held(input, requested, l)).value
               == if CleanupBurnsAll(input) then 0 else after - CleanupLiterals(input)
  {
    var chain := input.exit.chain;
    var unstake := Present(input.bundle.unstake);
    if chain.shareAta in l { DrainIs(chain, unstake, l[chain.shareAta]); }
    if Quiet(chain, unstake) {
      QuietRun(chain, l, unstake);
      SentinelFreeSettles(chain, unstake);
    }
    DrainIs(chain, Present(input.bundle.post), Held(input, requested, l) - requested);
  }

  // -------------------------------------------------------------- safety

  /** Without a burn-everything redemption in them, what the outer lists burn is what they encode. */
  ghost predicate OutsideSentinelFree(input: Input) {
    !UnstakeBurnsAll(input) && !CleanupBurnsAll(input)
  }

  /**
   * Safety. Whatever the bundle, and whatever the ledger when the plan runs: the run fails and
   * changes nothing, or it burns at least the accepted request; exactly that for the largest
   * request; and otherwise, if nothing outside burns everything, exactly what is encoded outside more.
   */
  lemma {:induction false} RunBurnsRequest(input: Input, l: Ledger)
    requires Built(input) && Valid(l)
    ensures Accepted(input).Success?
    ensures PlanRun(input, l).Some? ==> Total(l) >= Total(PlanRun(input, l).value) + Requested(input)
    ensures PlanRun(input, l).Some? && Requested(input) == BURN_ALL_SENTINEL ==>
              Total(l) == Total(PlanRun(input, l).value) + Requested(input)
    ensures PlanRun(input, l).Some? && OutsideSentinelFree(input) ==>
              Total(l)
                == Total(PlanRun(input, l).value) + Requested(input) + UnstakeLiterals(input) + CleanupLiterals(input)
  {
    PlanRuns(input, l);
    if PlanRun(input, l).Some? {
      BurnedOutsideIs(input, Requested(input), l);
    }
  }

  // ------------------------------------------- on the ledger it was built from

  ghost function BuildLedger(input: Input): Ledger {
    LedgerOf(input.accounts)
  }

  lemma BuildLedgerIs(input: Input)
    requires Accepted(input).Success?
            && Consolidate(input.exit, Requested(input), input.accounts).Success? && Requested(input) > 0
    ensures var l, ata := BuildLedger(input), input.exit.chain.shareAta;
            && Valid(l) && Total(l) == Sum(input.accounts)
            && Balance(l, ata) == AmountIn(input.accounts, ata)
            && Consolidates(input, Requested(input), l)
            && Balance(l, ata) + Sum(PullsOf(input, Requested(input)))
               == Consolidate(input.exit, Requested(input), input.accounts).value.postConsolidationAtaBaseUnits
  {
    LedgerOfBalances(input.accounts);
    PullsOfTotal(input, Requested(input));
    BuildLedgerIsPullable(input, Requested(input));
  }

  lemma BuildLedgerIsPullable(input: Input, requested: nat)
    ensures Pullable(LedgerOf(input.accounts), input.exit.chain.shareAta, PullsOf(input, requested))
  {
    var ata := AmountIn(input.accounts, input.exit.chain.shareAta);
    LedgerOfBalances(input.accounts);
    if requested > ata {
      PullsWithin(input.accounts, input.exit.chain.shareAta, requested - ata);
    }
  }

  /** Neither outer list, nor the redemptions after the unstake list, overdraws the balances seen when building. */
  ghost predicate Undisturbed(input: Input)
    requires Accepted(input).Success?
  {
    && Unstaked(input, BuildLedger(input)).Some?
    && Left(input, Requested(input), Held(input, Requested(input), BuildLedger(input))).Some?
  }

  /**
   * Settlement. On the ledger it was built from, a plan runs to the end if and only if no list
   * overdraws: the close never fails it. Every auxiliary account is then reduced by exactly its
   * transfers, and the ATA is closed exactly on a full exit. Where the outer lists redeem nothing
   * this is always so, and what is left is what consolidation reported beyond the request.
   */
  lemma ExitSettles(input: Input)
    requires Built(input)
    ensures Accepted(input).Success? && Consolidate(input.exit, Requested(input), input.accounts).Success?
    ensures PlanRun(input, BuildLedger(input)).Some? <==> Undisturbed(input)
    ensures Undisturbed(input) ==>
              Finished(BuildLedger(input), PlanRun(input, BuildLedger(input)), input.exit.chain.shareAta,
                       PullsOf(input, Requested(input)), Requested(input) == Sum(input.accounts),
                       Left(input, Requested(input), Held(input, Requested(input), BuildLedger(input))).value)
    ensures OutsideQuiet(input) ==>
              && Undisturbed(input)
              && Left(input, Requested(input), Held(input, Requested(input), BuildLedger(input))).value
                 == Consolidate(input.exit, Requested(input), input.accounts).value.postConsolidationAtaBaseUnits
                    - Requested(input)
  {
    RequestIsAccepted(input);
    var l := BuildLedger(input);
    BuildLedgerIs(input);
    PlanRuns(input, l);
    if Undisturbed(input) {
      CloseNeverFails(input);
    }
    if OutsideQuiet(input) {
      QuietSettles(input);
    }
  }

  lemma {:induction false} QuietSettles(input: Input)
    requires Accepted(input).Success? && Consolidate(input.exit, Requested(input), input.accounts).Success?
    requires Requested(input) > 0 && OutsideQuiet(input)
    ensures Undisturbed(input)
    ensures Left(input, Requested(input), Held(input, Requested(input), BuildLedger(input))).value
            == Consolidate(input.exit, Requested(input), input.accounts).value.postConsolidationAtaBaseUnits
               - Requested(input)
  {
    var l := BuildLedger(input);
    BuildLedgerIs(input);
    QuietRun(input.exit.chain, l, Present(input.bundle.unstake));
    QuietRun(input.exit.chain, l, Present(input.bundle.post));
    PullsOfTotal(input, Requested(input));
  }

  /** A full exit takes everything, so nothing can be left for the close to stumble on. */
  lemma CloseNeverFails(input: Input)
    requires Accepted(input).Success? && Consolidate(input.exit, Requested(input), input.accounts).Success?
    requires Requested(input) > 0 && Undisturbed(input)
    ensures Completes(input, Requested(input), BuildLedger(input))
  {
    BuildLedgerIs(input);
    if Requested(input) == Sum(input.accounts) {
      HeldAtMostReported(input);
      PullsOfTotal(input, Requested(input));
      LeftNeverGains(input, Requested(input), Held(input, Requested(input), BuildLedger(input)));
    }
  }

  lemma LeftNeverGains(input: Input, requested: nat, held: nat)
    ensures Left(input, requested, held).Some? ==>
            requested <= held && Left(input, requested, held).value <= held - requested
  {
    if requested <= held {
      DrainNeverGains(input.exit.chain, Present(input.bundle.post), held - requested);
    }
  }

  lemma HeldAtMostReported(input: Input)
    requires Accepted(input).Success? && Consolidate(input.exit, Requested(input), input.accounts).Success?
    requires Requested(input) > 0 && Unstaked(input, BuildLedger(input)).Some?
    ensures Held(input, Requested(input), BuildLedger(input))
            <= Consolidate(input.exit, Requested(input), input.accounts).value.postConsolidationAtaBaseUnits
  {
    BuildLedgerIs(input);
    UnstakedIsLess(input, BuildLedger(input));
  }

  lemma UnstakedIsLess(input: Input, l: Ledger)
    ensures Unstaked(input, l).Some? ==> Unstaked(input, l).value <= Balance(l, input.exit.chain.shareAta)
  {
    DrainNeverGains(input.exit.chain, Present(input.bundle.unstake), Balance(l, input.exit.chain.shareAta));
  }

  /**
   * That run burns the request and what the outer lists burn; a full exit burns exactly the
   * request and leaves every remaining account empty.
   */
  lemma ExitConserves(input: Input)
    requires Built(input)
    ensures Accepted(input).Success?
    ensures PlanRun(input, BuildLedger(input)).Some? ==>
              var after := PlanRun(input, BuildLedger(input)).value;
              && Completes(input, Requested(input), BuildLedger(input))
              && Sum(input.accounts)
                 == Total(after) + Requested(input) + BurnedOutside(input, Requested(input), BuildLedger(input))
              && (OutsideQuiet(input) ==> Sum(input.accounts) == Total(after) + Requested(input))
              && (Requested(input) == Sum(input.accounts) ==> forall a :: a in after ==> after[a] == 0)
  {
    RequestIsAccepted(input);
    BuildLedgerIs(input);
    PlanRuns(input, BuildLedger(input));
    if PlanRun(input, BuildLedger(input)).Some? {
      OutsideQuietBurnsNothing(input, BuildLedger(input));
      RunBurnsRequest(input, BuildLedger(input));
      NothingLeft(PlanRun(input, BuildLedger(input)).value);
    }
  }

  lemma OutsideQuietBurnsNothing(input: Input, l: Ledger)
    requires Accepted(input).Success? && Completes(input, Requested(input), l)
    ensures OutsideQuiet(input) ==> BurnedOutside(input, Requested(input), l) == 0
  {
    if OutsideQuiet(input) {
      QuietRun(input.exit.chain, l, Present(input.bundle.unstake));
      QuietRun(input.exit.chain, l, Present(input.bundle.post));
    }
  }

  lemma {:induction false} NothingLeft(l: Ledger)
    ensures Total(l) == 0 ==> forall a :: a in l ==> l[a] == 0
  {
    forall a | a in l ensures l[a] <= Total(l) {
      AtMostTotal(l, a);
    }
  }

  /**
   * Consolidation alone, on the ledger it was built from: it runs, keeps the owner's total, and
   * leaves the ATA holding exactly what it reports, which covers the request.
   */
  lemma ConsolidationReportsTruly(input: Input, requested: nat)
    requires Consolidate(input.exit, requested, input.accounts).Success?
    ensures var c := Consolidate(input.exit, requested, input.accounts).value;
            var l := BuildLedger(input);
            var after := Run(input.exit.chain, l, c.instructions);
            && after.Some?
            && Total(after.value) == Total(l)
            && Balance(after.value, input.exit.chain.shareAta) == c.postConsolidationAtaBaseUnits >= requested
  {
    LedgerOfBalances(input.accounts);
    PullsOfTotal(input, requested);
    BuildLedgerIsPullable(input, requested);
    ConsolidationRuns(input, requested, BuildLedger(input));
  }

  // ----------------------------------------------------------- exactness

  /** Every successful run of the plan burns exactly the accepted request. */
  ghost predicate AlwaysBurnsRequest(input: Input)
    requires Built(input) && Accepted(input).Success?
  {
    forall l: Ledger :: Valid(l) && PlanRun(input, l).Some? ==>
      Total(l) == Total(PlanRun(input, l).value) + Requested(input)
  }

  /**
   * Something outside the decoded list can burn shares in a run that completes: the request is
   * not the largest; no list gets stuck behind its own burn-everything; all literals fit in a u64
   * together; and either the unstake list burns everything, which leaves the request to be pulled
   * from other accounts and nothing for cleanup, or cleanup does, or some literal is positive.
   */
  ghost predicate CanOverBurn(input: Input)
    requires Accepted(input).Success?
  {
    && Requested(input) < BURN_ALL_SENTINEL
    && OutsideSettles(input)
    && Requested(input) + UnstakeLiterals(input) + CleanupLiterals(input) <= BURN_ALL_SENTINEL
    && if UnstakeBurnsAll(input)
       then AmountIn(input.accounts, input.exit.chain.shareAta) == 0 && CleanupLiterals(input) == 0
       else CleanupBurnsAll(input) || UnstakeLiterals(input) + CleanupLiterals(input) > 0
  }

  /**
   * Exactness, for every bundle. A plan burns exactly the accepted request in every successful
   * run, if and only if nothing in the lists the planner does not decode can burn shares.
   */
  lemma ExactExactlyWhen(input: Input)
    requires Built(input)
    ensures Accepted(input).Success?
    ensures AlwaysBurnsRequest(input) <==> !CanOverBurn(input)
  {
    RequestIsAccepted(input);
    if CanOverBurn(input) {
      OverBurns(input);
    } else {
      forall l: Ledger | Valid(l) && PlanRun(input, l).Some?
        ensures Total(l) == Total(PlanRun(input, l).value) + Requested(input)
      {
        OtherwiseExact(input, l);
      }
    }
  }

  lemma {:induction false} OtherwiseExact(input: Input, l: Ledger)
    requires Built(input) && Accepted(input).Success? && !CanOverBurn(input)
    requires Valid(l) && PlanRun(input, l).Some?
    ensures Total(l) == Total(PlanRun(input, l).value) + Requested(input)
  {
    PlanRuns(input, l);
    BurnedOutsideIs(input, Requested(input), l);
    PullsOfTotal(input, Requested(input));
    RunBurnsRequest(input, l);
  }

  /** How much the ATA must hold for the plan to run and burn too much. */
  ghost function OverBurningBalance(input: Input): int
    requires Accepted(input).Success?
  {
    var u, p := UnstakeLiterals(input), CleanupLiterals(input);
    if UnstakeBurnsAll(input) then (if u == 0 then 1 else u)
    else Requested(input) + u + (if CleanupBurnsAll(input) && u + p == 0 then 1 else p)
         - Sum(PullsOf(input, Requested(input)))
  }

  ghost function OverBurningLedger(input: Input): Ledger
    requires Accepted(input).Success? && OverBurningBalance(input) >= 0
  {
    LedgerOf(PullsOf(input, Requested(input)))[input.exit.chain.shareAta := OverBurningBalance(input)]
  }

  /** That ledger holds just that and what is pulled, within u64 range. */
  lemma OverBurningLedgerIs(input: Input)
    requires Accepted(input).Success? && Consolidate(input.exit, Requested(input), input.accounts).Success?
    requires CanOverBurn(input) && Requested(input) > 0
    ensures OverBurningBalance(input) >= 0
    ensures var l, pulls := OverBurningLedger(input), PullsOf(input, Requested(input));
            && Valid(l) && Balance(l, input.exit.chain.shareAta) == OverBurningBalance(input)
            && Consolidates(input, Requested(input), l)
  {
    var pulls, ata := PullsOf(input, Requested(input)), input.exit.chain.shareAta;
    PullsOfTotal(input, Requested(input));
    PullsSparesAta(input, Requested(input));
    LedgerOfBalances(pulls);
    AbsentFromPulls(pulls, ata);
    TotalUpdate(LedgerOf(pulls), ata, OverBurningBalance(input));
  }

  /** On a ledger whose ATA holds that balance, what the lists leave and burn. */
  lemma OverBurningLedgerCompletes(input: Input, l: Ledger)
    requires Accepted(input).Success? && Consolidate(input.exit, Requested(input), input.accounts).Success?
    requires CanOverBurn(input) && Requested(input) > 0
    requires input.exit.chain.shareAta in l && l[input.exit.chain.shareAta] == OverBurningBalance(input)
    requires Consolidates(input, Requested(input), l)
    ensures Completes(input, Requested(input), l) && BurnedOutside(input, Requested(input), l) > 0
  {
    OverBurningUnstakes(input, l);
    OverBurningCleansUp(input, Held(input, Requested(input), l));
  }

  /** What the ATA must hold when the redemptions begin for cleanup to leave nothing. */
  ghost function OverBurningHeld(input: Input): nat
    requires Accepted(input).Success?
  {
    Requested(input) +
    if UnstakeBurnsAll(input) then 0
    else if CleanupBurnsAll(input) && UnstakeLiterals(input) + CleanupLiterals(input) == 0 then 1
    else CleanupLiterals(input)
  }

  /** The balance is what a list takes in literals, or more where it burns everything. */
  ghost predicate TakesAll(c: Chain, plan: seq<Instruction>, balance: nat) {
    && NothingAfterBurnAll(c, plan) && LiteralTotal(c, plan) <= balance
    && (SentinelFree(c, plan) ==> balance == LiteralTotal(c, plan))
  }

  lemma {:induction false} DrainTakesAll(c: Chain, plan: seq<Instruction>, balance: nat)
    requires TakesAll(c, plan, balance)
    ensures Drain(c, plan, balance) == Some(0)
  {
    DrainIs(c, plan, balance);
  }

  lemma {:induction false} CleanupTakesAll(input: Input)
    requires Accepted(input).Success? && CanOverBurn(input)
    ensures OverBurningHeld(input) >= Requested(input)
    ensures TakesAll(input.exit.chain, Present(input.bundle.post), OverBurningHeld(input) - Requested(input))
  {
  }

  lemma {:induction false} LeftByCleanup(input: Input, requested: nat, held: nat)
    requires requested <= held && TakesAll(input.exit.chain, Present(input.bundle.post), held - requested)
    ensures Left(input, requested, held) == Some(0)
  {
    DrainTakesAll(input.exit.chain, Present(input.bundle.post), held - requested);
  }

  lemma {:induction false} OverBurningCleansUp(input: Input, held: nat)
    requires Accepted(input).Success? && CanOverBurn(input) && held == OverBurningHeld(input)
    ensures Left(input, Requested(input), held) == Some(0)
  {
    CleanupTakesAll(input);
    LeftByCleanup(input, Requested(input), held);
  }

  /** After the unstake list the ATA lacks nothing that the rest of the plan takes. */
  lemma OverBurningUnstakes(input: Input, l: Ledger)
    requires Accepted(input).Success? && Consolidate(input.exit, Requested(input), input.accounts).Success?
    requires CanOverBurn(input)
    requires input.exit.chain.shareAta in l && l[input.exit.chain.shareAta] == OverBurningBalance(input)
    ensures Unstaked(input, l).Some?
    ensures Held(input, Requested(input), l) == OverBurningHeld(input)
    ensures Balance(l, input.exit.chain.shareAta) - Unstaked(input, l).value + OverBurningHeld(input) > Requested(input)
  {
    PullsOfTotal(input, Requested(input));
    DrainIs(input.exit.chain, Present(input.bundle.unstake), l[input.exit.chain.shareAta]);
  }

  /** On that ledger the plan runs, and burns more than was requested. */
  lemma OverBurns(input: Input)
    requires Built(input) && Accepted(input).Success? && CanOverBurn(input)
    ensures exists l: Ledger :: Valid(l) && PlanRun(input, l).Some?
                                && Total(l) > Total(PlanRun(input, l).value) + Requested(input)
  {
    RequestIsAccepted(input);
    PlanRuns(input, map[]);
    OverBurningLedgerIs(input);
    OverBurningLedgerCompletes(input, OverBurningLedger(input));
    PlanRuns(input, OverBurningLedger(input));
  }
}
