/**
 * What running a plan of WithdrawPlan does on any ledger whatever: exactly when it runs to the
 * end, what it leaves, and what it burns.
 */
module WithdrawSettlement {
  import opened Wrappers
  import opened KvaultCodec
  import opened MapTotals
  import opened ShareLedger
  import opened WithdrawInstructions
  import opened WithdrawPlan
  import opened WithdrawExecution

  /** The ledger that a list of account balances describes. */
  ghost function LedgerOf(accounts: seq<AccountBalance>): Ledger {
    if accounts == [] then map[]
    else
      var l := LedgerOf(accounts[1..]);
      var a := accounts[0].address;
      l[a := (if a in l then l[a] else 0) + accounts[0].amount]
  }

  lemma {:induction false} LedgerOfBalances(accounts: seq<AccountBalance>)
    ensures Total(LedgerOf(accounts)) == Sum(accounts)
    ensures forall a :: a in LedgerOf(accounts) ==> LedgerOf(accounts)[a] == AmountIn(accounts, a)
    ensures forall a :: a !in LedgerOf(accounts) ==> AmountIn(accounts, a) == 0
    ensures forall i :: 0 <= i < |accounts| ==> accounts[i].address in LedgerOf(accounts)
  {
    if accounts != [] {
      var rest := accounts[1..];
      LedgerOfBalances(rest);
      var l, a := LedgerOf(rest), accounts[0].address;
      TotalUpdate(l, a, (if a in l then l[a] else 0) + accounts[0].amount);
      forall i | 0 <= i < |accounts| ensures accounts[i].address in LedgerOf(accounts) {
        assert i > 0 ==> accounts[i] == rest[i - 1];
      }
    }
  }

  /** Pulls come from listed accounts other than the ATA, and never exceed what is there. */
  lemma {:induction false} PullsWithin(accounts: seq<AccountBalance>, ata: Address, remaining: nat)
    ensures forall a :: AmountIn(Pulls(accounts, ata, remaining), a) <= AmountIn(accounts, a)
    ensures forall i :: 0 <= i < |Pulls(accounts, ata, remaining)| ==>
              var p := Pulls(accounts, ata, remaining)[i];
              p.address != ata && p.address in LedgerOf(accounts)
  {
    if accounts != [] && remaining != 0 {
      if accounts[0].address == ata || accounts[0].amount == 0 {
        PullsWithin(accounts[1..], ata, remaining);
      } else {
        var pulls := Pulls(accounts, ata, remaining);
        PullsWithin(accounts[1..], ata, remaining - pulls[0].amount);
        assert pulls[1..] == Pulls(accounts[1..], ata, remaining - pulls[0].amount);
      }
    }
  }

  ghost predicate Pullable(l: Ledger, ata: Address, pulls: seq<AccountBalance>) {
    && (forall i :: 0 <= i < |pulls| ==> pulls[i].address != ata && pulls[i].address in l)
    && (forall a :: a in l && a != ata ==> AmountIn(pulls, a) <= l[a])
  }

  /** The transfers move each pull into the ATA, overdraw nothing, and touch no other account. */
  lemma {:induction false} TransfersRun(e: Exit, l: Ledger, pulls: seq<AccountBalance>)
    requires e.chain.shareAta in l && Pullable(l, e.chain.shareAta, pulls)
    requires l[e.chain.shareAta] + Sum(pulls) <= BURN_ALL_SENTINEL
    ensures Run(e.chain, l, Transfers(e, pulls)).Some?
    ensures var after := Run(e.chain, l, Transfers(e, pulls)).value;
            && after.Keys == l.Keys
            && after[e.chain.shareAta] == l[e.chain.shareAta] + Sum(pulls)
            && forall a :: a in l && a != e.chain.shareAta ==> after[a] == l[a] - AmountIn(pulls, a)
    decreases |pulls|
  {
    var ata := e.chain.shareAta;
    if pulls != [] {
      var p := pulls[0];
      assert AmountIn(pulls, p.address) <= l[p.address];
      var next := l[p.address := l[p.address] - p.amount][ata := l[ata] + p.amount];
      assert Step(e.chain, l, TransferTo(e, p)) == Some(next);
      assert next.Keys == l.Keys;
      forall a | a in next && a != ata ensures AmountIn(pulls[1..], a) <= next[a] {
        assert AmountIn(pulls, a) <= l[a];
      }
      TransfersRun(e, next, pulls[1..]);
      assert Transfers(e, pulls)[1..] == Transfers(e, pulls[1..]);
    }
  }

  /** Whenever the transfers run, every account still held what is pulled from it. */
  lemma {:induction false} TransfersNeedPulls(e: Exit, l: Ledger, pulls: seq<AccountBalance>)
    requires Run(e.chain, l, Transfers(e, pulls)).Some?
    requires forall i :: 0 <= i < |pulls| ==> pulls[i].address != e.chain.shareAta
    ensures Pullable(l, e.chain.shareAta, pulls)
    decreases |pulls|
  {
    if pulls != [] {
      var p := pulls[0];
      assert Transfers(e, pulls)[1..] == Transfers(e, pulls[1..]);
      var next := Step(e.chain, l, TransferTo(e, p)).value;
      TransfersNeedPulls(e, next, pulls[1..]);
      forall i | 0 <= i < |pulls| ensures pulls[i].address in l {
        assert i > 0 ==> pulls[i] == pulls[1..][i - 1];
      }
    }
  }

  /** What consolidation moves into the ATA. */
  ghost function PullsOf(input: Input, requested: nat): seq<AccountBalance> {
    var ata := AmountIn(input.accounts, input.exit.chain.shareAta);
    if requested <= ata then [] else Pulls(input.accounts, input.exit.chain.shareAta, requested - ata)
  }

  ghost function Balance(l: Ledger, a: Address): nat {
    if a in l then l[a] else 0
  }

  /** The run ended: each account gave up its pulls, and the ATA holds the given balance. */
  ghost predicate Settled(
    before: Ledger, after: Option<Ledger>, ata: Address, pulls: seq<AccountBalance>, ataBalance: nat)
  {
    && after.Some?
    && after.value.Keys == before.Keys + {ata}
    && after.value[ata] == ataBalance
    && forall a :: a in before && a != ata ==>
         AmountIn(pulls, a) <= before[a] && after.value[a] == before[a] - AmountIn(pulls, a)
  }

  lemma PullsSparesAta(input: Input, requested: nat)
    ensures forall i :: 0 <= i < |PullsOf(input, requested)| ==>
              PullsOf(input, requested)[i].address != input.exit.chain.shareAta
  {
    if requested > AmountIn(input.accounts, input.exit.chain.shareAta) {
      PullsWithin(input.accounts, input.exit.chain.shareAta,
        requested - AmountIn(input.accounts, input.exit.chain.shareAta));
    }
  }

  lemma PullsOfTotal(input: Input, requested: nat)
    requires Consolidate(input.exit, requested, input.accounts).Success?
    ensures var ata := AmountIn(input.accounts, input.exit.chain.shareAta);
            && Sum(PullsOf(input, requested)) == (if requested <= ata then 0 else requested - ata)
            && ata + Sum(PullsOf(input, requested)) ==
               Consolidate(input.exit, requested, input.accounts).value.postConsolidationAtaBaseUnits
            && ata <= Sum(input.accounts) <= BURN_ALL_SENTINEL
            && requested <= Sum(input.accounts)
  {
    var ata := AmountIn(input.accounts, input.exit.chain.shareAta);
    PullsTotal(input.accounts, input.exit.chain.shareAta, if requested <= ata then 0 else requested - ata);
  }

  /** What is pulled and what the ATA holds fit in the owner's total together. */
  lemma {:induction false} PulledWithinTotal(l: Ledger, ata: Address, pulls: seq<AccountBalance>)
    requires Pullable(l, ata, pulls)
    ensures Balance(l, ata) + Sum(pulls) <= Total(l)
  {
    LedgerOfBalances(pulls);
    AbsentFromPulls(pulls, ata);
    forall a | a in LedgerOf(pulls) ensures a in l - {ata} && LedgerOf(pulls)[a] <= (l - {ata})[a] {
      ListedInPulls(pulls, a);
    }
    TotalMonotone(LedgerOf(pulls), l - {ata});
    if ata in l { TotalRemove(l, ata); } else { assert l - {ata} == l; }
  }

  lemma {:induction false} ListedInPulls(pulls: seq<AccountBalance>, a: Address)
    requires a in LedgerOf(pulls)
    ensures exists i :: 0 <= i < |pulls| && pulls[i].address == a
  {
    if pulls[0].address != a {
      ListedInPulls(pulls[1..], a);
      var i :| 0 <= i < |pulls[1..]| && pulls[1..][i].address == a;
      assert pulls[i + 1].address == a;
    } else {
      assert pulls[0].address == a;
    }
  }

  lemma {:induction false} AbsentFromPulls(pulls: seq<AccountBalance>, a: Address)
    requires forall i :: 0 <= i < |pulls| ==> pulls[i].address != a
    ensures a !in LedgerOf(pulls)
  {
    if pulls != [] {
      AbsentFromPulls(pulls[1..], a);
    }
  }

  // -------------------------------------------------- consolidation runs

  /** Consolidation runs exactly on the ledgers that still hold what it pulls, and conserves the total. */
  lemma {:induction false} ConsolidationRuns(input: Input, requested: nat, l: Ledger)
    requires Consolidate(input.exit, requested, input.accounts).Success? && Valid(l)
    ensures var chain := input.exit.chain;
            var after := Run(chain, l, Consolidate(input.exit, requested, input.accounts).value.instructions);
            && (after.Some? <==> Pullable(l, chain.shareAta, PullsOf(input, requested)))
            && (after.Some? ==> Total(after.value) == Total(l))
            && (after.Some? && (chain.shareAta in l || requested > AmountIn(input.accounts, chain.shareAta)) ==>
                  Settled(l, after, chain.shareAta, PullsOf(input, requested),
                          Balance(l, chain.shareAta) + Sum(PullsOf(input, requested))))
            && (requested <= AmountIn(input.accounts, chain.shareAta) ==> after == Some(l))
  {
    var e := input.exit;
    var c := Consolidate(e, requested, input.accounts).value;
    ConsolidationConserves(input, requested, l);
    if requested > AmountIn(input.accounts, e.chain.shareAta) {
      CreatedRuns(input, requested, l);
    } else {
      assert c.instructions == [];
    }
  }

  lemma {:induction false} ConsolidationConserves(input: Input, requested: nat, l: Ledger)
    requires Consolidate(input.exit, requested, input.accounts).Success?
    ensures var after :=
            Run(input.exit.chain, l, Consolidate(input.exit, requested, input.accounts).value.instructions);
            after.Some? ==> Total(after.value) == Total(l)
  {
    var c := Consolidate(input.exit, requested, input.accounts).value;
    TransfersAreBuiltHere(input.exit, PullsOf(input, requested));
    BuiltHereEncodesNothing(input.exit.chain, c.instructions);
    if Run(input.exit.chain, l, c.instructions).Some? {
      RunBurns(input.exit.chain, l, c.instructions);
    }
  }

  lemma {:induction false} CreatedRuns(input: Input, requested: nat, l: Ledger)
    requires Consolidate(input.exit, requested, input.accounts).Success? && Valid(l)
    requires requested > AmountIn(input.accounts, input.exit.chain.shareAta)
    ensures var chain := input.exit.chain;
            var after := Run(chain, l, Consolidate(input.exit, requested, input.accounts).value.instructions);
            && (after.Some? <==> Pullable(l, chain.shareAta, PullsOf(input, requested)))
            && (after.Some? ==> Settled(l, after, chain.shareAta, PullsOf(input, requested),
                                        Balance(l, chain.shareAta) + Sum(PullsOf(input, requested))))
  {
    var e, ata, pulls := input.exit, input.exit.chain.shareAta, PullsOf(input, requested);
    PullsSparesAta(input, requested);
    var created := Step(e.chain, l, CreateAta(e)).value;
    assert created == if ata in l then l else l[ata := 0];
    assert Consolidate(e, requested, input.accounts).value.instructions == [CreateAta(e)] + Transfers(e, pulls);
    RunConcat(e.chain, l, [CreateAta(e)], Transfers(e, pulls));
    assert Run(e.chain, l, [CreateAta(e)]) == Some(created);
    assert Pullable(created, ata, pulls) <==> Pullable(l, ata, pulls);
    if Run(e.chain, created, Transfers(e, pulls)).Some? {
      TransfersNeedPulls(e, created, pulls);
    }
    if Pullable(l, ata, pulls) {
      PulledWithinTotal(l, ata, pulls);
      TransfersRun(e, created, pulls);
    }
  }

  // ----------------------------------------------------- the whole plan

  /** The ATA's balance once the unstake list has run, if it can. Where there is no ATA it must not redeem. */
  ghost function Unstaked(input: Input, l: Ledger): Option<nat> {
    var chain := input.exit.chain;
    if chain.shareAta in l then Drain(chain, Present(input.bundle.unstake), l[chain.shareAta])
    else if Quiet(chain, Present(input.bundle.unstake)) then Some(0)
    else None
  }

  /** The ATA's balance when the redemptions begin. */
  ghost function Held(input: Input, requested: nat, l: Ledger): nat
    requires Unstaked(input, l).Some?
  {
    Unstaked(input, l).value + Sum(PullsOf(input, requested))
  }

  /** The ATA exists when the redemptions begin, and the accounts to pull from hold enough. */
  ghost predicate Consolidates(input: Input, requested: nat, l: Ledger) {
    && Pullable(l, input.exit.chain.shareAta, PullsOf(input, requested))
    && (input.exit.chain.shareAta in l || requested > AmountIn(input.accounts, input.exit.chain.shareAta))
  }

  /** The ATA's balance once the redemptions and then the cleanup list have run. */
  ghost function Left(input: Input, requested: nat, held: nat): Option<nat> {
    if requested <= held then Drain(input.exit.chain, Present(input.bundle.post), held - requested) else None
  }

  /** Every step of the plan has what it needs, the close of a full exit included. */
  ghost predicate Completes(input: Input, requested: nat, l: Ledger) {
    && Consolidates(input, requested, l)
    && Unstaked(input, l).Some?
    && Left(input, requested, Held(input, requested, l)).Some?
    && (requested == Sum(input.accounts) ==> Left(input, requested, Held(input, requested, l)).value == 0)
  }

  /** The exit is done: each account gave up its pulls, and the ATA is closed or keeps what is left. */
  ghost predicate Finished(
    before: Ledger, after: Option<Ledger>, ata: Address, pulls: seq<AccountBalance>, closed: bool, left: int)
  {
    && after.Some?
    && after.value.Keys == (if closed then before.Keys - {ata} else before.Keys + {ata})
    && (closed ==> left == 0)
    && (!closed ==> after.value[ata] == left)
    && forall a :: a in before && a != ata ==>
         AmountIn(pulls, a) <= before[a] && after.value[a] == before[a] - AmountIn(pulls, a)
  }

  /** What the unstake list does: less in the ATA, everything else as it was. */
  lemma {:induction false} UnstakeRuns(input: Input, l: Ledger)
    ensures var chain := input.exit.chain;
            var after := Run(chain, l, Present(input.bundle.unstake));
            && (after.Some? <==> Unstaked(input, l).Some?)
            && (after.Some? ==>
                  && after.value.Keys == l.Keys
                  && Balance(after.value, chain.shareAta) == Unstaked(input, l).value
                  && Total(after.value) == Total(l) - Balance(l, chain.shareAta) + Unstaked(input, l).value
                  && forall a :: a in l && a != chain.shareAta ==> after.value[a] == l[a])
  {
    var chain := input.exit.chain;
    PresentIsSdk(input.bundle.unstake);
    DrainRun(chain, l, Present(input.bundle.unstake));
    if chain.shareAta in l && Unstaked(input, l).Some? {
      TotalUpdate(l, chain.shareAta, Unstaked(input, l).value);
    }
  }

  lemma {:induction false} GuardRuns(input: Input, requested: nat, l: Ledger)
    requires requested <= BURN_ALL_SENTINEL
    ensures var chain := input.exit.chain;
            Run(chain, l, OptionToSeq(BalanceGuard(input.exit, requested))) ==
            if requested == BURN_ALL_SENTINEL && Balance(l, chain.shareAta) < requested then None else Some(l)
  {
    var guard := OptionToSeq(BalanceGuard(input.exit, requested));
    if guard != [] {
      assert guard[1..] == [];
      assert Run(input.exit.chain, l, guard) == Step(input.exit.chain, l, guard[0]);
    }
  }

  /** Three lists run one after the other. */
  lemma {:induction false} RunInTurn(
    chain: Chain, l: Ledger, a: seq<Instruction>, b: seq<Instruction>, c: seq<Instruction>)
    ensures var l1 := Run(chain, l, a);
            var l2 := if l1.Some? then Run(chain, l1.value, b) else None;
            Run(chain, l, a + b + c) == if l2.Some? then Run(chain, l2.value, c) else None
  {
    RunConcat(chain, l, a + b, c);
    RunConcat(chain, l, a, b);
  }

  /** Unstake list and prerequisites: the latter change nothing. */
  lemma {:induction false} FrontRuns(input: Input, prepare: seq<Instruction>, l: Ledger)
    requires Quiet(input.exit.chain, prepare)
    ensures Run(input.exit.chain, l, Present(input.bundle.unstake) + prepare)
            == Run(input.exit.chain, l, Present(input.bundle.unstake))
  {
    RunConcat(input.exit.chain, l, Present(input.bundle.unstake), prepare);
    var after := Run(input.exit.chain, l, Present(input.bundle.unstake));
    if after.Some? { QuietRun(input.exit.chain, after.value, prepare); }
  }

  /** Everything before the redemptions leaves the ATA with what they will find, or stops, or leaves no ATA. */
  lemma {:induction false} HeadRuns(input: Input, requested: nat, prepare: seq<Instruction>, l: Ledger)
    requires Consolidate(input.exit, requested, input.accounts).Success? && Quiet(input.exit.chain, prepare)
    requires Valid(l) && 0 < requested <= BURN_ALL_SENTINEL
    ensures var chain := input.exit.chain;
            var after := Run(chain, l, Head(input, requested, prepare));
            if Consolidates(input, requested, l) && Unstaked(input, l).Some?
               && (requested == BURN_ALL_SENTINEL ==> Held(input, requested, l) >= requested)
            then && Settled(l, after, chain.shareAta, PullsOf(input, requested), Held(input, requested, l))
                 && Total(after.value) == Total(l) - Balance(l, chain.shareAta) + Unstaked(input, l).value
            else after.None? || chain.shareAta !in after.value
  {
    var chain := input.exit.chain;
    var c := Consolidate(input.exit, requested, input.accounts).value;
    var guard := OptionToSeq(BalanceGuard(input.exit, requested));
    var front := Present(input.bundle.unstake) + prepare;
    assert Head(input, requested, prepare) == front + c.instructions + guard;
    RunInTurn(chain, l, front, c.instructions, guard);
    FrontRuns(input, prepare, l);
    UnstakeRuns(input, l);
    if Unstaked(input, l).Some? {
      var l1 := Run(chain, l, front).value;
      UnstakedConsolidates(input, requested, l, l1);
      if Run(chain, l1, c.instructions).Some? {
        GuardRuns(input, requested, Run(chain, l1, c.instructions).value);
      }
    }
  }

  /** Consolidation after the unstake list, in terms of the ledger before it. */
  lemma {:induction false} UnstakedConsolidates(input: Input, requested: nat, l: Ledger, l1: Ledger)
    requires Consolidate(input.exit, requested, input.accounts).Success? && Valid(l)
    requires Unstaked(input, l).Some? && Run(input.exit.chain, l, Present(input.bundle.unstake)) == Some(l1)
    ensures var chain := input.exit.chain;
            var after := Run(chain, l1, Consolidate(input.exit, requested, input.accounts).value.instructions);
            if Consolidates(input, requested, l)
            then && Settled(l, after, chain.shareAta, PullsOf(input, requested), Held(input, requested, l))
                 && Total(after.value) == Total(l1)
            else after.None? || chain.shareAta !in after.value
  {
    UnstakeRuns(input, l);
    RunNeverGains(input.exit.chain, l, Present(input.bundle.unstake));
    ConsolidationRuns(input, requested, l1);
    assert Pullable(l1, input.exit.chain.shareAta, PullsOf(input, requested))
      <==> Pullable(l, input.exit.chain.shareAta, PullsOf(input, requested));
  }

  /** The decoded redemptions take exactly the request, or fail for want of it. */
  lemma {:induction false} RedemptionsRun(chain: Chain, l: Ledger, redeem: seq<Instruction>, requested: nat)
    requires AllSdk(redeem) && EncodedTotal(chain, redeem) == requested && 0 < requested <= BURN_ALL_SENTINEL
    requires requested != BURN_ALL_SENTINEL ==> SentinelFree(chain, redeem)
    requires chain.shareAta in l ==> l[chain.shareAta] <= BURN_ALL_SENTINEL
    requires chain.shareAta in l && requested == BURN_ALL_SENTINEL ==> l[chain.shareAta] == requested
    ensures Run(chain, l, redeem) ==
            if chain.shareAta in l && requested <= l[chain.shareAta]
            then Some(l[chain.shareAta := l[chain.shareAta] - requested]) else None
  {
    if chain.shareAta !in l {
      DrainRun(chain, l, redeem);
      if Quiet(chain, redeem) { QuietRun(chain, l, redeem); }
    } else if requested == BURN_ALL_SENTINEL {
      MaximumRunBurns(chain, l, redeem);
    } else {
      DrainRun(chain, l, redeem);
      DrainIs(chain, redeem, l[chain.shareAta]);
      EncodedIs(chain, redeem);
      SentinelFreeSettles(chain, redeem);
    }
  }

  /** Cleanup and close, from an ATA that exists. */
  lemma {:induction false} TailRuns(input: Input, requested: nat, l: Ledger)
    requires Consolidate(input.exit, requested, input.accounts).Success? && input.exit.chain.shareAta in l
    ensures var chain, ata := input.exit.chain, input.exit.chain.shareAta;
            var left := Drain(chain, Present(input.bundle.post), l[ata]);
            Run(chain, l, Tail(input, requested)) ==
            if left.None? || (requested == Sum(input.accounts) && left.value != 0) then None
            else Some(if requested == Sum(input.accounts) then l - {ata} else l[ata := left.value])
  {
    var chain, ata := input.exit.chain, input.exit.chain.shareAta;
    var post := Present(input.bundle.post);
    var closing := Closing(input, requested, Consolidate(input.exit, requested, input.accounts).value);
    PresentIsSdk(input.bundle.post);
    DrainRun(chain, l, post);
    RunConcat(chain, l, post, closing);
    ClosesExactlyOnFullExit(input.exit, if CreatesShareAccount(input) then input.exit.rentPayer else input.rentRefundTo,
                            requested, input.accounts);
    if Drain(chain, post, l[ata]).Some? {
      var left := Drain(chain, post, l[ata]).value;
      Overwritten(l, ata, left, left);
      if requested == Sum(input.accounts) {
        assert closing[1..] == [];
        assert Run(chain, l[ata := left], closing) == Step(chain, l[ata := left], closing[0]);
      } else {
        assert closing == [];
      }
    }
  }

  lemma Overwritten(l: Ledger, a: Address, x: nat, y: nat)
    requires a in l
    ensures l[a := x] - {a} == l - {a} && l[a := x][a := y] == l[a := y]
  {
  }

  /** The ledger once the ATA holds `left`, and is closed on a full exit. */
  ghost function Concluded(l: Ledger, ata: Address, left: Option<nat>, full: bool): Option<Ledger> {
    if left.None? || (full && left.value != 0) then None else Some(if full then l - {ata} else l[ata := left.value])
  }

  ghost function LeftOf(input: Input, requested: nat, l: Ledger): Option<nat> {
    if input.exit.chain.shareAta in l then Left(input, requested, l[input.exit.chain.shareAta]) else None
  }

  /** Redemptions, cleanup and close together, from what the head leaves. */
  lemma {:induction false} BackRuns(input: Input, requested: nat, redeem: seq<Instruction>, l: Ledger)
    requires Consolidate(input.exit, requested, input.accounts).Success? && 0 < requested <= BURN_ALL_SENTINEL
    requires AllSdk(redeem) && EncodedTotal(input.exit.chain, redeem) == requested
    requires requested != BURN_ALL_SENTINEL ==> SentinelFree(input.exit.chain, redeem)
    requires Valid(l)
    requires input.exit.chain.shareAta in l && requested == BURN_ALL_SENTINEL ==>
            l[input.exit.chain.shareAta] >= requested
    ensures Run(input.exit.chain, l, redeem + Tail(input, requested)) ==
            Concluded(l, input.exit.chain.shareAta, LeftOf(input, requested, l), requested == Sum(input.accounts))
  {
    var chain, ata := input.exit.chain, input.exit.chain.shareAta;
    if ata in l { AtMostTotal(l, ata); }
    RedemptionsRun(chain, l, redeem, requested);
    RunConcat(chain, l, redeem, Tail(input, requested));
    if ata in l && requested <= l[ata] {
      TailConcludes(input, requested, l);
    }
  }

  lemma TailConcludes(input: Input, requested: nat, l: Ledger)
    requires Consolidate(input.exit, requested, input.accounts).Success?
    requires input.exit.chain.shareAta in l && requested <= l[input.exit.chain.shareAta]
    ensures var ata := input.exit.chain.shareAta;
            Run(input.exit.chain, l[ata := l[ata] - requested], Tail(input, requested)) ==
            Concluded(l, ata, LeftOf(input, requested, l), requested == Sum(input.accounts))
  {
    var ata := input.exit.chain.shareAta;
    TailRuns(input, requested, l[ata := l[ata] - requested]);
    if Left(input, requested, l[ata]).Some? {
      Overwritten(l, ata, l[ata] - requested, Left(input, requested, l[ata]).value);
    }
  }

  /** The whole plan: its head, then the rest from wherever the head leads. */
  lemma {:induction false} PlanSplits(
    input: Input, requested: nat, plan: seq<Instruction>, prepare: seq<Instruction>, redeem: seq<Instruction>,
    l: Ledger)
    requires Phased(input, requested, plan, prepare, redeem) && 0 < requested <= BURN_ALL_SENTINEL && Valid(l)
    requires var l2 := Run(input.exit.chain, l, Head(input, requested, prepare));
             l2.Some? && input.exit.chain.shareAta in l2.value && requested == BURN_ALL_SENTINEL
             ==> l2.value[input.exit.chain.shareAta] >= requested
    ensures var l2 := Run(input.exit.chain, l, Head(input, requested, prepare));
            Run(input.exit.chain, l, plan) ==
            if l2.None? then None
            else Concluded(l2.value, input.exit.chain.shareAta, LeftOf(input, requested, l2.value),
                           requested == Sum(input.accounts))
  {
    var chain, head, tail := input.exit.chain, Head(input, requested, prepare), Tail(input, requested);
    PhasesInOrder(input, requested, plan, prepare, redeem);
    assert plan == head + (redeem + tail);
    RunConcat(chain, l, head, redeem + tail);
    if Run(chain, l, head).Some? {
      RunNeverGains(chain, l, head);
      BackRuns(input, requested, redeem, Run(chain, l, head).value);
    }
  }

  /** From what the head leaves to what the plan leaves, the total included. */
  lemma {:induction false} ConcludedIs(
    before: Ledger, middle: Ledger, ata: Address, pulls: seq<AccountBalance>, held: nat, left: nat, full: bool)
    requires Settled(before, Some(middle), ata, pulls, held) && Concluded(middle, ata, Some(left), full).Some?
    ensures var after := Concluded(middle, ata, Some(left), full);
            Finished(before, after, ata, pulls, full, left) && Total(after.value) == Total(middle) - held + left
    ensures held <= Total(middle)
  {
    AtMostTotal(middle, ata);
    TotalRemove(middle, ata);
    TotalUpdate(middle, ata, left);
  }

  /**
   * On every ledger, a plan runs to the end exactly when `Completes` holds; what it then leaves
   * and burns is settled by the balances alone.
   */
  lemma {:induction false} PhasedRuns(
    input: Input, requested: nat, plan: seq<Instruction>, prepare: seq<Instruction>, redeem: seq<Instruction>,
    l: Ledger)
    requires Phased(input, requested, plan, prepare, redeem) && 0 < requested <= BURN_ALL_SENTINEL && Valid(l)
    ensures var chain := input.exit.chain;
            var after := Run(chain, l, plan);
            && (after.Some? <==> Completes(input, requested, l))
            && (after.Some? ==>
                  var held := Held(input, requested, l);
                  var left := Left(input, requested, held).value;
                  && Finished(l, after, chain.shareAta, PullsOf(input, requested),
                              requested == Sum(input.accounts), left)
                  && Total(l)
                     == Total(after.value) + (Balance(l, chain.shareAta) - Unstaked(input, l).value) + (held - left)
                  && Balance(l, chain.shareAta) - Unstaked(input, l).value + held <= Total(l))
  {
    HeadRuns(input, requested, prepare, l);
    HeadMeetsRequest(input, requested, prepare, l);
    PlanSplits(input, requested, plan, prepare, redeem, l);
    HeldIsEnough(input, requested, l);
    if Completes(input, requested, l) {
      ConcludedIs(l, Run(input.exit.chain, l, Head(input, requested, prepare)).value, input.exit.chain.shareAta,
                  PullsOf(input, requested), Held(input, requested, l),
                  Left(input, requested, Held(input, requested, l)).value, requested == Sum(input.accounts));
    }
  }

  /** The guard: for the largest request the head only leaves an ATA that holds it. */
  lemma {:induction false} HeadMeetsRequest(input: Input, requested: nat, prepare: seq<Instruction>, l: Ledger)
    requires Consolidate(input.exit, requested, input.accounts).Success? && Quiet(input.exit.chain, prepare)
    requires Valid(l) && 0 < requested <= BURN_ALL_SENTINEL
    ensures var l2 := Run(input.exit.chain, l, Head(input, requested, prepare));
            l2.Some? && input.exit.chain.shareAta in l2.value && requested == BURN_ALL_SENTINEL
            ==> l2.value[input.exit.chain.shareAta] >= requested
  {
    HeadRuns(input, requested, prepare, l);
  }

  lemma HeldIsEnough(input: Input, requested: nat, l: Ledger)
    ensures Completes(input, requested, l) ==> requested <= Held(input, requested, l)
  {
  }
}
