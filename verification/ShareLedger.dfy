/**
 * What running a plan does to the owner's share balances. The ledger maps each share-token
 * account of the owner to its balance; a plan runs atomically, so a run either fails and
 * changes nothing (None) or yields the new ledger.
 */
module ShareLedger {
  import opened Wrappers
  import opened KvaultCodec
  import opened MapTotals

  /** One instruction of a plan: the provider's own, or one this code builds. */
  datatype Instruction =
    | Sdk(sdk: SdkInstruction)
    | CreateAssociatedToken(payer: Address, ata: Address, owner: Address, mint: Address)
    | TransferChecked(
        source: Address, mint: Address, destination: Address, authority: Address, amount: nat, decimals: nat)
    | CloseAccount(account: Address, destination: Address, owner: Address)

  type Ledger = map<Address, nat>

  /** The programs and the share mint a plan runs against. */
  datatype Chain = Chain(kvault: Address, shareAta: Address, shareMint: Address, shareDecimals: nat)

  /** The vault burns from the owner's ATA: a literal amount, or everything for the sentinel. */
  function Redeem(l: Ledger, ata: Address, shares: nat): Option<Ledger> {
    if ata !in l then None
    else
      var burned := if shares == BURN_ALL_SENTINEL then l[ata] else shares;
      if burned > l[ata] then None else Some(l[ata := l[ata] - burned])
  }

  /** A self-transfer is validated in full, funds included, and moves nothing. */
  function Transfer(l: Ledger, source: Address, destination: Address, amount: nat): Option<Ledger> {
    if source !in l || destination !in l || amount > l[source] then None
    else if source == destination then Some(l)
    else if l[destination] + amount > BURN_ALL_SENTINEL then None
    else Some(l[source := l[source] - amount][destination := l[destination] + amount])
  }

  function Step(c: Chain, l: Ledger, ins: Instruction): Option<Ledger> {
    match ins
    case Sdk(sdk) =>
      if IsRedemption(sdk, c.kvault) then Redeem(l, c.shareAta, Decode(sdk, c.kvault).value) else Some(l)
    case CreateAssociatedToken(_, ata, _, mint) =>
      if mint != c.shareMint || ata in l then Some(l) else Some(l[ata := 0])
    case TransferChecked(source, mint, destination, _, amount, decimals) =>
      if mint != c.shareMint || decimals != c.shareDecimals then None else Transfer(l, source, destination, amount)
    case CloseAccount(account, _, _) =>
      if account !in l || l[account] != 0 then None else Some(l - {account})
  }

  function Run(c: Chain, l: Ledger, plan: seq<Instruction>): Option<Ledger>
    decreases |plan|
  {
    if plan == [] then Some(l)
    else
      var next := Step(c, l, plan[0]);
      if next.None? then None else Run(c, next.value, plan[1..])
  }

  lemma {:induction false} RunConcat(c: Chain, l: Ledger, first: seq<Instruction>, second: seq<Instruction>)
    ensures Run(c, l, first + second) ==
            if Run(c, l, first).None? then None else Run(c, Run(c, l, first).value, second)
    decreases |first|
  {
    if first == [] {
      assert first + second == second;
    } else {
      assert (first + second)[1..] == first[1..] + second;
      var next := Step(c, l, first[0]);
      if next.Some? {
        RunConcat(c, next.value, first[1..], second);
      }
    }
  }

  // ------------------------------------------------------------------- totals

  /** The supply of a mint is a u64, and so is whatever one owner holds of it. */
  ghost predicate Valid(l: Ledger) {
    Total(l) <= BURN_ALL_SENTINEL
  }

  /** The shares an instruction's bytes name: its u64 argument, or zero when it redeems nothing. */
  function Encoded(c: Chain, ins: Instruction): nat {
    if ins.Sdk? && IsRedemption(ins.sdk, c.kvault) then Decode(ins.sdk, c.kvault).value else 0
  }

  function EncodedTotal(c: Chain, plan: seq<Instruction>): nat {
    if plan == [] then 0 else Encoded(c, plan[0]) + EncodedTotal(c, plan[1..])
  }

  ghost predicate SentinelFree(c: Chain, plan: seq<Instruction>) {
    forall i :: 0 <= i < |plan| ==> Encoded(c, plan[i]) != BURN_ALL_SENTINEL
  }

  /** One step burns exactly what it encodes, or the ATA's whole balance for the sentinel. */
  lemma {:induction false} StepBurns(c: Chain, l: Ledger, ins: Instruction)
    requires Step(c, l, ins).Some?
    ensures var next := Step(c, l, ins).value;
            && (Encoded(c, ins) == BURN_ALL_SENTINEL ==> c.shareAta in l && c.shareAta in next && next[c.shareAta] == 0)
            && Total(l) == Total(next) +
               (if Encoded(c, ins) == BURN_ALL_SENTINEL then l[c.shareAta] else Encoded(c, ins))
  {
    match ins
    case Sdk(sdk) =>
      if c.shareAta in l && IsRedemption(sdk, c.kvault) {
        TotalUpdate(l, c.shareAta, Step(c, l, ins).value[c.shareAta]);
      }
    case CreateAssociatedToken(_, ata, _, _) =>
      TotalUpdate(l, ata, 0);
    case TransferChecked(source, _, destination, _, amount, _) =>
      if source != destination {
        TotalUpdate(l, source, l[source] - amount);
        TotalUpdate(l[source := l[source] - amount], destination, l[destination] + amount);
      }
    case CloseAccount(account, _, _) =>
      TotalRemove(l, account);
  }

  /** A run without the sentinel burns exactly the sum of what its redemptions encode. */
  lemma {:induction false} RunBurns(c: Chain, l: Ledger, plan: seq<Instruction>)
    requires Run(c, l, plan).Some? && SentinelFree(c, plan)
    ensures Total(l) == Total(Run(c, l, plan).value) + EncodedTotal(c, plan)
    decreases |plan|
  {
    if plan != [] {
      StepBurns(c, l, plan[0]);
      RunBurns(c, Step(c, l, plan[0]).value, plan[1..]);
    }
  }

  /** A run never leaves the owner with more. */
  lemma {:induction false} RunNeverGains(c: Chain, l: Ledger, plan: seq<Instruction>)
    requires Run(c, l, plan).Some?
    ensures Total(Run(c, l, plan).value) <= Total(l)
    decreases |plan|
  {
    if plan != [] {
      StepBurns(c, l, plan[0]);
      RunNeverGains(c, Step(c, l, plan[0]).value, plan[1..]);
    }
  }

  // ------------------------------------------- lists the provider returned

  ghost predicate AllSdk(plan: seq<Instruction>) {
    forall i :: 0 <= i < |plan| ==> plan[i].Sdk?
  }

  ghost predicate Quiet(c: Chain, plan: seq<Instruction>) {
    forall i :: 0 <= i < |plan| ==> plan[i].Sdk? && !IsRedemption(plan[i].sdk, c.kvault)
  }

  /** What a list leaves of an ATA balance: literals subtract, the sentinel empties, None if overdrawn. */
  function Drain(c: Chain, plan: seq<Instruction>, balance: nat): Option<nat> {
    if plan == [] then Some(balance)
    else
      var shares := Encoded(c, plan[0]);
      if shares == BURN_ALL_SENTINEL then Drain(c, plan[1..], 0)
      else if shares > balance then None
      else Drain(c, plan[1..], balance - shares)
  }

  lemma {:induction false} DrainNeverGains(c: Chain, plan: seq<Instruction>, balance: nat)
    ensures Drain(c, plan, balance).Some? ==> Drain(c, plan, balance).value <= balance
  {
    if plan != [] {
      var shares := Encoded(c, plan[0]);
      if shares == BURN_ALL_SENTINEL {
        DrainNeverGains(c, plan[1..], 0);
      } else if shares <= balance {
        DrainNeverGains(c, plan[1..], balance - shares);
      }
    }
  }

  /** A list of provider instructions changes the ATA alone; without one it runs only if it redeems nothing. */
  lemma {:induction false} DrainRun(c: Chain, l: Ledger, plan: seq<Instruction>)
    requires AllSdk(plan)
    ensures c.shareAta in l ==>
              Run(c, l, plan) ==
              match Drain(c, plan, l[c.shareAta])
              case None => None
              case Some(left) => Some(l[c.shareAta := left])
    ensures c.shareAta !in l ==> Run(c, l, plan) == if Quiet(c, plan) then Some(l) else None
    decreases |plan|
  {
    if plan == [] {
      assert c.shareAta in l ==> l[c.shareAta := l[c.shareAta]] == l;
    } else {
      assert plan == [plan[0]] + plan[1..];
      assert Quiet(c, plan) <==> !IsRedemption(plan[0].sdk, c.kvault) && Quiet(c, plan[1..]);
      var next := Step(c, l, plan[0]);
      if next.Some? {
        DrainRun(c, next.value, plan[1..]);
        if c.shareAta in l && Drain(c, plan, l[c.shareAta]).Some? {
          var left := Drain(c, plan, l[c.shareAta]).value;
          assert next.value[c.shareAta := left] == l[c.shareAta := left];
        }
      }
    }
  }

  /** The sum of what a list encodes in literal amounts, the sentinel apart. */
  function LiteralTotal(c: Chain, plan: seq<Instruction>): nat {
    if plan == [] then 0
    else (if Encoded(c, plan[0]) == BURN_ALL_SENTINEL then 0 else Encoded(c, plan[0])) + LiteralTotal(c, plan[1..])
  }

  /** Nothing is redeemed by a literal amount once the sentinel has emptied the ATA. */
  predicate NothingAfterBurnAll(c: Chain, plan: seq<Instruction>) {
    plan == []
    || if Encoded(c, plan[0]) == BURN_ALL_SENTINEL
       then LiteralTotal(c, plan[1..]) == 0
       else NothingAfterBurnAll(c, plan[1..])
  }

  lemma {:induction false} NoLiterals(c: Chain, plan: seq<Instruction>)
    requires LiteralTotal(c, plan) == 0
    ensures NothingAfterBurnAll(c, plan)
  {
    if plan != [] {
      NoLiterals(c, plan[1..]);
    }
  }

  lemma SentinelFreeCons(c: Chain, plan: seq<Instruction>)
    requires plan != []
    ensures SentinelFree(c, plan) <==> Encoded(c, plan[0]) != BURN_ALL_SENTINEL && SentinelFree(c, plan[1..])
  {
    assert plan == [plan[0]] + plan[1..];
  }

  /** When a list overdraws, and what it leaves: its literals less, or nothing behind a sentinel. */
  lemma {:induction false} DrainIs(c: Chain, plan: seq<Instruction>, balance: nat)
    ensures Drain(c, plan, balance) ==
            if !NothingAfterBurnAll(c, plan) || LiteralTotal(c, plan) > balance then None
            else Some(if SentinelFree(c, plan) then balance - LiteralTotal(c, plan) else 0)
  {
    if plan != [] {
      SentinelFreeCons(c, plan);
      var rest := plan[1..];
      if Encoded(c, plan[0]) == BURN_ALL_SENTINEL {
        DrainIs(c, rest, 0);
        if LiteralTotal(c, rest) == 0 { NoLiterals(c, rest); }
      } else if Encoded(c, plan[0]) <= balance {
        DrainIs(c, rest, balance - Encoded(c, plan[0]));
      }
    }
  }

  lemma {:induction false} EncodedIs(c: Chain, plan: seq<Instruction>)
    ensures SentinelFree(c, plan) ==> EncodedTotal(c, plan) == LiteralTotal(c, plan)
    ensures !SentinelFree(c, plan) ==> EncodedTotal(c, plan) >= LiteralTotal(c, plan) + BURN_ALL_SENTINEL
  {
    if plan != [] {
      SentinelFreeCons(c, plan);
      EncodedIs(c, plan[1..]);
    }
  }

  /** Without a sentinel nothing can follow one. */
  lemma {:induction false} SentinelFreeSettles(c: Chain, plan: seq<Instruction>)
    requires SentinelFree(c, plan)
    ensures NothingAfterBurnAll(c, plan)
  {
    if plan != [] {
      SentinelFreeCons(c, plan);
      SentinelFreeSettles(c, plan[1..]);
    }
  }

  /**
   * From an ATA holding the largest u64, a list of provider instructions encoding the largest
   * u64 in total burns exactly that, sentinel or not.
   */
  lemma {:induction false} MaximumRunBurns(c: Chain, l: Ledger, plan: seq<Instruction>)
    requires c.shareAta in l && l[c.shareAta] == BURN_ALL_SENTINEL
    requires AllSdk(plan) && EncodedTotal(c, plan) == BURN_ALL_SENTINEL
    ensures Run(c, l, plan) == Some(l[c.shareAta := 0])
  {
    DrainRun(c, l, plan);
    DrainIs(c, plan, BURN_ALL_SENTINEL);
    EncodedIs(c, plan);
    if SentinelFree(c, plan) { SentinelFreeSettles(c, plan); } else { NoLiterals(c, plan); }
  }

  /** Instructions that redeem nothing leave every share balance alone. */
  lemma {:induction false} QuietRun(c: Chain, l: Ledger, plan: seq<Instruction>)
    requires Quiet(c, plan)
    ensures Run(c, l, plan) == Some(l)
    ensures EncodedTotal(c, plan) == LiteralTotal(c, plan) == 0 && SentinelFree(c, plan)
    ensures forall balance: nat :: Drain(c, plan, balance) == Some(balance)
  {
    if plan != [] {
      QuietRun(c, l, plan[1..]);
      SentinelFreeCons(c, plan);
    }
  }
}
