/**
 * The pieces of a K-Vault exit: consolidation into the ATA, the maximum-balance guard, the
 * resolution of the burn-all sentinel, and the account close.
 * Models packages/sdp-kamino/src/withdraw-instructions.ts and share-balances.ts.
 */
module WithdrawInstructions {
  import opened Wrappers
  import opened KvaultCodec
  import opened ShareLedger
  import D = DecimalAmount

  datatype KaminoError = InvalidAmount | VaultUnreadable | ProgramMismatch

  datatype AccountBalance = AccountBalance(address: Address, amount: nat)

  function Sum(accounts: seq<AccountBalance>): nat {
    if accounts == [] then 0 else accounts[0].amount + Sum(accounts[1..])
  }

  // ------------------------------------------------- reading the balances

  /** One entry of the RPC response: the account's address and its raw amount, where present. */
  datatype RpcEntry = RpcEntry(pubkey: Option<string>, rawAmount: Option<string>)

  function ReadRawAmount(entry: RpcEntry): Result<nat, KaminoError> {
    if entry.rawAmount.Some? && entry.rawAmount.value != "" && D.AllDigits(entry.rawAmount.value)
    then Success(D.NatOf(entry.rawAmount.value))
    else Failure(VaultUnreadable)
  }

  function ParseBalances(entries: seq<RpcEntry>, isAddress: string -> bool): Result<seq<AccountBalance>, KaminoError> {
    if entries == [] then Success([])
    else
      var head := entries[0];
      if head.pubkey.None? || !isAddress(head.pubkey.value) || ReadRawAmount(head).Failure?
      then Failure(VaultUnreadable)
      else
        var tail := ParseBalances(entries[1..], isAddress);
        if tail.Failure? then tail
        else Success([AccountBalance(head.pubkey.value, ReadRawAmount(head).value)] + tail.value)
  }

  /** The position reader's total: every entry counts, and one unreadable amount fails the sum. */
  function SumRaw(entries: seq<RpcEntry>): Result<nat, KaminoError> {
    if entries == [] then Success(0)
    else if ReadRawAmount(entries[0]).Failure? || SumRaw(entries[1..]).Failure? then Failure(VaultUnreadable)
    else Success(ReadRawAmount(entries[0]).value + SumRaw(entries[1..]).value)
  }

  method SumRawTokenAccountBaseUnits(entries: seq<RpcEntry>) returns (total: Result<nat, KaminoError>)
    ensures total == SumRaw(entries)
  {
    var sum: nat := 0;
    for k := 0 to |entries|
      invariant SumRaw(entries[k..]).Success? <==> SumRaw(entries).Success?
      invariant SumRaw(entries).Success? ==> SumRaw(entries).value == sum + SumRaw(entries[k..]).value
    {
      var amount := ReadRawAmount(entries[k]);
      assert entries[k..][1..] == entries[k + 1..];
      if amount.Failure? { return Failure(VaultUnreadable); }
      sum := sum + amount.value;
    }
    return Success(sum);
  }

  predicate HasAddress(entry: RpcEntry, isAddress: string -> bool) {
    entry.pubkey.Some? && isAddress(entry.pubkey.value)
  }

  /**
   * The exit planner reads what the position reader reads exactly when every entry also has a
   * usable address, and then they agree on the total. Otherwise a position may be shown that no
   * exit can be planned for.
   */
  lemma {:induction false} PositionTotalAgrees(entries: seq<RpcEntry>, isAddress: string -> bool)
    ensures ParseBalances(entries, isAddress).Success?
            <==> SumRaw(entries).Success? && forall i :: 0 <= i < |entries| ==> HasAddress(entries[i], isAddress)
    ensures ParseBalances(entries, isAddress).Success? ==>
              SumRaw(entries) == Success(Sum(ParseBalances(entries, isAddress).value))
  {
    if entries != [] {
      var rest := entries[1..];
      PositionTotalAgrees(rest, isAddress);
      assert entries == [entries[0]] + rest;
      assert (forall i :: 0 <= i < |entries| ==> HasAddress(entries[i], isAddress))
        <==> HasAddress(entries[0], isAddress) && forall i :: 0 <= i < |rest| ==> HasAddress(rest[i], isAddress);
      if ParseBalances(entries, isAddress).Success? {
        assert ParseBalances(entries, isAddress).value[1..] == ParseBalances(rest, isAddress).value;
      }
    }
  }

  // ------------------------------------------------------- consolidation

  datatype Consolidation = Consolidation(
    instructions: seq<Instruction>, totalBaseUnits: nat, postConsolidationAtaBaseUnits: nat)

  /** The parties and mint of one exit. */
  datatype Exit = Exit(chain: Chain, owner: Address, rentPayer: Option<Address>)

  /** The build-time balance of one address, summed over the listed accounts. */
  function AmountIn(accounts: seq<AccountBalance>, a: Address): nat {
    if accounts == [] then 0
    else (if accounts[0].address == a then accounts[0].amount else 0) + AmountIn(accounts[1..], a)
  }

  /** How much to take from which auxiliary account, in listed order, until `remaining` is covered. */
  function Pulls(accounts: seq<AccountBalance>, ata: Address, remaining: nat): seq<AccountBalance> {
    if accounts == [] || remaining == 0 then []
    else if accounts[0].address == ata || accounts[0].amount == 0 then Pulls(accounts[1..], ata, remaining)
    else
      var amount := if accounts[0].amount < remaining then accounts[0].amount else remaining;
      [AccountBalance(accounts[0].address, amount)] + Pulls(accounts[1..], ata, remaining - amount)
  }

  function TransferTo(e: Exit, pull: AccountBalance): Instruction {
    TransferChecked(pull.address, e.chain.shareMint, e.chain.shareAta, e.owner, pull.amount, e.chain.shareDecimals)
  }

  function Transfers(e: Exit, pulls: seq<AccountBalance>): (r: seq<Instruction>)
    ensures |r| == |pulls|
  {
    if pulls == [] then [] else [TransferTo(e, pulls[0])] + Transfers(e, pulls[1..])
  }

  function CreateAta(e: Exit): Instruction {
    CreateAssociatedToken(
      if e.rentPayer.Some? then e.rentPayer.value else e.owner, e.chain.shareAta, e.owner, e.chain.shareMint)
  }

  function Consolidate(e: Exit, requested: nat, accounts: seq<AccountBalance>): Result<Consolidation, KaminoError> {
    var total := Sum(accounts);
    var ata := AmountIn(accounts, e.chain.shareAta);
    if total > BURN_ALL_SENTINEL then Failure(VaultUnreadable)
    else if requested > total then Failure(InvalidAmount)
    else if requested <= ata then Success(Consolidation([], total, ata))
    else
      var pulls := Pulls(accounts, e.chain.shareAta, requested - ata);
      if Sum(pulls) != requested - ata then Failure(VaultUnreadable)
      else Success(Consolidation([CreateAta(e)] + Transfers(e, pulls), total, requested))
  }

  lemma {:induction false} TransfersConcat(e: Exit, first: seq<AccountBalance>, second: seq<AccountBalance>)
    ensures Transfers(e, first + second) == Transfers(e, first) + Transfers(e, second)
  {
    if first == [] {
      assert first + second == second;
    } else {
      assert (first + second)[1..] == first[1..] + second;
      TransfersConcat(e, first[1..], second);
    }
  }

  lemma {:induction false} PullsTotal(accounts: seq<AccountBalance>, ata: Address, remaining: nat)
    ensures Sum(accounts) >= AmountIn(accounts, ata)
    ensures var others := Sum(accounts) - AmountIn(accounts, ata);
            Sum(Pulls(accounts, ata, remaining)) == if others < remaining then others else remaining
  {
    if accounts != [] {
      var pulls := Pulls(accounts, ata, remaining);
      if remaining == 0 || accounts[0].address == ata || accounts[0].amount == 0 {
        PullsTotal(accounts[1..], ata, remaining);
      } else {
        PullsTotal(accounts[1..], ata, remaining - pulls[0].amount);
        assert pulls[1..] == Pulls(accounts[1..], ata, remaining - pulls[0].amount);
      }
    }
  }

  /**
   * Consolidation is refused exactly when the balances exceed a u64 or fall short of the
   * request; the final "did not cover" refusal is unreachable.
   */
  lemma {:induction false} ConsolidationCovers(e: Exit, requested: nat, accounts: seq<AccountBalance>)
    ensures Consolidate(e, requested, accounts).Success? <==> requested <= Sum(accounts) <= BURN_ALL_SENTINEL
    ensures requested > Sum(accounts) && Sum(accounts) <= BURN_ALL_SENTINEL
            ==> Consolidate(e, requested, accounts) == Failure(InvalidAmount)
  {
    var ata := AmountIn(accounts, e.chain.shareAta);
    if ata < requested {
      PullsTotal(accounts, e.chain.shareAta, requested - ata);
    }
  }

  /** The planner as written: push transfers and count `remaining` down to zero. */
  method BuildShareAccountConsolidation(e: Exit, requested: nat, accounts: seq<AccountBalance>)
    returns (r: Result<Consolidation, KaminoError>)
    ensures r == Consolidate(e, requested, accounts)
  {
    var totalBaseUnits := Sum(accounts);
    if totalBaseUnits > BURN_ALL_SENTINEL { return Failure(VaultUnreadable); }
    if requested > totalBaseUnits { return Failure(InvalidAmount); }
    var ataBaseUnits := AmountIn(accounts, e.chain.shareAta);
    var remaining := requested - ataBaseUnits;
    if remaining <= 0 { return Success(Consolidation([], totalBaseUnits, ataBaseUnits)); }
    var instructions := [CreateAta(e)];
    ghost var pulls := Pulls(accounts, e.chain.shareAta, remaining);
    ghost var done: seq<AccountBalance> := [];
    for k := 0 to |accounts|
      invariant remaining >= 0
      invariant instructions == [CreateAta(e)] + Transfers(e, done)
      invariant pulls == done + Pulls(accounts[k..], e.chain.shareAta, remaining)
      invariant Sum(done) + remaining == requested - ataBaseUnits
    {
      assert accounts[k..][1..] == accounts[k + 1..];
      if remaining == 0 { break; }
      var account := accounts[k];
      if account.address == e.chain.shareAta || account.amount == 0 { continue; }
      var amount := if account.amount < remaining then account.amount else remaining;
      var pull := AccountBalance(account.address, amount);
      instructions := instructions + [TransferTo(e, pull)];
      TransfersConcat(e, done, [pull]);
      SumConcat(done, [pull]);
      assert Transfers(e, [pull]) == [TransferTo(e, pull)];
      done := done + [pull];
      remaining := remaining - amount;
    }
    assert pulls == done;
    if remaining != 0 { return Failure(VaultUnreadable); }
    return Success(Consolidation(instructions, totalBaseUnits, requested));
  }

  lemma {:induction false} SumConcat(first: seq<AccountBalance>, second: seq<AccountBalance>)
    ensures Sum(first + second) == Sum(first) + Sum(second)
  {
    if first == [] {
      assert first + second == second;
    } else {
      assert (first + second)[1..] == first[1..] + second;
      SumConcat(first[1..], second);
    }
  }

  // --------------------------------------------------------------- guard

  /** The self-transfer that asserts the ATA holds the largest u64; only for that one request. */
  function BalanceGuard(e: Exit, requested: nat): Option<Instruction> {
    if requested != BURN_ALL_SENTINEL then None
    else Some(TransferTo(e, AccountBalance(e.chain.shareAta, requested)))
  }

  // ------------------------------------------------------------ sentinel

  datatype Role = Unstake | Prepare | Withdraw | Post

  datatype Tagged = Tagged(instruction: Instruction, role: Role, shares: Option<nat>)

  function IsSentinel(t: Tagged): bool {
    t.shares == Some(BURN_ALL_SENTINEL)
  }

  function SentinelCount(ts: seq<Tagged>): nat {
    if ts == [] then 0 else (if IsSentinel(ts[0]) then 1 else 0) + SentinelCount(ts[1..])
  }

  function Redeeming(ts: seq<Tagged>): seq<Tagged> {
    if ts == [] then []
    else (if ts[0].role == Withdraw then [ts[0]] else []) + Redeeming(ts[1..])
  }

  function FirstSentinel(ts: seq<Tagged>): (i: int)
    ensures -1 <= i < |ts|
  {
    if ts == [] then -1
    else if IsSentinel(ts[0]) then 0
    else
      var rest := FirstSentinel(ts[1..]);
      if rest == -1 then -1 else rest + 1
  }

  /** The shares that tagged instructions redeem, counting the sentinel as `sentinel`. */
  function TaggedTotal(ts: seq<Tagged>, sentinel: nat): nat {
    if ts == [] then 0
    else (if IsSentinel(ts[0]) then sentinel else if ts[0].shares.Some? then ts[0].shares.value else 0)
         + TaggedTotal(ts[1..], sentinel)
  }

  function RewriteTagged(t: Tagged, remainder: nat): Option<Tagged> {
    if !IsSentinel(t) then Some(t)
    else if !t.instruction.Sdk? || Rewrite(t.instruction.sdk, remainder).None? then None
    else Some(t.(instruction := Sdk(Rewrite(t.instruction.sdk, remainder).value), shares := Some(remainder)))
  }

  function RewriteAll(ts: seq<Tagged>, remainder: nat): (r: Option<seq<Tagged>>)
    ensures r.Some? ==>
              |r.value| == |ts| && forall i :: 0 <= i < |ts| ==> RewriteTagged(ts[i], remainder) == Some(r.value[i])
  {
    if ts == [] then Some([])
    else
      var head, tail := RewriteTagged(ts[0], remainder), RewriteAll(ts[1..], remainder);
      if head.None? || tail.None? then None else Some([head.value] + tail.value)
  }

  /** Replace the burn-all sentinel by the exact remainder of the request, or refuse. */
  function ResolveBurnAll(ts: seq<Tagged>, requested: nat, guarded: bool): Result<seq<Tagged>, KaminoError> {
    if SentinelCount(ts) == 0 then Success(ts)
    else if SentinelCount(ts) != 1 then Failure(VaultUnreadable)
    else if FirstSentinel(Redeeming(ts)) != |Redeeming(ts)| - 1 then Failure(VaultUnreadable)
    else
      var remainder := requested - TaggedTotal(Redeeming(ts), 0);
      if remainder <= 0 || remainder > BURN_ALL_SENTINEL then Failure(InvalidAmount)
      else if remainder == BURN_ALL_SENTINEL && !guarded then Failure(VaultUnreadable)
      else
        var rewritten := RewriteAll(ts, remainder);
        if rewritten.None? then Failure(VaultUnreadable) else Success(rewritten.value)
  }

  lemma {:induction false} RedeemingTotal(ts: seq<Tagged>, sentinel: nat)
    requires forall i :: 0 <= i < |ts| ==> (ts[i].shares.Some? <==> ts[i].role == Withdraw)
    ensures TaggedTotal(Redeeming(ts), sentinel) == TaggedTotal(ts, sentinel)
  {
    if ts != [] {
      RedeemingTotal(ts[1..], sentinel);
      if ts[0].role == Withdraw {
        assert Redeeming(ts)[1..] == Redeeming(ts[1..]);
      } else {
        assert Redeeming(ts) == Redeeming(ts[1..]);
      }
    }
  }

  lemma {:induction false} RewrittenTotal(ts: seq<Tagged>, remainder: nat)
    requires RewriteAll(ts, remainder).Some?
    ensures TaggedTotal(RewriteAll(ts, remainder).value, BURN_ALL_SENTINEL)
            == TaggedTotal(ts, remainder)
  {
    if ts != [] {
      RewrittenTotal(ts[1..], remainder);
      var out := RewriteAll(ts, remainder).value;
      assert out[1..] == RewriteAll(ts[1..], remainder).value;
    }
  }

  lemma {:induction false} OneSentinel(ts: seq<Tagged>, remainder: nat)
    requires SentinelCount(ts) <= 1
    ensures TaggedTotal(ts, remainder) == TaggedTotal(ts, 0) + if SentinelCount(ts) == 1 then remainder else 0
  {
    if ts != [] {
      OneSentinel(ts[1..], remainder);
    }
  }

  /**
   * Where resolution rewrites, the shares named by the instructions sum to exactly the request
   * and nothing but the sentinel instruction changes; without a sentinel it changes nothing.
   */
  lemma {:induction false} ResolvedTotal(ts: seq<Tagged>, requested: nat, guarded: bool)
    requires forall i :: 0 <= i < |ts| ==> (ts[i].shares.Some? <==> ts[i].role == Withdraw)
    requires ResolveBurnAll(ts, requested, guarded).Success?
    ensures var out := ResolveBurnAll(ts, requested, guarded).value;
            && |out| == |ts|
            && (forall i :: 0 <= i < |ts| ==> out[i].role == ts[i].role && (!IsSentinel(ts[i]) ==> out[i] == ts[i]))
            && (SentinelCount(ts) > 0 ==> TaggedTotal(out, BURN_ALL_SENTINEL) == requested)
            && (SentinelCount(ts) == 0 ==> out == ts)
            && (SentinelCount(out) > 0 ==> guarded && TaggedTotal(ts, 0) == requested - BURN_ALL_SENTINEL)
  {
    if SentinelCount(ts) > 0 {
      var remainder := requested - TaggedTotal(Redeeming(ts), 0);
      RedeemingTotal(ts, 0);
      RewrittenTotal(ts, remainder);
      OneSentinel(ts, remainder);
      var out := RewriteAll(ts, remainder).value;
      if remainder != BURN_ALL_SENTINEL {
        NoSentinelLeft(ts, remainder);
      }
    }
  }

  lemma {:induction false} NoSentinelLeft(ts: seq<Tagged>, remainder: nat)
    requires RewriteAll(ts, remainder).Some? && remainder != BURN_ALL_SENTINEL
    ensures SentinelCount(RewriteAll(ts, remainder).value) == 0
  {
    if ts != [] {
      NoSentinelLeft(ts[1..], remainder);
      assert RewriteAll(ts, remainder).value[1..] == RewriteAll(ts[1..], remainder).value;
    }
  }

  // --------------------------------------------------------------- close

  function CloseInstruction(
    e: Exit, refundTo: Option<Address>, ataBeforeExit: nat, redeemed: nat, ownerTotal: nat): Option<Instruction>
  {
    if ataBeforeExit != redeemed then None
    else if ownerTotal != redeemed then None
    else Some(CloseAccount(e.chain.shareAta, if refundTo.Some? then refundTo.value else e.owner, e.owner))
  }

  /** After consolidation, the account is closed exactly on a full exit. */
  lemma {:induction false} ClosesExactlyOnFullExit(
    e: Exit, refundTo: Option<Address>, requested: nat, accounts: seq<AccountBalance>)
    requires Consolidate(e, requested, accounts).Success?
    ensures var c := Consolidate(e, requested, accounts).value;
            && c.totalBaseUnits == Sum(accounts)
            && requested <= c.postConsolidationAtaBaseUnits
            && (CloseInstruction(e, refundTo, c.postConsolidationAtaBaseUnits, requested, c.totalBaseUnits).Some?
                <==> requested == Sum(accounts))
  {
    PullsTotal(accounts, e.chain.shareAta, 0);
  }
}
