/**
 * Which managed RPC provider serves a request. Models pickRoundRobinProvider and
 * pickRoundRobinProviderOrder (packages/sdp-rpc/src/relay.ts).
 */
module RoundRobin {
  import opened Arithmetic
  import opened RpcProviders
  import opened Wrappers
  import D = DecimalAmount

  function IndexOfId(ps: seq<Provider>, id: ProviderId): (i: int)
    ensures -1 <= i < |ps|
    ensures i >= 0 ==> ps[i].id == id
    ensures forall j :: 0 <= j < (if i == -1 then |ps| else i) ==> ps[j].id != id
  {
    if ps == [] then -1
    else if ps[0].id == id then 0
    else
      var rest := IndexOfId(ps[1..], id);
      if rest == -1 then -1 else rest + 1
  }

  // -------------------------------------------------------- round robin

  /** `Number.parseInt(text, 10)` where it yields a finite number; None for NaN and infinity. */
  type ParseInt = string -> Option<int>

  /** Whatever else it does, it reads back the small numbers the picker itself writes. */
  ghost predicate ReadsBack(parse: ParseInt, n: nat) {
    forall k: nat :: k < n ==> parse(D.ToString(k)) == Some(k)
  }

  /** The next position: the stored text's number, or zero if there is none usable, modulo n. */
  function CursorIndex(parse: ParseInt, stored: Option<string>, n: nat): (i: nat)
    requires n > 0
    ensures i < n
  {
    var parsed := if stored.None? || stored.value == "" then Some(0) else parse(stored.value);
    if parsed.Some? && parsed.value >= 0 then parsed.value % n else 0
  }

  class CursorCache {
    var cursor: Option<string>
  }

  /** One pick, advancing the stored cursor. A single provider is returned without touching the cache. */
  method PickRoundRobinProvider(
    cache: CursorCache, providers: seq<Provider>, parse: ParseInt) returns (picked: Option<Provider>)
    modifies cache
    ensures picked.None? <==> providers == []
    ensures |providers| <= 1 ==> cache.cursor == old(cache.cursor)
    ensures |providers| == 1 ==> picked == Some(providers[0])
    ensures |providers| > 1 ==>
              var i := CursorIndex(parse, old(cache.cursor), |providers|);
              picked == Some(providers[i]) && cache.cursor == Some(D.ToString(Turn(i, 1, |providers|)))
  {
    if |providers| == 0 { return None; }
    if |providers| == 1 { return Some(providers[0]); }
    var rawCursor := cache.cursor;
    var parsedCursor := if rawCursor.Some? && rawCursor.value != "" then parse(rawCursor.value) else Some(0);
    var cursor := if parsedCursor.Some? && parsedCursor.value >= 0 then parsedCursor.value else 0;
    var index := cursor % |providers|;
    var nextCursor := (index + 1) % |providers|;
    cache.cursor := Some(D.ToString(nextCursor));
    return Some(providers[index]);
  }

  /** Where k further picks from `start` land, going round n providers. */
  function Turn(start: nat, k: nat, n: nat): (i: nat)
    requires n > 0
    ensures i < n
  {
    (start + k) % n
  }

  lemma NextCursorReadsBack(parse: ParseInt, i: nat, n: nat)
    requires n > 1 && i < n && ReadsBack(parse, n)
    ensures CursorIndex(parse, Some(D.ToString(Turn(i, 1, n))), n) == Turn(i, 1, n)
  {
    var next := Turn(i, 1, n);
    assert parse(D.ToString(next)) == Some(next);
    Remainder(next, 0, next, n);
  }

  lemma Remainder(x: nat, q: nat, r: nat, n: nat)
    requires n > 0 && r < n && x == n * q + r
    ensures x % n == r
  {
    DivMod(r, q, n);
  }

  lemma NextTurn(start: nat, k: nat, n: nat)
    requires n > 0
    ensures Turn(Turn(start, k, n), 1, n) == Turn(start, k + 1, n)
  {
    NextRemainder(start + k, (start + k) / n, (start + k) % n, n);
  }

  lemma NextRemainder(m: nat, q: nat, r: nat, n: nat)
    requires n > 0 && r < n && m == n * q + r
    ensures (r + 1) % n == (m + 1) % n
  {
    Distribute(n, q, -1);
    if r + 1 < n {
      Remainder(m + 1, q, r + 1, n);
      Remainder(r + 1, 0, r + 1, n);
    } else {
      Remainder(m + 1, q + 1, 0, n);
    }
  }

  /**
   * From any stored cursor text whatever, consecutive serial picks over the same providers walk
   * round the list in order from one starting point.
   */
  method SerialPicks(
    cache: CursorCache, providers: seq<Provider>, parse: ParseInt, count: nat)
    returns (picks: seq<Provider>, ghost start: nat)
    requires providers != [] && ReadsBack(parse, |providers|)
    modifies cache
    ensures start < |providers| && |picks| == count
    ensures forall k :: 0 <= k < count ==> picks[k] == providers[Turn(start, k, |providers|)]
    ensures count == |providers| ==>
            picks == providers[start..] + providers[..start] && multiset(picks) == multiset(providers)
  {
    var n := |providers|;
    start := if n == 1 then 0 else CursorIndex(parse, cache.cursor, n);
    picks := [];
    Remainder(start, 0, start, n);
    for k := 0 to count
      invariant |picks| == k
      invariant forall j :: 0 <= j < k ==> picks[j] == providers[Turn(start, j, n)]
      invariant n > 1 ==> CursorIndex(parse, cache.cursor, n) == Turn(start, k, n)
    {
      var picked := PickRoundRobinProvider(cache, providers, parse);
      picks := picks + [picked.value];
      NextTurn(start, k, n);
      if n > 1 { NextCursorReadsBack(parse, Turn(start, k, n), n); }
    }
    if count == n { FullRound(providers, start, picks); }
  }

  lemma Wrap(start: nat, k: nat, n: nat)
    requires start < n && k < n
    ensures Turn(start, k, n) == if start + k < n then start + k else start + k - n
  {
    if start + k < n { Remainder(start + k, 0, start + k, n); } else { Remainder(start + k, 1, start + k - n, n); }
  }

  /** A full round of picks is a rotation of the providers, so it chooses each exactly once. */
  lemma FullRound(providers: seq<Provider>, start: nat, picks: seq<Provider>)
    requires start < |providers| == |picks|
    requires forall k :: 0 <= k < |picks| ==> picks[k] == providers[Turn(start, k, |providers|)]
    ensures picks == providers[start..] + providers[..start]
    ensures multiset(picks) == multiset(providers)
  {
    forall k: nat | k < |picks| ensures picks[k] == (providers[start..] + providers[..start])[k] {
      Wrap(start, k, |providers|);
    }
    assert providers == providers[..start] + providers[start..];
  }

  /** The failover order: from the picked provider round to the one before it. */
  function FailoverOrder(providers: seq<Provider>, picked: Provider): seq<Provider> {
    var selected := IndexOfId(providers, picked.id);
    if selected <= 0 then providers else providers[selected..] + providers[..selected]
  }

  /** It starts at the pick and goes round the list: every provider once, none lost. */
  lemma FailoverIsRotation(providers: seq<Provider>, i: nat)
    requires DistinctIds(providers) && i < |providers|
    ensures var order := FailoverOrder(providers, providers[i]);
            && |order| == |providers| && order[0] == providers[i]
            && (forall k :: 0 <= k < |order| ==> order[k] == providers[Turn(i, k, |providers|)])
            && multiset(order) == multiset(providers)
  {
    var order := FailoverOrder(providers, providers[i]);
    assert IndexOfId(providers, providers[i].id) == i;
    assert providers[0..] + providers[..0] == providers;
    assert order == providers[i..] + providers[..i];
    forall k: nat | k < |order| ensures order[k] == providers[Turn(i, k, |providers|)] {
      Wrap(i, k, |providers|);
    }
    FullRound(providers, i, order);
  }
}
