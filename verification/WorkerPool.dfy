/**
 * The bounded worker pool behind vault-position reads, as the steps its workers interleave.
 * Models mapSettledWithConcurrency and the result handling of readVaultPositions
 * (packages/sdp-kamino/src/client.ts).
 */
module WorkerPool {
  import opened Sequences
  import opened Wrappers

  datatype Settled<V, E> = Fulfilled(value: V) | Rejected(reason: E)

  /** A worker is at its loop head, awaiting the mapper on a claimed index, or past its loop. */
  datatype Worker = Ready | Mapping(index: nat) | Finished | Aborted

  /** `claims` records every (worker, index) claimed so far, in order. */
  datatype Pool<V, E> = Pool(
    workers: seq<Worker>, nextIndex: nat, results: seq<Option<Settled<V, E>>>, expired: bool, claims: seq<(nat, nat)>)

  /** What the mapper may settle to for an item. */
  type Outcomes<!T, !V, !E> = (T, Settled<V, E>) -> bool

  /** `Math.min(concurrency, items.length)` workers, none started. */
  function Start<V, E>(items: nat, concurrency: nat): Pool<V, E> {
    Pool(Repeat(Ready, if concurrency < items then concurrency else items), 0, Repeat(None, items), false, [])
  }

  /** The loop head of worker w: leave, abort, or claim the next index and call the mapper. */
  ghost predicate AtLoopHead<V(!new), E(!new)>(s: Pool<V, E>, t: Pool<V, E>, w: nat, active: bool) {
    && w < |s.workers| && s.workers[w] == Ready
    && (s.expired ==> !active)
    && if s.nextIndex >= |s.results| then t == s.(workers := s.workers[w := Finished])
       else if !active then t == s.(workers := s.workers[w := Aborted])
       else t == s.(workers := s.workers[w := Mapping(s.nextIndex)], nextIndex := s.nextIndex + 1,
                    claims := s.claims + [(w, s.nextIndex)])
  }

  /** The mapper of worker w settles, and the worker writes its own slot. */
  ghost predicate Settles<T(!new), V(!new), E(!new)>(
    items: seq<T>, outcomes: Outcomes<T, V, E>, s: Pool<V, E>, t: Pool<V, E>, w: nat, result: Settled<V, E>)
    requires |s.results| == |items|
  {
    && w < |s.workers| && s.workers[w].Mapping? && s.workers[w].index < |items|
    && outcomes(items[s.workers[w].index], result)
    && t == s.(workers := s.workers[w := Ready], results := s.results[s.workers[w].index := Some(result)])
  }

  /** One step of any worker, or the deadline passing for good. */
  ghost predicate Next<T(!new), V(!new), E(!new)>(
    items: seq<T>, outcomes: Outcomes<T, V, E>, s: Pool<V, E>, t: Pool<V, E>)
    requires |s.results| == |items|
  {
    || (exists w: nat, active :: AtLoopHead(s, t, w, active))
    || (exists w: nat, result :: Settles(items, outcomes, s, t, w, result))
    || (!s.expired && t == s.(expired := true))
  }

  /** A run from the start: any interleaving of steps. */
  ghost predicate IsRun<T(!new), V(!new), E(!new)>(
    items: seq<T>, concurrency: nat, outcomes: Outcomes<T, V, E>, run: seq<Pool<V, E>>)
  {
    && run != [] && run[0] == Start(|items|, concurrency)
    && (forall k :: 0 <= k < |run| ==> |run[k].results| == |items|)
    && forall k :: 0 <= k < |run| - 1 ==> Next(items, outcomes, run[k], run[k + 1])
  }

  // -------------------------------------------------------- the invariant

  ghost predicate InFlight<V(!new), E(!new)>(s: Pool<V, E>, index: nat) {
    exists w :: 0 <= w < |s.workers| && s.workers[w] == Mapping(index)
  }

  ghost predicate Inv<T(!new), V(!new), E(!new)>(
    items: seq<T>, concurrency: nat, outcomes: Outcomes<T, V, E>, s: Pool<V, E>)
  {
    && |s.results| == |items|
    && |s.workers| <= concurrency && |s.workers| <= |items|
    && s.nextIndex <= |items|
    // the k-th claim is of index k: each index is claimed once, by one worker
    && |s.claims| == s.nextIndex
    && (forall k :: 0 <= k < |s.claims| ==> s.claims[k].1 == k && s.claims[k].0 < |s.workers|)
    // a worker maps only an index it claimed, that no one else maps, and whose slot is empty
    && (forall w :: 0 <= w < |s.workers| && s.workers[w].Mapping? ==>
          s.workers[w].index < s.nextIndex && s.claims[s.workers[w].index].0 == w
            && s.results[s.workers[w].index].None?)
    // a slot is filled, with an outcome of its own item, once its index is claimed and no longer mapped
    && (forall i :: 0 <= i < |items| ==> (s.results[i].Some? <==> i < s.nextIndex && !InFlight(s, i)))
    && (forall i :: 0 <= i < |items| && s.results[i].Some? ==> outcomes(items[i], s.results[i].value))
    // a worker leaves only when everything is claimed
    && (forall w :: 0 <= w < |s.workers| && s.workers[w] == Finished ==> s.nextIndex == |items|)
  }

  lemma StartInv<T(!new), V(!new), E(!new)>(items: seq<T>, concurrency: nat, outcomes: Outcomes<T, V, E>)
    ensures Inv(items, concurrency, outcomes, Start<V, E>(|items|, concurrency))
  {
  }

  lemma LoopHeadInv<T(!new), V(!new), E(!new)>(
    items: seq<T>, concurrency: nat, outcomes: Outcomes<T, V, E>, s: Pool<V, E>, t: Pool<V, E>, w: nat, active: bool)
    requires Inv(items, concurrency, outcomes, s) && AtLoopHead(s, t, w, active)
    ensures Inv(items, concurrency, outcomes, t)
  {
    forall i | 0 <= i < |items| ensures t.results[i].Some? <==> i < t.nextIndex && !InFlight(t, i) {
      if InFlight(s, i) {
        var v :| 0 <= v < |s.workers| && s.workers[v] == Mapping(i);
        assert t.workers[v] == Mapping(i);
      }
      if t.workers[w] == Mapping(i) { assert InFlight(t, i); }
    }
  }

  lemma SettlesInv<T(!new), V(!new), E(!new)>(
    items: seq<T>, concurrency: nat, outcomes: Outcomes<T, V, E>, s: Pool<V, E>, t: Pool<V, E>, w: nat,
    result: Settled<V, E>)
    requires Inv(items, concurrency, outcomes, s) && Settles(items, outcomes, s, t, w, result)
    ensures Inv(items, concurrency, outcomes, t)
  {
    var done := s.workers[w].index;
    forall i | 0 <= i < |items| ensures t.results[i].Some? <==> i < t.nextIndex && !InFlight(t, i) {
      if i != done && InFlight(s, i) {
        var v :| 0 <= v < |s.workers| && s.workers[v] == Mapping(i);
        assert t.workers[v] == Mapping(i);
      }
      if InFlight(t, i) {
        var v :| 0 <= v < |t.workers| && t.workers[v] == Mapping(i);
        assert s.workers[v] == Mapping(i);
      }
    }
  }

  lemma ExpiryInv<T(!new), V(!new), E(!new)>(
    items: seq<T>, concurrency: nat, outcomes: Outcomes<T, V, E>, s: Pool<V, E>)
    requires Inv(items, concurrency, outcomes, s)
    ensures Inv(items, concurrency, outcomes, s.(expired := true))
  {
    forall i | 0 <= i < |items| ensures InFlight(s.(expired := true), i) <==> InFlight(s, i) {
      assert s.(expired := true).workers == s.workers;
    }
  }

  lemma StepInv<T(!new), V(!new), E(!new)>(
    items: seq<T>, concurrency: nat, outcomes: Outcomes<T, V, E>, s: Pool<V, E>, t: Pool<V, E>)
    requires Inv(items, concurrency, outcomes, s) && Next(items, outcomes, s, t)
    ensures Inv(items, concurrency, outcomes, t)
  {
    if w: nat, active :| AtLoopHead(s, t, w, active) {
      LoopHeadInv(items, concurrency, outcomes, s, t, w, active);
    } else if w: nat, result :| Settles(items, outcomes, s, t, w, result) {
      SettlesInv(items, concurrency, outcomes, s, t, w, result);
    } else {
      ExpiryInv(items, concurrency, outcomes, s);
    }
  }

  lemma RunStep<T(!new), V(!new), E(!new)>(
    items: seq<T>, concurrency: nat, outcomes: Outcomes<T, V, E>, run: seq<Pool<V, E>>, k: nat)
    requires IsRun(items, concurrency, outcomes, run) && k + 1 < |run|
    ensures Next(items, outcomes, run[k], run[k + 1])
  {
  }

  /** The invariant holds at every point of every interleaving. */
  lemma {:induction false} RunInv<T(!new), V(!new), E(!new)>(
    items: seq<T>, concurrency: nat, outcomes: Outcomes<T, V, E>, run: seq<Pool<V, E>>, k: nat)
    requires IsRun(items, concurrency, outcomes, run) && k < |run|
    ensures Inv(items, concurrency, outcomes, run[k])
  {
    if k == 0 {
      StartInv(items, concurrency, outcomes);
    } else {
      RunInv(items, concurrency, outcomes, run, k - 1);
      RunStep(items, concurrency, outcomes, run, k - 1);
      StepInv(items, concurrency, outcomes, run[k - 1], run[k]);
    }
  }

  // --------------------------------------------------------- the theorems

  function Mappers(workers: seq<Worker>): nat {
    if workers == [] then 0 else (if workers[0].Mapping? then 1 else 0) + Mappers(workers[1..])
  }

  lemma {:induction false} MappersAtMostWorkers(workers: seq<Worker>)
    ensures Mappers(workers) <= |workers|
  {
    if workers != [] {
      MappersAtMostWorkers(workers[1..]);
    }
  }

  /**
   * At any point of any interleaving at most `concurrency` mapper calls are in flight, and no
   * index is in flight twice.
   */
  lemma AtMostConcurrencyInFlight<T(!new), V(!new), E(!new)>(
    items: seq<T>, concurrency: nat, outcomes: Outcomes<T, V, E>, run: seq<Pool<V, E>>, k: nat)
    requires IsRun(items, concurrency, outcomes, run) && k < |run|
    ensures Mappers(run[k].workers) <= concurrency
    ensures forall v, w :: 0 <= v < w < |run[k].workers| && run[k].workers[v].Mapping? ==>
              run[k].workers[v] != run[k].workers[w]
  {
    RunInv(items, concurrency, outcomes, run, k);
    MappersAtMostWorkers(run[k].workers);
  }

  /**
   * When every worker has left its loop normally, each index was claimed exactly once, in order,
   * and each slot holds an outcome of its own item.
   */
  lemma NormalFinishIsComplete<T(!new), V(!new), E(!new)>(
    items: seq<T>, concurrency: nat, outcomes: Outcomes<T, V, E>, run: seq<Pool<V, E>>)
    requires IsRun(items, concurrency, outcomes, run) && concurrency > 0
    requires var last := run[|run| - 1]; forall w :: 0 <= w < |last.workers| ==> last.workers[w] == Finished
    ensures var last := run[|run| - 1];
            && |last.claims| == |items|
            && (forall i :: 0 <= i < |items| ==> last.claims[i].1 == i)
            && (forall i :: 0 <= i < |items| ==> last.results[i].Some? && outcomes(items[i], last.results[i].value))
  {
    var last := run[|run| - 1];
    RunInv(items, concurrency, outcomes, run, |run| - 1);
    WorkersKept(items, concurrency, outcomes, run, |run| - 1);
    if items != [] {
      assert last.workers[0] == Finished;
    }
  }

  lemma {:induction false} WorkersKept<T(!new), V(!new), E(!new)>(
    items: seq<T>, concurrency: nat, outcomes: Outcomes<T, V, E>, run: seq<Pool<V, E>>, k: nat)
    requires IsRun(items, concurrency, outcomes, run) && k < |run|
    ensures |run[k].workers| == if concurrency < |items| then concurrency else |items|
  {
    if k > 0 {
      WorkersKept(items, concurrency, outcomes, run, k - 1);
      assert Next(items, outcomes, run[k - 1], run[k - 1 + 1]);
    }
  }

  /** Once the deadline has passed, no further index is claimed, at any later point of any interleaving. */
  lemma {:induction false} NoClaimAfterExpiry<T(!new), V(!new), E(!new)>(
    items: seq<T>, concurrency: nat, outcomes: Outcomes<T, V, E>, run: seq<Pool<V, E>>, j: nat, k: nat)
    requires IsRun(items, concurrency, outcomes, run) && j <= k < |run| && run[j].expired
    ensures run[k].expired && run[k].claims == run[j].claims && run[k].nextIndex == run[j].nextIndex
  {
    if j < k {
      NoClaimAfterExpiry(items, concurrency, outcomes, run, j, k - 1);
      assert Next(items, outcomes, run[k - 1], run[k - 1 + 1]);
    }
  }

  /**
   * Work left: two steps per unclaimed index, two per mapping in flight, one per worker at its loop
   * head, and the deadline.
   */
  ghost function WorkLeft<V(!new), E(!new)>(s: Pool<V, E>): int {
    2 * (|s.results| - s.nextIndex) + WorkersLeft(s.workers) + (if s.expired then 0 else 1)
  }

  ghost function WorkersLeft(workers: seq<Worker>): nat {
    if workers == [] then 0
    else (match workers[0] case Ready => 1 case Mapping(_) => 2 case _ => 0) + WorkersLeft(workers[1..])
  }

  lemma {:induction false} WorkersLeftUpdate(workers: seq<Worker>, w: nat, x: Worker)
    requires w < |workers|
    ensures WorkersLeft(workers[w := x]) ==
            WorkersLeft(workers) - WorkersLeft([workers[w]]) + WorkersLeft([x])
    ensures WorkersLeft([workers[w]]) <= WorkersLeft(workers)
  {
    if w > 0 {
      WorkersLeftUpdate(workers[1..], w - 1, x);
      assert workers[w := x][1..] == workers[1..][w - 1 := x];
    } else {
      assert workers[w := x][1..] == workers[1..];
    }
  }

  /** Every step uses up work. */
  lemma StepsUseUpWork<T(!new), V(!new), E(!new)>(
    items: seq<T>, outcomes: Outcomes<T, V, E>, s: Pool<V, E>, t: Pool<V, E>)
    requires |s.results| == |items| && s.nextIndex <= |items| && Next(items, outcomes, s, t)
    ensures 0 <= WorkLeft(t) < WorkLeft(s)
  {
    if w: nat, active :| AtLoopHead(s, t, w, active) {
      WorkersLeftUpdate(s.workers, w, t.workers[w]);
    } else if w: nat, result :| Settles(items, outcomes, s, t, w, result) {
      WorkersLeftUpdate(s.workers, w, Ready);
    }
  }

  /** So no interleaving is longer than the work it starts with. */
  lemma {:induction false} RunIsBounded<T(!new), V(!new), E(!new)>(
    items: seq<T>, concurrency: nat, outcomes: Outcomes<T, V, E>, run: seq<Pool<V, E>>, k: nat)
    requires IsRun(items, concurrency, outcomes, run) && k < |run|
    ensures 0 <= WorkLeft(run[k]) <= WorkLeft(run[0]) - k
  {
    RunInv(items, concurrency, outcomes, run, k);
    if k > 0 {
      RunIsBounded(items, concurrency, outcomes, run, k - 1);
      RunInv(items, concurrency, outcomes, run, k - 1);
      RunStep(items, concurrency, outcomes, run, k - 1);
      StepsUseUpWork(items, outcomes, run[k - 1], run[k]);
    }
  }

  /** A worker still in its loop can always step, once the mapper it awaits has an outcome to give. */
  lemma NotStuck<T(!new), V(!new), E(!new)>(
    items: seq<T>, concurrency: nat, outcomes: Outcomes<T, V, E>, s: Pool<V, E>, w: nat, result: Settled<V, E>)
    returns (t: Pool<V, E>)
    requires Inv(items, concurrency, outcomes, s)
    requires w < |s.workers| && (s.workers[w] == Ready || s.workers[w].Mapping?)
    requires s.workers[w].Mapping? ==> outcomes(items[s.workers[w].index], result)
    ensures Next(items, outcomes, s, t) && t.workers[w] != s.workers[w]
  {
    if s.workers[w] == Ready {
      if s.nextIndex >= |items| {
        t := s.(workers := s.workers[w := Finished]);
      } else {
        t := s.(workers := s.workers[w := Aborted]);
      }
      assert AtLoopHead(s, t, w, false);
    } else {
      var index := s.workers[w].index;
      t := s.(workers := s.workers[w := Ready], results := s.results[index := Some(result)]);
      assert Settles(items, outcomes, s, t, w, result);
    }
  }

  // --------------------------------------------------- reading positions

  datatype Position = Position(vault: string, shares: string)

  function Failures<E>(results: seq<Settled<Position, E>>): nat {
    if results == [] then 0 else (if results[0].Rejected? then 1 else 0) + Failures(results[1..])
  }

  function Snapshots<E>(results: seq<Settled<Position, E>>, readAllHoldings: bool): seq<Position> {
    if results == [] then []
    else
      (if results[0].Rejected? || (readAllHoldings && results[0].value.shares == "0") then [] else [results[0].value])
      + Snapshots(results[1..], readAllHoldings)
  }

  /** One failed read fails the whole snapshot. */
  function ReadPositions<E>(results: seq<Settled<Position, E>>, readAllHoldings: bool): Option<seq<Position>> {
    if Failures(results) > 0 then None else Some(Snapshots(results, readAllHoldings))
  }

  function Kept(positions: seq<Position>): seq<Position> {
    if positions == [] then [] else (if positions[0].shares == "0" then [] else [positions[0]]) + Kept(positions[1..])
  }

  predicate AllFulfilled<E>(results: seq<Settled<Position, E>>) {
    forall i :: 0 <= i < |results| ==> results[i].Fulfilled?
  }

  /** Every vault's own position, in request order. */
  function Values<E>(results: seq<Settled<Position, E>>): (positions: seq<Position>)
    requires AllFulfilled(results)
    ensures |positions| == |results| && forall i :: 0 <= i < |results| ==> positions[i] == results[i].value
  {
    if results == [] then [] else [results[0].value] + Values(results[1..])
  }

  /**
   * Positions are returned if and only if every read was fulfilled; they are then every vault's
   * own position in request order, less the empty ones when all holdings were asked for.
   */
  lemma {:induction false} SnapshotIsAllOrNothing<E>(results: seq<Settled<Position, E>>, readAllHoldings: bool)
    ensures ReadPositions(results, readAllHoldings)
            == if !AllFulfilled(results) then None
               else Some(if readAllHoldings then Kept(Values(results)) else Values(results))
  {
    if results != [] {
      var tail := results[1..];
      assert results == [results[0]] + tail;
      assert AllFulfilled(results) <==> results[0].Fulfilled? && AllFulfilled(tail);
      SnapshotIsAllOrNothing(tail, readAllHoldings);
      if AllFulfilled(results) {
        assert Values(results)[1..] == Values(tail);
      }
    }
  }

  ghost predicate Increasing(s: seq<nat>) {
    forall i, j :: 0 <= i < j < |s| ==> s[i] < s[j]
  }

  /** The places of the positions kept: in order, and all but those of the empty ones. */
  ghost predicate KeptFrom(positions: seq<Position>, kept: seq<Position>, places: seq<nat>) {
    && |places| == |kept| && Increasing(places)
    && (forall k :: 0 <= k < |places| ==> places[k] < |positions| && positions[places[k]] == kept[k])
    && forall i :: 0 <= i < |positions| ==> (i in places <==> positions[i].shares != "0")
  }

  /** Dropping goes position by position. */
  lemma {:induction false} KeptJoin(a: seq<Position>, b: seq<Position>)
    ensures Kept(a + b) == Kept(a) + Kept(b)
  {
    if a == [] {
      assert a + b == b;
    } else {
      KeptJoin(a[1..], b);
      assert (a + b)[1..] == a[1..] + b && (a + b)[0] == a[0];
      Associate(if a[0].shares == "0" then [] else [a[0]], Kept(a[1..]), Kept(b));
    }
  }

  lemma {:induction false} DropLast(front: seq<Position>, kept: seq<Position>, places: seq<nat>, last: Position)
    requires KeptFrom(front, kept, places) && last.shares == "0"
    ensures KeptFrom(front + [last], kept, places)
  {
    forall i | 0 <= i < |front| ensures (front + [last])[i] == front[i] {
    }
  }

  lemma {:induction false} KeepLast(front: seq<Position>, kept: seq<Position>, places: seq<nat>, last: Position)
    requires KeptFrom(front, kept, places) && last.shares != "0"
    ensures KeptFrom(front + [last], kept + [last], places + [|front|])
  {
    var longer := places + [|front|];
    forall i | 0 <= i < |front| ensures (front + [last])[i] == front[i] && (i in longer <==> i in places) {
    }
    assert longer[|places|] == |front|;
  }

  lemma {:induction false} KeptPlaces(positions: seq<Position>) returns (places: seq<nat>)
    ensures KeptFrom(positions, Kept(positions), places)
  {
    places := [];
    if positions != [] {
      var n := |positions| - 1;
      var front, last := positions[..n], positions[n];
      var before := KeptPlaces(front);
      assert positions == front + [last];
      KeptJoin(front, [last]);
      if last.shares == "0" {
        DropLast(front, Kept(front), before, last);
        assert Kept(front) + [] == Kept(front);
        places := before;
      } else {
        KeepLast(front, Kept(front), before, last);
        places := before + [n];
      }
    }
  }

  /**
   * End to end: if the pool finishes normally, in any interleaving, and positions are returned,
   * then in request order each is what its own vault was read to have. Only when all holdings were
   * asked for is a vault left out, and then exactly those that were read to have no shares.
   */
  lemma {:induction false} PositionsAreTheirVaults<T(!new), E(!new)>(
    items: seq<T>, concurrency: nat, outcomes: Outcomes<T, Position, E>, run: seq<Pool<Position, E>>,
    results: seq<Settled<Position, E>>, readAllHoldings: bool) returns (read: seq<Position>, places: seq<nat>)
    requires IsRun(items, concurrency, outcomes, run) && concurrency > 0
    requires var last := run[|run| - 1]; forall w :: 0 <= w < |last.workers| ==> last.workers[w] == Finished
    requires |results| == |items| && forall i :: 0 <= i < |items| ==> run[|run| - 1].results[i] == Some(results[i])
    requires ReadPositions(results, readAllHoldings).Some?
    ensures |read| == |items| && forall i :: 0 <= i < |items| ==> outcomes(items[i], Fulfilled(read[i]))
    ensures var returned := ReadPositions(results, readAllHoldings).value;
            if readAllHoldings then KeptFrom(read, returned, places) else returned == read
  {
    NormalFinishIsComplete(items, concurrency, outcomes, run);
    SnapshotIsAllOrNothing(results, readAllHoldings);
    read := Values(results);
    places := KeptPlaces(read);
    forall i | 0 <= i < |items| ensures outcomes(items[i], Fulfilled(read[i])) {
      assert results[i] == Fulfilled(read[i]);
    }
  }
}
