/**
 * Relay telemetry over a store whose get and put are separate steps, so concurrent recorders may
 * overwrite each other. Models recordRpcRelayTelemetry and toStatsSummary (packages/sdp-rpc/src/relay.ts).
 */
module RelayTelemetry {
  import opened MapTotals
  import opened Wrappers

  const MAX_ORIGIN_BUCKETS: nat := 20

  datatype Stats = Stats(
    requestsTotal: nat, transactionRequests: nat, errorsTotal: nat, latencyTotalMs: nat, origins: map<string, nat>)

  const EMPTY_STATS := Stats(0, 0, 0, 0, map[])

  /** One relayed request, its latency already rounded and clamped at zero, its origin normalized. */
  datatype Call = Call(ok: bool, hasTransaction: bool, latencyMs: nat, origin: Option<string>)

  // -------------------------------------------------------- the origins

  function Bump(origins: map<string, nat>, origin: string): map<string, nat> {
    origins[origin := (if origin in origins then origins[origin] else 0) + 1]
  }

  /** Sorted by count, cut at twenty: the largest buckets, ties falling either way. */
  ghost predicate KeepsLargest(all: map<string, nat>, kept: map<string, nat>) {
    && (forall o :: o in kept ==> o in all && kept[o] == all[o])
    && |kept| == (if |all| <= MAX_ORIGIN_BUCKETS then |all| else MAX_ORIGIN_BUCKETS)
    && (forall o, d :: o in kept && d in all && d !in kept ==> all[d] <= kept[o])
  }

  /** What a recorder writes, given the record it read. */
  ghost predicate Records(call: Call, before: Stats, after: Stats) {
    && after.requestsTotal == before.requestsTotal + 1
    && after.latencyTotalMs == before.latencyTotalMs + call.latencyMs
    && after.errorsTotal == before.errorsTotal + (if call.ok then 0 else 1)
    && after.transactionRequests == before.transactionRequests + (if call.hasTransaction then 1 else 0)
    && (if call.origin.None? then after.origins == before.origins
        else KeepsLargest(Bump(before.origins, call.origin.value), after.origins))
  }

  // -------------------------------------------------------- the protocol

  /** A recorder has a call to record; has read the stored record; or has written. */
  datatype Recorder = Waiting(call: Call) | Holding(call: Call, read: Stats) | Written(call: Call)

  datatype World = World(stored: Option<Stats>, recorders: seq<Recorder>)

  function Stored(s: World): Stats {
    if s.stored.Some? then s.stored.value else EMPTY_STATS
  }

  ghost predicate Get(s: World, t: World, r: nat) {
    && r < |s.recorders| && s.recorders[r].Waiting?
    && t == s.(recorders := s.recorders[r := Holding(s.recorders[r].call, Stored(s))])
  }

  ghost predicate Put(s: World, t: World, r: nat, stats: Stats) {
    && r < |s.recorders| && s.recorders[r].Holding?
    && Records(s.recorders[r].call, s.recorders[r].read, stats)
    && t == World(Some(stats), s.recorders[r := Written(s.recorders[r].call)])
  }

  ghost predicate Next(s: World, t: World) {
    || (exists r: nat :: Get(s, t, r))
    || (exists r: nat, stats :: Put(s, t, r, stats))
  }

  /** Any interleaving of one get and one put per call, from an empty store. */
  ghost predicate IsRun(calls: seq<Call>, run: seq<World>) {
    && run != [] && run[0] == World(None, Begin(calls))
    && forall k :: 0 <= k < |run| - 1 ==> Next(run[k], run[k + 1])
  }

  function Begin(calls: seq<Call>): (r: seq<Recorder>)
    ensures |r| == |calls| && forall i :: 0 <= i < |calls| ==> r[i] == Waiting(calls[i])
  {
    seq(|calls|, i requires 0 <= i < |calls| => Waiting(calls[i]))
  }

  // ------------------------------------------------------- the invariant

  function WrittenCount(recorders: seq<Recorder>): nat {
    if recorders == [] then 0 else (if recorders[0].Written? then 1 else 0) + WrittenCount(recorders[1..])
  }

  lemma {:induction false} WrittenUpdate(recorders: seq<Recorder>, r: nat, x: Recorder)
    requires r < |recorders|
    ensures WrittenCount(recorders[r := x]) ==
            WrittenCount(recorders) + (if x.Written? then 1 else 0) - (if recorders[r].Written? then 1 else 0)
  {
    if r > 0 {
      WrittenUpdate(recorders[1..], r - 1, x);
      assert recorders[r := x][1..] == recorders[1..][r - 1 := x];
    } else {
      assert recorders[r := x][1..] == recorders[1..];
    }
  }

  /** A record every one of whose counters is within its number of requests, and whose latencies lie in [low, high]. */
  ghost predicate Sound(s: Stats, low: nat, high: nat) {
    && s.errorsTotal <= s.requestsTotal
    && s.transactionRequests <= s.requestsTotal
    && Total(s.origins) <= s.requestsTotal
    && |s.origins| <= MAX_ORIGIN_BUCKETS
    && low * s.requestsTotal <= s.latencyTotalMs <= high * s.requestsTotal
  }

  ghost predicate Inv(low: nat, high: nat, s: World) {
    && Sound(Stored(s), low, high)
    && Stored(s).requestsTotal <= WrittenCount(s.recorders)
    && forall r :: 0 <= r < |s.recorders| ==>
         && low <= s.recorders[r].call.latencyMs <= high
         && (s.recorders[r].Holding? ==>
               Sound(s.recorders[r].read, low, high) && s.recorders[r].read.requestsTotal <= WrittenCount(s.recorders))
  }

  lemma OneMore(low: nat, high: nat, n: nat, total: nat, x: nat)
    requires low * n <= total <= high * n && low <= x <= high
    ensures low * (n + 1) <= total + x <= high * (n + 1)
  {
  }

  lemma RecordingKeepsSound(call: Call, before: Stats, after: Stats, low: nat, high: nat)
    requires Sound(before, low, high) && Records(call, before, after) && low <= call.latencyMs <= high
    ensures Sound(after, low, high)
  {
    OneMore(low, high, before.requestsTotal, before.latencyTotalMs, call.latencyMs);
    if call.origin.Some? {
      var o := call.origin.value;
      TotalUpdate(before.origins, o, (if o in before.origins then before.origins[o] else 0) + 1);
      TotalMonotone(after.origins, Bump(before.origins, o));
    }
  }

  lemma NextKeepsInv(low: nat, high: nat, s: World, t: World)
    requires Inv(low, high, s) && Next(s, t)
    ensures Inv(low, high, t)
  {
    if r: nat :| Get(s, t, r) {
      WrittenUpdate(s.recorders, r, t.recorders[r]);
    } else if r: nat, stats :| Put(s, t, r, stats) {
      WrittenUpdate(s.recorders, r, t.recorders[r]);
      RecordingKeepsSound(s.recorders[r].call, s.recorders[r].read, stats, low, high);
    }
  }

  lemma {:induction false} NoneWritten(recorders: seq<Recorder>)
    requires forall i :: 0 <= i < |recorders| ==> !recorders[i].Written?
    ensures WrittenCount(recorders) == 0
  {
    if recorders != [] {
      NoneWritten(recorders[1..]);
    }
  }

  /**
   * In every interleaving, however many updates are lost, the stored record stays within itself:
   * errors, transaction requests and the sum over at most twenty origins are each at most the
   * requests counted; those are at most the calls that have finished; and the latency total lies
   * between that many times the smallest and that many times the largest latency.
   */
  lemma {:induction false} StoredRecordIsSound(calls: seq<Call>, run: seq<World>, low: nat, high: nat, k: nat)
    requires IsRun(calls, run) && k < |run|
    requires forall i :: 0 <= i < |calls| ==> low <= calls[i].latencyMs <= high
    ensures Inv(low, high, run[k])
  {
    if k == 0 {
      NoneWritten(Begin(calls));
    } else {
      StoredRecordIsSound(calls, run, low, high, k - 1);
      assert Next(run[k - 1], run[k - 1 + 1]);
      NextKeepsInv(low, high, run[k - 1], run[k]);
    }
  }

  /** A serial run: every recorder reads and writes before the next one reads. */
  ghost predicate IsSerial(run: seq<World>) {
    forall k, r :: 0 <= k < |run| && 0 <= r < |run[k].recorders| && run[k].recorders[r].Holding?
      ==> run[k].recorders[r].read == Stored(run[k])
  }

  /** When no update is overtaken, the stored count is exactly the number of finished calls. */
  lemma {:induction false} SerialCountIsExact(calls: seq<Call>, run: seq<World>, k: nat)
    requires IsRun(calls, run) && IsSerial(run) && k < |run|
    ensures Stored(run[k]).requestsTotal == WrittenCount(run[k].recorders)
  {
    if k == 0 {
      NoneWritten(Begin(calls));
    } else {
      SerialCountIsExact(calls, run, k - 1);
      var s, t := run[k - 1], run[k];
      assert Next(run[k - 1], run[k - 1 + 1]);
      if r: nat :| Get(s, t, r) {
        WrittenUpdate(s.recorders, r, t.recorders[r]);
      } else if r: nat, stats :| Put(s, t, r, stats) {
        WrittenUpdate(s.recorders, r, t.recorders[r]);
      }
    }
  }

  // --------------------------------------------------------- the summary

  /** `Math.round(total / n)`, halves rounded up; zero when nothing was recorded. */
  function AverageLatency(s: Stats): nat {
    if s.requestsTotal > 0 then (2 * s.latencyTotalMs + s.requestsTotal) / (2 * s.requestsTotal) else 0
  }

  /** The reported average lies between the smallest and the largest recorded latency. */
  lemma AverageIsBetween(s: Stats, low: nat, high: nat)
    requires Sound(s, low, high) && s.requestsTotal > 0
    ensures low <= AverageLatency(s) <= high
  {
    Rounds(s.latencyTotalMs, s.requestsTotal);
    Cancel(s.requestsTotal, low, AverageLatency(s));
    Cancel(s.requestsTotal, AverageLatency(s), high);
  }

  /** The rounded quotient is within half of n of the total. */
  lemma Rounds(total: nat, n: nat)
    requires n > 0
    ensures var q := (2 * total + n) / (2 * n); 2 * (n * q) <= 2 * total + n < 2 * (n * q) + 2 * n
  {
    Quotient(2 * total + n, 2 * n);
    Double(n, (2 * total + n) / (2 * n));
  }

  lemma Quotient(x: nat, m: nat)
    requires m > 0
    ensures m * (x / m) <= x < m * (x / m) + m
  {
  }

  lemma Double(n: nat, q: nat)
    ensures 2 * n * q == 2 * (n * q)
  {
  }

  lemma Cancel(n: nat, a: nat, b: nat)
    requires n * a < n * b + n
    ensures a <= b
  {
    assert n * (b + 1 - a) == n * b + n - n * a;
    PositiveFactor(n, b + 1 - a);
  }

  lemma PositiveFactor(n: nat, k: int)
    requires n * k > 0
    ensures k > 0
  {
  }
}
