/**
 * What exit code zero means while other processes write: the scans of both passes interleaved
 * with arbitrary writers, each batch reading the table as it then is. Models migratePass,
 * scanOnce and main (apps/sdp-api/scripts/migrate-custody-encryption.ts).
 */
module CustodyExit {
  import opened Wrappers
  import opened TextOrder
  import opened CustodyCipher
  import opened NestedSecrets
  import opened CustodyMigration
  import opened CustodyScan

  // ------------------------------------------------------------ the table over time

  /** Every organization under which a row with this id was ever stored. */
  type Owners = string -> set<string>

  /**
   * Some migrator's conditional write of what it verified from a snapshot, some migration of its
   * nested secrets made.
   */
  ghost predicate SwapStep(
    dec: Decrypt, json: Json, owners: Owners, s: Table, t: Table, snapshot: Snapshot, reEncrypted: string)
  {
    var o := snapshot.organizationId;
    var plaintext, roundTrip := dec(o, snapshot.configEncrypted), dec(o, reEncrypted);
    && o in owners(snapshot.id)
    && plaintext.Some? && roundTrip.Some? && NestsTo(dec, json, o, plaintext.value, roundTrip.value)
    && t == CompareAndSwap(s, snapshot, reEncrypted)
  }

  /** A migrator's write, or anything whatever that leaves the row `id` alone. */
  ghost predicate StepSparing(dec: Decrypt, json: Json, owners: Owners, s: Table, t: Table, id: string) {
    (exists snapshot, reEncrypted :: SwapStep(dec, json, owners, s, t, snapshot, reEncrypted))
    || ((id in t <==> id in s) && (id in s ==> t[id] == s[id]))
  }

  /** The table over time, in which only migrators write the row `id`. */
  ghost predicate IsTimeline(dec: Decrypt, json: Json, owners: Owners, run: seq<Table>, id: string) {
    && run != [] && id in run[0] && run[0][id].organizationId in owners(id)
    && forall k :: 0 <= k < |run| - 1 ==> StepSparing(dec, json, owners, run[k], run[k + 1], id)
  }

  /** A snapshot that holds this row's ciphertext and opens is of this row's organization. */
  ghost predicate Anchored(dec: Decrypt, owners: Owners, id: string, row: Row) {
    || owners(id) == {row.organizationId}
    || (OrganizationBound(dec) && dec(row.organizationId, row.configEncrypted).Some?)
  }

  /** Under the new cipher, readable, and with nothing left to migrate inside, however encryption would choose. */
  ghost predicate Settled(dec: Decrypt, json: Json, row: Row) {
    && row.encryptionVersion == V2_VERSION
    && NothingNested(dec, json, row)
  }

  ghost predicate NothingNested(dec: Decrypt, json: Json, row: Row) {
    var plaintext := dec(row.organizationId, row.configEncrypted);
    plaintext.Some? && OnlySkips(dec, json, row.organizationId, plaintext.value)
  }

  /** The row holds what it held, or that with its nested secrets migrated. */
  ghost predicate Preserves(dec: Decrypt, json: Json, was: Row, now: Row) {
    var o := was.organizationId;
    var before, after := dec(o, was.configEncrypted), dec(o, now.configEncrypted);
    && now.organizationId == o
    && (after == before || (before.Some? && after.Some? && NestsInto(dec, json, o, before.value, after.value)))
  }

  /** A swap that takes effect settles the row; a verified swap of it again would keep it so. */
  lemma {:induction false} SwapSettlesRow(
    dec: Decrypt, json: Json, owners: Owners, s: Table, t: Table, snapshot: Snapshot, reEncrypted: string, id: string)
    requires JsonRoundTrips(json) && id in s && Anchored(dec, owners, id, s[id])
    requires SwapStep(dec, json, owners, s, t, snapshot, reEncrypted)
    ensures id in t && t[id].organizationId == s[id].organizationId
    ensures t[id] == s[id] || (Settled(dec, json, t[id]) && Preserves(dec, json, s[id], t[id]))
  {
    if snapshot.id == id && s[id].configEncrypted == snapshot.configEncrypted {
      var o := snapshot.organizationId;
      assert o == s[id].organizationId;
      var before, after := dec(o, snapshot.configEncrypted).value, dec(o, reEncrypted).value;
      var changed :| Nests(dec, json, o, before, Nested(changed, after));
      MigratedOnlySkips(dec, json, o, before, Nested(changed, after));
    }
  }

  lemma {:induction false} PreservesComposes(dec: Decrypt, json: Json, was: Row, between: Row, now: Row)
    requires JsonRoundTrips(json) && Preserves(dec, json, was, between) && Preserves(dec, json, between, now)
    ensures Preserves(dec, json, was, now)
  {
    var o := was.organizationId;
    var p, q, r := dec(o, was.configEncrypted), dec(o, between.configEncrypted), dec(o, now.configEncrypted);
    if p.Some? && q.Some? && r.Some?
       && NestsInto(dec, json, o, p.value, q.value) && NestsInto(dec, json, o, q.value, r.value) {
      NestsIntoComposes(dec, json, o, p.value, q.value, r.value);
    }
  }

  /** At every moment the row holds what it held at first, and is as it was at first or settled. */
  ghost predicate KeptTo(dec: Decrypt, json: Json, run: seq<Table>, id: string, k: nat)
    requires k < |run| && id in run[0]
  {
    && id in run[k] && Preserves(dec, json, run[0][id], run[k][id])
    && (Settled(dec, json, run[k][id]) || SameTo(run, id, k))
  }

  ghost predicate SameTo(run: seq<Table>, id: string, k: nat)
    requires k < |run| && id in run[0]
  {
    forall j :: 0 <= j <= k ==> id in run[j] && run[j][id] == run[0][id]
  }

  lemma {:induction false} StepKeeps(dec: Decrypt, json: Json, owners: Owners, s: Table, t: Table, id: string, was: Row)
    requires JsonRoundTrips(json) && StepSparing(dec, json, owners, s, t, id) && Anchored(dec, owners, id, was)
    requires id in s && Preserves(dec, json, was, s[id])
    ensures id in t && Preserves(dec, json, was, t[id])
    ensures t[id] == s[id] || Settled(dec, json, t[id])
  {
    if snapshot, reEncrypted :| SwapStep(dec, json, owners, s, t, snapshot, reEncrypted) {
      SwapSettlesRow(dec, json, owners, s, t, snapshot, reEncrypted, id);
      if t[id] != s[id] { PreservesComposes(dec, json, was, s[id], t[id]); }
    }
  }

  lemma {:induction false} KeptNext(dec: Decrypt, json: Json, run: seq<Table>, id: string, k: nat)
    requires k + 1 < |run| && id in run[0] && KeptTo(dec, json, run, id, k)
    requires id in run[k + 1] && Preserves(dec, json, run[0][id], run[k + 1][id])
    requires run[k + 1][id] == run[k][id] || Settled(dec, json, run[k + 1][id])
    ensures KeptTo(dec, json, run, id, k + 1)
  {
  }

  lemma {:induction false} RowOverTime(dec: Decrypt, json: Json, owners: Owners, run: seq<Table>, id: string, k: nat)
    requires JsonRoundTrips(json) && IsTimeline(dec, json, owners, run, id) && k < |run|
    requires Anchored(dec, owners, id, run[0][id])
    ensures KeptTo(dec, json, run, id, k)
  {
    if k == 0 {
      assert Preserves(dec, json, run[0][id], run[0][id]);
    } else {
      RowOverTime(dec, json, owners, run, id, k - 1);
      assert StepSparing(dec, json, owners, run[k - 1], run[k - 1 + 1], id);
      StepKeeps(dec, json, owners, run[k - 1], run[k], id, run[0][id]);
      KeptNext(dec, json, run, id, k - 1);
    }
  }

  // ------------------------------------------------------- a scan over time

  /** One batch, read from the table at some moment. */
  datatype Batch = Batch(at: nat, results: seq<Found>)

  function Cursor(batches: seq<Batch>, k: nat): string
    requires k <= |batches|
  {
    if k == 0 || batches[k - 1].results == [] then "" else batches[k - 1].results[|batches[k - 1].results| - 1].id
  }

  ghost predicate IsBatchAt(run: seq<Table>, version: string, after: string, b: Batch) {
    && b.at < |run|
    && (forall i :: 0 <= i < |b.results| ==> Matches(run[b.at], version, after, b.results[i]))
    && Complete(run[b.at], version, after, b.results)
  }

  /** Batches from the start of the id order until one is empty. */
  ghost predicate IsScan(run: seq<Table>, version: string, batches: seq<Batch>) {
    && batches != [] && batches[|batches| - 1].results == []
    && (forall k :: 0 <= k < |batches| - 1 ==> batches[k].results != [])
    && forall k :: 0 <= k < |batches| ==> ReadInTurn(run, version, batches, k)
  }

  /** The k-th batch continues where the one before it ended. */
  ghost predicate ReadInTurn(run: seq<Table>, version: string, batches: seq<Batch>, k: nat)
    requires k < |batches|
  {
    IsBatchAt(run, version, Cursor(batches, k), batches[k])
  }

  ghost predicate VisitedBefore(batches: seq<Batch>, k: nat, id: string, row: Row)
    requires k <= |batches|
  {
    exists j :: 0 <= j < k && Found(id, row) in batches[j].results
  }

  /** The row stays the same throughout. */
  ghost predicate Constant(run: seq<Table>, id: string, row: Row) {
    forall t :: 0 <= t < |run| ==> id in run[t] && run[t][id] == row
  }

  lemma {:induction false} VisitedLater(batches: seq<Batch>, k: nat, id: string, row: Row)
    requires k < |batches|
    ensures VisitedBefore(batches, k, id, row) || Found(id, row) in batches[k].results ==>
            VisitedBefore(batches, k + 1, id, row)
  {
  }

  ghost predicate Passed(batches: seq<Batch>, k: nat, id: string, row: Row)
    requires k <= |batches|
  {
    VisitedBefore(batches, k, id, row) || Before(Cursor(batches, k), id)
  }

  lemma {:induction false} ScanHasBatch(run: seq<Table>, version: string, batches: seq<Batch>, k: nat)
    requires IsScan(run, version, batches) && k < |batches|
    ensures IsBatchAt(run, version, Cursor(batches, k), batches[k])
    ensures k < |batches| - 1 <==> batches[k].results != []
  {
    assert ReadInTurn(run, version, batches, k);
  }

  lemma {:induction false} CursorMovesPast(
    run: seq<Table>, version: string, batches: seq<Batch>, id: string, row: Row, k: nat)
    requires IsScan(run, version, batches) && row.encryptionVersion == version && k + 1 < |batches|
    requires Constant(run, id, row) && Passed(batches, k, id, row)
    ensures Passed(batches, k + 1, id, row)
  {
    ScanHasBatch(run, version, batches, k);
    VisitedLater(batches, k, id, row);
    if Before(Cursor(batches, k), id) {
      BatchPasses(run, version, Cursor(batches, k), batches[k], id, row);
    }
  }

  lemma {:induction false} CursorPasses(
    run: seq<Table>, version: string, batches: seq<Batch>, id: string, row: Row, k: nat)
    requires IsScan(run, version, batches) && Before("", id) && row.encryptionVersion == version && k < |batches|
    requires Constant(run, id, row)
    ensures Passed(batches, k, id, row)
  {
    if k > 0 {
      CursorPasses(run, version, batches, id, row, k - 1);
      CursorMovesPast(run, version, batches, id, row, k - 1);
    }
  }

  lemma {:induction false} BatchPasses(run: seq<Table>, version: string, after: string, b: Batch, id: string, row: Row)
    requires IsBatchAt(run, version, after, b) && Before(after, id) && row.encryptionVersion == version
    requires Constant(run, id, row)
    ensures Found(id, row) in b.results || (b.results != [] && Before(b.results[|b.results| - 1].id, id))
  {
    if i :| 0 <= i < |b.results| && b.results[i].id == id {
      assert Matches(run[b.at], version, after, b.results[i]);
    }
  }

  /** A scan visits every row that stays the same, of its version, for as long as it lasts. */
  lemma {:induction false} ScanVisits(run: seq<Table>, version: string, batches: seq<Batch>, id: string, row: Row)
    requires IsScan(run, version, batches) && Before("", id) && row.encryptionVersion == version
    requires Constant(run, id, row)
    ensures VisitedBefore(batches, |batches|, id, row)
  {
    var k := |batches| - 1;
    CursorPasses(run, version, batches, id, row, k);
    ScanHasBatch(run, version, batches, k);
    VisitedLater(batches, k, id, row);
    if Before(Cursor(batches, k), id) {
      BatchPasses(run, version, Cursor(batches, k), batches[k], id, row);
    }
  }

  // ----------------------------------------------------------- the counters

  datatype Outcome = Skipped | FailedRow | Migrated | Contested

  /** A row is only skipped by the nested pass, when migrating its nested secrets changed nothing. */
  ghost predicate IsOutcome(dec: Decrypt, json: Json, version: string, row: Row, outcome: Outcome) {
    outcome == Skipped ==>
      var plaintext := dec(row.organizationId, row.configEncrypted);
      && version == V2_VERSION && plaintext.Some?
      && exists configJson :: Nests(dec, json, row.organizationId, plaintext.value, Nested(false, configJson))
  }

  lemma {:induction false} SkippedHasNothing(dec: Decrypt, json: Json, row: Row)
    requires JsonRoundTrips(json) && IsOutcome(dec, json, V2_VERSION, row, Skipped)
    ensures NothingNested(dec, json, row)
  {
    var o := row.organizationId;
    var plaintext := dec(o, row.configEncrypted).value;
    var configJson :| Nests(dec, json, o, plaintext, Nested(false, configJson));
    MigrationKeepsSecrets(dec, json, o, plaintext, Nested(false, configJson));
    MigratedOnlySkips(dec, json, o, plaintext, Nested(false, configJson));
  }

  function Rows(batches: seq<Batch>): seq<Found> {
    if batches == [] then [] else batches[0].results + Rows(batches[1..])
  }

  function Count(outcomes: seq<Outcome>): Counters {
    if outcomes == [] then Counters(0, 0, 0)
    else Plus(match outcomes[0]
              case Skipped => Counters(0, 0, 0)
              case FailedRow => Counters(0, 0, 1)
              case Migrated => Counters(1, 0, 0)
              case Contested => Counters(0, 1, 0),
              Count(outcomes[1..]))
  }

  /** A scan as it happened: its batches, and what became of each row. */
  datatype ScanRecord = ScanRecord(batches: seq<Batch>, outcomes: seq<Outcome>)

  ghost predicate IsRecord(dec: Decrypt, json: Json, run: seq<Table>, version: string, s: ScanRecord) {
    && IsScan(run, version, s.batches)
    && |s.outcomes| == |Rows(s.batches)|
    && forall i :: 0 <= i < |s.outcomes| ==> IsOutcome(dec, json, version, Rows(s.batches)[i].row, s.outcomes[i])
  }

  function CountsOf(scans: seq<ScanRecord>): (counts: seq<Counters>)
    ensures |counts| == |scans| && forall k :: 0 <= k < |scans| ==> counts[k] == Count(scans[k].outcomes)
  {
    seq(|scans|, k requires 0 <= k < |scans| => Count(scans[k].outcomes))
  }

  /** A pass adds up its scans until one neither migrates nor is contested. */
  function PassTotals(counts: seq<Counters>, left: nat): Counters
    decreases left
  {
    if left == 0 || counts == [] then Counters(0, 1, 0)
    else if counts[0].migrated == 0 && counts[0].contested == 0 then counts[0]
    else Plus(counts[0], PassTotals(counts[1..], left - 1))
  }

  ghost predicate AllSkipped(outcomes: seq<Outcome>) {
    forall i :: 0 <= i < |outcomes| ==> outcomes[i] == Skipped
  }

  lemma {:induction false} SkippedCons(outcomes: seq<Outcome>)
    requires outcomes != []
    ensures AllSkipped(outcomes) <==> outcomes[0] == Skipped && AllSkipped(outcomes[1..])
  {
    assert outcomes == [outcomes[0]] + outcomes[1..];
  }

  lemma {:induction false} CountIs(outcomes: seq<Outcome>)
    ensures NonNegative(Count(outcomes))
    ensures Count(outcomes) == Counters(0, 0, 0) <==> AllSkipped(outcomes)
  {
    if outcomes != [] {
      CountIs(outcomes[1..]);
      SkippedCons(outcomes);
    }
  }

  lemma {:induction false} RowsInclude(batches: seq<Batch>, j: nat, r: Found)
    requires j < |batches| && r in batches[j].results
    ensures r in Rows(batches)
  {
    if j > 0 {
      RowsInclude(batches[1..], j - 1, r);
    }
  }

  ghost predicate AllNonNegative(counts: seq<Counters>) {
    forall k :: 0 <= k < |counts| ==> NonNegative(counts[k])
  }

  lemma {:induction false} TotalsAreNonNegative(counts: seq<Counters>, left: nat)
    requires AllNonNegative(counts)
    ensures NonNegative(PassTotals(counts, left))
    decreases left
  {
    if left > 0 && counts != [] {
      TotalsAreNonNegative(counts[1..], left - 1);
    }
  }

  /** A pass that fails and contests nothing ends with a scan that counts nothing. */
  lemma {:induction false} CleanPassEnds(counts: seq<Counters>, left: nat) returns (k: nat)
    requires AllNonNegative(counts) && Clean(PassTotals(counts, left))
    ensures k < |counts| && counts[k] == Counters(0, 0, 0)
    decreases left
  {
    k := 0;
    if counts[0].migrated != 0 || counts[0].contested != 0 {
      TotalsAreNonNegative(counts[1..], left - 1);
      var rest := CleanPassEnds(counts[1..], left - 1);
      k := rest + 1;
    }
  }

  lemma {:induction false} CountsAreNonNegative(scans: seq<ScanRecord>)
    ensures AllNonNegative(CountsOf(scans))
  {
    forall k | 0 <= k < |scans| ensures NonNegative(CountsOf(scans)[k]) {
      CountIs(scans[k].outcomes);
    }
  }

  /**
   * Exit code zero, with other processes writing all along and every encryption choosing freely. No
   * row is legacy at the final count, and every row that only migrators wrote since the run began, of
   * either version and reachable by the cursor, is under the new cipher, with its nested secrets
   * migrated and its plaintext preserved.
   */
  lemma {:induction false} ExitZeroMeansMigrated(
    dec: Decrypt, json: Json, owners: Owners, run: seq<Table>, nested: seq<ScanRecord>, legacy: Counters, id: string)
    requires JsonRoundTrips(json) && IsTimeline(dec, json, owners, run, id) && Before("", id)
    requires Anchored(dec, owners, id, run[0][id])
    requires forall k :: 0 <= k < |nested| ==> IsRecord(dec, json, run, V2_VERSION, nested[k])
    requires ExitCodeIsZero(PassTotals(CountsOf(nested), MAX_SCANS), legacy, run[|run| - 1])
    requires run[0][id].encryptionVersion in {LEGACY_VERSION, V2_VERSION}
    ensures var last := run[|run| - 1];
            && (forall any :: any in last ==> last[any].encryptionVersion != LEGACY_VERSION)
            && id in last && Settled(dec, json, last[id]) && Preserves(dec, json, run[0][id], last[id])
  {
    var last, was := run[|run| - 1], run[0][id];
    RowOverTime(dec, json, owners, run, id, |run| - 1);
    forall any | any in last ensures last[any].encryptionVersion != LEGACY_VERSION {
      assert any !in Legacy(last);
    }
    if !Settled(dec, json, last[id]) {
      assert SameTo(run, id, |run| - 1);
      CountsAreNonNegative(nested);
      var k := CleanPassEnds(CountsOf(nested), MAX_SCANS);
      SkippedIsSettled(dec, json, run, nested[k], id, was);
    }
  }

  lemma {:induction false} VisitedHasOutcome(dec: Decrypt, json: Json, run: seq<Table>, s: ScanRecord, r: Found)
    requires IsRecord(dec, json, run, V2_VERSION, s) && VisitedBefore(s.batches, |s.batches|, r.id, r.row)
    ensures exists i :: 0 <= i < |s.outcomes| && IsOutcome(dec, json, V2_VERSION, r.row, s.outcomes[i])
  {
    var j :| 0 <= j < |s.batches| && Found(r.id, r.row) in s.batches[j].results;
    RowsInclude(s.batches, j, r);
    var i :| 0 <= i < |Rows(s.batches)| && Rows(s.batches)[i] == r;
    assert IsOutcome(dec, json, V2_VERSION, Rows(s.batches)[i].row, s.outcomes[i]);
  }

  /** A row that never changed and was of the new version was visited by the last nested scan, and skipped. */
  lemma {:induction false} SkippedIsSettled(
    dec: Decrypt, json: Json, run: seq<Table>, s: ScanRecord, id: string, row: Row)
    requires JsonRoundTrips(json) && IsRecord(dec, json, run, V2_VERSION, s) && Count(s.outcomes) == Counters(0, 0, 0)
    requires Before("", id) && row.encryptionVersion == V2_VERSION
    requires Constant(run, id, row)
    ensures Settled(dec, json, row)
  {
    ScanVisits(run, V2_VERSION, s.batches, id, row);
    VisitedHasOutcome(dec, json, run, s, Found(id, row));
    var i :| 0 <= i < |s.outcomes| && IsOutcome(dec, json, V2_VERSION, row, s.outcomes[i]);
    CountIs(s.outcomes);
    assert s.outcomes[i] == Skipped;
    SkippedHasNothing(dec, json, row);
  }
}
