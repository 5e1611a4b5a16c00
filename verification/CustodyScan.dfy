/**
 * The migrator undisturbed: what one scan, one pass and one whole run do to a table nobody else
 * writes, with deterministic outcomes per row. Models scanOnce, migratePass and the exit code of
 * main (apps/sdp-api/scripts/migrate-custody-encryption.ts).
 */
module CustodyScan {
  import opened Wrappers
  import opened TextOrder
  import opened CustodyCipher
  import opened NestedSecrets
  import opened CustodyMigration

  const BATCH_SIZE: nat := 50
  const MAX_SCANS: nat := 10

  /** The cipher and the nested migration as functions; None where the call throws. */
  datatype Suite = Suite(
    dec: Decrypt, enc: (string, string) -> Option<string>, nest: (string, string) -> Option<Nested>)

  /** Migrating nested secrets a second time changes nothing. */
  ghost predicate NestedIsIdempotent(c: Suite) {
    forall o, p :: c.nest(o, p).Some? ==>
      c.nest(o, c.nest(o, p).value.configJson) == Some(Nested(false, c.nest(o, p).value.configJson))
  }

  /** The suite with the nested migration as it is coded, encrypting each secret with `enc`. */
  function SuiteOf(dec: Decrypt, enc: (string, string) -> Option<string>, json: Json): Suite {
    Suite(dec, enc, (o, p) => Migrated(dec, json, o, p, EncryptedWith(dec, enc, json, o, p)))
  }

  function EncryptedWith(
    dec: Decrypt, enc: (string, string) -> Option<string>, json: Json, o: string, configJson: string): Encrypted
  {
    (i: nat) =>
      var config := json.parse(configJson);
      if config.None? || i >= |config.value.secrets| || config.value.secrets[i].None? then None
      else
        var plaintext := dec(o, config.value.secrets[i].value);
        if plaintext.None? then None else enc(o, plaintext.value)
  }

  /** Encryption under the new cipher: what it returns has the new prefix and decrypts back. */
  ghost predicate NewCipher(dec: Decrypt, enc: (string, string) -> Option<string>) {
    forall o, p :: enc(o, p).Some? ==> IsV2(enc(o, p).value) && dec(o, enc(o, p).value) == Some(p)
  }

  lemma {:induction false} NewCipherIsSound(
    dec: Decrypt, enc: (string, string) -> Option<string>, json: Json, o: string, configJson: string)
    requires NewCipher(dec, enc) && json.parse(configJson).Some?
    ensures SoundlyEncrypted(dec, o, json.parse(configJson).value.secrets, EncryptedWith(dec, enc, json, o, configJson))
  {
  }

  lemma {:induction false} CodedNestingAgain(
    dec: Decrypt, enc: (string, string) -> Option<string>, json: Json, o: string, p: string, result: Nested,
    again: Encrypted)
    requires NewCipher(dec, enc) && JsonRoundTrips(json)
    requires Migrated(dec, json, o, p, EncryptedWith(dec, enc, json, o, p)) == Some(result)
    ensures Migrated(dec, json, o, result.configJson, again) == Some(Nested(false, result.configJson))
  {
    NewCipherIsSound(dec, enc, json, o, p);
    assert NestsWith(dec, json, o, p, result, EncryptedWith(dec, enc, json, o, p));
    MigrationIsIdempotent(dec, json, o, p, result, again);
  }

  /** So what the passes below assume of nested migration holds of it as it is coded. */
  lemma {:induction false} CodedNestingIsIdempotent(dec: Decrypt, enc: (string, string) -> Option<string>, json: Json)
    requires NewCipher(dec, enc) && JsonRoundTrips(json)
    ensures NestedIsIdempotent(SuiteOf(dec, enc, json))
  {
    var c := SuiteOf(dec, enc, json);
    forall o, p | c.nest(o, p).Some?
      ensures c.nest(o, c.nest(o, p).value.configJson) == Some(Nested(false, c.nest(o, p).value.configJson))
    {
      var result := c.nest(o, p).value;
      CodedNestingAgain(dec, enc, json, o, p, result, EncryptedWith(dec, enc, json, o, result.configJson));
    }
  }

  datatype Processing = Skip | Fail | Write(reEncrypted: string)

  /** One row: decrypt, migrate nested secrets, re-encrypt, and verify before writing. */
  function Process(c: Suite, version: string, row: Row): Processing {
    var o := row.organizationId;
    var plaintext := c.dec(o, row.configEncrypted);
    if plaintext.None? then Fail
    else
      var nested := c.nest(o, plaintext.value);
      if nested.None? then Fail
      else if version == V2_VERSION && !nested.value.changed then Skip
      else
        var reEncrypted := c.enc(o, nested.value.configJson);
        if reEncrypted.None? || c.dec(o, reEncrypted.value) != Some(nested.value.configJson) then Fail
        else Write(reEncrypted.value)
  }

  type Table = map<string, Row>

  /** The rows a scan of `version` is to visit. The cursor starts at "", so an empty id is never visited. */
  function Due(t: Table, version: string): set<string> {
    set id | id in t && t[id].encryptionVersion == version && Before("", id)
  }

  function ToWrite(c: Suite, t: Table, version: string): set<string> {
    set id | id in Due(t, version) && Process(c, version, t[id]).Write?
  }

  function ToFail(c: Suite, t: Table, version: string): set<string> {
    set id | id in Due(t, version) && Process(c, version, t[id]).Fail?
  }

  /** The table once the rows in `seen` have been processed. */
  function Applied(c: Suite, t: Table, version: string, seen: set<string>): Table {
    map id | id in t ::
      if id in seen && id in ToWrite(c, t, version)
      then Row(t[id].organizationId, Process(c, version, t[id]).reEncrypted, V2_VERSION)
      else t[id]
  }

  function AfterScan(c: Suite, t: Table, version: string): Table {
    Applied(c, t, version, Due(t, version))
  }

  datatype Counters = Counters(migrated: int, contested: int, failed: int)

  datatype Found = Found(id: string, row: Row)

  class Database {
    var rows: Table

    /** `WHERE encryption_version = ? AND id > ? ORDER BY id LIMIT ?` */
    method Select(version: string, after: string, limit: nat) returns (results: seq<Found>)
      ensures |results| <= limit
      ensures forall i :: 0 <= i < |results| ==> Matches(rows, version, after, results[i])
      ensures forall i, j :: 0 <= i < j < |results| ==> Before(results[i].id, results[j].id)
      ensures limit > 0 ==> Complete(rows, version, after, results)
    {
      results := [];
      var candidates := set id | id in rows && rows[id].encryptionVersion == version && Before(after, id);
      while |results| < limit && candidates != {}
        invariant |results| <= limit
        invariant Selecting(rows, version, after, results, candidates)
        decreases candidates
      {
        LeastExists(candidates);
        var id :| id in candidates && IsLeast(id, candidates);
        SelectNext(rows, version, after, results, candidates, id);
        results := results + [Found(id, rows[id])];
        candidates := candidates - {id};
      }
      SelectedIsComplete(rows, version, after, results, candidates);
    }

    /** `UPDATE … WHERE id = ? AND config_encrypted = ?`, returning the number of rows changed. */
    method Update(id: string, expected: string, reEncrypted: string) returns (updated: nat)
      modifies this
      ensures rows == CompareAndSwap(old(rows), Snapshot(id, "", expected), reEncrypted)
      ensures updated == if id in old(rows) && old(rows)[id].configEncrypted == expected then 1 else 0
    {
      updated := 0;
      if id in rows && rows[id].configEncrypted == expected {
        rows := rows[id := Row(rows[id].organizationId, reEncrypted, V2_VERSION)];
        updated := 1;
      }
    }
  }

  ghost predicate Matches(t: Table, version: string, after: string, r: Found) {
    r.id in t && t[r.id] == r.row && r.row.encryptionVersion == version && Before(after, r.id)
  }

  /** Whatever is left out comes after everything returned. */
  ghost predicate Complete(t: Table, version: string, after: string, results: seq<Found>) {
    forall id :: id in t && t[id].encryptionVersion == version && Before(after, id) ==>
      || (exists i :: 0 <= i < |results| && results[i].id == id)
      || (results != [] && Before(results[|results| - 1].id, id))
  }

  /** What has been returned so far is ordered and comes before the candidates that remain. */
  ghost predicate Selecting(t: Table, version: string, after: string, results: seq<Found>, candidates: set<string>) {
    && (forall i :: 0 <= i < |results| ==> Matches(t, version, after, results[i]))
    && (forall i, j :: 0 <= i < j < |results| ==> Before(results[i].id, results[j].id))
    && (forall id :: id in candidates ==> id in t && t[id].encryptionVersion == version && Before(after, id))
    && (forall i, id :: 0 <= i < |results| && id in candidates ==> Before(results[i].id, id))
    && (forall id :: id in t && t[id].encryptionVersion == version && Before(after, id)
          ==> id in candidates || exists i :: 0 <= i < |results| && results[i].id == id)
  }

  lemma SelectNext(t: Table, version: string, after: string, results: seq<Found>, candidates: set<string>, id: string)
    requires Selecting(t, version, after, results, candidates) && id in candidates && IsLeast(id, candidates)
    ensures Selecting(t, version, after, results + [Found(id, t[id])], candidates - {id})
  {
    var longer := results + [Found(id, t[id])];
    assert longer[|results|].id == id;
    assert forall i :: 0 <= i < |results| ==> longer[i] == results[i];
  }

  lemma SelectedIsComplete(t: Table, version: string, after: string, results: seq<Found>, candidates: set<string>)
    requires Selecting(t, version, after, results, candidates)
    ensures candidates == {} || results != [] ==> Complete(t, version, after, results)
  {
    if results != [] {
      forall id | id in candidates ensures Before(results[|results| - 1].id, id) {
      }
    }
  }

  /** Process one row of a batch and count what became of it. */
  method MigrateRow(
    db: Database, c: Suite, version: string, r: Found, counters: Counters, ghost t: Table, ghost seen: set<string>)
    returns (after: Counters)
    requires Progress(db.rows, counters) == ProgressAt(c, t, version, seen)
    requires r.id in Due(t, version) && r.row == t[r.id] && r.id !in seen
    modifies db
    ensures Progress(db.rows, after) == ProgressAt(c, t, version, seen + {r.id})
  {
    RowApplied(c, t, version, seen, r);
    RowTallied(c, t, version, seen, r);
    after := counters;
    match Process(c, version, r.row)
    case Skip =>
    case Fail => after := counters.(failed := counters.failed + 1);
    case Write(reEncrypted) =>
      var updated := db.Update(r.id, r.row.configEncrypted, reEncrypted);
      if updated > 0 {
        after := counters.(migrated := counters.migrated + 1);
      } else {
        after := counters.(contested := counters.contested + 1);
      }
  }

  lemma RowApplied(c: Suite, t: Table, version: string, seen: set<string>, r: Found)
    requires r.id in Due(t, version) && r.row == t[r.id] && r.id !in seen
    ensures var rows, p := Applied(c, t, version, seen), Process(c, version, r.row);
            && rows[r.id] == r.row
            && Applied(c, t, version, seen + {r.id})
               == if p.Write? then rows[r.id := Row(r.row.organizationId, p.reEncrypted, V2_VERSION)] else rows
  {
  }

  lemma RowTallied(c: Suite, t: Table, version: string, seen: set<string>, r: Found)
    requires r.id in Due(t, version) && r.row == t[r.id] && r.id !in seen
    ensures var tally, p := Tally(c, t, version, seen), Process(c, version, r.row);
            Tally(c, t, version, seen + {r.id})
            == match p
               case Skip => tally
               case Fail => tally.(failed := tally.failed + 1)
               case Write(_) => tally.(migrated := tally.migrated + 1)
  {
    AddOne(seen, r.id, ToWrite(c, t, version));
    AddOne(seen, r.id, ToFail(c, t, version));
  }

  datatype Progress = Progress(rows: Table, counters: Counters)

  /** The table and the counters once the rows in `seen` have been processed. */
  ghost function ProgressAt(c: Suite, t: Table, version: string, seen: set<string>): Progress {
    Progress(Applied(c, t, version, seen), Tally(c, t, version, seen))
  }

  ghost function Tally(c: Suite, t: Table, version: string, seen: set<string>): Counters {
    Counters(|seen * ToWrite(c, t, version)|, 0, |seen * ToFail(c, t, version)|)
  }

  lemma AddOne(seen: set<string>, id: string, s: set<string>)
    requires id !in seen
    ensures |(seen + {id}) * s| == |seen * s| + if id in s then 1 else 0
  {
    if id in s {
      assert (seen + {id}) * s == seen * s + {id};
    } else {
      assert (seen + {id}) * s == seen * s;
    }
  }

  /** The cursor has passed exactly the rows in `seen`. */
  ghost predicate CursorAt(t: Table, version: string, lastId: string, seen: set<string>) {
    && seen <= Due(t, version)
    && forall id :: id in Due(t, version) ==> (id in seen <==> !Before(lastId, id))
  }

  function IdSeq(results: seq<Found>): (ids: seq<string>)
    ensures |ids| == |results| && forall i :: 0 <= i < |ids| ==> ids[i] == results[i].id
  {
    seq(|results|, i requires 0 <= i < |results| => results[i].id)
  }

  /** The batch read at a cursor: due, not yet seen, in order, and missing nothing before its last row. */
  ghost predicate IsBatch(t: Table, version: string, lastId: string, seen: set<string>, results: seq<Found>) {
    && (forall i :: 0 <= i < |results| ==>
          && results[i].id in Due(t, version) && results[i].row == t[results[i].id]
          && results[i].id !in seen && Before(lastId, results[i].id))
    && (forall i, j :: 0 <= i < j < |results| ==> Before(results[i].id, results[j].id))
    && (forall id :: id in Due(t, version) && Before(lastId, id) ==>
          || (exists i :: 0 <= i < |results| && results[i].id == id)
          || (results != [] && Before(results[|results| - 1].id, id)))
  }

  lemma BatchIsDue(
    c: Suite, t: Table, rows: Table, version: string, lastId: string, seen: set<string>, results: seq<Found>)
    requires rows == Applied(c, t, version, seen) && CursorAt(t, version, lastId, seen)
    requires forall i :: 0 <= i < |results| ==> Matches(rows, version, lastId, results[i])
    requires forall i, j :: 0 <= i < j < |results| ==> Before(results[i].id, results[j].id)
    requires Complete(rows, version, lastId, results)
    ensures IsBatch(t, version, lastId, seen, results)
  {
    forall i | 0 <= i < |results|
      ensures results[i].id in Due(t, version) && results[i].row == t[results[i].id] && results[i].id !in seen
    {
      assert Matches(rows, version, lastId, results[i]);
      assert Before("", results[i].id);
    }
    forall id | id in Due(t, version) && Before(lastId, id)
      ensures (exists i :: 0 <= i < |results| && results[i].id == id)
              || (results != [] && Before(results[|results| - 1].id, id))
    {
      assert id !in seen && rows[id] == t[id];
    }
  }

  lemma CursorMoves(
    t: Table, version: string, lastId: string, seen: set<string>, results: seq<Found>, after: set<string>)
    requires CursorAt(t, version, lastId, seen) && IsBatch(t, version, lastId, seen, results) && results != []
    requires forall id :: id in after <==> id in seen || exists i :: 0 <= i < |results| && results[i].id == id
    ensures CursorAt(t, version, results[|results| - 1].id, after)
  {
    var last := results[|results| - 1].id;
    Irreflexive(last);
    forall id | id in Due(t, version) ensures id in after <==> !Before(last, id) {
      if Before(last, id) {
        Transitive(lastId, last, id);
        if i :| 0 <= i < |results| - 1 && results[i].id == id {
          Transitive(last, id, last);
        }
      }
    }
  }

  lemma VisitedExtends(
    t: Table, version: string, lastId: string, seen: set<string>, results: seq<Found>, visited: seq<string>)
    requires CursorAt(t, version, lastId, seen) && IsBatch(t, version, lastId, seen, results)
    requires Ascending(visited) && forall id :: id in visited ==> id in seen
    ensures Ascending(visited + IdSeq(results))
  {
    var all := visited + IdSeq(results);
    forall i, j | 0 <= i < j < |all| ensures Before(all[i], all[j]) {
      if i < |visited| <= j {
        assert visited[i] in visited;
        Total(all[i], lastId);
        if all[i] != lastId { Transitive(all[i], lastId, all[j]); }
      }
    }
  }

  /** `seen` and the first k rows of the batch. */
  ghost function SeenTo(seen: set<string>, results: seq<Found>, k: nat): set<string>
    requires k <= |results|
  {
    if k == 0 then seen else SeenTo(seen, results, k - 1) + {results[k - 1].id}
  }

  lemma {:induction false} SeenToMembers(seen: set<string>, results: seq<Found>, k: nat)
    requires k <= |results|
    ensures forall id :: id in SeenTo(seen, results, k) <==> id in seen || exists i :: 0 <= i < k && results[i].id == id
  {
    if k > 0 {
      SeenToMembers(seen, results, k - 1);
    }
  }

  /** Each row of the batch is due, as it was when the scan began, and not seen before its turn. */
  ghost predicate Fresh(t: Table, version: string, seen: set<string>, results: seq<Found>, k: nat)
    requires k < |results|
  {
    results[k].id in Due(t, version) && results[k].row == t[results[k].id] && results[k].id !in SeenTo(seen, results, k)
  }

  ghost predicate AllFresh(t: Table, version: string, seen: set<string>, results: seq<Found>) {
    forall k :: 0 <= k < |results| ==> Fresh(t, version, seen, results, k)
  }

  lemma BatchIsFresh(t: Table, version: string, lastId: string, seen: set<string>, results: seq<Found>)
    requires IsBatch(t, version, lastId, seen, results)
    ensures AllFresh(t, version, seen, results)
  {
    forall k | 0 <= k < |results| ensures Fresh(t, version, seen, results, k) {
      SeenToMembers(seen, results, k);
      Irreflexive(results[k].id);
    }
  }

  /** What holds between batches. */
  ghost predicate Scanning(
    c: Suite, t: Table, version: string, rows: Table, lastId: string, seen: set<string>, visited: seq<string>,
    counters: Counters)
  {
    && Progress(rows, counters) == ProgressAt(c, t, version, seen)
    && CursorAt(t, version, lastId, seen)
    && Ascending(visited) && (forall id :: id in visited <==> id in seen)
  }

  lemma {:induction false} BatchKeepsScanning(
    c: Suite, t: Table, version: string, before: Table, rows: Table, lastId: string, seen: set<string>,
                           visited: seq<string>, counted: Counters, counters: Counters, results: seq<Found>)
    requires Scanning(c, t, version, before, lastId, seen, visited, counted)
    requires IsBatch(t, version, lastId, seen, results) && results != []
    requires Progress(rows, counters) == ProgressAt(c, t, version, SeenTo(seen, results, |results|))
    ensures Scanning(c, t, version, rows, results[|results| - 1].id, SeenTo(seen, results, |results|),
                     visited + IdSeq(results), counters)
    ensures Due(t, version) - SeenTo(seen, results, |results|) < Due(t, version) - seen
  {
    SeenToMembers(seen, results, |results|);
    CursorMoves(t, version, lastId, seen, results, SeenTo(seen, results, |results|));
    VisitedExtends(t, version, lastId, seen, results, visited);
    VisitedMembers(seen, results, visited);
    assert results[0].id in (Due(t, version) - seen) && results[0].id in SeenTo(seen, results, |results|);
  }

  lemma {:induction false} VisitedMembers(seen: set<string>, results: seq<Found>, visited: seq<string>)
    requires forall id :: id in visited <==> id in seen
    ensures forall id :: id in visited + IdSeq(results) <==> id in SeenTo(seen, results, |results|)
  {
    SeenToMembers(seen, results, |results|);
    forall id ensures id in IdSeq(results) <==> exists i :: 0 <= i < |results| && results[i].id == id {
      if i :| 0 <= i < |results| && results[i].id == id { assert IdSeq(results)[i] == id; }
    }
  }

  /** The next batch: its rows are due and unseen, and each still is when its turn comes. */
  method ReadBatch(db: Database, c: Suite, version: string, lastId: string, ghost t: Table, ghost seen: set<string>)
    returns (results: seq<Found>)
    requires db.rows == Applied(c, t, version, seen) && CursorAt(t, version, lastId, seen)
    ensures IsBatch(t, version, lastId, seen, results)
    ensures AllFresh(t, version, seen, results)
  {
    results := db.Select(version, lastId, BATCH_SIZE);
    BatchIsDue(c, t, db.rows, version, lastId, seen, results);
    BatchIsFresh(t, version, lastId, seen, results);
  }

  /** The k-th row of a batch, against the table as the batch's earlier rows left it. */
  method MigrateNext(db: Database, c: Suite, version: string, results: seq<Found>, k: nat, counters: Counters,
                     ghost t: Table, ghost seen: set<string>)
    returns (after: Counters)
    requires k < |results| && AllFresh(t, version, seen, results)
    requires Progress(db.rows, counters) == ProgressAt(c, t, version, SeenTo(seen, results, k))
    modifies db
    ensures Progress(db.rows, after) == ProgressAt(c, t, version, SeenTo(seen, results, k + 1))
  {
    assert Fresh(t, version, seen, results, k);
    after := MigrateRow(db, c, version, results[k], counters, t, SeenTo(seen, results, k));
  }

  method ScanBatch(db: Database, c: Suite, version: string, results: seq<Found>, counters: Counters,
                   ghost t: Table, ghost seen: set<string>)
    returns (after: Counters)
    requires Progress(db.rows, counters) == ProgressAt(c, t, version, seen)
    requires AllFresh(t, version, seen, results)
    modifies db
    ensures Progress(db.rows, after) == ProgressAt(c, t, version, SeenTo(seen, results, |results|))
  {
    after := counters;
    var k := 0;
    while k < |results|
      invariant 0 <= k <= |results|
      invariant Progress(db.rows, after) == ProgressAt(c, t, version, SeenTo(seen, results, k))
    {
      after := MigrateNext(db, c, version, results, k, after, t, seen);
      k := k + 1;
    }
  }

  /** When the cursor finds nothing more, everything due has been seen and counted. */
  lemma ScanIsComplete(c: Suite, t: Table, rows: Table, version: string, lastId: string, seen: set<string>,
                       visited: seq<string>, counters: Counters)
    requires Scanning(c, t, version, rows, lastId, seen, visited, counters) && IsBatch(t, version, lastId, seen, [])
    ensures seen == Due(t, version) && rows == AfterScan(c, t, version)
    ensures counters == Counters(|ToWrite(c, t, version)|, 0, |ToFail(c, t, version)|)
  {
    assert seen == Due(t, version);
    assert seen * ToWrite(c, t, version) == ToWrite(c, t, version);
    assert seen * ToFail(c, t, version) == ToFail(c, t, version);
  }

  /**
   * One scan, alone on the table: it visits the due rows once each, in strictly ascending id
   * order, although the rows it migrates may leave the filter; it leaves the table with exactly
   * those rows processed, contests nothing, and counts exactly what it did.
   */
  method ScanOnce(db: Database, c: Suite, version: string) returns (counters: Counters, ghost visited: seq<string>)
    modifies db
    ensures db.rows == AfterScan(c, old(db.rows), version)
    ensures Ascending(visited) && forall id :: id in visited <==> id in Due(old(db.rows), version)
    ensures counters == Counters(|ToWrite(c, old(db.rows), version)|, 0, |ToFail(c, old(db.rows), version)|)
  {
    ghost var t := db.rows;
    ghost var seen: set<string> := {};
    counters := Counters(0, 0, 0);
    visited := [];
    var lastId := "";
    ScanBegins(c, t, version);
    while true
      invariant Scanning(c, t, version, db.rows, lastId, seen, visited, counters)
      decreases Due(t, version) - seen
    {
      var results := ReadBatch(db, c, version, lastId, t, seen);
      if |results| == 0 { break; }
      ghost var before, countersBefore := db.rows, counters;
      counters := ScanBatch(db, c, version, results, counters, t, seen);
      BatchKeepsScanning(c, t, version, before, db.rows, lastId, seen, visited, countersBefore, counters, results);
      seen := SeenTo(seen, results, |results|);
      visited := visited + IdSeq(results);
      lastId := results[|results| - 1].id;
    }
    ScanIsComplete(c, t, db.rows, version, lastId, seen, visited, counters);
  }

  lemma ScanBegins(c: Suite, t: Table, version: string)
    ensures Scanning(c, t, version, t, "", {}, [], Counters(0, 0, 0))
  {
    assert {} * ToWrite(c, t, version) == {} && {} * ToFail(c, t, version) == {};
  }

  // --------------------------------------------------------- passes

  /** After one scan nothing is left to write; what fails then is what failed before. */
  lemma SecondScanWritesNothing(c: Suite, t: Table, version: string)
    requires NestedIsIdempotent(c) && version in {LEGACY_VERSION, V2_VERSION}
    ensures var after := AfterScan(c, t, version);
            && ToWrite(c, after, version) == {}
            && ToFail(c, after, version) == ToFail(c, t, version)
            && AfterScan(c, after, version) == after
  {
    var after := AfterScan(c, t, version);
    forall id | id in t
      ensures id in Due(after, version) && id in ToWrite(c, t, version) ==> Process(c, version, after[id]) == Skip
    {
    }
    assert ToWrite(c, after, version) == {};
    assert ToFail(c, after, version) == ToFail(c, t, version);
  }

  /** What one scan leaves and counts. */
  datatype Scan = Scan(rows: Table, counters: Counters)

  function ScanOf(c: Suite, version: string): Table -> Scan {
    t => Scan(AfterScan(c, t, version), Counters(|ToWrite(c, t, version)|, 0, |ToFail(c, t, version)|))
  }

  /** What a pass leaves and counts, and how many scans it took. */
  datatype Pass = Pass(rows: Table, counters: Counters, scans: nat)

  function Plus(a: Counters, b: Counters): Counters {
    Counters(a.migrated + b.migrated, a.contested + b.contested, a.failed + b.failed)
  }

  /** One scan after another until one neither writes nor is contested; running out of scans counts as contested. */
  function PassFrom(scan: Table -> Scan, t: Table, left: nat): Pass
    decreases left
  {
    if left == 0 then Pass(t, Counters(0, 1, 0), 0)
    else
      var done := scan(t);
      if done.counters.migrated == 0 && done.counters.contested == 0 then Pass(done.rows, done.counters, 1)
      else
        var rest := PassFrom(scan, done.rows, left - 1);
        Pass(rest.rows, Plus(done.counters, rest.counters), rest.scans + 1)
  }

  function PassOf(c: Suite, t: Table, version: string): Pass {
    PassFrom(ScanOf(c, version), t, MAX_SCANS)
  }

  method RunScan(db: Database, c: Suite, version: string, ghost scan: Table -> Scan) returns (counters: Counters)
    requires scan == ScanOf(c, version)
    modifies db
    ensures Scan(db.rows, counters) == scan(old(db.rows))
  {
    ghost var visited;
    counters, visited := ScanOnce(db, c, version);
  }

  /** What a pass comes to that has counted so far and may still scan `left` times. */
  ghost function Continued(scan: Table -> Scan, t: Table, left: nat, counters: Counters): (Table, Counters) {
    var rest := PassFrom(scan, t, left);
    (rest.rows, Plus(counters, rest.counters))
  }

  lemma OneMoreScan(scan: Table -> Scan, t: Table, left: nat, counters: Counters)
    requires left > 0
    ensures var done := scan(t);
            Continued(scan, t, left, counters) ==
            if done.counters.migrated == 0 && done.counters.contested == 0
            then (done.rows, Plus(counters, done.counters))
            else Continued(scan, done.rows, left - 1, Plus(counters, done.counters))
  {
  }

  /** A pass, alone on the table. */
  method MigratePass(
    db: Database, c: Suite, version: string, maxScans: nat, ghost scan: Table -> Scan) returns (counters: Counters)
    requires scan == ScanOf(c, version)
    modifies db
    ensures (db.rows, counters) == Continued(scan, old(db.rows), maxScans, Counters(0, 0, 0))
  {
    counters := Counters(0, 0, 0);
    var k := 0;
    while k < maxScans
      invariant k <= maxScans
      invariant Continued(scan, db.rows, maxScans - k, counters)
        == Continued(scan, old(db.rows), maxScans, Counters(0, 0, 0))
    {
      OneMoreScan(scan, db.rows, maxScans - k, counters);
      var pass := RunScan(db, c, version, scan);
      counters := Plus(counters, pass);
      if pass.migrated == 0 && pass.contested == 0 { return; }
      k := k + 1;
    }
    counters := counters.(contested := counters.contested + 1);
  }

  /**
   * With idempotent nested migration a pass stops within two scans, with one scan's worth of
   * changes made and nothing contested. Rows that cannot be migrated are counted once per scan.
   */
  lemma IdempotentPass(c: Suite, t: Table, version: string)
    requires NestedIsIdempotent(c) && version in {LEGACY_VERSION, V2_VERSION}
    ensures var written, failing := |ToWrite(c, t, version)|, |ToFail(c, t, version)|;
            var scans := if written == 0 then 1 else 2;
            PassOf(c, t, version) == Pass(AfterScan(c, t, version), Counters(written, 0, scans * failing), scans)
  {
    SecondScanWritesNothing(c, t, version);
    var scan, after := ScanOf(c, version), AfterScan(c, t, version);
    assert scan(after) == Scan(after, Counters(0, 0, |ToFail(c, t, version)|));
    assert PassFrom(scan, after, MAX_SCANS - 1) == Pass(after, Counters(0, 0, |ToFail(c, t, version)|), 1);
  }

  ghost predicate NonNegative(counters: Counters) {
    counters.migrated >= 0 && counters.contested >= 0 && counters.failed >= 0
  }

  /**
   * A pass counts what its scans count. If it contests nothing, it ended with a scan that wrote
   * nothing, and if it fails nothing either, that scan did not.
   */
  lemma {:induction false} PassEnds(scan: Table -> Scan, t: Table, left: nat) returns (last: Table)
    requires forall u :: NonNegative(scan(u).counters)
    ensures NonNegative(PassFrom(scan, t, left).counters)
    ensures var pass := PassFrom(scan, t, left);
            pass.counters.contested == 0 ==>
              && pass.rows == scan(last).rows
              && scan(last).counters.migrated == scan(last).counters.contested == 0
              && (pass.counters.failed == 0 ==> scan(last).counters.failed == 0)
    decreases left
  {
    last := t;
    if left > 0 {
      assert NonNegative(scan(t).counters);
      if scan(t).counters.migrated != 0 || scan(t).counters.contested != 0 {
        last := PassEnds(scan, scan(t).rows, left - 1);
      }
    }
  }

  lemma ScansAreNonNegative(c: Suite, version: string)
    ensures forall u :: NonNegative(ScanOf(c, version)(u).counters)
  {
  }

  /** Whatever nested migration does, a clean pass ends with every row it looks for skipped. */
  lemma CleanPassSkips(c: Suite, t: Table, version: string) returns (last: Table)
    requires Clean(PassOf(c, t, version).counters)
    ensures PassOf(c, t, version).rows == AfterScan(c, last, version)
    ensures forall id :: id in Due(last, version) ==> Process(c, version, last[id]) == Skip
  {
    ScansAreNonNegative(c, version);
    last := PassEnds(ScanOf(c, version), t, MAX_SCANS);
    NothingCounted(ToWrite(c, last, version), ToFail(c, last, version));
    forall id | id in Due(last, version) ensures Process(c, version, last[id]) == Skip {
      assert id !in ToWrite(c, last, version) && id !in ToFail(c, last, version);
    }
  }

  lemma NothingCounted(written: set<string>, failing: set<string>)
    requires |written| == 0 && |failing| == 0
    ensures written == {} && failing == {}
  {
  }

  predicate Clean(counters: Counters) {
    counters.contested == 0 && counters.failed == 0
  }

  /** The legacy rows that no scan visits: at most one, with the empty id. */
  function Unreachable(t: Table): set<string> {
    set id | id in t && id == "" && t[id].encryptionVersion == LEGACY_VERSION
  }

  /** After a legacy pass the rows still legacy are exactly those that failed, and any the cursor cannot reach. */
  lemma OnlyFailedRowsRemainLegacy(c: Suite, t: Table)
    ensures var after := AfterScan(c, t, LEGACY_VERSION);
            Legacy(after) == ToFail(c, t, LEGACY_VERSION) + Unreachable(t)
  {
    var after := AfterScan(c, t, LEGACY_VERSION);
    forall id | id in t ensures Before("", id) <==> id != "" {
    }
  }

  /** Both passes, one after the other. */
  function Passes(c: Suite, t: Table): (Pass, Pass) {
    var nested := PassOf(c, t, V2_VERSION);
    (nested, PassOf(c, nested.rows, LEGACY_VERSION))
  }

  function Legacy(t: Table): set<string> {
    set id | id in t && t[id].encryptionVersion == LEGACY_VERSION
  }

  predicate ExitsZero(c: Suite, t: Table) {
    var passes := Passes(c, t);
    ExitCodeIsZero(passes.0.counters, passes.1.counters, passes.1.rows)
  }

  lemma {:induction false} ContinuedIsPass(scan: Table -> Scan, t: Table, left: nat)
    ensures Continued(scan, t, left, Counters(0, 0, 0))
            == (PassFrom(scan, t, left).rows, PassFrom(scan, t, left).counters)
  {
  }

  method RunPass(db: Database, c: Suite, version: string) returns (counters: Counters)
    modifies db
    ensures (db.rows, counters) == (PassOf(c, old(db.rows), version).rows, PassOf(c, old(db.rows), version).counters)
  {
    ContinuedIsPass(ScanOf(c, version), db.rows, MAX_SCANS);
    counters := MigratePass(db, c, version, MAX_SCANS, ScanOf(c, version));
  }

  predicate ExitCodeIsZero(nested: Counters, legacy: Counters, t: Table) {
    Clean(nested) && Clean(legacy) && Legacy(t) == {}
  }

  /** The whole run: the nested pass over v2 rows, the legacy pass, and the exit code. */
  method RunMigration(db: Database, c: Suite) returns (exitCode: nat)
    modifies db
    ensures db.rows == Passes(c, old(db.rows)).1.rows
    ensures exitCode == 0 <==> ExitsZero(c, old(db.rows))
  {
    PassesAreNonNegative(c, db.rows);
    var nested := RunPass(db, c, V2_VERSION);
    var legacy := RunPass(db, c, LEGACY_VERSION);
    exitCode := ExitCode(nested, legacy, db.rows);
  }

  method ExitCode(nested: Counters, legacy: Counters, t: Table) returns (exitCode: nat)
    requires NonNegative(nested) && NonNegative(legacy)
    ensures exitCode == 0 <==> ExitCodeIsZero(nested, legacy, t)
  {
    exitCode := 0;
    var remaining := |Legacy(t)|;
    NoneLegacy(t);
    if remaining > 0 { exitCode := 1; }
    var contested := legacy.contested + nested.contested;
    var failed := legacy.failed + nested.failed;
    if contested > 0 || failed > 0 { exitCode := 1; }
  }

  lemma NoneLegacy(t: Table)
    ensures |Legacy(t)| == 0 <==> Legacy(t) == {}
  {
  }

  lemma PassesAreNonNegative(c: Suite, t: Table)
    ensures NonNegative(Passes(c, t).0.counters) && NonNegative(Passes(c, t).1.counters)
  {
    ScansAreNonNegative(c, V2_VERSION);
    ScansAreNonNegative(c, LEGACY_VERSION);
    var last := PassEnds(ScanOf(c, V2_VERSION), t, MAX_SCANS);
    last := PassEnds(ScanOf(c, LEGACY_VERSION), Passes(c, t).0.rows, MAX_SCANS);
  }

  /** With idempotent nested migration the exit code is zero exactly when nothing fails and nothing is out of reach. */
  lemma IdempotentExit(c: Suite, t: Table)
    requires NestedIsIdempotent(c)
    ensures var nested := AfterScan(c, t, V2_VERSION);
            && Passes(c, t).1.rows == AfterScan(c, nested, LEGACY_VERSION)
            && (ExitsZero(c, t) <==> && ToFail(c, t, V2_VERSION) == {} && ToFail(c, nested, LEGACY_VERSION) == {}
                                     && Unreachable(nested) == {})
  {
    var nested := AfterScan(c, t, V2_VERSION);
    IdempotentPass(c, t, V2_VERSION);
    IdempotentPass(c, nested, LEGACY_VERSION);
    OnlyFailedRowsRemainLegacy(c, nested);
    Empties(ToFail(c, t, V2_VERSION), ToFail(c, nested, LEGACY_VERSION), Unreachable(nested));
  }

  lemma Empties(a: set<string>, b: set<string>, u: set<string>)
    ensures |a| == 0 <==> a == {}
    ensures |b| == 0 <==> b == {}
    ensures b + u == {} <==> b == {} && u == {}
  {
    if b + u == {} { assert b <= b + u && u <= b + u; }
  }
}
