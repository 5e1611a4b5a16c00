/**
 * The custody re-encryption migrator against arbitrary concurrent writers, as interleaved
 * steps on one table. Models the read, verify and compare-and-swap of scanOnce
 * (apps/sdp-api/scripts/migrate-custody-encryption.ts).
 */
module CustodyMigration {
  import opened Wrappers
  import opened CustodyCipher
  import opened NestedSecrets

  const LEGACY_VERSION := "sdp-custody-encryption-v1"
  const V2_VERSION := "sdp-custody-kms-v2"

  datatype Row = Row(organizationId: string, configEncrypted: string, encryptionVersion: string)

  /** A row as some migrator read it, possibly long ago. */
  datatype Snapshot = Snapshot(id: string, organizationId: string, configEncrypted: string)

  /** form(org, p, q): q is p, or p with nested secrets re-encrypted, any number of times over. */
  type Form = (string, string, string) -> bool

  ghost predicate IsPreorder(form: Form) {
    && (forall o, p :: form(o, p, p))
    && (forall o, p, q, r :: form(o, p, q) && form(o, q, r) ==> form(o, p, r))
  }

  /** Nested migration as it is coded is such a form. */
  lemma {:induction false} NestingIsPreorder(dec: Decrypt, json: Json)
    requires JsonRoundTrips(json)
    ensures IsPreorder((o, p, q) => NestsInto(dec, json, o, p, q))
  {
    forall o, p, q, r | NestsInto(dec, json, o, p, q) && NestsInto(dec, json, o, q, r)
      ensures NestsInto(dec, json, o, p, r)
    {
      NestsIntoComposes(dec, json, o, p, q, r);
    }
  }

  /**
   * The table; what each row's last external writer stored, as plaintext (None when the writer
   * stored something that does not decrypt); and every snapshot any migrator ever took.
   */
  datatype World = World(table: map<string, Row>, written: map<string, Option<string>>, snapshots: set<Snapshot>)

  // ----------------------------------------------------------------- steps

  /** Any other process inserts or replaces a row, for any organization. */
  ghost predicate ExternalWrite(dec: Decrypt, s: World, t: World, id: string, row: Row) {
    t == s.(table := s.table[id := row], written := s.written[id := dec(row.organizationId, row.configEncrypted)])
  }

  ghost predicate ExternalDelete(s: World, t: World, id: string) {
    t == s.(table := s.table - {id}, written := s.written - {id})
  }

  /** Some migrator reads a row. */
  ghost predicate MigratorRead(s: World, t: World, id: string) {
    && id in s.table
    && t == s.(snapshots := s.snapshots + {Snapshot(id, s.table[id].organizationId, s.table[id].configEncrypted)})
  }

  /**
   * What a migrator establishes before it writes: the snapshot decrypts, the result has a form q,
   * and the new ciphertext, however encryption produced it, decrypts back to q.
   */
  ghost predicate Verified(dec: Decrypt, form: Form, snapshot: Snapshot, reEncrypted: string) {
    var plaintext := dec(snapshot.organizationId, snapshot.configEncrypted);
    var roundTrip := dec(snapshot.organizationId, reEncrypted);
    plaintext.Some? && roundTrip.Some? && form(snapshot.organizationId, plaintext.value, roundTrip.value)
  }

  /** `UPDATE … WHERE id = ? AND config_encrypted = ?`: the row, if its ciphertext is still the one read. */
  function CompareAndSwap(table: map<string, Row>, snapshot: Snapshot, reEncrypted: string): map<string, Row> {
    if snapshot.id in table && table[snapshot.id].configEncrypted == snapshot.configEncrypted
    then table[snapshot.id := Row(table[snapshot.id].organizationId, reEncrypted, V2_VERSION)]
    else table
  }

  /** Some migrator writes, from any snapshot it ever took. */
  ghost predicate MigratorWrite(dec: Decrypt, form: Form, s: World, t: World, snapshot: Snapshot, reEncrypted: string) {
    && snapshot in s.snapshots && Verified(dec, form, snapshot, reEncrypted)
    && t == s.(table := CompareAndSwap(s.table, snapshot, reEncrypted))
  }

  ghost predicate External(dec: Decrypt, s: World, t: World, id: string) {
    ExternalDelete(s, t, id) || exists row :: ExternalWrite(dec, s, t, id, row)
  }

  ghost predicate Next(dec: Decrypt, form: Form, s: World, t: World) {
    || (exists id :: MigratorRead(s, t, id))
    || (exists snapshot, reEncrypted :: MigratorWrite(dec, form, s, t, snapshot, reEncrypted))
    || exists id :: External(dec, s, t, id)
  }

  /** Any interleaving of any number of migrators and writers, from a table no migrator has read yet. */
  ghost predicate IsRun(dec: Decrypt, form: Form, run: seq<World>) {
    && run != [] && Pristine(dec, run[0])
    && forall k :: 0 <= k < |run| - 1 ==> Next(dec, form, run[k], run[k + 1])
  }

  ghost predicate Pristine(dec: Decrypt, s: World) {
    && s.snapshots == {} && s.table.Keys == s.written.Keys
    && forall id :: id in s.table ==> s.written[id] == dec(s.table[id].organizationId, s.table[id].configEncrypted)
  }

  /** No id is ever used for two organizations. */
  ghost predicate KeepsOrganizations(run: seq<World>) {
    forall j, k, id :: 0 <= j < |run| && 0 <= k < |run| && id in run[j].table && id in run[k].table ==>
      run[j].table[id].organizationId == run[k].table[id].organizationId
  }

  // ------------------------------------------------------------- invariant

  /** The row holds its last external writer's plaintext, or a nested-migrated form of it. */
  ghost predicate Faithful(
    dec: Decrypt, form: Form, organizationId: string, ciphertext: string, written: Option<string>)
  {
    var now := dec(organizationId, ciphertext);
    match written
    case None => now.None?
    case Some(p) => now.Some? && form(organizationId, p, now.value)
  }

  ghost predicate Inv(dec: Decrypt, form: Form, s: World) {
    && s.table.Keys == s.written.Keys
    && forall id :: id in s.table ==>
         Faithful(dec, form, s.table[id].organizationId, s.table[id].configEncrypted, s.written[id])
  }

  /** A verified swap keeps a faithful row faithful. */
  ghost predicate SwapFaithful(
    dec: Decrypt, form: Form, now: Row, snapshot: Snapshot, reEncrypted: string, written: Option<string>)
  {
    var after := CompareAndSwap(map[snapshot.id := now], snapshot, reEncrypted)[snapshot.id];
    (IsPreorder(form) && Verified(dec, form, snapshot, reEncrypted)
     && Faithful(dec, form, now.organizationId, now.configEncrypted, written))
    ==> Faithful(dec, form, after.organizationId, after.configEncrypted, written)
  }

  /**
   * The swap is safe however stale its snapshot. Equal ciphertext under the same organization is
   * equal plaintext, so a row that changed and changed back is the row that was verified; and a
   * row that came to another organization with its ciphertext opened neither before nor after.
   */
  lemma {:induction false} SwapIsFaithful(
    dec: Decrypt, form: Form, now: Row, snapshot: Snapshot, reEncrypted: string, written: Option<string>)
    requires OrganizationBound(dec) || now.organizationId == snapshot.organizationId
    ensures SwapFaithful(dec, form, now, snapshot, reEncrypted, written)
  {
    var o := snapshot.organizationId;
    if IsPreorder(form) && Verified(dec, form, snapshot, reEncrypted) && now.organizationId == o && written.Some?
       && Faithful(dec, form, o, now.configEncrypted, written) && now.configEncrypted == snapshot.configEncrypted {
      var before, after := dec(o, snapshot.configEncrypted).value, dec(o, reEncrypted).value;
      assert form(o, written.value, before) && form(o, before, after);
    }
  }

  /** A migrator's write keeps every row faithful, whichever cipher binds or whatever it found in place. */
  lemma {:induction false} SwapKeepsFaith(
    dec: Decrypt, form: Form, s: World, t: World, snapshot: Snapshot, reEncrypted: string)
    requires IsPreorder(form) && Inv(dec, form, s) && MigratorWrite(dec, form, s, t, snapshot, reEncrypted)
    requires OrganizationBound(dec)
             || (snapshot.id in s.table ==> s.table[snapshot.id].organizationId == snapshot.organizationId)
    ensures Inv(dec, form, t) && t.written == s.written
  {
    var id := snapshot.id;
    if id in s.table {
      SwapIsFaithful(dec, form, s.table[id], snapshot, reEncrypted, s.written[id]);
    }
  }

  lemma {:induction false} NextKeepsInv(dec: Decrypt, form: Form, s: World, t: World)
    requires IsPreorder(form) && Inv(dec, form, s) && Next(dec, form, s, t)
    requires OrganizationBound(dec) || SnapshotsCurrent(s)
    ensures Inv(dec, form, t)
  {
    if id :| External(dec, s, t, id) {
      if row :| ExternalWrite(dec, s, t, id, row) {
        StoredIsFaithful(dec, form, row);
      }
    } else if snapshot, reEncrypted :| MigratorWrite(dec, form, s, t, snapshot, reEncrypted) {
      SwapKeepsFaith(dec, form, s, t, snapshot, reEncrypted);
    }
  }

  lemma {:induction false} StoredIsFaithful(dec: Decrypt, form: Form, row: Row)
    requires IsPreorder(form)
    ensures Faithful(dec, form, row.organizationId, row.configEncrypted, dec(row.organizationId, row.configEncrypted))
  {
    var stored := dec(row.organizationId, row.configEncrypted);
    assert stored.Some? ==> form(row.organizationId, stored.value, stored.value);
  }

  /** Every snapshot of a row still in the table is of the organization the row has now. */
  ghost predicate SnapshotsCurrent(s: World) {
    forall snapshot :: snapshot in s.snapshots && snapshot.id in s.table ==>
      s.table[snapshot.id].organizationId == snapshot.organizationId
  }

  /** Every snapshot was read off the table at some point of the run. */
  ghost predicate WasRead(run: seq<World>, snapshot: Snapshot) {
    exists j :: 0 <= j < |run| && snapshot.id in run[j].table
      && run[j].table[snapshot.id].organizationId == snapshot.organizationId
  }

  lemma {:induction false} SnapshotsWereRead(dec: Decrypt, form: Form, run: seq<World>, k: nat, snapshot: Snapshot)
    requires IsRun(dec, form, run) && k < |run| && snapshot in run[k].snapshots
    ensures WasRead(run, snapshot)
  {
    if k > 0 {
      assert Next(dec, form, run[k - 1], run[k - 1 + 1]);
      if snapshot in run[k - 1].snapshots {
        SnapshotsWereRead(dec, form, run, k - 1, snapshot);
      } else {
        SnapshotWasTaken(dec, form, run[k - 1], run[k], snapshot);
      }
    }
  }

  lemma {:induction false} SnapshotWasTaken(dec: Decrypt, form: Form, s: World, t: World, snapshot: Snapshot)
    requires Next(dec, form, s, t) && snapshot in t.snapshots && snapshot !in s.snapshots
    ensures snapshot.id in s.table && s.table[snapshot.id].organizationId == snapshot.organizationId
  {
    if id :| MigratorRead(s, t, id) {
    }
  }

  lemma {:induction false} SnapshotsStayCurrent(dec: Decrypt, form: Form, run: seq<World>, k: nat)
    requires IsRun(dec, form, run) && KeepsOrganizations(run) && k < |run|
    ensures SnapshotsCurrent(run[k])
  {
    forall snapshot | snapshot in run[k].snapshots && snapshot.id in run[k].table
      ensures run[k].table[snapshot.id].organizationId == snapshot.organizationId
    {
      SnapshotsWereRead(dec, form, run, k, snapshot);
    }
  }

  /**
   * In every interleaving, at every point, every row is faithful to its last external write: with
   * a cipher that binds the organization whatever the writers do, and with any other as long as
   * no id is used for two organizations.
   */
  lemma {:induction false} RunKeepsInv(dec: Decrypt, form: Form, run: seq<World>, k: nat)
    requires IsPreorder(form) && IsRun(dec, form, run) && k < |run|
    requires OrganizationBound(dec) || KeepsOrganizations(run)
    ensures Inv(dec, form, run[k])
  {
    if k == 0 {
      forall id | id in run[0].table
        ensures Faithful(
                  dec, form, run[0].table[id].organizationId, run[0].table[id].configEncrypted, run[0].written[id])
      {
        StoredIsFaithful(dec, form, run[0].table[id]);
      }
    } else {
      RunKeepsInv(dec, form, run, k - 1);
      if KeepsOrganizations(run) { SnapshotsStayCurrent(dec, form, run, k - 1); }
      assert Next(dec, form, run[k - 1], run[k - 1 + 1]);
      NextKeepsInv(dec, form, run[k - 1], run[k]);
    }
  }

  /** No external step touches `id` between points j and k of the run. */
  ghost predicate Untouched(dec: Decrypt, run: seq<World>, id: string, j: nat, k: nat)
    requires j <= k < |run|
  {
    forall m :: j <= m < k ==> !External(dec, run[m], run[m + 1], id)
  }

  /**
   * No external write is lost. From the moment a writer stores a row until the next external step
   * on it, however many migrators run meanwhile, the row is there, belongs to the same
   * organization, and decrypts to what was written or a nested-migrated form of it.
   */
  lemma {:induction false} ExternalWriteSurvives(
    dec: Decrypt, form: Form, run: seq<World>, id: string, row: Row, j: nat, k: nat)
    requires IsPreorder(form) && IsRun(dec, form, run) && 0 < j <= k < |run|
    requires OrganizationBound(dec) || KeepsOrganizations(run)
    requires ExternalWrite(dec, run[j - 1], run[j], id, row) && Untouched(dec, run, id, j, k)
    ensures id in run[k].table && run[k].table[id].organizationId == row.organizationId
    ensures Faithful(dec, form, row.organizationId, run[k].table[id].configEncrypted,
                     dec(row.organizationId, row.configEncrypted))
  {
    RunKeepsInv(dec, form, run, k);
    OwnerKept(dec, form, run, id, j, k);
  }

  ghost predicate SameOwner(s: World, t: World, id: string) {
    && (id in t.written <==> id in s.written) && (id in s.written ==> t.written[id] == s.written[id])
    && (id in t.table <==> id in s.table)
    && (id in s.table ==> t.table[id].organizationId == s.table[id].organizationId)
  }

  lemma {:induction false} OwnerKept(dec: Decrypt, form: Form, run: seq<World>, id: string, j: nat, k: nat)
    requires IsRun(dec, form, run) && j <= k < |run| && Untouched(dec, run, id, j, k)
    ensures SameOwner(run[j], run[k], id)
  {
    if j < k {
      OwnerKept(dec, form, run, id, j, k - 1);
      assert Next(dec, form, run[k - 1], run[k - 1 + 1]);
      assert !External(dec, run[k - 1], run[k - 1 + 1], id);
      StepKeepsOwner(dec, form, run[k - 1], run[k], id);
    }
  }

  lemma {:induction false} StepKeepsOwner(dec: Decrypt, form: Form, s: World, t: World, id: string)
    requires Next(dec, form, s, t) && !External(dec, s, t, id)
    ensures SameOwner(s, t, id)
  {
    if other :| External(dec, s, t, other) {
      assert other != id;
    }
  }

  // --------------------------------------- why the cipher has to bind the organization

  predicate Identical(organizationId: string, p: string, q: string) {
    p == q
  }

  /** A cipher under which one ciphertext opens in every organization, and re-encrypting ties it to one. */
  function TiedCipher(shared: string, organizationId: string): Decrypt {
    (o, c) => if c == shared || (c == shared + "'" && o == organizationId) then Some("") else None
  }

  /**
   * Why some hypothesis is needed. The swap compares the ciphertext but not the organization: it is
   * faithful under every cipher and for every plaintext if and only if the row's ciphertext
   * changed since the snapshot or its organization did not.
   */
  lemma {:induction false} SwapIsFaithfulExactlyWhen(now: Row, snapshot: Snapshot)
    ensures (forall dec: Decrypt, form: Form, reEncrypted, written ::
               SwapFaithful(dec, form, now, snapshot, reEncrypted, written))
            <==> now.configEncrypted != snapshot.configEncrypted || now.organizationId == snapshot.organizationId
  {
    if now.configEncrypted != snapshot.configEncrypted || now.organizationId == snapshot.organizationId {
      forall dec: Decrypt, form: Form, reEncrypted, written
        ensures SwapFaithful(dec, form, now, snapshot, reEncrypted, written)
      {
        if now.organizationId == snapshot.organizationId {
          SwapIsFaithful(dec, form, now, snapshot, reEncrypted, written);
        }
      }
    } else {
      var shared := snapshot.configEncrypted;
      Primed(shared);
      var dec := TiedCipher(shared, snapshot.organizationId);
      assert !SwapFaithful(dec, Identical, now, snapshot, shared + "'", Some(""));
    }
  }

  lemma {:induction false} Primed(c: string)
    ensures c + "'" != c
  {
    assert |c + "'"| == |c| + 1;
  }

  /**
   * With a cipher that opens one ciphertext in two organizations the loss happens in a run: written
   * for one organization, read by a migrator, rewritten for another under the same ciphertext, and
   * swapped from the old snapshot, any id's row no longer decrypts although its last writer's text did.
   */
  lemma {:induction false} MovedRowIsLost(
    id: string, first: string, second: string, shared: string) returns (dec: Decrypt, run: seq<World>)
    requires first != second
    ensures !OrganizationBound(dec)
    ensures IsPreorder(Identical) && IsRun(dec, Identical, run)
    ensures var last := run[|run| - 1];
            && id in last.table && id in last.written && last.table[id].organizationId == second
            && last.written[id] == dec(second, shared) == Some("")
            && dec(second, last.table[id].configEncrypted) == None
  {
    dec := TiedCipher(shared, first);
    var was, now := Row(first, shared, LEGACY_VERSION), Row(second, shared, LEGACY_VERSION);
    var snapshot := Snapshot(id, first, shared);
    var stored := map[id := Some("")];
    var w0, w1 := World(map[], map[], {}), World(map[id := was], stored, {});
    var w2, w3 := World(map[id := was], stored, {snapshot}), World(map[id := now], stored, {snapshot});
    var w4 := World(map[id := Row(second, shared + "'", V2_VERSION)], stored, {snapshot});
    Primed(shared);
    run := [w0, w1, w2, w3, w4];
    WriteIsNext(dec, Identical, w0, w1, id, was);
    assert MigratorRead(w1, w2, id);
    WriteIsNext(dec, Identical, w2, w3, id, now);
    assert MigratorWrite(dec, Identical, w3, w4, snapshot, shared + "'");
    assert run[1] == w1 && run[2] == w2 && run[3] == w3 && run[4] == w4;
  }

  lemma {:induction false} WriteIsNext(dec: Decrypt, form: Form, s: World, t: World, id: string, row: Row)
    requires ExternalWrite(dec, s, t, id, row)
    ensures Next(dec, form, s, t)
  {
    assert External(dec, s, t, id);
  }
}
