/**
 * The migration of the secrets inside a custody configuration. Models migrateNestedCustodySecrets
 * (apps/sdp-api/src/services/custody-cipher/nested-secret-migration.ts) with encryption free to
 * return any new-style text that decrypts back.
 */
module NestedSecrets {
  import opened Wrappers
  import opened CustodyCipher

  datatype Nested = Nested(changed: bool, configJson: string)

  /** A configuration object: the secret fields in order, None where absent or not text, and everything else. */
  datatype Config = Config(secrets: seq<Option<string>>, rest: string)

  /** JSON text and objects; parsing yields None when the text is not a JSON object. */
  datatype Json = Json(parse: string -> Option<Config>, stringify: Config -> string)

  ghost predicate JsonRoundTrips(json: Json) {
    forall config :: json.parse(json.stringify(config)) == Some(config)
  }

  /** What encryption returned for each field it was called on; None where it threw. */
  type Encrypted = nat -> Option<string>

  predicate Present(secret: Option<string>) {
    secret.Some? && secret.value != ""
  }

  predicate NeedsMigration(secret: Option<string>) {
    Present(secret) && !IsV2(secret.value)
  }

  /** One field: its value afterwards, or None where a cipher call threw. */
  function MigrateSecret(
    dec: Decrypt, o: string, secret: Option<string>, encrypted: Option<string>): Option<Option<string>>
  {
    if !Present(secret) then Some(secret)
    else if dec(o, secret.value).None? then None
    else if IsV2(secret.value) then Some(secret)
    else if encrypted.None? then None
    else Some(encrypted)
  }

  /** Every field in order. */
  ghost predicate MigratesTo(
    dec: Decrypt, o: string, secrets: seq<Option<string>>, encrypted: Encrypted, after: seq<Option<string>>)
  {
    && |after| == |secrets|
    && forall i :: 0 <= i < |secrets| ==> MigrateSecret(dec, o, secrets[i], encrypted(i)) == Some(after[i])
  }

  predicate Throws(dec: Decrypt, o: string, secrets: seq<Option<string>>, encrypted: Encrypted) {
    exists i :: 0 <= i < |secrets| && MigrateSecret(dec, o, secrets[i], encrypted(i)).None?
  }

  function MigrateSecrets(
    dec: Decrypt, o: string, secrets: seq<Option<string>>, encrypted: Encrypted): (after: seq<Option<string>>)
    requires !Throws(dec, o, secrets, encrypted)
    ensures MigratesTo(dec, o, secrets, encrypted, after)
  {
    seq(|secrets|, i requires 0 <= i < |secrets| => MigrateSecret(dec, o, secrets[i], encrypted(i)).value)
  }

  predicate AnyNeedsMigration(secrets: seq<Option<string>>) {
    exists i :: 0 <= i < |secrets| && NeedsMigration(secrets[i])
  }

  /** The whole configuration: unchanged text where nothing needed migrating. */
  function Migrated(dec: Decrypt, json: Json, o: string, configJson: string, encrypted: Encrypted): Option<Nested> {
    var config := json.parse(configJson);
    if config.None? || Throws(dec, o, config.value.secrets, encrypted) then None
    else if !AnyNeedsMigration(config.value.secrets) then Some(Nested(false, configJson))
    else
      var secrets := MigrateSecrets(dec, o, config.value.secrets, encrypted);
      Some(Nested(true, json.stringify(config.value.(secrets := secrets))))
  }

  method MigrateNestedCustodySecrets(dec: Decrypt, json: Json, o: string, configJson: string, encrypted: Encrypted)
    returns (result: Option<Nested>)
    ensures result == Migrated(dec, json, o, configJson, encrypted)
  {
    var parsed := json.parse(configJson);
    if parsed.None? { return None; }
    var config, changed := parsed.value, false;
    ghost var before := config.secrets;
    for i := 0 to |config.secrets|
      invariant |config.secrets| == |before| && config.rest == parsed.value.rest
      invariant forall j :: 0 <= j < i ==> MigrateSecret(dec, o, before[j], encrypted(j)) == Some(config.secrets[j])
      invariant forall j :: i <= j < |before| ==> config.secrets[j] == before[j]
      invariant changed <==> exists j :: 0 <= j < i && NeedsMigration(before[j])
    {
      var value := config.secrets[i];
      if !Present(value) { continue; }
      if dec(o, value.value).None? {
        assert MigrateSecret(dec, o, before[i], encrypted(i)).None?;
        return None;
      }
      if IsV2(value.value) { continue; }
      if encrypted(i).None? {
        assert MigrateSecret(dec, o, before[i], encrypted(i)).None?;
        return None;
      }
      config := config.(secrets := config.secrets[i := encrypted(i)]);
      changed := true;
    }
    assert config.secrets == MigrateSecrets(dec, o, before, encrypted);
    return Some(if changed then Nested(true, json.stringify(config)) else Nested(false, configJson));
  }

  // --------------------------------------------------------- idempotence

  /** Whatever encryption returns is a new-style text that decrypts to what was encrypted. */
  ghost predicate SoundlyEncrypted(dec: Decrypt, o: string, secrets: seq<Option<string>>, encrypted: Encrypted) {
    forall i :: 0 <= i < |secrets| && NeedsMigration(secrets[i]) && encrypted(i).Some? ==>
      IsV2(encrypted(i).value) && dec(o, encrypted(i).value) == dec(o, secrets[i].value)
  }

  /** Some migration of the text comes out like this, encryption choosing freely. */
  ghost predicate Nests(dec: Decrypt, json: Json, o: string, configJson: string, result: Nested) {
    exists encrypted: Encrypted :: NestsWith(dec, json, o, configJson, result, encrypted)
  }

  ghost predicate NestsWith(
    dec: Decrypt, json: Json, o: string, configJson: string, result: Nested, encrypted: Encrypted)
  {
    && json.parse(configJson).Some?
    && SoundlyEncrypted(dec, o, json.parse(configJson).value.secrets, encrypted)
    && Migrated(dec, json, o, configJson, encrypted) == Some(result)
  }

  /** The only way the migration of the text can come out is with nothing changed. */
  ghost predicate OnlySkips(dec: Decrypt, json: Json, o: string, configJson: string) {
    && Nests(dec, json, o, configJson, Nested(false, configJson))
    && forall next :: Nests(dec, json, o, configJson, next) ==> next == Nested(false, configJson)
  }

  /** Nothing needs migrating, and everything decrypts. */
  ghost predicate AllMigrated(dec: Decrypt, o: string, secrets: seq<Option<string>>) {
    forall i :: 0 <= i < |secrets| && Present(secrets[i]) ==> IsV2(secrets[i].value) && dec(o, secrets[i].value).Some?
  }

  /** The same fields are present, and decrypt to the same text. */
  ghost predicate SameSecrets(dec: Decrypt, o: string, secrets: seq<Option<string>>, after: seq<Option<string>>) {
    && |after| == |secrets|
    && forall i :: 0 <= i < |secrets| ==>
         if Present(secrets[i]) then after[i].Some? && dec(o, after[i].value) == dec(o, secrets[i].value) != None
         else after[i] == secrets[i]
  }

  lemma {:induction false} MigratedIsClean(dec: Decrypt, o: string, secrets: seq<Option<string>>, encrypted: Encrypted)
    requires SoundlyEncrypted(dec, o, secrets, encrypted) && !Throws(dec, o, secrets, encrypted)
    ensures var after := MigrateSecrets(dec, o, secrets, encrypted);
            AllMigrated(dec, o, after) && SameSecrets(dec, o, secrets, after)
  {
  }

  lemma {:induction false} CleanStays(dec: Decrypt, json: Json, o: string, configJson: string, encrypted: Encrypted)
    requires json.parse(configJson).Some? && AllMigrated(dec, o, json.parse(configJson).value.secrets)
    ensures Migrated(dec, json, o, configJson, encrypted) == Some(Nested(false, configJson))
  {
  }

  lemma {:induction false} UnchangedIsClean(dec: Decrypt, o: string, secrets: seq<Option<string>>, encrypted: Encrypted)
    requires !Throws(dec, o, secrets, encrypted) && !AnyNeedsMigration(secrets)
    ensures AllMigrated(dec, o, secrets) && SameSecrets(dec, o, secrets, secrets)
  {
    forall i | 0 <= i < |secrets| && Present(secrets[i])
      ensures IsV2(secrets[i].value) && dec(o, secrets[i].value).Some?
    {
      assert MigrateSecret(dec, o, secrets[i], encrypted(i)).Some?;
    }
  }

  /** Migration keeps every secret: what each field decrypts to, and everything that is not a secret. */
  lemma {:induction false} MigrationKeepsSecrets(
    dec: Decrypt, json: Json, o: string, configJson: string, result: Nested)
    requires JsonRoundTrips(json) && Nests(dec, json, o, configJson, result)
    ensures var before, after := json.parse(configJson), json.parse(result.configJson);
            && before.Some? && after.Some? && after.value.rest == before.value.rest
            && SameSecrets(dec, o, before.value.secrets, after.value.secrets)
            && AllMigrated(dec, o, after.value.secrets)
    ensures !result.changed ==> result.configJson == configJson
  {
    var encrypted: Encrypted :| NestsWith(dec, json, o, configJson, result, encrypted);
    var config := json.parse(configJson).value;
    if AnyNeedsMigration(config.secrets) {
      MigratedIsClean(dec, o, config.secrets, encrypted);
      var after := MigrateSecrets(dec, o, config.secrets, encrypted);
      assert json.parse(result.configJson) == Some(config.(secrets := after));
    } else {
      UnchangedIsClean(dec, o, config.secrets, encrypted);
    }
  }

  /**
   * Migrating again changes nothing, whatever encryption returned the first time and would return
   * the second.
   */
  lemma {:induction false} MigrationIsIdempotent(
    dec: Decrypt, json: Json, o: string, configJson: string, result: Nested, again: Encrypted)
    requires JsonRoundTrips(json) && Nests(dec, json, o, configJson, result)
    ensures Migrated(dec, json, o, result.configJson, again) == Some(Nested(false, result.configJson))
  {
    MigrationKeepsSecrets(dec, json, o, configJson, result);
    CleanStays(dec, json, o, result.configJson, again);
  }

  /** So the only outcome of migrating a migrated text is that text, unchanged. */
  lemma {:induction false} MigratedOnlySkips(dec: Decrypt, json: Json, o: string, configJson: string, result: Nested)
    requires JsonRoundTrips(json) && Nests(dec, json, o, configJson, result)
    ensures OnlySkips(dec, json, o, result.configJson)
  {
    MigrationKeepsSecrets(dec, json, o, configJson, result);
    var none: Encrypted := _ => None;
    CleanStays(dec, json, o, result.configJson, none);
    assert NestsWith(dec, json, o, result.configJson, Nested(false, result.configJson), none);
    forall next | Nests(dec, json, o, result.configJson, next) ensures next == Nested(false, result.configJson) {
      var again: Encrypted :| NestsWith(dec, json, o, result.configJson, next, again);
      CleanStays(dec, json, o, result.configJson, again);
    }
  }

  ghost predicate NestsTo(dec: Decrypt, json: Json, o: string, before: string, after: string) {
    exists changed :: Nests(dec, json, o, before, Nested(changed, after))
  }

  /** The second text is the first, or came of migrating it. */
  ghost predicate NestsInto(dec: Decrypt, json: Json, o: string, before: string, after: string) {
    before == after || NestsTo(dec, json, o, before, after)
  }

  lemma {:induction false} NestsIntoComposes(dec: Decrypt, json: Json, o: string, p: string, q: string, r: string)
    requires JsonRoundTrips(json) && NestsInto(dec, json, o, p, q) && NestsInto(dec, json, o, q, r)
    ensures NestsInto(dec, json, o, p, r)
  {
    if changed :| p != q && Nests(dec, json, o, p, Nested(changed, q)) {
      MigratedOnlySkips(dec, json, o, p, Nested(changed, q));
    }
  }
}
