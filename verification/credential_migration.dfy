/** The start-up migration that encrypts stored passwords in one transaction. */
module CredentialMigration {
  import opened Options

  /** Authenticated encryption under the instance key, on texts. */
  datatype Cipher = Cipher(
    seal: (string, string, string) -> string,       // nonce, plaintext, purpose
    open: (string, string) -> Option<string>)       // sealed text, purpose

  /** What is sealed for a purpose opens for that purpose. */
  ghost predicate Correct(c: Cipher) {
    forall nonce, text, purpose :: c.open(c.seal(nonce, text, purpose), purpose) == Some(text)
  }

  const PREFIX := "enc:v1:"

  predicate IsEncrypted(value: string) {
    PREFIX <= value
  }

  function Encrypt(c: Cipher, value: string, purpose: string, nonce: string): string {
    if value == "" then "" else PREFIX + c.seal(nonce, value, purpose)
  }

  function Decrypt(c: Cipher, value: string, purpose: string): Option<string> {
    if value == "" then Some("")
    else if !IsEncrypted(value) then None
    else c.open(value[|PREFIX|..], purpose)
  }

  datatype Table = Storages | Libraries

  datatype Key = Key(table: Table, id: int)

  type Passwords = map<Key, string>

  function PurposeOf(key: Key): string {
    match key.table
    case Storages => "storage.password"
    case Libraries => "library.password"
  }

  /** The password a row stands for: what it decrypts to, or the text itself if it
      has not been encrypted yet. None if it is marked encrypted but does not open. */
  function Meaning(c: Cipher, key: Key, value: string): Option<string> {
    if IsEncrypted(value) then Decrypt(c, value, PurposeOf(key)) else Some(value)
  }

  /** What one pass makes of one row. */
  function Migrated(c: Cipher, key: Key, value: string, nonce: string): string {
    if IsEncrypted(value) then value else Encrypt(c, value, PurposeOf(key), nonce)
  }

  /** The non-empty rows, each once, in the order the two queries list them. */
  ghost predicate Lists(records: seq<Key>, passwords: Passwords) {
    && (forall key :: key in records <==> key in passwords && passwords[key] != "")
    && forall i, j :: 0 <= i < j < |records| ==> records[i] != records[j]
  }

  /** The row opens if it is marked encrypted, and gets its nonce and its update
      if it is not. */
  predicate Passes(c: Cipher, key: Key, value: string, faults: Key -> bool) {
    if IsEncrypted(value) then Decrypt(c, value, PurposeOf(key)).Some? else !faults(key)
  }

  ghost predicate AllPass(c: Cipher, records: seq<Key>, passwords: Passwords, faults: Key -> bool)
    requires forall key :: key in records ==> key in passwords
  {
    forall key :: key in records ==> Passes(c, key, passwords[key], faults)
  }

  /** A migrated row decrypts under its own purpose to what it stood for before. */
  lemma MigrationKeepsMeaning(c: Cipher, key: Key, value: string, nonce: string)
    requires Correct(c) && value != "" && Meaning(c, key, value).Some?
    ensures var value' := Migrated(c, key, value, nonce);
            && value' != "" && IsEncrypted(value')
            && Decrypt(c, value', PurposeOf(key)) == Meaning(c, key, value)
            && forall again :: Migrated(c, key, value', again) == value'
  {
    var value' := Migrated(c, key, value, nonce);
    if !IsEncrypted(value) {
      assert value'[|PREFIX|..] == c.seal(nonce, value, PurposeOf(key));
    }
  }

  /** What one pass stores of a password that is not marked yet: the mark, and the
      password sealed for the purpose of its table under the row's nonce. */
  lemma PlainIsSealed(c: Cipher, id: int, value: string, nonce: string)
    requires value != "" && !("enc:v1:" <= value)
    ensures Migrated(c, Key(Storages, id), value, nonce) == "enc:v1:" + c.seal(nonce, value, "storage.password")
    ensures Migrated(c, Key(Libraries, id), value, nonce) == "enc:v1:" + c.seal(nonce, value, "library.password")
  {
  }

  /** Empty opens to empty, a text with the mark to what the rest opens to, and any
      other text to nothing. */
  lemma DecryptReadsMark(c: Cipher, sealed: string, value: string, purpose: string)
    ensures Decrypt(c, "", purpose) == Some("")
    ensures Decrypt(c, "enc:v1:" + sealed, purpose) == c.open(sealed, purpose)
    ensures value != "" && !("enc:v1:" <= value) ==> Decrypt(c, value, purpose).None?
  {
    assert ("enc:v1:" + sealed)[7..] == sealed;
  }

  /** The tables after a successful pass. */
  function AllMigrated(c: Cipher, passwords: Passwords, nonces: Key -> string): Passwords {
    map key | key in passwords :: if passwords[key] == "" then "" else Migrated(c, key, passwords[key], nonces(key))
  }

  /** Every password decrypts under its own purpose to what it stood for before, and
      an empty one is still empty. */
  ghost predicate KeepsPasswords(c: Cipher, before: Passwords, after: Passwords) {
    && after.Keys == before.Keys
    && forall key :: key in after ==>
         && Decrypt(c, after[key], PurposeOf(key)) == Meaning(c, key, before[key])
         && (after[key] == "" <==> before[key] == "")
  }

  /** A migration that succeeds keeps every password. */
  lemma MigrationKeepsPasswords(c: Cipher, records: seq<Key>, passwords: Passwords, nonces: Key -> string,
                                faults: Key -> bool)
    requires Correct(c) && Lists(records, passwords) && AllPass(c, records, passwords, faults)
    ensures KeepsPasswords(c, passwords, AllMigrated(c, passwords, nonces))
  {
    forall key | key in passwords && passwords[key] != ""
      ensures Migrated(c, key, passwords[key], nonces(key)) != ""
      ensures Decrypt(c, Migrated(c, key, passwords[key], nonces(key)), PurposeOf(key)) == Meaning(c, key, passwords[key])
    {
      assert key in records;
      assert Passes(c, key, passwords[key], faults);
      MigrationKeepsMeaning(c, key, passwords[key], nonces(key));
    }
  }

  /** A second one finds the same rows, passes all of them whatever would fail, and
      leaves every one of them as it is. */
  lemma SecondPassChangesNothing(c: Cipher, records: seq<Key>, passwords: Passwords, nonces: Key -> string,
                                 faults: Key -> bool, again: Key -> string, later: Key -> bool)
    requires Correct(c) && Lists(records, passwords) && AllPass(c, records, passwords, faults)
    ensures var first := AllMigrated(c, passwords, nonces);
            && Lists(records, first) && AllPass(c, records, first, later)
            && AllMigrated(c, first, again) == first
  {
    var first := AllMigrated(c, passwords, nonces);
    forall key | key in passwords && passwords[key] != ""
      ensures first[key] != "" && Passes(c, key, first[key], later)
      ensures Migrated(c, key, first[key], again(key)) == first[key]
    {
      assert key in records;
      assert Passes(c, key, passwords[key], faults);
      MigrationKeepsMeaning(c, key, passwords[key], nonces(key));
    }
    assert AllMigrated(c, first, again) == first;
  }

  /** What a row holds after a migration, spelled out. */
  function Stored(c: Cipher, key: Key, value: string, nonce: string): string {
    if value == "" || "enc:v1:" <= value then value
    else "enc:v1:" + c.seal(nonce, value, if key.table == Storages then "storage.password" else "library.password")
  }

  ghost predicate StoresAll(c: Cipher, before: Passwords, after: Passwords, nonces: Key -> string) {
    after.Keys == before.Keys && forall key :: key in after ==> after[key] == Stored(c, key, before[key], nonces(key))
  }

  lemma AllMigratedIsStored(c: Cipher, passwords: Passwords, nonces: Key -> string)
    ensures StoresAll(c, passwords, AllMigrated(c, passwords, nonces), nonces)
  {
  }

  /** The tables with only the given rows migrated. */
  ghost function PartlyMigrated(c: Cipher, passwords: Passwords, done: seq<Key>, nonces: Key -> string): Passwords {
    map key | key in passwords ::
      if key in done then Migrated(c, key, passwords[key], nonces(key)) else passwords[key]
  }

  lemma OneMoreMigrated(c: Cipher, passwords: Passwords, records: seq<Key>, i: nat, nonces: Key -> string)
    requires i < |records| && Lists(records, passwords)
    ensures var key := records[i];
            PartlyMigrated(c, passwords, records[..i + 1], nonces)
            == PartlyMigrated(c, passwords, records[..i], nonces)[key := Migrated(c, key, passwords[key], nonces(key))]
    ensures IsEncrypted(passwords[records[i]]) ==>
              PartlyMigrated(c, passwords, records[..i + 1], nonces) == PartlyMigrated(c, passwords, records[..i], nonces)
  {
    assert records[..i + 1] == records[..i] + [records[i]];
  }

  lemma StartsUnchanged(c: Cipher, passwords: Passwords, records: seq<Key>, nonces: Key -> string)
    ensures PartlyMigrated(c, passwords, records[..0], nonces) == passwords
  {
  }

  lemma EndsAllMigrated(c: Cipher, passwords: Passwords, records: seq<Key>, nonces: Key -> string)
    requires Lists(records, passwords)
    ensures PartlyMigrated(c, passwords, records, nonces) == AllMigrated(c, passwords, nonces)
  {
  }

  /** One row: checked if it is marked encrypted, encrypted if it is not. */
  method MigrateRow(c: Cipher, key: Key, value: string, nonce: string, fault: bool) returns (r: Option<string>)
    ensures r.Some? <==> if IsEncrypted(value) then Decrypt(c, value, PurposeOf(key)).Some? else !fault
    ensures r.Some? ==> r.value == Migrated(c, key, value, nonce)
  {
    if IsEncrypted(value) {
      return if Decrypt(c, value, PurposeOf(key)).Some? then Some(value) else None;
    }
    if fault {
      return None;
    }
    return Some(Encrypt(c, value, PurposeOf(key), nonce));
  }

  class Database {
    const cipher: Cipher
    var passwords: Passwords

    constructor (cipher: Cipher, passwords: Passwords)
      ensures this.cipher == cipher && this.passwords == passwords
    {
      this.cipher, this.passwords := cipher, passwords;
    }

    /** The loop of one migration, over the records of its transaction. */
    method MigrateRows(records: seq<Key>, nonces: Key -> string, faults: Key -> bool) returns (r: Option<Passwords>)
      requires Lists(records, passwords)
      ensures r.Some? <==> AllPass(cipher, records, passwords, faults)
      ensures r.Some? ==> r.value == AllMigrated(cipher, passwords, nonces)
    {
      var tx := passwords;
      StartsUnchanged(cipher, passwords, records, nonces);
      for i := 0 to |records|
        invariant tx == PartlyMigrated(cipher, passwords, records[..i], nonces)
        invariant forall j :: 0 <= j < i ==> Passes(cipher, records[j], passwords[records[j]], faults)
      {
        var key := records[i];
        var value := passwords[key];
        OneMoreMigrated(cipher, passwords, records, i, nonces);
        var row := MigrateRow(cipher, key, value, nonces(key), faults(key));
        assert row.Some? <==> Passes(cipher, key, passwords[key], faults);
        if row.None? {
          return None;
        }
        if !IsEncrypted(value) {
          tx := tx[key := row.value];
        }
      }
      assert records[..|records|] == records;
      EndsAllMigrated(cipher, passwords, records, nonces);
      return Some(tx);
    }

    /** One migration. It succeeds iff there is nothing to do, or the cipher is
        ready, every row marked encrypted opens, and nothing fails on the way; it
        then migrates every listed row, and otherwise changes none. */
    method Migrate(records: seq<Key>, ready: bool, nonces: Key -> string, faults: Key -> bool) returns (ok: bool)
      requires Lists(records, passwords)
      modifies this
      ensures ok <==>
                records == [] ||
                (ready && AllPass(cipher, records, old(passwords), faults))
      ensures !ok ==> passwords == old(passwords)
      ensures ok ==> passwords == AllMigrated(cipher, old(passwords), nonces)
      ensures ok ==> StoresAll(cipher, old(passwords), passwords, nonces)
      ensures ok && Correct(cipher) ==> KeepsPasswords(cipher, old(passwords), passwords)
      ensures ok && Correct(cipher) ==> forall again :: AllMigrated(cipher, passwords, again) == passwords
    {
      AllMigratedIsStored(cipher, passwords, nonces);
      if Correct(cipher) && AllPass(cipher, records, passwords, faults) {
        MigrationKeepsPasswords(cipher, records, passwords, nonces, faults);
        forall again ensures AllMigrated(cipher, AllMigrated(cipher, passwords, nonces), again)
                             == AllMigrated(cipher, passwords, nonces)
        {
          SecondPassChangesNothing(cipher, records, passwords, nonces, faults, again, faults);
        }
      }
      if |records| == 0 {
        assert AllMigrated(cipher, passwords, nonces) == passwords;
        return true;
      }
      if !ready {
        return false;
      }
      var tx := MigrateRows(records, nonces, faults);
      if tx.None? {
        return false;
      }
      passwords := tx.value;
      return true;
    }
  }
}
