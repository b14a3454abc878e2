/** The field adapter shared by the models (`models/base_encrypted.py`):
    per-field encrypt/decrypt driven by the session and the preference store,
    and the dict-to-dict transforms used when storing, displaying and
    exporting rows. The Flask session is passed in explicitly. */
module BaseEncrypted {
  import opened Common
  import opened Encryption
  import opened FieldRegistry
  import opened Preferences

  /** `(session.get('user_id'), session.get('encryption_key'))`. */
  datatype Session = Session(user: Option<int>, key: Option<Key>)

  /** `not user_id or not encryption_key` is false: a non-zero user id and a
      non-empty key. */
  predicate Active(s: Session) {
    s.user.Some? && s.user.value != 0 && HasKey(s.key)
  }

  /** The field mapping: pairs (field name, database column) in dict order. */
  type Mapping = seq<(string, string)>

  /** The mapping every model uses: each field stored in the column of the
      same name, no name twice. */
  predicate IdentityMapping(mapping: Mapping) {
    (forall i :: 0 <= i < |mapping| ==> mapping[i].0 == mapping[i].1)
    && (forall i, j :: 0 <= i < j < |mapping| ==> mapping[i].0 != mapping[j].0)
  }

  function Names(mapping: Mapping): set<string> {
    set i | 0 <= i < |mapping| :: mapping[i].0
  }

  function Columns(mapping: Mapping): set<string> {
    set i | 0 <= i < |mapping| :: mapping[i].1
  }

  // ---------------------------------------------------------------------
  // One field.
  // ---------------------------------------------------------------------

  /** `_encrypt_field_if_needed`. */
  function EncryptFieldIfNeeded(f: Fernet, store: Store, s: Session, value: string, m: string, field: string): (r: string)
    ensures value == "" || !Active(s) ==> r == value
    ensures Active(s) && !ShouldEncrypt(store, s.user.value, m, field) ==> r == value
    ensures Lawful(f) && Active(s) && f.validKey(s.key.value) && value != "" && ShouldEncrypt(store, s.user.value, m, field) ==>
      IsEncrypted(f, r) && f.open(s.key.value, r) == Some(value)
  {
    if value == "" then value
    else if !Active(s) then value
    else if ShouldEncrypt(store, s.user.value, m, field) then EncryptData(f, value, s.key)
    else value
  }

  /** `_decrypt_field_if_needed`: decrypts only when the preference is on; it
      does not look at the value to decide. */
  function DecryptFieldIfNeeded(f: Fernet, store: Store, s: Session, value: string, m: string, field: string): (r: string)
    ensures value == "" || !Active(s) ==> r == value
    ensures Active(s) && !ShouldEncrypt(store, s.user.value, m, field) ==> r == value
    ensures !IsEncrypted(f, value) ==> r == value
  {
    if value == "" then value
    else if !Active(s) then value
    else if ShouldEncrypt(store, s.user.value, m, field) then DecryptData(f, value, s.key)
    else value
  }

  /** The key `_smart_decrypt_field` ends up using: the one passed in when it
      is truthy, else the session's. */
  function EffectiveKey(s: Session, key: Option<Key>): Option<Key> {
    if HasKey(key) then key else s.key
  }

  /** `_smart_decrypt_field`: decides by sniffing the value, not by the
      preference. */
  function SmartDecryptField(f: Fernet, s: Session, value: string, key: Option<Key>): (r: string)
    ensures value == "" || !HasKey(EffectiveKey(s, key)) || !IsEncrypted(f, value) ==> r == value
    ensures r == DecryptData(f, value, EffectiveKey(s, key))
  {
    if value == "" then value
    else
      var k := EffectiveKey(s, key);
      if !HasKey(k) then value
      else SmartDecrypt(f, value, k)
  }

  /** Storing then reading a field under the same session and preferences
      gives the value back. */
  lemma FieldRoundTrip(f: Fernet, store: Store, s: Session, value: string, m: string, field: string)
    requires Lawful(f) && Active(s) && f.validKey(s.key.value)
    ensures DecryptFieldIfNeeded(f, store, s, EncryptFieldIfNeeded(f, store, s, value, m, field), m, field) == value
  {
    if value != "" && ShouldEncrypt(store, s.user.value, m, field) {
      RoundTrip(f, value, s.key);
    }
  }

  /** A stored field is ciphertext exactly when its preference is on
      (provided the plaintext is not itself token-shaped). */
  lemma EncryptedIffPreferred(f: Fernet, store: Store, s: Session, value: string, m: string, field: string)
    requires Lawful(f) && Active(s) && f.validKey(s.key.value)
    requires value != "" && !IsEncrypted(f, value)
    ensures IsEncrypted(f, EncryptFieldIfNeeded(f, store, s, value, m, field)) <==> ShouldEncrypt(store, s.user.value, m, field)
  {
  }

  // ---------------------------------------------------------------------
  // Rows.
  // ---------------------------------------------------------------------

  /** The loop of `_process_fields_for_storage` from `result` on. */
  function StorageLoop(f: Fernet, store: Store, s: Session, result: Row, m: string, mapping: Mapping): (r: Row)
    ensures result.Keys <= r.Keys && r.Keys <= result.Keys + Columns(mapping)
    ensures forall k :: k in result && k !in Columns(mapping) ==> r[k] == result[k]
    decreases |mapping|
  {
    if mapping == [] then result
    else
      var (name, column) := mapping[0];
      var next :=
        if name in result && result[name].Text? then
          result[column := Text(EncryptFieldIfNeeded(f, store, s, result[name].s, m, name))]
        else result;
      var r := StorageLoop(f, store, s, next, m, mapping[1..]);
      ColumnsCons(mapping);
      r
  }

  /** The loop of `_process_fields_for_display` from `result` on. */
  function DisplayLoop(f: Fernet, store: Store, s: Session, result: Row, m: string, mapping: Mapping): (r: Row)
    ensures result.Keys <= r.Keys && r.Keys <= result.Keys + Names(mapping)
    ensures forall k :: k in result && k !in Names(mapping) ==> r[k] == result[k]
    decreases |mapping|
  {
    if mapping == [] then result
    else
      var (name, column) := mapping[0];
      var next :=
        if column in result && result[column].Text? then
          result[name := Text(DecryptFieldIfNeeded(f, store, s, result[column].s, m, name))]
        else result;
      var r := DisplayLoop(f, store, s, next, m, mapping[1..]);
      NamesCons(mapping);
      r
  }

  lemma ColumnsCons(mapping: Mapping)
    requires mapping != []
    ensures Columns(mapping) == {mapping[0].1} + Columns(mapping[1..])
  {
    forall c | c in Columns(mapping) ensures c in {mapping[0].1} + Columns(mapping[1..]) {
      var i :| 0 <= i < |mapping| && mapping[i].1 == c;
      if i > 0 { assert mapping[1..][i - 1] == mapping[i]; }
    }
    forall c | c in Columns(mapping[1..]) ensures c in Columns(mapping) {
      var i :| 0 <= i < |mapping[1..]| && mapping[1..][i].1 == c;
      assert mapping[i + 1] == mapping[1..][i];
    }
  }

  lemma NamesCons(mapping: Mapping)
    requires mapping != []
    ensures Names(mapping) == {mapping[0].0} + Names(mapping[1..])
  {
    forall c | c in Names(mapping) ensures c in {mapping[0].0} + Names(mapping[1..]) {
      var i :| 0 <= i < |mapping| && mapping[i].0 == c;
      if i > 0 { assert mapping[1..][i - 1] == mapping[i]; }
    }
    forall c | c in Names(mapping[1..]) ensures c in Names(mapping) {
      var i :| 0 <= i < |mapping[1..]| && mapping[1..][i].0 == c;
      assert mapping[i + 1] == mapping[1..][i];
    }
  }

  /** `_process_fields_for_storage`: a copy in which only mapped columns may
      change or appear. */
  function ProcessFieldsForStorage(f: Fernet, store: Store, s: Session, data: Row, m: string, mapping: Mapping): (r: Row)
    ensures data.Keys <= r.Keys && r.Keys <= data.Keys + Columns(mapping)
    ensures forall k :: k in data && k !in Columns(mapping) ==> r[k] == data[k]
  {
    StorageLoop(f, store, s, data, m, mapping)
  }

  /** `_process_fields_for_display`: a copy in which only mapped field names
      may change or appear. */
  function ProcessFieldsForDisplay(f: Fernet, store: Store, s: Session, data: Row, m: string, mapping: Mapping): (r: Row)
    ensures data.Keys <= r.Keys && r.Keys <= data.Keys + Names(mapping)
    ensures forall k :: k in data && k !in Names(mapping) ==> r[k] == data[k]
  {
    DisplayLoop(f, store, s, data, m, mapping)
  }

  /** What storage does to one column of a row under an identity mapping. */
  function StoredValue(f: Fernet, store: Store, s: Session, v: Value, m: string, name: string): Value {
    if v.Text? then Text(EncryptFieldIfNeeded(f, store, s, v.s, m, name)) else v
  }

  function DisplayedValue(f: Fernet, store: Store, s: Session, v: Value, m: string, name: string): Value {
    if v.Text? then Text(DecryptFieldIfNeeded(f, store, s, v.s, m, name)) else v
  }

  /** Under an identity mapping storage rewrites each mapped text column on
      its own and leaves everything else, including NULLs, as it was. */
  lemma {:induction false} StorageByColumn(f: Fernet, store: Store, s: Session, data: Row, m: string, mapping: Mapping)
    requires IdentityMapping(mapping)
    ensures var r := StorageLoop(f, store, s, data, m, mapping);
      r.Keys == data.Keys
      && forall k :: k in data ==> r[k] == (if k in Names(mapping) then StoredValue(f, store, s, data[k], m, k) else data[k])
    decreases |mapping|
  {
    if mapping != [] {
      var name := mapping[0].0;
      var next := if name in data && data[name].Text? then data[name := StoredValue(f, store, s, data[name], m, name)] else data;
      IdentityTail(mapping);
      StorageByColumn(f, store, s, next, m, mapping[1..]);
      NamesCons(mapping);
      IdentityNames(mapping[1..]);
      assert StorageLoop(f, store, s, data, m, mapping) == StorageLoop(f, store, s, next, m, mapping[1..]);
    }
  }

  /** Under an identity mapping display rewrites each mapped text column on
      its own and leaves everything else as it was. */
  lemma {:induction false} DisplayByColumn(f: Fernet, store: Store, s: Session, data: Row, m: string, mapping: Mapping)
    requires IdentityMapping(mapping)
    ensures var r := DisplayLoop(f, store, s, data, m, mapping);
      r.Keys == data.Keys
      && forall k :: k in data ==> r[k] == (if k in Names(mapping) then DisplayedValue(f, store, s, data[k], m, k) else data[k])
    decreases |mapping|
  {
    if mapping != [] {
      var name := mapping[0].0;
      var next := if name in data && data[name].Text? then data[name := DisplayedValue(f, store, s, data[name], m, name)] else data;
      IdentityTail(mapping);
      DisplayByColumn(f, store, s, next, m, mapping[1..]);
      NamesCons(mapping);
      IdentityNames(mapping[1..]);
      assert DisplayLoop(f, store, s, data, m, mapping) == DisplayLoop(f, store, s, next, m, mapping[1..]);
    }
  }

  /** Dropping the first pair keeps an identity mapping and removes its name. */
  lemma IdentityTail(mapping: Mapping)
    requires IdentityMapping(mapping) && mapping != []
    ensures IdentityMapping(mapping[1..])
    ensures mapping[0].0 !in Names(mapping[1..])
  {
    forall i | 0 <= i < |mapping[1..]| ensures mapping[1..][i].0 != mapping[0].0 {
      assert mapping[1..][i] == mapping[i + 1];
    }
  }

  lemma IdentityNames(mapping: Mapping)
    requires forall i :: 0 <= i < |mapping| ==> mapping[i].0 == mapping[i].1
    ensures Names(mapping) == Columns(mapping)
  {
    forall c | c in Names(mapping) ensures c in Columns(mapping) {
      var i :| 0 <= i < |mapping| && mapping[i].0 == c;
    }
    forall c | c in Columns(mapping) ensures c in Names(mapping) {
      var i :| 0 <= i < |mapping| && mapping[i].1 == c;
    }
  }

  /** Display undoes storage: with the same session and preferences every
      row comes back exactly. */
  lemma StorageDisplayRoundTrip(f: Fernet, store: Store, s: Session, data: Row, m: string, mapping: Mapping)
    requires Lawful(f) && Active(s) && f.validKey(s.key.value)
    requires IdentityMapping(mapping)
    ensures ProcessFieldsForDisplay(f, store, s, ProcessFieldsForStorage(f, store, s, data, m, mapping), m, mapping) == data
  {
    var stored := StorageLoop(f, store, s, data, m, mapping);
    StorageByColumn(f, store, s, data, m, mapping);
    DisplayByColumn(f, store, s, stored, m, mapping);
    var shown := DisplayLoop(f, store, s, stored, m, mapping);
    forall k | k in data ensures shown[k] == data[k] {
      if k in Names(mapping) && data[k].Text? {
        FieldRoundTrip(f, store, s, data[k].s, m, k);
      }
    }
  }

  // ---------------------------------------------------------------------
  // Export.
  // ---------------------------------------------------------------------

  function ExportLoop(f: Fernet, s: Session, item: Row, mapping: Mapping, key: Option<Key>): (r: Row)
    ensures item.Keys <= r.Keys && r.Keys <= item.Keys + Names(mapping)
    ensures forall k :: k in item && k !in Names(mapping) ==> r[k] == item[k]
    decreases |mapping|
  {
    if mapping == [] then item
    else
      var (name, column) := mapping[0];
      var next :=
        if column in item && item[column].Text? then
          item[name := Text(SmartDecryptField(f, s, item[column].s, key))]
        else item;
      var r := ExportLoop(f, s, next, mapping[1..], key);
      NamesCons(mapping);
      r
  }

  /** `_bulk_process_for_export`: every item in order, mapped columns
      smart-decrypted with the given key or else the session's. */
  function BulkProcessForExport(f: Fernet, s: Session, items: seq<Row>, mapping: Mapping, key: Option<Key>): (r: seq<Row>)
    ensures |r| == |items|
    ensures forall i :: 0 <= i < |r| ==> items[i].Keys <= r[i].Keys && r[i].Keys <= items[i].Keys + Names(mapping)
    ensures forall i, k :: 0 <= i < |r| && k in items[i] && k !in Names(mapping) ==> r[i][k] == items[i][k]
  {
    if items == [] then items
    else
      var k := EffectiveKey(s, key);
      seq(|items|, i requires 0 <= i < |items| => ExportLoop(f, s, items[i], mapping, k))
  }

  function ExportedValue(f: Fernet, s: Session, v: Value, key: Option<Key>): Value {
    if v.Text? then Text(SmartDecryptField(f, s, v.s, key)) else v
  }

  lemma {:induction false} ExportByColumn(f: Fernet, s: Session, item: Row, mapping: Mapping, key: Option<Key>)
    requires IdentityMapping(mapping)
    ensures var r := ExportLoop(f, s, item, mapping, key);
      r.Keys == item.Keys
      && forall k :: k in item ==> r[k] == (if k in Names(mapping) then ExportedValue(f, s, item[k], key) else item[k])
    decreases |mapping|
  {
    if mapping != [] {
      var name := mapping[0].0;
      var next := if name in item && item[name].Text? then item[name := ExportedValue(f, s, item[name], key)] else item;
      IdentityTail(mapping);
      ExportByColumn(f, s, next, mapping[1..], key);
      NamesCons(mapping);
      assert ExportLoop(f, s, item, mapping, key) == ExportLoop(f, s, next, mapping[1..], key);
    }
  }

  /** No mapped text column of the row is token-shaped. */
  predicate PlainRow(f: Fernet, data: Row, mapping: Mapping) {
    forall k :: k in data && k in Names(mapping) && data[k].Text? ==> !IsEncrypted(f, data[k].s)
  }

  /** Export recovers what storage wrote, whatever the preferences, as long
      as no plaintext looks like a token. */
  lemma StorageExportRoundTrip(f: Fernet, store: Store, s: Session, data: Row, m: string, mapping: Mapping)
    requires Lawful(f) && Active(s) && f.validKey(s.key.value)
    requires IdentityMapping(mapping) && PlainRow(f, data, mapping)
    ensures BulkProcessForExport(f, s, [ProcessFieldsForStorage(f, store, s, data, m, mapping)], mapping, None) == [data]
  {
    var stored := StorageLoop(f, store, s, data, m, mapping);
    StorageByColumn(f, store, s, data, m, mapping);
    ExportByColumn(f, s, stored, mapping, s.key);
    var out := ExportLoop(f, s, stored, mapping, s.key);
    forall k | k in data ensures out[k] == data[k] {
      if k in Names(mapping) && data[k].Text? {
        RoundTrip(f, data[k].s, s.key);
      }
    }
    assert out == data;
  }

  /** Display trusts the preference while export sniffs: a column that holds
      ciphertext from when the preference was on is shown as ciphertext once
      the preference is off, but still exported as its plaintext. */
  lemma DisplayTrustsPreference(f: Fernet, store: Store, s: Session, m: string, name: string, plaintext: string)
    requires Lawful(f) && Active(s) && f.validKey(s.key.value)
    requires plaintext != ""
    requires !ShouldEncrypt(store, s.user.value, m, name)
    ensures var row := map[name := Text(f.seal(s.key.value, plaintext))];
      && ProcessFieldsForDisplay(f, store, s, row, m, [(name, name)])[name] == Text(f.seal(s.key.value, plaintext))
      && BulkProcessForExport(f, s, [row], [(name, name)], None)[0][name] == Text(plaintext)
  {
    var row := map[name := Text(f.seal(s.key.value, plaintext))];
    assert IsEncrypted(f, f.seal(s.key.value, plaintext));
    assert ExportLoop(f, s, row, [(name, name)], s.key)
      == ExportLoop(f, s, row[name := Text(SmartDecryptField(f, s, f.seal(s.key.value, plaintext), s.key))], [], s.key);
  }

  // ---------------------------------------------------------------------
  // Setup check.
  // ---------------------------------------------------------------------

  /** `_validate_encryption_setup`: both session entries are present. It
      tests `is not None`, not truthiness, so it is weaker than `Active`. */
  function ValidateEncryptionSetup(s: Session): (r: bool)
    ensures Active(s) ==> r
    ensures r ==> s.user.Some? && s.key.Some?
  {
    s.user.Some? && s.key.Some?
  }

  /** A session with user id 0, or with an empty key, passes the setup check
      although the field operations treat it as having no session. */
  lemma SetupCheckIsWeakerThanActive(k: Key)
    ensures ValidateEncryptionSetup(Session(Some(0), Some(k))) && !Active(Session(Some(0), Some(k)))
    ensures ValidateEncryptionSetup(Session(Some(1), Some(""))) && !Active(Session(Some(1), Some("")))
  {
  }
}
