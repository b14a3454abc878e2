/** Per-user encryption preferences (`utils/preferences.py`): a table from
    (user, field key) to a flag, with an opt-in default of "do not encrypt",
    single and bulk writes, smart defaults for fields a user has not decided
    on, and the privacy-level summary. */
module Preferences {
  import opened Common
  import opened FieldRegistry

  /** One user's preferences: field key to "encrypt this field". */
  type Prefs = map<string, bool>

  /** The `user_encryption_preferences` table, grouped by user. A user with
      no rows and a user mapped to an empty map are the same state. */
  type Store = map<int, Prefs>

  /** `get_user_preferences`. */
  function UserPreferences(store: Store, user: int): Prefs {
    if user in store then store[user] else map[]
  }

  /** `should_encrypt_field`: the stored flag for `module_field`, or false
      when the user has no preference for it. */
  function ShouldEncrypt(store: Store, user: int, m: string, f: string): (r: bool)
    ensures r ==> FieldKey(m, f) in UserPreferences(store, user)
    ensures FieldKey(m, f) in UserPreferences(store, user) ==> r == UserPreferences(store, user)[FieldKey(m, f)]
  {
    var prefs := UserPreferences(store, user);
    var key := FieldKey(m, f);
    if key in prefs then prefs[key] else false
  }

  /** `set_preference`: upsert of one key. */
  function SetPreference(store: Store, user: int, key: string, encrypt: bool): (r: Store)
    ensures UserPreferences(r, user) == UserPreferences(store, user)[key := encrypt]
    ensures forall v :: v != user ==> UserPreferences(r, v) == UserPreferences(store, v)
  {
    store[user := UserPreferences(store, user)[key := encrypt]]
  }

  /** `bulk_set_preferences`: the user's rows are deleted and replaced. */
  function BulkSetPreferences(store: Store, user: int, prefs: Prefs): (r: Store)
    ensures UserPreferences(r, user) == prefs
    ensures forall v :: v != user ==> UserPreferences(r, v) == UserPreferences(store, v)
  {
    store[user := prefs]
  }

  /** `delete_user_preferences`. */
  function DeleteUserPreferences(store: Store, user: int): (r: Store)
    ensures UserPreferences(r, user) == map[]
    ensures user !in r
    ensures forall v :: v != user ==> UserPreferences(r, v) == UserPreferences(store, v)
  {
    store - {user}
  }

  /** Setting a preference is read back by `should_encrypt_field` for that
      field and changes no other field's answer. */
  lemma SetThenShouldEncrypt(store: Store, user: int, m: string, f: string, encrypt: bool)
    ensures ShouldEncrypt(SetPreference(store, user, FieldKey(m, f), encrypt), user, m, f) == encrypt
    ensures forall m', f' :: FieldKey(m', f') != FieldKey(m, f) ==>
      ShouldEncrypt(SetPreference(store, user, FieldKey(m, f), encrypt), user, m', f') == ShouldEncrypt(store, user, m', f')
  {
  }

  /** After a bulk write the answer for every field is exactly the bulk map's,
      defaulting to false: no earlier preference survives. */
  lemma BulkSetLeavesNothingBehind(store: Store, user: int, prefs: Prefs, m: string, f: string)
    ensures ShouldEncrypt(BulkSetPreferences(store, user, prefs), user, m, f)
      == (FieldKey(m, f) in prefs && prefs[FieldKey(m, f)])
  {
  }

  /** Number of keys set to true (`sum(1 for e in prefs.values() if e)`). */
  function EncryptedCount(prefs: Prefs): (r: nat)
    ensures r <= |prefs|
  {
    var on := set k | k in prefs && prefs[k];
    assert on <= prefs.Keys;
    SubsetCard(on, prefs.Keys);
    |on|
  }

  lemma SubsetCard<T>(a: set<T>, b: set<T>)
    requires a <= b
    ensures |a| <= |b|
  {
    if a != {} {
      var x :| x in a;
      SubsetCard(a - {x}, b - {x});
    }
  }

  // ---------------------------------------------------------------------
  // Smart defaults.
  // ---------------------------------------------------------------------

  /** The default for a field the user has not decided on, from the share of
      their existing preferences that are on (`encrypted / total`, taken as
      one half when they have none): above 0.7 a recommended field is
      encrypted, below 0.3 nothing is, otherwise the recommendation holds. */
  function SmartDefault(encrypted: nat, total: nat, recommended: bool): (r: bool)
    ensures r ==> recommended
    ensures total == 0 ==> r == recommended
  {
    if total == 0 then recommended
    else if 10 * encrypted > 7 * total && recommended then true
    else if 10 * encrypted < 3 * total then false
    else recommended
  }

  /** The three-way rule collapses to: recommended, unless the user encrypts
      less than 30% of the fields they have decided on. */
  lemma SmartDefaultCollapses(encrypted: nat, total: nat, recommended: bool)
    ensures SmartDefault(encrypted, total, recommended)
      == (recommended && !(total > 0 && 10 * encrypted < 3 * total))
  {
  }

  /** `v` is the smart default of some field of `fields` whose key is `k`. */
  ghost predicate DefaultOfSomeField(fields: seq<EncryptableField>, k: string, v: bool, encrypted: nat, total: nat) {
    exists i :: 0 <= i < |fields| && KeyOf(fields[i]) == k && v == SmartDefault(encrypted, total, fields[i].recommended)
  }

  /** The writes of the defaulting loop: for each field of `fields` whose
      key is not in `current`, its smart default, a later field overwriting
      an earlier one with the same key. */
  function NewDefaults(current: Prefs, fields: seq<EncryptableField>, encrypted: nat, total: nat): (r: Prefs)
    ensures r.Keys == KeysOf(fields) - current.Keys
    ensures forall k :: k in r ==> DefaultOfSomeField(fields, k, r[k], encrypted, total)
    decreases |fields|
  {
    if fields == [] then map[]
    else
      var init := fields[..|fields| - 1];
      var last := fields[|fields| - 1];
      var prev := NewDefaults(current, init, encrypted, total);
      KeysOfSnoc(fields);
      var r := if KeyOf(last) !in current then prev[KeyOf(last) := SmartDefault(encrypted, total, last.recommended)] else prev;
      forall k | k in r ensures DefaultOfSomeField(fields, k, r[k], encrypted, total) {
        if k == KeyOf(last) && KeyOf(last) !in current {
          assert fields[|fields| - 1] == last;
        } else {
          DefaultOfSomeFieldSnoc(fields, k, r[k], encrypted, total);
        }
      }
      r
  }

  /** A default that some earlier field explains is still explained once a
      field is appended. */
  lemma DefaultOfSomeFieldSnoc(fields: seq<EncryptableField>, k: string, v: bool, encrypted: nat, total: nat)
    requires fields != [] && DefaultOfSomeField(fields[..|fields| - 1], k, v, encrypted, total)
    ensures DefaultOfSomeField(fields, k, v, encrypted, total)
  {
    var init := fields[..|fields| - 1];
    var i :| 0 <= i < |init| && KeyOf(init[i]) == k && v == SmartDefault(encrypted, total, init[i].recommended);
    assert init[i] == fields[i];
  }

  lemma KeysOfSnoc(fields: seq<EncryptableField>)
    requires fields != []
    ensures KeysOf(fields) == KeysOf(fields[..|fields| - 1]) + {KeyOf(fields[|fields| - 1])}
  {
    var init := fields[..|fields| - 1];
    forall k | k in KeysOf(fields) ensures k in KeysOf(init) + {KeyOf(fields[|fields| - 1])} {
      var i :| 0 <= i < |fields| && KeyOf(fields[i]) == k;
      if i < |init| { assert init[i] == fields[i]; }
    }
    forall k | k in KeysOf(init) ensures k in KeysOf(fields) {
      var i :| 0 <= i < |init| && KeyOf(init[i]) == k;
      assert init[i] == fields[i];
    }
  }

  /** `apply_smart_defaults`: the ratio is taken once from the preferences
      as they were, then every registry field without a preference gets its
      smart default. */
  function ApplySmartDefaults(store: Store, registry: seq<EncryptableField>, user: int): (r: Store)
    ensures forall k :: k in UserPreferences(store, user) ==>
      k in UserPreferences(r, user) && UserPreferences(r, user)[k] == UserPreferences(store, user)[k]
    ensures UserPreferences(r, user).Keys == UserPreferences(store, user).Keys + KeysOf(registry)
    ensures forall v :: v != user ==> UserPreferences(r, v) == UserPreferences(store, v)
  {
    BulkSetPreferences(store, user, WithDefaults(UserPreferences(store, user), registry))
  }

  /** One user's preferences with the smart defaults merged in. */
  function WithDefaults(current: Prefs, registry: seq<EncryptableField>): (r: Prefs)
    ensures forall k :: k in current ==> k in r && r[k] == current[k]
    ensures r.Keys == current.Keys + KeysOf(registry)
  {
    var added := NewDefaults(current, registry, EncryptedCount(current), |current|);
    MergeNew(current, added, KeysOf(registry));
    current + added
  }

  /** Merging in entries for exactly the keys not yet present adds those keys
      and keeps every old entry. */
  lemma MergeNew(a: Prefs, b: Prefs, keys: set<string>)
    requires b.Keys == keys - a.Keys
    ensures (a + b).Keys == a.Keys + keys
    ensures forall k :: k in a ==> k in a + b && (a + b)[k] == a[k]
  {
  }

  /** Each key the call adds holds the smart default of a registry field with
      that key, computed from the preferences as they were before the call. */
  lemma SmartDefaultValues(store: Store, registry: seq<EncryptableField>, user: int, k: string)
    requires k in UserPreferences(ApplySmartDefaults(store, registry, user), user)
    requires k !in UserPreferences(store, user)
    ensures DefaultOfSomeField(registry, k, UserPreferences(ApplySmartDefaults(store, registry, user), user)[k],
      EncryptedCount(UserPreferences(store, user)), |UserPreferences(store, user)|)
  {
    var current := UserPreferences(store, user);
    var added := NewDefaults(current, registry, EncryptedCount(current), |current|);
    assert UserPreferences(ApplySmartDefaults(store, registry, user), user) == WithDefaults(current, registry);
    assert WithDefaults(current, registry) == current + added;
    assert k in added;
  }

  /** Once every registry key has a preference, merging defaults changes
      nothing. */
  lemma WithDefaultsSaturated(current: Prefs, registry: seq<EncryptableField>)
    requires KeysOf(registry) <= current.Keys
    ensures WithDefaults(current, registry) == current
  {
    var added := NewDefaults(current, registry, EncryptedCount(current), |current|);
    assert added == map[];
    assert current + added == current;
  }

  /** Merging defaults twice is merging them once. */
  lemma WithDefaultsIdempotent(current: Prefs, registry: seq<EncryptableField>)
    ensures WithDefaults(WithDefaults(current, registry), registry) == WithDefaults(current, registry)
  {
    WithDefaultsSaturated(WithDefaults(current, registry), registry);
  }

  /** A second application adds and changes nothing. */
  lemma ApplySmartDefaultsIdempotent(store: Store, registry: seq<EncryptableField>, user: int)
    ensures var once := ApplySmartDefaults(store, registry, user);
      ApplySmartDefaults(once, registry, user) == once
  {
    var w := WithDefaults(UserPreferences(store, user), registry);
    var once := ApplySmartDefaults(store, registry, user);
    ApplyIsMerge(store, registry, user);
    ApplyIsMerge(once, registry, user);
    WithDefaultsIdempotent(UserPreferences(store, user), registry);
    ReplaceWithSame(store, user, w);
  }

  lemma ApplyIsMerge(store: Store, registry: seq<EncryptableField>, user: int)
    ensures ApplySmartDefaults(store, registry, user) == store[user := WithDefaults(UserPreferences(store, user), registry)]
    ensures UserPreferences(ApplySmartDefaults(store, registry, user), user) == WithDefaults(UserPreferences(store, user), registry)
  {
  }

  lemma ReplaceWithSame(store: Store, user: int, w: Prefs)
    ensures store[user := w][user := w] == store[user := w]
    ensures UserPreferences(store[user := w], user) == w
  {
  }

  /** `get_new_fields_for_user`: the registry fields with no preference key,
      in registry order. */
  function GetNewFieldsForUser(store: Store, registry: seq<EncryptableField>, user: int): (r: seq<EncryptableField>)
    ensures forall i :: 0 <= i < |r| ==> (r[i] in registry && KeyOf(r[i]) !in UserPreferences(store, user))
    ensures forall i :: 0 <= i < |registry| && KeyOf(registry[i]) !in UserPreferences(store, user) ==> registry[i] in r
    ensures forall i, j :: 0 <= i < j < |r| ==> ComesBefore(registry, r[i], r[j])
  {
    var prefs := UserPreferences(store, user);
    var key := (f: EncryptableField) => KeyOf(f) in prefs;
    SelectKeepsOrder(registry, key, false);
    Select(registry, key, false)
  }

  /** There are no new fields exactly when every registry key already has a
      preference. */
  lemma NoNewFieldsIff(store: Store, registry: seq<EncryptableField>, user: int)
    ensures GetNewFieldsForUser(store, registry, user) == [] <==> KeysOf(registry) <= UserPreferences(store, user).Keys
  {
    var prefs := UserPreferences(store, user);
    var r := GetNewFieldsForUser(store, registry, user);
    if r != [] {
      assert r[0] in registry;
      var i :| 0 <= i < |registry| && registry[i] == r[0];
      assert KeyOf(registry[i]) in KeysOf(registry);
    } else {
      forall k | k in KeysOf(registry) ensures k in prefs {
        var i :| 0 <= i < |registry| && KeyOf(registry[i]) == k;
      }
    }
  }

  /** After smart defaults are applied there are no new fields left. */
  lemma NoNewFieldsAfterDefaults(store: Store, registry: seq<EncryptableField>, user: int)
    ensures GetNewFieldsForUser(ApplySmartDefaults(store, registry, user), registry, user) == []
  {
    NoNewFieldsIff(ApplySmartDefaults(store, registry, user), registry, user);
  }

  // ---------------------------------------------------------------------
  // Summary.
  // ---------------------------------------------------------------------

  datatype PrivacyLevel = Unknown | NoPrivacy | Low | Medium | High

  function LevelRank(l: PrivacyLevel): nat {
    match l
    case Unknown => 0
    case NoPrivacy => 0
    case Low => 1
    case Medium => 2
    case High => 3
  }

  /** `_get_privacy_level`: ratio at least 0.8 is high, at least 0.5 medium,
      above 0 low, else none; no fields at all is unknown. */
  function GetPrivacyLevel(encrypted: nat, total: nat): (r: PrivacyLevel)
    ensures r == Unknown <==> total == 0
    ensures total > 0 && encrypted == 0 ==> r == NoPrivacy
    ensures 0 < total <= encrypted ==> r == High
  {
    if total == 0 then Unknown
    else if 10 * encrypted >= 8 * total then High
    else if 2 * encrypted >= total then Medium
    else if encrypted > 0 then Low
    else NoPrivacy
  }

  /** Encrypting more fields never lowers the level. */
  lemma PrivacyLevelMonotone(e1: nat, e2: nat, total: nat)
    requires e1 <= e2
    ensures LevelRank(GetPrivacyLevel(e1, total)) <= LevelRank(GetPrivacyLevel(e2, total))
    ensures GetPrivacyLevel(e1, total) == Unknown <==> GetPrivacyLevel(e2, total) == Unknown
  {
  }

  /** The level is exact at its boundaries: 4 of 5 is high, 1 of 2 medium,
      1 of 10 low, 0 none. */
  lemma PrivacyLevelBoundaries()
    ensures GetPrivacyLevel(4, 5) == High && GetPrivacyLevel(3, 5) == Medium
    ensures GetPrivacyLevel(1, 2) == Medium && GetPrivacyLevel(4, 9) == Low
    ensures GetPrivacyLevel(1, 10) == Low && GetPrivacyLevel(0, 10) == NoPrivacy
    ensures GetPrivacyLevel(0, 0) == Unknown
  {
  }

  /** `get_encryption_summary`. The ratio is the rational
      `ratioNum / ratioDen`; it is 0 when the registry is empty. */
  datatype Summary = Summary(
    totalFields: nat,
    encryptedFields: nat,
    ratioNum: nat,
    ratioDen: nat,
    hasPreferences: bool,
    level: PrivacyLevel)

  function GetEncryptionSummary(store: Store, registry: seq<EncryptableField>, user: int): (r: Summary)
    ensures r.totalFields == |registry|
    ensures r.encryptedFields <= |UserPreferences(store, user)|
    ensures r.ratioDen > 0
    ensures registry != [] ==> r.ratioNum * |registry| == r.encryptedFields * r.ratioDen
    ensures registry == [] ==> r.ratioNum == 0
    ensures r.hasPreferences <==> UserPreferences(store, user) != map[]
    ensures r.level == Unknown <==> registry == []
    ensures var prefs := UserPreferences(store, user);
      r.encryptedFields == |set k | k in prefs && prefs[k]|
    ensures r.level == GetPrivacyLevel(r.encryptedFields, r.totalFields)
  {
    var prefs := UserPreferences(store, user);
    var e := EncryptedCount(prefs);
    var t := |registry|;
    Summary(t, e, if t > 0 then e else 0, if t > 0 then t else 1, |prefs| > 0, GetPrivacyLevel(e, t))
  }

  /** Turning on a field that was off or undecided raises the summary's
      encrypted count by one and leaves the field total alone. */
  lemma SummaryCountsNewlyEncrypted(store: Store, registry: seq<EncryptableField>, user: int, key: string)
    requires key !in UserPreferences(store, user) || !UserPreferences(store, user)[key]
    ensures GetEncryptionSummary(SetPreference(store, user, key, true), registry, user).encryptedFields
      == GetEncryptionSummary(store, registry, user).encryptedFields + 1
    ensures GetEncryptionSummary(SetPreference(store, user, key, true), registry, user).totalFields
      == GetEncryptionSummary(store, registry, user).totalFields
  {
    var prefs := UserPreferences(store, user);
    var after := prefs[key := true];
    assert UserPreferences(SetPreference(store, user, key, true), user) == after;
    var on := set k | k in prefs && prefs[k];
    var on' := set k | k in after && after[k];
    assert on' == on + {key};
    assert key !in on;
  }

  // ---------------------------------------------------------------------
  // Key migration.
  // ---------------------------------------------------------------------

  /** `migrate_preferences_on_field_changes`: copy the old key's value to the
      new key, then delete the old key; nothing happens when the old key is
      absent. */
  function MigratePreference(store: Store, user: int, oldKey: string, newKey: string): (r: Store)
    ensures oldKey !in UserPreferences(store, user) ==> r == store
    ensures oldKey in UserPreferences(store, user) && oldKey != newKey ==>
      newKey in UserPreferences(r, user) && UserPreferences(r, user)[newKey] == UserPreferences(store, user)[oldKey]
      && oldKey !in UserPreferences(r, user)
    ensures forall k :: k != oldKey && k != newKey ==>
      (k in UserPreferences(r, user) <==> k in UserPreferences(store, user))
      && (k in UserPreferences(r, user) ==> UserPreferences(r, user)[k] == UserPreferences(store, user)[k])
    ensures forall v :: v != user ==> UserPreferences(r, v) == UserPreferences(store, v)
  {
    var prefs := UserPreferences(store, user);
    if oldKey in prefs then store[user := prefs[newKey := prefs[oldKey]] - {oldKey}]
    else store
  }

  /** Because the delete runs after the upsert, migrating a key onto itself
      removes the preference instead of keeping it. */
  lemma MigrateOntoItselfDrops(store: Store, user: int, key: string)
    requires key in UserPreferences(store, user)
    ensures key !in UserPreferences(MigratePreference(store, user, key, key), user)
  {
  }
}
