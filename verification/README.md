# Habit-Stack: a Dafny model of per-field encryption and the model rules

Habit-Stack is a personal habit, todo, reading, birthday and watchlist tracker. Each user decides, field by field, which of their texts are stored encrypted. This project models that encryption layer and the rules around it as pure Dafny functions over immutable values, and proves properties about them.

- **Encryption** (`utils/encryption.py`) covers key derivation, the fail-open `encrypt_data`/`decrypt_data` pair, ciphertext sniffing (`is_encrypted`), `smart_decrypt`, and the `[CORRUPTED: ...]` marker.
  - Fernet and PBKDF2 are foreign library calls, so they enter as parameters.
  - `Fernet` is a record of the key check, sealing, opening and the base64 decodability test. The predicate `Lawful` states the laws the model relies on: token shape, round trip, authentication, and key validity. Authentication is stated for canonical key texts, the ones whose last character has its two padding bits zero, as `urlsafe_b64encode` writes them.
  - `ToyFernet` is a concrete cipher that satisfies `Lawful`, which shows the laws are consistent.
  - PBKDF2 is a function returning exactly 32 bytes. The base64url encoding of the key is computed concretely.
- **FieldRegistry** (`utils/field_registry.py`) is the append-only catalogue of encryptable fields. Identity is the pair (module, field name). It covers the `module_field` key and its first-underscore inverse, grouping by module in the fixed usage order, and reloading from stored rows.
- **Preferences** (`utils/preferences.py`) is the store from (user, field key) to a flag, with opt-in default false. It covers single and bulk writes, smart defaults with the 0.3 and 0.7 ratio thresholds, the privacy level, and key migration. Ratios are compared exactly by cross-multiplication.
- **BaseEncrypted** (`models/base_encrypted.py`) covers the per-field adapter and the storage, display and export transforms of a row.
  - The Flask session is an explicit `Session(user, key)`.
  - A row is a map from column to `Null` or `Text`.
- **Migration** (`utils/migration.py`) covers the re-encryption sweep, its per-module error isolation, `_re_encrypt_with_data`, and the password-change path.
  - The password-change path appears both as written and as evidently intended.
  - Database failures are the parameter `faults`, a map from module to exception text. A failing salt UPDATE is a parameter too.
- **Todos**, **Birthdays**, **Habits**, **Watchlist** and **Reading** (`models/*.py`) hold the pure rules of the model classes.
  - Todos: storage preparation and the five status buckets.
  - Birthdays: the next birthday and the upcoming list.
  - Habits: the streak, the completion toggle and the daily points.
  - Watchlist: the dynamic UPDATE builder and its placeholders.
  - Reading: progress, soft deletion and statistics.
  - Tables are sequences of rows. `today` and `now` are parameters.
- **DataManager** (`models/data_manager.py`) covers backup validation, the phase-by-phase import with its habit id remapping, and the shape of the export.
  - The database's constraint checks are a parameter (`refuses`).
  - The class attribute `_habit_id_mapping` is state carried from one import to the next.
- **Password** (`utils.py`) is the password-strength rule, with the Unicode character classes supplied by the caller.
- **Dates** and **Common** are support modules.
  - Dates: proleptic Gregorian dates with day ordinals, and the `strptime(..., '%Y-%m-%d')` parse of a stored birth date.
  - Common: optional values, order-preserving selection, Python truthiness, `str.strip`, and string order.

## Model

| member | source | states |
|---|---|---|
| Encryption.DeriveKey | utils/encryption.py:23-35 | An empty password or an empty salt is an error, and nothing else is. Otherwise the key is the 44-character base64url text of the 32 PBKDF2 bytes: 43 alphabet characters and one `=`, and the key text is canonical. |
| Encryption.EncodingIsCanonical | utils/encryption.py:35 | When the last group of the input holds two bytes, as it does for 32 bytes, the character before the `=` has its two padding bits zero. |
| Encryption.TwoSpellingsOfOneKey | utils/encryption.py:35 | Two different 44-character key texts both pass the key-text shape test and decode to the same 32 zero bytes. Only the first is what the encoder writes for those bytes, and only it is canonical. |
| Encryption.ZeroBytesEncodeToA | utils/encryption.py:35 | Every character of the encoding of zero bytes is `A`, up to the padding. |
| Encryption.DerivedKeyIsValid | utils/encryption.py:23-35 | Fernet accepts every key derived from a non-empty password and salt. |
| Encryption.Base64UrlEncode | utils/encryption.py:35 | The encoding has four characters per started group of three bytes. Only the padding positions hold `=`; every other character is in the base64url alphabet. |
| Encryption.EncryptData | utils/encryption.py:37-53 | Empty plaintext, a missing or empty key, or a key Fernet rejects all give the plaintext back unchanged. Any changed output came from a valid key. Under a lawful cipher that output is token-shaped and opens to the plaintext. |
| Encryption.DecryptData | utils/encryption.py:55-75 | Empty input, a missing key or text that is not token-shaped passes through. A token that does not open, or a rejected key, gives exactly `[CORRUPTED: ` + the first 20 characters + `...]`. A token that opens gives its plaintext. |
| Encryption.SmartDecrypt | utils/encryption.py:99-107 | It is the identity on text that is not token-shaped. It agrees with `decrypt_data` on every input. |
| Encryption.RoundTrip | utils/encryption.py:37-75 | Under a valid key, decrypting (directly or by `smart_decrypt`) what `encrypt_data` produced gives the plaintext back, including the empty string. |
| Encryption.WrongKeyCorrupts | utils/encryption.py:69-75 | A token sealed under one canonical key and decrypted under a different canonical key yields the corrupted marker. Every key that key derivation produces is canonical. |
| Encryption.CorruptedIsInert | utils/encryption.py:75-89 | The corrupted marker is never token-shaped, so `decrypt_data` and `smart_decrypt` return it as it is. |
| Encryption.CorruptedIsNotToken | utils/encryption.py:75-85 | The marker is non-empty and does not start with `gAAAAA`. |
| Encryption.OrdinaryTextIsNotSniffed | utils/encryption.py:77-89 | No text of 60 characters or fewer is taken for a token, ordinary sentences included. |
| Encryption.IsEncrypted | utils/encryption.py:77-89 | The sniffing test itself. Its properties are stated by Encryption.OrdinaryTextIsNotSniffed, Encryption.CorruptedIsNotToken and Encryption.CorruptedIsInert. |
| Encryption.SmartDecryptSettles | utils/encryption.py:99-107 | A second `smart_decrypt` changes nothing, unless the first result is itself token-shaped. |
| Encryption.NoKeyPassThrough | utils/encryption.py:37-62 | Without a key, or with the empty key, both directions are the identity. |
| Encryption.ToyFernetIsLawful | utils/encryption.py:83-84 | A concrete cipher whose tokens start with `gAAAAA` satisfies every law the model assumes of Fernet, so those laws are consistent. |
| FieldRegistry.EqualityIgnoresDisplayData | utils/field_registry.py:21-28 | Two fields with the same module and field name are equal, whatever their display data. Either one counts as registered exactly when the other does. |
| FieldRegistry.RegisterField | utils/field_registry.py:128-133 | The list only grows, by at most one field, and it then holds the field. The registered identities are the old ones plus this one. A list without duplicate identities stays without duplicates. |
| FieldRegistry.RegisterIdempotent | utils/field_registry.py:131-133 | Registering a field equal to one already registered leaves the list as it is. |
| FieldRegistry.RegisterAll | utils/field_registry.py:125-126 | Registering a batch extends the list and keeps identities unique. |
| FieldRegistry.RegisterAllFresh | utils/field_registry.py:125-126 | A batch of new, pairwise distinct fields is appended exactly, in order. |
| FieldRegistry.DefaultRegistry | utils/field_registry.py:34-126 | A fresh registry holds exactly the ten default fields, in registration order, with no duplicates. |
| FieldRegistry.DefaultFieldsUnique | utils/field_registry.py:41-123 | The ten default fields have distinct identities. |
| FieldRegistry.DefaultRecommendations | utils/field_registry.py:41-123 | Exactly the sixth (`todos.category`) and eighth (`birthdays.name`) default fields are not recommended. |
| FieldRegistry.FieldKeyParts | utils/field_registry.py:172-174 | The key is the module, one `_`, then the field name. |
| FieldRegistry.SplitKey | utils/field_registry.py:179 | Splitting fails exactly when the key has no `_`. Otherwise the first part has no `_`, and the two parts joined with `_` give the key back. |
| FieldRegistry.FirstMatch | utils/field_registry.py:180-182 | It finds nothing exactly when no field has that identity. Otherwise it returns the first registered field with it. |
| FieldRegistry.GetFieldByKey | utils/field_registry.py:176-185 | A key without `_` finds nothing. A found field is registered, and its own key is the one looked up. |
| FieldRegistry.SplitFieldKey | utils/field_registry.py:172-179 | For a module without `_`, splitting a field's key gives back the module and the field name. |
| FieldRegistry.KeyLookupInverts | utils/field_registry.py:172-185 | For a module without `_`, looking up a field's key finds a field exactly when one with that identity is registered, and the field found has that identity. |
| FieldRegistry.UnderscoredModuleIsNotFound | utils/field_registry.py:176-185 | A field of a module whose name contains `_` (`daily_notes`) is not found by its own key, because the split happens at the module's own `_`. |
| FieldRegistry.ModulesInOrder | utils/field_registry.py:151-155 | Lists the module names without repeats. Every field's module is listed, and only those modules. |
| FieldRegistry.ModulesInFirstOrder | utils/field_registry.py:151-155 | The modules are listed in the order in which the fields first mention them, which is the insertion order of the grouping dictionary. |
| FieldRegistry.KnownPresent | utils/field_registry.py:158-163 | Lists the present modules of the fixed usage order, without repeats and in that order. |
| FieldRegistry.OtherPresent | utils/field_registry.py:165-168 | Lists the present modules outside the usage order, all of them and no others, in the order of their first appearance among the present modules. |
| FieldRegistry.Groups | utils/field_registry.py:151-155 | Group `i` is named by the `i`-th name and holds exactly that module's fields, in registration order. |
| FieldRegistry.GetFieldsByModule | utils/field_registry.py:149-170 | Every group is non-empty and holds exactly its module's fields. Group names are distinct, and every field's module has a group. Known modules come in the fixed usage order, ahead of any other module. |
| FieldRegistry.GroupNonEmpty | utils/field_registry.py:151-155 | Every listed module has at least one field. |
| FieldRegistry.GroupNamesCover | utils/field_registry.py:158-168 | The ordered names cover every field's module, and every name is a module some field has. |
| FieldRegistry.GroupNamesDistinct | utils/field_registry.py:158-168 | No module is listed twice. |
| FieldRegistry.GroupNamesRanked | utils/field_registry.py:158-168 | A known module is never listed after an unknown one, and known modules follow the usage order. |
| FieldRegistry.GroupingIsPartition | utils/field_registry.py:149-170 | The group sizes add up to the number of registered fields, so each field is placed exactly once. |
| FieldRegistry.GroupKeepsRegistrationOrder | utils/field_registry.py:152-155 | Within a group, fields keep the order in which they were registered. |
| FieldRegistry.GroupsTotal | utils/field_registry.py:149-170 | The total size of the groups is the sum of the per-module field counts. |
| FieldRegistry.RefreshFromDatabase | utils/field_registry.py:191-215 | A failed query keeps the list. Otherwise the list is replaced by the fetched rows, one field per row in row order. A non-zero flag means recommended, and a null or empty version becomes "1.0". |
| FieldRegistry.RefreshRoundTrip | utils/field_registry.py:191-212 | Persisting fields and reading the rows back gives the same fields, except that an empty version comes back as "1.0". |
| Preferences.ShouldEncrypt | utils/preferences.py:47-51 | The answer is the stored flag for `module_field`. A field the user has no preference for gives false. |
| Preferences.SetPreference | utils/preferences.py:32-40 | One key of one user is upserted. Other keys and other users are unchanged. |
| Preferences.BulkSetPreferences | utils/preferences.py:53-68 | Afterwards the user's preferences are exactly the given map. Other users are unchanged. |
| Preferences.DeleteUserPreferences | utils/preferences.py:164-168 | The user has no preferences left. Other users are unchanged. |
| Preferences.SetThenShouldEncrypt | utils/preferences.py:32-51 | After a set, `should_encrypt_field` for that field returns the new flag. The answer for every other field is unchanged. |
| Preferences.BulkSetLeavesNothingBehind | utils/preferences.py:53-68 | After a bulk write, each field's answer comes from the bulk map alone, and is false when the field is absent from it. |
| Preferences.EncryptedCount | utils/preferences.py:81 | At most as many fields are on as there are preferences. |
| Preferences.SmartDefault | utils/preferences.py:80-97 | The default is never on for a field that is not recommended, and with no preferences it is the recommendation. |
| Preferences.SmartDefaultCollapses | utils/preferences.py:80-97 | The three-way default equals "recommended, unless fewer than 30% of the existing preferences are on". With no preferences the ratio is one half, so the default is the recommendation. |
| Preferences.NewDefaults | utils/preferences.py:86-100 | Adds keys for exactly the registry fields without a preference. Each added value is the smart default of a field with that key. |
| Preferences.WithDefaults | utils/preferences.py:86-100 | Existing preferences keep their values. The keys become the old keys plus every registry key. |
| Preferences.ApplySmartDefaults | utils/preferences.py:73-100 | Existing preferences are untouched, and every registry field gets a key. Other users are unchanged. |
| Preferences.SmartDefaultValues | utils/preferences.py:76-99 | Every key the call adds holds the smart default of a registry field with that key. The ratio comes from the preferences as they were before the call. |
| Preferences.WithDefaultsSaturated | utils/preferences.py:88-90 | When every registry key already has a preference, nothing is added. |
| Preferences.ApplySmartDefaultsIdempotent | utils/preferences.py:73-100 | A second call changes nothing. |
| Preferences.GetNewFieldsForUser | utils/preferences.py:108-120 | Returns the registry fields with no preference key, all of them, in registry order. |
| Preferences.NoNewFieldsIff | utils/preferences.py:108-120 | There are no new fields exactly when every registry key has a preference. |
| Preferences.NoNewFieldsAfterDefaults | utils/preferences.py:73-120 | After smart defaults are applied, no new fields remain. |
| Preferences.GetPrivacyLevel | utils/preferences.py:149-162 | Unknown exactly when there are no fields. No encrypted field gives none, and all fields encrypted gives high. |
| Preferences.PrivacyLevelMonotone | utils/preferences.py:149-162 | Encrypting more fields never lowers the level, and the level is unknown exactly when there are no fields. |
| Preferences.PrivacyLevelBoundaries | utils/preferences.py:149-162 | The thresholds sit exactly where stated: 4/5 is high, 1/2 is medium, 4/9 and 1/10 are low, 0 is none and 0/0 is unknown. |
| Preferences.GetEncryptionSummary | utils/preferences.py:125-138 | The total is the registry size. The encrypted count is the number of the user's preferences set to true. The ratio is encrypted/total, or 0 for an empty registry. `has_preferences` holds exactly when a preference exists. The level is the privacy level of the encrypted count and the total, and it is unknown exactly when the registry is empty. |
| Preferences.SummaryCountsNewlyEncrypted | utils/preferences.py:125-138 | Turning on a field that was off or had no preference raises the encrypted count by exactly one and leaves the total as it was. |
| Preferences.MigratePreference | utils/preferences.py:174-198 | An absent old key changes nothing. Otherwise the new key gets the old key's value and the old key is gone. Every other key and every other user are unchanged. |
| Preferences.MigrateOntoItselfDrops | utils/preferences.py:184-196 | Migrating a key onto itself deletes the preference, because the delete runs after the upsert. |
| Preferences.WithDefaultsIdempotent | utils/preferences.py:86-100 | Merging the smart defaults into preferences that already hold them changes nothing. |
| BaseEncrypted.EncryptFieldIfNeeded | models/base_encrypted.py:24-41 | An empty value, or a session without a truthy user id and key, gives the value unchanged, and so does a preference that is off. With the preference on and a valid key, the result is a token that opens to the value. |
| BaseEncrypted.DecryptFieldIfNeeded | models/base_encrypted.py:43-60 | An empty value, no session, or a preference that is off gives the value unchanged. A value that is not token-shaped is never changed. |
| BaseEncrypted.SmartDecryptField | models/base_encrypted.py:62-77 | Uses the given key when it is truthy, else the session's key. It is the identity without a key or on non-token text, and otherwise it is `decrypt_data` under that key. |
| BaseEncrypted.FieldRoundTrip | models/base_encrypted.py:24-60 | With an active session and a valid key, decrypting what was stored gives back the value, whatever the preference. |
| BaseEncrypted.EncryptedIffPreferred | models/base_encrypted.py:35-37 | With an active session and a valid key, a non-empty value that is not token-shaped is stored as ciphertext exactly when the preference is on. |
| BaseEncrypted.StorageLoop | models/base_encrypted.py:83-88 | The loop only adds or rewrites mapped columns. Every other key keeps its value. |
| BaseEncrypted.DisplayLoop | models/base_encrypted.py:96-101 | The loop only adds or rewrites mapped field names. Every other key keeps its value. |
| BaseEncrypted.ProcessFieldsForStorage | models/base_encrypted.py:79-90 | Returns a copy of the row in which only mapped columns may change or appear. Every other key is unchanged. |
| BaseEncrypted.ProcessFieldsForDisplay | models/base_encrypted.py:92-103 | Returns a copy of the row in which only mapped field names may change or appear. Every other key is unchanged. |
| BaseEncrypted.StorageByColumn | models/base_encrypted.py:83-88 | When each field is stored in its own column, storage rewrites each mapped text column on its own. NULLs and unmapped columns are left alone, and no key is added. |
| BaseEncrypted.DisplayByColumn | models/base_encrypted.py:96-101 | When each field is stored in its own column, display rewrites each mapped text column on its own and leaves everything else. |
| BaseEncrypted.StorageDisplayRoundTrip | models/base_encrypted.py:79-103 | With the same active session, valid key and preferences, display applied to what storage produced gives back the original row. |
| BaseEncrypted.ExportLoop | models/base_encrypted.py:132-136 | Only mapped field names are added or rewritten in an exported item. |
| BaseEncrypted.BulkProcessForExport | models/base_encrypted.py:118-140 | Returns the same number of items, in the same order. In each item only mapped field names may change, and every other key is kept. |
| BaseEncrypted.ExportByColumn | models/base_encrypted.py:132-136 | When each field is stored in its own column, export smart-decrypts each mapped text column on its own and leaves everything else. |
| BaseEncrypted.StorageExportRoundTrip | models/base_encrypted.py:79-140 | Export gives back the row storage was given, whatever the preferences, as long as no plaintext is token-shaped. |
| BaseEncrypted.DisplayTrustsPreference | models/base_encrypted.py:55-56 | A column holding ciphertext whose preference has since been turned off is displayed as the ciphertext. Export still recovers the plaintext, because it sniffs the value instead of reading the preference. |
| BaseEncrypted.ValidateEncryptionSetup | models/base_encrypted.py:142-145 | The check passes whenever the field operations see an active session. Passing means both entries are present. |
| BaseEncrypted.SetupCheckIsWeakerThanActive | models/base_encrypted.py:142-145 | User id 0, or an empty key, passes the setup check although the field operations treat it as no session. |
| Migration.PlainView | utils/migration.py:215-224 | NULL and "" read as "", and text that is not token-shaped reads as itself. Under a lawful cipher and a valid key, non-empty text reads as `decrypt_data` of it. |
| Migration.EncryptIfPreferred | utils/migration.py:226-238 | "" stays "" and a preference that is off keeps the value. With the preference on, a valid key and a non-empty value, the result is a token that opens to the value. |
| Migration.SweepSettlesColumn | utils/migration.py:81-97 | After a sweep under one key, a column's plaintext view is unchanged. A non-empty column is ciphertext exactly when its preference is on, and a NULL column becomes "". |
| Migration.SweepViewIsStable | utils/migration.py:81-97 | Sweeping a column a second time under the same key and preferences keeps the plaintext view the first sweep gave. |
| Migration.RekeyKeepsPlaintext | utils/migration.py:81-97 | Reading a column under one key and writing it under another keeps its plaintext: the new view under the new key equals the old view under the old key. |
| Migration.WriteColumns | utils/migration.py:81-93 | Each listed column is set to the value computed for it. Every other column is kept, and no column beyond the listed ones appears. |
| Migration.SweepRowSpec | utils/migration.py:75-213 | A swept row gains the module's swept columns, each computed from the fetched row, and keeps every other column. |
| Migration.WriteTable | utils/migration.py:91-96 | Only the named table is replaced. The set of tables is unchanged. |
| Migration.FailureMessages | utils/migration.py:60-62 | There is one message per failing module, so failures and successes add up to the number of modules. |
| Migration.SweepLoop | utils/migration.py:54-63 | The per-module sweep loop. Its contract is stated by Migration.SweepLoopSpec. |
| Migration.SweepLoopSpec | utils/migration.py:54-63 | Over modules with distinct names, the loop sweeps each module that does not fail from its original rows and leaves a failing module's rows alone. The counters are those of the modules that do not fail, and the errors are the failures in order. |
| Migration.StepTables | utils/migration.py:54-63 | One loop iteration followed by the sweep of the remaining modules is the sweep of the whole list. |
| Migration.RowsUntouched | utils/migration.py:56-58 | The row counts of the remaining modules do not depend on a table the loop has already swept. |
| Migration.ReEncryptUserData | utils/migration.py:26-73 | Without a session key it refuses and writes nothing. With a key it always finishes, and processed modules plus errors make six. |
| Migration.SweepsDistinct | utils/migration.py:45-52 | The modules are swept in the order habits, notes, todos, reading, birthdays, watchlist, with no module twice. |
| Migration.ReEncryptUserDataSpec | utils/migration.py:36-65 | With a key, the report counts the modules that did not fail and their rows, and lists each failure as "Failed to re-encrypt m: e" in module order. Each table of a module that did not fail is swept from its original rows. |
| Migration.OneFailingModule | utils/migration.py:54-65 | When only the notes sweep fails, five modules are processed and exactly one error is reported. |
| Migration.FirstFault | utils/migration.py:317-326 | Gives the position of the first failing module, or the count of modules when none fails. |
| Migration.ReEncryptWithData | utils/migration.py:313-328 | It neither creates nor removes tables. |
| Migration.WithDataLoop | utils/migration.py:317-326 | The loop of `_re_encrypt_with_data`. Its contract is stated by Migration.WithDataLoopSpec. |
| Migration.WithDataLoopSpec | utils/migration.py:317-326 | Stopping at the first failure equals sweeping, without failure, exactly the modules before it. |
| Migration.WithDataIsSweepLoop | utils/migration.py:317-326 | The run that stops at the first failing module gives the same tables and row count as the loop of `re_encrypt_user_data` over the modules before that failure, none failing. |
| Migration.ReEncryptWithDataSpec | utils/migration.py:313-328 | The count and the swept tables are exactly those of the modules before the first failing one. The modules from the failure on are untouched. |
| Migration.DecryptAllUserData | utils/migration.py:291-311 | Every module maps to an empty list, whatever is stored, because the helper is a stub. |
| Migration.DeriveBoth | utils/encryption.py:25-26 | Both keys are derived exactly when both passwords and both salts are non-empty. |
| Migration.MigrateOnPasswordChange | utils/migration.py:240-289 | An empty stored salt means nothing to migrate, and nothing changes. A success stores the new salt and leaves the new key in the session. An escaping exception changes nothing. A reported failure keeps the old salt. |
| Migration.PasswordChangeSucceeds | utils/migration.py:246-278 | With a stored salt and both passwords given, the change succeeds, replaces the salt and leaves the new key in the session. |
| Migration.SweepOneNote | utils/migration.py:99-119 | A one-note store is swept into a one-note store holding the swept value, with a count of 1. |
| Migration.PasswordChangeCorruptsOldCiphertext | utils/migration.py:250-265 | A note sealed under the old key succeeds with count 1, but after the change it reads under the new key as the corrupted marker of its old token. |
| Migration.EmptyOldPasswordEscapes | utils/migration.py:250-283 | An empty old password makes key derivation raise before `old_session_key` is assigned, so the `except` branch raises too. |
| Migration.FailedSaltWriteStrandsData | utils/migration.py:265-283 | When the salt UPDATE fails, the notes are already sealed under the new key, but the salt stays the old one and the session gets its old key back. That key reads the note as the corrupted marker. |
| Migration.RekeyAll | utils/migration.py:319-324 | Re-keying counts all rows and sweeps every table, reading under the old key and writing under the new one. |
| Migration.MigrateOnPasswordChangeFixed | utils/migration.py:240-289 | It never raises. Any outcome other than success leaves tables, salt and session unchanged. A success stores the new salt and the new session key. |
| Migration.FixedPasswordChangeKeepsPlaintext | utils/migration.py:250-272 | After the corrected change, every swept column reads under the new key as it read under the old one. |
| Migration.FixedPasswordChangeIsAtomic | utils/migration.py:265-289 | In the corrected change, a failed salt UPDATE or an empty old password leaves everything as it was, and the latter is reported as a failure. |
| Todos.TodoFieldsIdentity | models/todo.py:15-19 | Each of title, description and category is stored in the column of the same name. |
| Todos.Create | models/todo.py:21-45 | Priority and due date are written as given. Title, description and category go through storage processing, with a missing description or category taken as "". An empty result is written as NULL, so a falsy description or category is stored as NULL. |
| Todos.CreateRoundTrip | models/todo.py:27-42 | With an active session and a valid key, each stored text field reads back as its input. A description or category is NULL exactly when it was falsy. |
| Todos.NonEmptyStaysNonEmpty | models/todo.py:41-42 | With an active session and a valid key, storage never turns non-empty text into "", so only an empty input is stored as NULL. |
| Todos.CreateEncryptsPreferredTitle | models/todo.py:33-35 | A non-empty, non-token title is stored as ciphertext exactly when the user's todos.title preference is on. |
| Todos.ApplyUpdate | models/todo.py:140-149 | Reports whether a live row of the user has the id. Exactly those rows receive the new columns; every other row is unchanged. |
| Todos.Update | models/todo.py:136-149 | As written: every matching live row gets title, description, priority, due date and category exactly as passed, with no storage processing. Every other row is unchanged. The result says whether any row matched. |
| Todos.UpdateStoresPlaintext | models/todo.py:136-149 | With the title preference on, an edited title is stored as plaintext, although `create` would have stored it as ciphertext. |
| Todos.UpdateFixed | models/todo.py:136-149 | Corrected: every matching live row receives the title, description, priority, due date and category that `create` prepares from the same arguments. Every other row is unchanged. The result says whether any row matched. |
| Todos.UpdateFixedHonoursPreference | models/todo.py:21-45 | With the corrected update, the stored title is ciphertext exactly when the preference is on, and it reads back as the new title. |
| Todos.ToggleCompletion | models/todo.py:151-174 | The result is false exactly when the user has no live todo with the id, and then nothing changes. Rows that do not match are untouched. |
| Todos.FirstLive | models/todo.py:156-159 | Finds the first live row of the user with the id, or the end of the table when there is none. |
| Todos.ToggleFlips | models/todo.py:161-174 | A toggled todo has the opposite status. It has a completion time exactly when it is now completed, and that time is `now`. |
| Todos.ToggleTwiceRestoresStatus | models/todo.py:151-174 | Two toggles give back the original status. |
| Todos.Classify | models/todo.py:109-122 | Completed todos go to completed. Otherwise a truthy due date that sorts before today as a string is overdue, one equal to today is due today, and a later one is upcoming. No due date means someday. |
| Todos.GetTodosByStatus | models/todo.py:80-124 | Each bucket holds exactly the todos that take its branch, in query order. |
| Todos.BucketsPartition | models/todo.py:101-122 | The five bucket sizes add up to the number of todos, so each todo lands in exactly one bucket. |
| Todos.BucketSizes | models/todo.py:109-122 | The five classes of any classifier cover the list exactly once. |
| Todos.BucketsKeepOrder | models/todo.py:109-122 | Within a bucket, todos keep their query order. |
| Todos.CompletedIgnoresDueDate | models/todo.py:112-113 | A completed todo is classified as completed whatever its due date. |
| Todos.NormaliseStats | models/todo.py:203-213 | A missing row gives four zeros, and every NULL counter becomes 0. |
| Todos.GetStats | models/todo.py:189-213 | The total is the number of live todos. The completed count is the number of completed todos. The overdue and due-today counts are the open todos whose due date is before, or equal to, the UTC date that SQLite's `date('now')` gives. Together they do not exceed the total. |
| Todos.CountsDisjoint | models/todo.py:194-198 | No todo is counted in two of completed, overdue and due-today. |
| Todos.StatsMatchBuckets | models/todo.py:189-213 | On a day when the UTC date equals the local date, and when no due date is the empty string, the completed, overdue and due-today counters equal the sizes of the matching buckets of `get_todos_by_status`. |
| Todos.CountsMatchBuckets | models/todo.py:101-122 | When no due date is the empty string, each SQL-style count taken against a date equals the size of the matching bucket computed against the same date. |
| Todos.ClocksDisagree | models/todo.py:83 | When the UTC date is one day behind the local date, a todo due on the local date is in the due-today bucket but is not counted as due today. |
| Todos.EmptyDueDateDisagrees | models/todo.py:114-122 | An empty due-date string is counted as overdue by the statistics but bucketed as someday. |
| Birthdays.BirthdayFieldsIdentity | models/birthday.py:15-18 | Name and notes are each stored in the column of the same name, and they are the only mapped fields. |
| Birthdays.Replace | models/birthday.py:47 | `date.replace(year=y)` fails exactly when the year is out of range, or when the date is 29 February and `y` is not a leap year. Otherwise it gives the same month and day in year `y`. |
| Birthdays.NextBirthday | models/birthday.py:44-51 | As written: the result falls on the birth month and day, this year or next, and is never before today. It is next year's only when this year's has passed. It raises exactly for a leap-day birthday when this year is common or this year's 29 February has passed, and in year 9999 after the anniversary. |
| Birthdays.NextBirthdayIsEarliest | models/birthday.py:84-88 | No anniversary that is not before today comes earlier than the computed next birthday. |
| Birthdays.LeapDayBirthdayRaises | models/birthday.py:84 | For someone born on 2000-02-29 and today 2025-06-01, the source raises. The corrected rule answers 2026-02-28. |
| Birthdays.LeapDayRaisesAfterItPasses | models/birthday.py:84-88 | Even in a leap year, once 29 February has passed, the source raises, because next year's `replace` fails. |
| Birthdays.Anniversary | models/birthday.py:84-88 | Gives the birthday's day in year `y`, falling back to 28 February for a leap-day birthday in a common year. |
| Birthdays.NextBirthdayFixed | models/birthday.py:84-88 | Corrected: the next anniversary (with the leap-day fallback) that is not before today. It fails only when that would be past year 9999. |
| Birthdays.FixedAgreesWhereWrittenSucceeds | models/birthday.py:84-88 | Wherever the source succeeds, the corrected rule gives the same date. |
| Birthdays.DaysUntil | models/birthday.py:91 | The day count to the next birthday is never negative, and it is 0 exactly when the birthday is today. |
| Dates.NotBeforeOrdinal | models/birthday.py:85-91 | A date not before another has an ordinal at least as large, and the same ordinal exactly when the dates are equal. |
| Dates.OrdinalMonotone | models/birthday.py:85-91 | An earlier date has a smaller ordinal. |
| Dates.ParseIsoDate | models/birthday.py:44 | A parse succeeds only with a valid date, from 8 to 10 characters with `-` at position 4. Otherwise it reports no match, unconverted data, year 0, or a day out of range for the month. |
| Dates.ParseIsoText | models/birthday.py:44 | The `isoformat` text of every valid date parses back to that date. |
| Dates.ParsedIsIso | models/birthday.py:44 | A 10-character text that parses, and whose day does not start with a space, is the `isoformat` text of its date. |
| Dates.StrptimeCases | models/birthday.py:81 | Unpadded `2024-1-5` parses. `2023-02-29` is out of range, `2024-01-32` and a trailing time leave unconverted data, `05/01/2024` does not match, and year 0 is refused. |
| Birthdays.EntryFor | models/birthday.py:72-91 | One row gives an entry exactly when its stored birth date text parses and its next birthday can be computed. The entry carries the display-processed row, the next birthday and the days until it. |
| Birthdays.Entries | models/birthday.py:35-54 | The per-row loop itself. Its contract is stated by Birthdays.EntriesSpec. |
| Common.CollectSpec | models/birthday.py:35-54 | A loop that raises at its first failing step succeeds exactly when every step does, and then holds each step's value at the step's position. |
| Birthdays.EntriesSpec | models/birthday.py:35-54 | The loop fails exactly when some row's birth date text does not parse or its next birthday raises. Otherwise entry `i` belongs to row `i`. |
| Birthdays.GetUserBirthdays | models/birthday.py:20-56 | Returns one entry per row. |
| Birthdays.GetUserBirthdaysSpec | models/birthday.py:20-56 | Each listed row's birth date text parses, and the entry carries the next birthday of the parsed date, which is not before today. The listing raises exactly when some row's `strptime` or `replace` raises. |
| Birthdays.OneLeapDayBreaksTheList | models/birthday.py:44-51 | A single leap-day birthday in a common year makes the whole listing raise. The fallback answers unless some stored text does not parse or the year is 9999. |
| Birthdays.MalformedDateBreaksTheList | models/birthday.py:44-81 | One stored birth date text that `strptime` rejects makes both the full listing and the upcoming listing raise, with or without the leap-day fallback. |
| Birthdays.Insert | models/birthday.py:100 | Inserting adds exactly the one entry to the multiset of entries. |
| Birthdays.InsertKeepsSorted | models/birthday.py:100 | Inserting into a list sorted by days until keeps it sorted. |
| Birthdays.SortByDays | models/birthday.py:100 | The sort is a permutation of its input, ordered by days until, and stable: entries with equal days until keep their input order. |
| Birthdays.InsertSelect | models/birthday.py:100 | Inserting an entry puts it first among the entries with its days until and leaves every other group of equal days until as it was. |
| Birthdays.GetUpcomingBirthdays | models/birthday.py:58-101 | Raises exactly when some row's `strptime` or `replace` raises. The result is sorted ascending by days until. |
| Birthdays.UpcomingWithinRange | models/birthday.py:91-97 | Every listed birthday is between 0 and `days_ahead` days away. |
| Birthdays.UpcomingKeepsExactlyTheNearOnes | models/birthday.py:93-100 | The result is, as a multiset, exactly the entries within `days_ahead`. A row is listed exactly when its birthday is that near. |
| Birthdays.UpcomingFallbackAnswers | models/birthday.py:58-101 | With the leap-day fallback, the upcoming list answers before year 9999 exactly when every stored birth date text parses. |
| Birthdays.PrepareBirthday | models/birthday.py:151-174 | The birth date is stored as given. The relationship is stripped, and it is NULL exactly when falsy. The stripped name goes through storage, and notes become their stripped text or "" before storage, with an empty result stored as NULL. |
| Birthdays.PrepareBirthdayRoundTrip | models/birthday.py:158-172 | With an active session and a valid key, the name reads back as the stripped name. Notes are NULL exactly when falsy or blank, and otherwise read back stripped. |
| Birthdays.BlankRelationshipIsNotNull | models/birthday.py:171 | A whitespace-only relationship is stored as "", not NULL, because the truthiness test comes before the strip. |
| Birthdays.DisplayTouchesOnlyNameAndNotes | models/birthday.py:39-42 | Display rewrites `name` and `notes` and leaves every other column as it is. |
| Habits.Run | models/habit.py:189-194 | A run counts at most `limit` days. |
| Habits.RunIsMaximal | models/habit.py:189-194 | Every day of the run is completed, and the run stops at the first missing day or at the limit. |
| Habits.Streak | models/habit.py:165-196 | The streak is at most the number of completion rows. It is 0 when today is not completed, even if yesterday is. |
| Habits.CalculateStreak | models/habit.py:176-196 | The loop gives a streak of at most the number of rows. Every day from today back over the streak is completed, and the day before the streak is not, unless every row was counted. The result equals the functional rule. |
| Habits.YesterdayOnlyGivesZero | models/habit.py:185-194 | A habit completed only yesterday gets streak 0 from the source and 1 from the corrected rule. |
| Habits.StreakFixed | models/habit.py:184-194 | Corrected: counting starts from yesterday when today is not yet completed. The result is at most the number of rows. |
| Habits.StreakFixedSpec | models/habit.py:184-194 | The corrected streak agrees with the source when today is completed, and counts a run ending yesterday as at least 1. It is 0 exactly when neither today nor yesterday is completed. |
| Habits.ToggleCompletion | models/habit.py:126-163 | Gives None, changing nothing, exactly when the user does not own the habit. Otherwise today's completion is flipped and the new state is returned. No other completion changes. |
| Habits.ToggleTwiceRestores | models/habit.py:126-163 | Toggling twice restores the completions, and the second toggle reports the opposite state. |
| Habits.Joined | models/habit.py:204-209 | The join holds exactly the user's habits completed on the day, at most one row per habit row. |
| Habits.SqlSum | models/habit.py:205 | `SUM` is NULL exactly over no rows. |
| Habits.GetDailyPoints | models/habit.py:198-211 | The total is 0 when nothing is completed today, and it is non-negative when every completed habit's points are. |
| Habits.NonNegativeSum | models/habit.py:205 | A sum of non-negative points is non-negative. |
| Habits.AddCompletionSum | models/habit.py:204-209 | Adding one completion for today raises the joined sum by exactly that habit's points. |
| Habits.ToggleMovesDailyPoints | models/habit.py:126-211 | Completing a habit today adds its points to the day's total, and un-completing it takes them away. |
| Watchlist.GetWatchlistByStatus | models/watchlist.py:37-58 | Every item in a bucket comes from the query and has that bucket's status. Every item whose status is watching, want_to_watch or completed lands in the matching bucket. |
| Watchlist.ByStatusPartition | models/watchlist.py:53-56 | The three buckets together hold exactly as many items as have a known status. Each bucket keeps the query order. |
| Watchlist.ByStatusKeepsAllKnown | models/watchlist.py:53-56 | When every status is one of the three known ones, no item is dropped. |
| Watchlist.RenderMarks | models/watchlist.py:102-117 | A `column = ?` entry carries one placeholder. A `CURRENT_DATE` or `NULL` entry carries none. |
| Watchlist.JoinMarks | models/watchlist.py:145-149 | The comma-joined SET list has as many placeholders as the SET list binds parameters. |
| Watchlist.FrameMarks | models/watchlist.py:145-149 | The text around the SET list adds exactly the two placeholders of the WHERE clause. |
| Watchlist.PlaceholdersMatchParams | models/watchlist.py:143-149 | For any SET list over plain column names, the statement's placeholders match the parameter list one for one, id and user included. |
| Watchlist.ExecuteDistinct | models/watchlist.py:145-149 | When no column is named twice, each named column gets the value its entry writes and every other column keeps its value. |
| Watchlist.SlotsOfUpdate | models/watchlist.py:102-141 | Each filled slot of the builder names the column of its position. The builder's columns are distinct and free of placeholders. |
| Watchlist.PresentMembers | models/watchlist.py:99-141 | The `updates` list holds an entry exactly when some slot was filled with it. |
| Watchlist.PresentColumns | models/watchlist.py:102-141 | Every appended entry names one of the builder's columns. |
| Watchlist.PresentDistinct | models/watchlist.py:102-141 | The appended entries name distinct columns, so no SET entry overrides another. |
| Watchlist.SlotSemantics | models/watchlist.py:102-149 | A builder column is written with its entry's value exactly when its slot is filled; otherwise it keeps its stored value. |
| Watchlist.OtherColumnsUntouched | models/watchlist.py:102-149 | Columns the builder never names keep their stored values. |
| Watchlist.BuildUpdate | models/watchlist.py:90-151 | Every SET clause names one of the update's columns, and no column is set twice. |
| Watchlist.UpdateSemantics | models/watchlist.py:90-151 | Title (stripped) and type are always written. Each optional column is written exactly when its argument is not None, and an empty genre or notes becomes NULL. Every other column keeps its value. |
| Watchlist.UpdateStatusSemantics | models/watchlist.py:109-117 | A given status is stored. `date_completed` becomes today for completed and NULL for want_to_watch or watching. It is unchanged for any other status or when no status is given. |
| Watchlist.UpdateStatementIsWellFormed | models/watchlist.py:99-149 | Whatever arguments are passed, the UPDATE statement binds every placeholder. |
| Watchlist.CreateWatchlistItem | models/watchlist.py:70-88 | The insert writes exactly the seven user columns. Title is stripped. Genre and notes are stripped when truthy and NULL exactly when falsy. |
| Watchlist.MarkAsCompleted | models/watchlist.py:165-182 | The SET clauses are status and date completed, followed by rating exactly when a rating is given. |
| Watchlist.MarkAsCompletedSemantics | models/watchlist.py:165-182 | Marking completed stores status completed and today's date. The rating changes only when one is given, and nothing else changes. |
| Watchlist.UpdateEpisodeProgress | models/watchlist.py:153-163 | The SET clauses of an episode update. Their effect is stated by Watchlist.EpisodeProgressForcesWatching. |
| Watchlist.EpisodeProgressForcesWatching | models/watchlist.py:153-163 | Recording an episode stores it and forces status watching, whatever the status was. Every other column, `date_completed` included, is unchanged. |
| Common.Strip | models/watchlist.py:81 | The stripped text is a slice of the input with only whitespace cut from either end, and it neither starts nor ends with whitespace. Whitespace is the set that Python's `str.strip` removes, the Unicode spaces included. |
| Common.StripsNoBreakSpace | models/watchlist.py:81 | A title that ends in a no-break space loses it. |
| Reading.GetById | models/reading.py:81-88 | A book comes back exactly when a live row with that id belongs to the user, and the book returned is such a row. |
| Reading.GetUserBooks | models/reading.py:26-48 | Only the user's live rows are returned, narrowed to the status when a non-empty one is given. Every such row is returned. |
| Reading.Progress | models/reading.py:69-72 | The percentage is at most 100, and 0 unless both page counts are truthy. For positive counts it is 100 once the current page reaches the total, and otherwise the truncated quotient of current times 100 by total. |
| Reading.GetBooksByStatus | models/reading.py:50-78 | For each of the three statuses, the bucket holds only books of that status, holds every live book of the user with that status together with its progress, and keeps the query order. Books of any other status are dropped. |
| Reading.BucketsHoldLiveBooks | models/reading.py:66-76 | Every bucketed book is a live book of the user and carries its own progress, at most 100. |
| Reading.BucketOf | models/reading.py:66-76 | Picking one status out of the annotated live books gives exactly that status's bucket: only books of that status, all of them, in query order. |
| Reading.BooksPartition | models/reading.py:74-76 | The three buckets together hold exactly as many books as the user has live books with a known status. |
| Reading.UpdateWhere | models/reading.py:110-123 | The single-book UPDATE: the flag is `rowcount > 0`, true exactly when a live row of the user has the id. Each matching row is rewritten and every other row is unchanged. |
| Reading.UpdateStatus | models/reading.py:105-123 | The flag is true exactly when a live row matches. The matching row takes the new status and its completion date is set to now exactly for completed and cleared otherwise. Its other columns, apart from `updated_at`, and all other rows are unchanged. |
| Reading.MarkCompleted | models/reading.py:137-157 | The flag is true exactly when the book exists. A missing book changes nothing, and rows other than the book's are never touched. |
| Reading.MarkCompletedReadsBack | models/reading.py:141-157 | After marking, the book reads back completed today, with the given rating. Its current page is its truthy total or NULL, so its progress is 100 or 0. |
| Reading.FullBookProgress | models/reading.py:148-154 | A book whose current page was set to its truthy total is at 100 percent, and one without a total is at 0. |
| Reading.Delete | models/reading.py:159-169 | The flag is true exactly when a live row matches, and no row is added or removed. |
| Reading.DeleteHides | models/reading.py:163-169 | After a delete, `get_by_id` finds nothing, and the user's live books are the former ones without that id. |
| Reading.DeleteTwice | models/reading.py:163-169 | Deleting again reports False and changes nothing. |
| Reading.NormaliseStats | models/reading.py:186-197 | A missing statistics row gives all zeros. Each NULL counter becomes 0, and every other counter is kept. |
| Reading.GetStats | models/reading.py:171-197 | The total is the number of live books. Each status counter is the number of live books with that status, and completed this year counts the completed books whose completion date falls in now's year. The three status counts add up to at most the total, and completed this year is at most the completed count. A user with no live books gets all zeros. |
| Reading.CompletedThisYearInBucket | models/reading.py:181 | Completed this year equals the number of books in the completed bucket of `get_books_by_status` whose completion year is now's year. |
| Reading.StatusCountsDisjoint | models/reading.py:178-180 | The three status counts together never exceed the number of rows. |
| Reading.CompletedThisYearBound | models/reading.py:181 | Books completed this year are a subset of the completed books. |
| Reading.StatsMatchBuckets | models/reading.py:171-197 | Each status counter of the statistics equals the size of that status's bucket. |
| DataManager.Validate | models/data_manager.py:148-161 | Only a dict can be valid. |
| DataManager.FirstMissingReported | models/data_manager.py:151-155 | For a dict, the verdict names the first required section, in the order of the list, that is missing. |
| DataManager.ValidWhenComplete | models/data_manager.py:157-161 | With every required section present, a dict is valid exactly when `export_info` is a dict with a truthy version. Otherwise the error is the missing-version message. `habit_completions` is not required. |
| DataManager.Insert | models/data_manager.py:192-197 | An insert appends one row with the next id to its table only, and advances the id counter. |
| DataManager.Clear | models/data_manager.py:163-173 | Every table keeps exactly the rows of other users. |
| DataManager.InsertEach | models/data_manager.py:250-259 | One section's insert loop. Its contract is stated by DataManager.InsertEachSpec. |
| DataManager.ImportSection | models/data_manager.py:242-320 | A notes, birthdays or watchlist phase. DataManager.SectionKeepsHabits states that it touches neither habits nor completions. |
| DataManager.InsertEachSpec | models/data_manager.py:250-259 | A section loop raises exactly when some item breaks it. Otherwise it appends, in order and for the user, exactly the rows of the kept items, and counts them. |
| DataManager.WatchDefaults | models/data_manager.py:302-314 | A watchlist item without status, priority or current episode is stored with want_to_watch, medium and 0. Given values and the title are kept. |
| DataManager.InsertHabits | models/data_manager.py:185-200 | A habits loop that finishes leaves a mapping. The rows and the id pairing are stated by the lemmas below. |
| DataManager.InsertHabitsSpec | models/data_manager.py:185-200 | The habits loop inserts exactly the items with a truthy name, in order and for the user, and counts them. Every id the mapping adds points at a habit row it inserted. |
| DataManager.InsertHabitsMapsEveryId | models/data_manager.py:197-199 | Every kept item with a truthy id is in the mapping, and no entry already there is dropped. |
| DataManager.InsertHabitsKeepsOtherKeys | models/data_manager.py:197-199 | An old id that no mapped item carries keeps the value it had in the mapping. |
| DataManager.InsertHabitsMapsOwnId | models/data_manager.py:185-200 | The old id of a mapped item, when no later item reuses it, maps to the first free id plus the number of rows inserted before that item. |
| DataManager.InsertHabitsIds | models/data_manager.py:191-196 | The inserted habit rows take consecutive ids starting at the first free one. |
| DataManager.BuildsAt | models/data_manager.py:190-195 | A kept item is the row at its own place among the rows built from the kept items. |
| DataManager.InsertHabitsPairsIds | models/data_manager.py:185-200 | Starting from an empty mapping, the old id of a mapped item, when no later item reuses it, leads to the habit row inserted for that very item: a row of the user holding that item's name, description and points. |
| DataManager.InsertCompletions | models/data_manager.py:218-236 | The completions loop. Its contract is stated by DataManager.InsertCompletionsSpec. |
| DataManager.ImportCompletions | models/data_manager.py:209-240 | The completions phase. DataManager.CompletionsAreMapped states what it appends. |
| DataManager.InsertCompletionsSpec | models/data_manager.py:218-236 | The completions loop only appends rows and counts them, and touches no other table. Each new row is the user's, for a mapped habit and a truthy date, and no habit and date pair is duplicated. |
| DataManager.ImportFull | models/data_manager.py:107-146 | Data that fails validation changes nothing and does not report success. |
| DataManager.StaleMappingInsertsOrphan | models/data_manager.py:176-215 | A backup with no habits, imported after an earlier import left a mapping, inserts a completion for a habit row the user no longer has. |
| DataManager.ImportFullFixed | models/data_manager.py:107-146 | With the corrected habits phase, data that fails validation still changes nothing and does not report success. |
| DataManager.ImportHabits | models/data_manager.py:176-206 | The habits phase as written. DataManager.InsertHabitsSpec and DataManager.InsertHabitsPairsIds state its loop, and DataManager.StaleMappingInsertsOrphan shows the stale mapping it leaves for an empty section. |
| DataManager.FixedHabitsMapIntoNew | models/data_manager.py:176-206 | The corrected habits phase leaves a mapping whose ids all point at habit rows it inserted, and it leaves completions untouched. |
| DataManager.CompletionsAreMapped | models/data_manager.py:209-240 | The completions phase keeps the habits table and only appends completions for mapped habits. |
| DataManager.SectionKeepsHabits | models/data_manager.py:242-320 | Importing notes, birthdays or watchlist items touches neither habits nor completions. |
| DataManager.RestKeepsHabitsAndCompletions | models/data_manager.py:130-143 | The last three phases of a successful import leave habits and completions as they were. |
| DataManager.FixedCompletionsReferToImportedHabits | models/data_manager.py:122-128 | After a successful corrected import, every completion it inserted is the user's and refers to a habit row the same import inserted for the user. |
| DataManager.ExportFull | models/data_manager.py:17-33 | An export is a dict holding every section the import requires. |
| DataManager.ExportValidates | models/data_manager.py:17-33 | Every export passes the import's validation. |
| Password.ValidatePasswordStrength | utils.py:9-23 | A password passes exactly when it has at least eight characters, an uppercase letter, a lowercase letter and a digit. It passes exactly when the message is empty. |
| Password.FirstFailureReported | utils.py:11-21 | A failing password is reported with the first broken rule, in the order length, uppercase, lowercase, digit. |
| Password.HasAny | utils.py:14 | The scan finds a character exactly when some character passes the test. |
| Password.CheckPassword | utils.py:9-23 | The step-by-step checks return the same verdict and message as the rule. |
| Password.LowercaseOnlyNeedsUpper | utils.py:11-23 | `password1` is refused for its missing uppercase letter, and `Password1` passes. |

## Left out

- Cryptography is not computed. AES-CBC, HMAC-SHA256 and PBKDF2-HMAC-SHA256 are foreign calls, modelled only through the laws of `Encryption.Lawful` and a 32-byte KDF parameter.
- `_is_base64` is the opaque `decodes` test of the cipher record. The leniency of `base64.urlsafe_b64decode` is not modelled.
- `generate_user_salt` (`os.urandom`) is not modelled. The fresh salt is a parameter of the password change.
- SQLite is not modelled: SQL text, transactions and `get_db`. Tables are sequences or maps, and the database's own checks are parameters.
- `ORDER BY` is not modelled. Rows are taken in the order the model's table holds them.
- `CURRENT_TIMESTAMP`, `CURRENT_DATE`, SQLite's UTC `date('now')` and the local `date.today()` are parameters. Timestamps are kept to the day.
- The Flask session, routes, templates, flash messages and logging (`log_encryption_action`, `get_module_display_name`) are left out. The session is passed in explicitly.
- Exception texts (`str(e)`) are not modelled. An exception is represented by its class name, and database errors by one fixed text.
- `get_all_fields` has no member. Dafny sequences are values, so a returned list cannot alias the registry, and the copy it makes needs no proof.
- `_get_field_encryption_status` is left out. It is the same lookup as `should_encrypt_field`.
- `_process_fields_for_storage` turns non-text values into text with `str()`. The model's column values are only text or NULL, so that conversion does not arise.
- `_get_decrypted_module_data` is a stub in the source that returns an empty list. `Migration.DecryptAllUserData` models the stub itself.
- These readers are left out because their logic lives in SQL queries only:
  - `get_user_todos`, `get_todays_birthdays`, `get_birthday`, `get_watchlist_item` and `get_user_watchlist`;
  - the delete functions other than the reading list's soft delete;
  - `get_user_categories`;
  - the watchlist's `get_stats`;
  - the habit `create`/`delete` functions.
- Reading `create`, `update`, `update_progress` and `get_reading_progress_summary` are plain SQL writes or float averages, and are not modelled.
- In the watchlist, an UPDATE is applied to the one matching row. The WHERE clause's id and owner test is represented only by the two placeholders it binds, and the `rowcount > 0` result is not modelled.
- JSON floats are not modelled. A backup value is null, a boolean, an integer, a string, a list or an object.
- Python truthiness of a float `0.0` is therefore out of scope.
- An explicit NULL for `date_added` in an imported watchlist item is not distinguished from a missing key. Both are passed on as the item gives them.
- Reading.Progress: computes `int(current / total * 100)` with the exact quotient. Python's float division can give one less; for example, `int(29 / 100 * 100)` is 28. The model promises only the bounds and the exact truncated value.
- Password.ValidatePasswordStrength: `str.isupper`, `str.islower` and `str.isdigit` are the character classes a caller supplies, not Python's Unicode tables.
- Migration.FailureMessages: the text after `Failed to re-encrypt <module>: ` is the fault's text as given, not a Python exception rendering.
- Dates.ParseIsoDate: digits are ASCII. Python's `\d` in `strptime` also matches other Unicode decimal digits, which the model rejects.
- Birthdays.Entry: it carries days until in `get_user_birthdays` too, although that listing does not put `days_until` in its dicts. Nothing is stated about that field there.
- DataManager.ExportFull: it copies whole records rather than only the columns its SELECTs name. One id counter (`nextId`) is shared by all tables, where SQLite keeps a rowid per table.
- Habits.Streak: completion dates are day ordinals. Parsing `completion_date` strings is not modelled.
- Encryption.WrongKeyCorrupts: stated for canonical key texts only. `urlsafe_b64decode` ignores the two padding bits of the last character, so four texts spell each key and open each other's tokens (Encryption.TwoSpellingsOfOneKey). Every key that `derive_encryption_key` produces is canonical.
- Encryption.Lawful: the authentication law covers canonical key texts only, for the same reason.
- Migration.FailedSaltWriteStrandsData: the session key is taken to be canonical, as every key the login derives is.
- DataManager.InsertHabits: its own contract says only that a finished loop leaves a mapping. The inserted rows, the count and the id pairing are stated by DataManager.InsertHabitsSpec and DataManager.InsertHabitsPairsIds. The pairing is stated for the last item that carries a given old id, since a later item with the same id overwrites the entry.

## Findings

| source | as written | input that shows it | evidently intended | confidence | as-written member | corrected member |
|---|---|---|---|---|---|---|
| utils/migration.py:260-265 | The password-change sweep decrypts and re-encrypts with the new key only. `_decrypt_all_user_data` yields nothing and `_re_encrypt_with_data` runs the ordinary sweep with the new key. | A note encrypted under the old key, with non-empty old and new passwords whose derived keys differ. The note then reads as `[CORRUPTED: ...]`. | Open each column with the old key and seal it with the new key, so every column reads the same after the change. | not executed | Migration.PasswordChangeCorruptsOldCiphertext | Migration.FixedPasswordChangeKeepsPlaintext |
| utils/migration.py:250-283 | `old_session_key` is assigned at line 257. An exception raised before that, for example by key derivation from an empty old password, reaches the `except` branch, which reads the unbound name and raises `UnboundLocalError`. | Old password `""` with a stored salt. | Return a failure result and leave the session as it was. | not executed | Migration.EmptyOldPasswordEscapes | Migration.FixedPasswordChangeIsAtomic |
| utils/migration.py:264-283 | The sweeps commit before the salt UPDATE. When that UPDATE fails, the data is sealed under the new key, while the stored salt and the session key remain the old ones. | A note whose preference is on, and a salt UPDATE that raises. | Make the password change all or nothing: a failed salt write leaves tables, salt and session unchanged. | not executed | Migration.FailedSaltWriteStrandsData | Migration.FixedPasswordChangeIsAtomic |
| models/habit.py:185-194 | The test of line 185 accepts a habit completed yesterday, but the loop then starts at today and stops at once. | Only yesterday completed: the streak is 0. | A streak that reaches yesterday stays current until today ends, so it counts from yesterday and gives 1. | not executed | Habits.YesterdayOnlyGivesZero | Habits.StreakFixedSpec |
| models/birthday.py:84-88 | `birth_date.replace(year=today.year)` raises `ValueError` for a 29 February birth date in a common year, and the whole listing fails. | Birth date 2000-02-29, today 2025-06-01. | Fall back to 28 February in common years and never raise; here the next birthday is 2026-02-28. | not executed | Birthdays.LeapDayBirthdayRaises | Birthdays.FixedAgreesWhereWrittenSucceeds |
| models/todo.py:136-149 | `Todo.update` writes title, description and category as given and never calls the encryption step that `create` uses. | Edit a todo whose title preference is on: the new title is stored in plaintext. | Prepare the updated fields exactly as `create` does. | not executed | Todos.UpdateStoresPlaintext | Todos.UpdateFixedHonoursPreference |
| models/data_manager.py:176-215 | `_import_habits` returns before line 205 when the habits section is empty, so the class-level mapping of an earlier import stays in place and the completions phase uses it. | A backup with no habits and one completion for old habit 1, after an import that mapped habit 1 to row 7. A completion for row 7 is inserted although the user has no habits. | Start every import with an empty mapping, so that each completion inserted refers to a habit that the same import inserted. | not executed | DataManager.StaleMappingInsertsOrphan | DataManager.FixedCompletionsReferToImportedHabits |
