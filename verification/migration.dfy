/** The data migrator (`utils/migration.py`): the sweep that rewrites every
    encrypted column of a user to match the current preferences, its per-module
    error isolation, and the password-change path, both as written and as
    evidently intended. Tables hold only the migrating user's rows; a failing
    database call is a parameter (`faults`: module name to exception text). */
module Migration {
  import opened Common
  import opened Encryption
  import opened Preferences

  /** One swept table: the module name used for preferences and the columns
      the sweep rewrites. */
  datatype Sweep = Sweep(name: string, columns: seq<string>)

  /** The modules of `re_encrypt_user_data`, in dict order, with the columns
      each `_re_encrypt_<module>` rewrites. */
  const SWEEPS: seq<Sweep> := [
    Sweep("habits", ["name", "description"]),
    Sweep("notes", ["content"]),
    Sweep("todos", ["title", "description", "category"]),
    Sweep("reading", ["notes"]),
    Sweep("birthdays", ["name", "notes"]),
    Sweep("watchlist", ["notes"])
  ]

  const NO_KEY_ERROR: string := "No encryption key in session"

  /** The user's rows of each swept table, by module name. */
  type Tables = map<string, seq<Row>>

  /** A module with no table entry has no rows. */
  function Rows(db: Tables, m: string): seq<Row> {
    if m in db then db[m] else []
  }

  function ModuleNames(sweeps: seq<Sweep>): seq<string> {
    seq(|sweeps|, i requires 0 <= i < |sweeps| => sweeps[i].name)
  }

  // ---------------------------------------------------------------------
  // One column.
  // ---------------------------------------------------------------------

  /** `_smart_decrypt`: NULL and "" read as "", anything else goes through
      `smart_decrypt` (which does not raise). */
  function PlainView(f: Fernet, v: Value, key: Key): (r: string)
    ensures v == Null || v == Text("") ==> r == ""
    ensures v.Text? && !IsEncrypted(f, v.s) ==> r == v.s
    ensures Lawful(f) && f.validKey(key) && v.Text? && v.s != "" ==>
      r == DecryptData(f, v.s, Some(key))
  {
    if v.Null? || v.s == "" then "" else SmartDecrypt(f, v.s, Some(key))
  }

  /** The migrator's `_encrypt_if_preferred`: "" stays "", otherwise the
      preference decides. */
  function EncryptIfPreferred(f: Fernet, store: Store, value: string, user: int, m: string, field: string, key: Key): (r: string)
    ensures value == "" ==> r == ""
    ensures !ShouldEncrypt(store, user, m, field) ==> r == value
    ensures Lawful(f) && f.validKey(key) && key != "" && value != "" && ShouldEncrypt(store, user, m, field) ==>
      IsEncrypted(f, r) && f.open(key, r) == Some(value)
  {
    if value == "" then ""
    else if ShouldEncrypt(store, user, m, field) then EncryptData(f, value, Some(key))
    else value
  }

  /** The new content of one swept column: read under `readKey`, written
      under `writeKey`. The migrator as written uses one key for both. */
  function SweptValue(f: Fernet, store: Store, user: int, readKey: Key, writeKey: Key, m: string, field: string, v: Value): string {
    EncryptIfPreferred(f, store, PlainView(f, v, readKey), user, m, field, writeKey)
  }

  /** After a sweep, a column's plaintext view is what it was, and a non-empty
      column is ciphertext exactly when its preference is on. A NULL column
      comes out as "". */
  lemma SweepSettlesColumn(f: Fernet, store: Store, user: int, key: Key, m: string, field: string, v: Value)
    requires Lawful(f) && f.validKey(key) && key != ""
    requires !IsEncrypted(f, PlainView(f, v, key))
    ensures PlainView(f, Text(SweptValue(f, store, user, key, key, m, field, v)), key) == PlainView(f, v, key)
    ensures PlainView(f, v, key) != "" ==>
      (IsEncrypted(f, SweptValue(f, store, user, key, key, m, field, v)) <==> ShouldEncrypt(store, user, m, field))
    ensures v == Null ==> SweptValue(f, store, user, key, key, m, field, v) == ""
  {
    var p := PlainView(f, v, key);
    if p != "" && ShouldEncrypt(store, user, m, field) {
      RoundTrip(f, p, Some(key));
    }
  }

  /** A second sweep under the same key and preferences leaves every
      column's plaintext view where the first one put it. */
  lemma SweepViewIsStable(f: Fernet, store: Store, user: int, key: Key, m: string, field: string, v: Value)
    requires Lawful(f) && f.validKey(key) && key != ""
    requires !IsEncrypted(f, PlainView(f, v, key))
    ensures var once := Text(SweptValue(f, store, user, key, key, m, field, v));
      PlainView(f, Text(SweptValue(f, store, user, key, key, m, field, once)), key) == PlainView(f, v, key)
  {
    var once := Text(SweptValue(f, store, user, key, key, m, field, v));
    SweepSettlesColumn(f, store, user, key, m, field, v);
    SweepSettlesColumn(f, store, user, key, m, field, once);
  }

  /** Moving a column from one key to another keeps what it reads as: its
      view under the new key is its view under the old. */
  lemma RekeyKeepsPlaintext(f: Fernet, store: Store, user: int, oldKey: Key, newKey: Key, m: string, field: string, v: Value)
    requires Lawful(f) && f.validKey(newKey) && newKey != ""
    requires !IsEncrypted(f, PlainView(f, v, oldKey))
    ensures PlainView(f, Text(SweptValue(f, store, user, oldKey, newKey, m, field, v)), newKey) == PlainView(f, v, oldKey)
  {
    var p := PlainView(f, v, oldKey);
    if p != "" && ShouldEncrypt(store, user, m, field) {
      RoundTrip(f, p, Some(newKey));
    }
  }

  // ---------------------------------------------------------------------
  // Rows and tables.
  // ---------------------------------------------------------------------

  /** Writes `value(c)` into `acc` for each of `columns` (the `UPDATE ... SET`
      of one row). */
  function WriteColumns(acc: Row, columns: seq<string>, value: string -> Value): (r: Row)
    ensures r.Keys == acc.Keys + (set c | c in columns)
    ensures forall k :: k in acc && k !in columns ==> r[k] == acc[k]
    ensures forall c :: c in columns ==> r[c] == value(c)
    decreases |columns|
  {
    if columns == [] then acc
    else
      var c := columns[0];
      var r := WriteColumns(acc[c := value(c)], columns[1..], value);
      assert forall k :: k in columns ==> k == c || k in columns[1..];
      r
  }

  /** One row of `_re_encrypt_<module>`: each swept column is computed from
      the fetched row. */
  function SweepRow(f: Fernet, store: Store, user: int, rk: Key, wk: Key, s: Sweep, row: Row): Row {
    WriteColumns(row, s.columns, (c: string) => Text(SweptValue(f, store, user, rk, wk, s.name, c, Get(row, c))))
  }

  /** A swept row gains the swept columns, each computed from the fetched
      row, and keeps every other column. */
  lemma SweepRowSpec(f: Fernet, store: Store, user: int, rk: Key, wk: Key, s: Sweep, row: Row)
    ensures var r := SweepRow(f, store, user, rk, wk, s, row);
      && r.Keys == row.Keys + (set c | c in s.columns)
      && (forall k :: k in row && k !in s.columns ==> r[k] == row[k])
      && (forall c :: c in s.columns ==> r[c] == Text(SweptValue(f, store, user, rk, wk, s.name, c, Get(row, c))))
  {
  }

  /** `_re_encrypt_<module>`: every row of the user, one UPDATE each. */
  function SweepTable(f: Fernet, store: Store, user: int, rk: Key, wk: Key, s: Sweep, rows: seq<Row>): seq<Row> {
    seq(|rows|, i requires 0 <= i < |rows| => SweepRow(f, store, user, rk, wk, s, rows[i]))
  }

  /** Replaces a module's rows; a module without a table stays without. */
  function WriteTable(db: Tables, m: string, rows: seq<Row>): (r: Tables)
    ensures r.Keys == db.Keys
    ensures m in db ==> r[m] == rows
    ensures forall k :: k in db && k != m ==> r[k] == db[k]
  {
    if m in db then db[m := rows] else db
  }

  // ---------------------------------------------------------------------
  // re_encrypt_user_data.
  // ---------------------------------------------------------------------

  /** The result dict of `re_encrypt_user_data`. */
  datatype ReEncryptReport =
    | Refused(error: string)
    | Done(modulesProcessed: nat, recordsUpdated: nat, errors: seq<string>)

  function FailureMessage(m: string, exception: string): string {
    "Failed to re-encrypt " + m + ": " + exception
  }

  /** Counters and tables as the loop over the modules goes. */
  datatype Progress = Progress(processed: nat, updated: nat, errors: seq<string>, db: Tables)

  /** One iteration: a failing module adds its message and writes nothing
      (its transaction is not committed), any other is swept and counted. */
  function SweepStep(f: Fernet, store: Store, user: int, rk: Key, wk: Key, p: Progress, s: Sweep, faults: map<string, string>): Progress {
    if s.name in faults then
      Progress(p.processed, p.updated, p.errors + [FailureMessage(s.name, faults[s.name])], p.db)
    else
      var rows := Rows(p.db, s.name);
      Progress(p.processed + 1, p.updated + |rows|, p.errors,
               WriteTable(p.db, s.name, SweepTable(f, store, user, rk, wk, s, rows)))
  }

  function SweepLoop(f: Fernet, store: Store, user: int, rk: Key, wk: Key, p: Progress, sweeps: seq<Sweep>, faults: map<string, string>): Progress
    decreases |sweeps|
  {
    if sweeps == [] then p
    else SweepLoop(f, store, user, rk, wk, SweepStep(f, store, user, rk, wk, p, sweeps[0], faults), sweeps[1..], faults)
  }

  /** Number of modules that do not fail. */
  function Succeeding(sweeps: seq<Sweep>, faults: map<string, string>): nat
    decreases |sweeps|
  {
    if sweeps == [] then 0 else (if sweeps[0].name in faults then 0 else 1) + Succeeding(sweeps[1..], faults)
  }

  /** Rows of the modules that do not fail, counted in the original tables. */
  function RowsOfSucceeding(db: Tables, sweeps: seq<Sweep>, faults: map<string, string>): nat
    decreases |sweeps|
  {
    if sweeps == [] then 0
    else (if sweeps[0].name in faults then 0 else |Rows(db, sweeps[0].name)|) + RowsOfSucceeding(db, sweeps[1..], faults)
  }

  /** The failure messages of the failing modules, in sweep order. */
  function FailureMessages(sweeps: seq<Sweep>, faults: map<string, string>): (r: seq<string>)
    ensures |r| + Succeeding(sweeps, faults) == |sweeps|
    decreases |sweeps|
  {
    if sweeps == [] then []
    else
      (if sweeps[0].name in faults then [FailureMessage(sweeps[0].name, faults[sweeps[0].name])] else [])
      + FailureMessages(sweeps[1..], faults)
  }

  /** What the sweep leaves in each table: the modules that do not fail are
      rewritten from their original rows, everything else is as it was. */
  predicate SweptTables(f: Fernet, store: Store, user: int, rk: Key, wk: Key, db: Tables, sweeps: seq<Sweep>, faults: map<string, string>, r: Tables) {
    && r.Keys == db.Keys
    && (forall i :: 0 <= i < |sweeps| && sweeps[i].name in db ==>
          r[sweeps[i].name] == (if sweeps[i].name in faults then db[sweeps[i].name]
                                  else SweepTable(f, store, user, rk, wk, sweeps[i], db[sweeps[i].name])))
    && (forall m :: m in db && m !in ModuleNames(sweeps) ==> r[m] == db[m])
  }

  lemma ModuleNamesCons(sweeps: seq<Sweep>)
    requires sweeps != []
    ensures ModuleNames(sweeps) == [sweeps[0].name] + ModuleNames(sweeps[1..])
  {
  }

  /** Dropping the first module keeps the names distinct and removes its name. */
  lemma DistinctTail(sweeps: seq<Sweep>)
    requires sweeps != [] && Distinct(ModuleNames(sweeps))
    ensures Distinct(ModuleNames(sweeps[1..]))
    ensures sweeps[0].name !in ModuleNames(sweeps[1..])
  {
    var names := ModuleNames(sweeps);
    var tail := ModuleNames(sweeps[1..]);
    forall i | 0 <= i < |tail| ensures tail[i] == names[i + 1] && tail[i] != sweeps[0].name {
      assert names[0] != names[i + 1];
    }
  }

  /** Since the module names are distinct, the loop sweeps every table from
      its original rows, and its counters are those of the modules that do
      not fail. */
  lemma SweepLoopSpec(f: Fernet, store: Store, user: int, rk: Key, wk: Key, p: Progress, sweeps: seq<Sweep>, faults: map<string, string>)
    requires Distinct(ModuleNames(sweeps))
    ensures var q := SweepLoop(f, store, user, rk, wk, p, sweeps, faults);
      && q.processed == p.processed + Succeeding(sweeps, faults)
      && q.updated == p.updated + RowsOfSucceeding(p.db, sweeps, faults)
      && q.errors == p.errors + FailureMessages(sweeps, faults)
      && SweptTables(f, store, user, rk, wk, p.db, sweeps, faults, q.db)
  {
    SweepLoopCounts(f, store, user, rk, wk, p, sweeps, faults);
    SweepLoopTables(f, store, user, rk, wk, p, sweeps, faults);
  }

  lemma SweepLoopCounts(f: Fernet, store: Store, user: int, rk: Key, wk: Key, p: Progress, sweeps: seq<Sweep>, faults: map<string, string>)
    requires Distinct(ModuleNames(sweeps))
    ensures var q := SweepLoop(f, store, user, rk, wk, p, sweeps, faults);
      && q.processed == p.processed + Succeeding(sweeps, faults)
      && q.updated == p.updated + RowsOfSucceeding(p.db, sweeps, faults)
      && q.errors == p.errors + FailureMessages(sweeps, faults)
  {
    SweepLoopTallies(f, store, user, rk, wk, p, sweeps, faults);
    SweepLoopUpdated(f, store, user, rk, wk, p, sweeps, faults);
  }

  lemma {:induction false} SweepLoopTallies(f: Fernet, store: Store, user: int, rk: Key, wk: Key, p: Progress, sweeps: seq<Sweep>, faults: map<string, string>)
    ensures var q := SweepLoop(f, store, user, rk, wk, p, sweeps, faults);
      q.processed == p.processed + Succeeding(sweeps, faults) && q.errors == p.errors + FailureMessages(sweeps, faults)
    decreases |sweeps|
  {
    if sweeps != [] {
      var s := sweeps[0];
      var p1 := SweepStep(f, store, user, rk, wk, p, s, faults);
      SweepLoopTallies(f, store, user, rk, wk, p1, sweeps[1..], faults);
      var rest := FailureMessages(sweeps[1..], faults);
      if s.name in faults {
        var e := [FailureMessage(s.name, faults[s.name])];
        assert p1.errors == p.errors + e && FailureMessages(sweeps, faults) == e + rest;
        assert (p.errors + e) + rest == p.errors + (e + rest);
      } else {
        assert p1.errors == p.errors && FailureMessages(sweeps, faults) == [] + rest;
      }
    }
  }

  lemma {:induction false} SweepLoopUpdated(f: Fernet, store: Store, user: int, rk: Key, wk: Key, p: Progress, sweeps: seq<Sweep>, faults: map<string, string>)
    requires Distinct(ModuleNames(sweeps))
    ensures SweepLoop(f, store, user, rk, wk, p, sweeps, faults).updated == p.updated + RowsOfSucceeding(p.db, sweeps, faults)
    decreases |sweeps|
  {
    if sweeps != [] {
      var s := sweeps[0];
      var p1 := SweepStep(f, store, user, rk, wk, p, s, faults);
      DistinctTail(sweeps);
      SweepLoopUpdated(f, store, user, rk, wk, p1, sweeps[1..], faults);
      RowsUntouched(p.db, p1.db, sweeps[1..], faults, s.name);
    }
  }

  lemma {:induction false} SweepLoopTables(f: Fernet, store: Store, user: int, rk: Key, wk: Key, p: Progress, sweeps: seq<Sweep>, faults: map<string, string>)
    requires Distinct(ModuleNames(sweeps))
    ensures SweptTables(f, store, user, rk, wk, p.db, sweeps, faults, SweepLoop(f, store, user, rk, wk, p, sweeps, faults).db)
    decreases |sweeps|
  {
    if sweeps != [] {
      var p1 := SweepStep(f, store, user, rk, wk, p, sweeps[0], faults);
      DistinctTail(sweeps);
      SweepLoopTables(f, store, user, rk, wk, p1, sweeps[1..], faults);
      StepTables(f, store, user, rk, wk, p.db, p1.db, sweeps, faults, SweepLoop(f, store, user, rk, wk, p1, sweeps[1..], faults).db);
    }
  }

  /** One step of the loop followed by the sweep of the rest is the sweep of
      the whole list, all read from the original tables. */
  lemma StepTables(f: Fernet, store: Store, user: int, rk: Key, wk: Key, db: Tables, db1: Tables, sweeps: seq<Sweep>, faults: map<string, string>, out: Tables)
    requires sweeps != [] && Distinct(ModuleNames(sweeps))
    requires db1 == if sweeps[0].name in faults then db
                    else WriteTable(db, sweeps[0].name, SweepTable(f, store, user, rk, wk, sweeps[0], Rows(db, sweeps[0].name)))
    requires SweptTables(f, store, user, rk, wk, db1, sweeps[1..], faults, out)
    ensures SweptTables(f, store, user, rk, wk, db, sweeps, faults, out)
  {
    StepTablesListed(f, store, user, rk, wk, db, db1, sweeps, faults, out);
    StepTablesOthers(f, store, user, rk, wk, db, db1, sweeps, faults, out);
  }

  lemma StepTablesListed(f: Fernet, store: Store, user: int, rk: Key, wk: Key, db: Tables, db1: Tables, sweeps: seq<Sweep>, faults: map<string, string>, out: Tables)
    requires sweeps != [] && Distinct(ModuleNames(sweeps))
    requires db1 == if sweeps[0].name in faults then db
                    else WriteTable(db, sweeps[0].name, SweepTable(f, store, user, rk, wk, sweeps[0], Rows(db, sweeps[0].name)))
    requires SweptTables(f, store, user, rk, wk, db1, sweeps[1..], faults, out)
    ensures forall i :: 0 <= i < |sweeps| && sweeps[i].name in db ==>
      out[sweeps[i].name] == (if sweeps[i].name in faults then db[sweeps[i].name]
                              else SweepTable(f, store, user, rk, wk, sweeps[i], db[sweeps[i].name]))
  {
    var tail := sweeps[1..];
    DistinctTail(sweeps);
    forall i | 0 <= i < |sweeps| && sweeps[i].name in db
      ensures out[sweeps[i].name] == (if sweeps[i].name in faults then db[sweeps[i].name]
                                      else SweepTable(f, store, user, rk, wk, sweeps[i], db[sweeps[i].name]))
    {
      if i == 0 {
        assert sweeps[0].name !in ModuleNames(tail);
      } else {
        assert tail[i - 1] == sweeps[i];
        assert ModuleNames(sweeps)[i] != ModuleNames(sweeps)[0];
        assert db1[sweeps[i].name] == db[sweeps[i].name];
      }
    }
  }

  lemma StepTablesOthers(f: Fernet, store: Store, user: int, rk: Key, wk: Key, db: Tables, db1: Tables, sweeps: seq<Sweep>, faults: map<string, string>, out: Tables)
    requires sweeps != [] && Distinct(ModuleNames(sweeps))
    requires db1 == if sweeps[0].name in faults then db
                    else WriteTable(db, sweeps[0].name, SweepTable(f, store, user, rk, wk, sweeps[0], Rows(db, sweeps[0].name)))
    requires SweptTables(f, store, user, rk, wk, db1, sweeps[1..], faults, out)
    ensures out.Keys == db.Keys
    ensures forall m :: m in db && m !in ModuleNames(sweeps) ==> out[m] == db[m]
  {
    ModuleNamesCons(sweeps);
  }

  /** Tables that differ only in module `m`, which does not occur in
      `sweeps`, have the same row counts for `sweeps`. */
  lemma {:induction false} RowsUntouched(a: Tables, b: Tables, sweeps: seq<Sweep>, faults: map<string, string>, m: string)
    requires forall k :: k != m ==> Rows(a, k) == Rows(b, k)
    requires m !in ModuleNames(sweeps)
    ensures RowsOfSucceeding(a, sweeps, faults) == RowsOfSucceeding(b, sweeps, faults)
    decreases |sweeps|
  {
    if sweeps != [] {
      ModuleNamesCons(sweeps);
      RowsUntouched(a, b, sweeps[1..], faults, m);
    }
  }

  /** `re_encrypt_user_data`: without a key in the session nothing happens;
      otherwise every module is swept in order with its own error handling,
      and the run succeeds even when some modules fail. */
  function ReEncryptUserData(f: Fernet, store: Store, user: int, key: Option<Key>, db: Tables, faults: map<string, string>): (r: (ReEncryptReport, Tables))
    ensures !HasKey(key) ==> r.0 == Refused(NO_KEY_ERROR) && r.1 == db
    ensures HasKey(key) ==> r.0.Done? && r.0.modulesProcessed + |r.0.errors| == |SWEEPS|
  {
    if !HasKey(key) then (Refused(NO_KEY_ERROR), db)
    else
      var q := SweepLoop(f, store, user, key.value, key.value, Progress(0, 0, [], db), SWEEPS, faults);
      SweepsDistinct();
      SweepLoopSpec(f, store, user, key.value, key.value, Progress(0, 0, [], db), SWEEPS, faults);
      (Done(q.processed, q.updated, q.errors), q.db)
  }

  lemma SweepsDistinct()
    ensures Distinct(ModuleNames(SWEEPS))
    ensures ModuleNames(SWEEPS) == ["habits", "notes", "todos", "reading", "birthdays", "watchlist"]
  {
  }

  /** With a key, the report counts the modules that did not fail and their
      original rows, lists the failures in sweep order, and every table of a
      module that did not fail is swept from its original rows. */
  lemma ReEncryptUserDataSpec(f: Fernet, store: Store, user: int, key: Key, db: Tables, faults: map<string, string>)
    requires key != ""
    ensures var (report, out) := ReEncryptUserData(f, store, user, Some(key), db, faults);
      && report == Done(Succeeding(SWEEPS, faults), RowsOfSucceeding(db, SWEEPS, faults), FailureMessages(SWEEPS, faults))
      && SweptTables(f, store, user, key, key, db, SWEEPS, faults, out)
  {
    SweepsDistinct();
    SweepLoopSpec(f, store, user, key, key, Progress(0, 0, [], db), SWEEPS, faults);
  }

  /** A failure in one module does not stop the others: with only the notes
      module failing, five modules are processed and there is one error. */
  lemma OneFailingModule(f: Fernet, store: Store, user: int, key: Key, db: Tables, e: string)
    requires key != ""
    ensures var report := ReEncryptUserData(f, store, user, Some(key), db, map["notes" := e]).0;
      report == Done(5, RowsOfSucceeding(db, SWEEPS, map["notes" := e]), [FailureMessage("notes", e)])
  {
    ReEncryptUserDataSpec(f, store, user, key, db, map["notes" := e]);
  }

  // ---------------------------------------------------------------------
  // _re_encrypt_with_data.
  // ---------------------------------------------------------------------

  /** Position of the first failing module, or `|sweeps|`. */
  function FirstFault(sweeps: seq<Sweep>, faults: map<string, string>): (r: nat)
    ensures r <= |sweeps|
    ensures forall i :: 0 <= i < r ==> sweeps[i].name !in faults
    ensures r < |sweeps| ==> sweeps[r].name in faults
    decreases |sweeps|
  {
    if sweeps == [] then 0 else if sweeps[0].name in faults then 0 else 1 + FirstFault(sweeps[1..], faults)
  }

  function WithDataLoop(f: Fernet, store: Store, user: int, rk: Key, wk: Key, total: nat, db: Tables, sweeps: seq<Sweep>, faults: map<string, string>): (nat, Tables)
    decreases |sweeps|
  {
    if sweeps == [] || sweeps[0].name in faults then (total, db)
    else
      var rows := Rows(db, sweeps[0].name);
      WithDataLoop(f, store, user, rk, wk, total + |rows|,
                   WriteTable(db, sweeps[0].name, SweepTable(f, store, user, rk, wk, sweeps[0], rows)), sweeps[1..], faults)
  }

  /** `_re_encrypt_with_data`: the same sweeps under one `try`, so the first
      failing module ends the run; the modules before it stay committed. The
      decrypted data it is given is not used. */
  function ReEncryptWithData(f: Fernet, store: Store, user: int, key: Key, db: Tables, faults: map<string, string>): (r: (nat, Tables))
    ensures r.1.Keys == db.Keys
  {
    var r := WithDataLoop(f, store, user, key, key, 0, db, SWEEPS, faults);
    SweepsDistinct();
    WithDataLoopSpec(f, store, user, key, key, 0, db, SWEEPS, faults);
    r
  }

  /** Stopping at the first failure is sweeping the modules before it with
      none failing. */
  lemma WithDataLoopSpec(f: Fernet, store: Store, user: int, rk: Key, wk: Key, total: nat, db: Tables, sweeps: seq<Sweep>, faults: map<string, string>)
    requires Distinct(ModuleNames(sweeps))
    ensures var (n, out) := WithDataLoop(f, store, user, rk, wk, total, db, sweeps, faults);
      var before := sweeps[..FirstFault(sweeps, faults)];
      && n == total + RowsOfSucceeding(db, before, map[])
      && SweptTables(f, store, user, rk, wk, db, before, map[], out)
  {
    var before := sweeps[..FirstFault(sweeps, faults)];
    var p := Progress(0, total, [], db);
    WithDataIsSweepLoop(f, store, user, rk, wk, 0, total, db, sweeps, faults);
    DistinctPrefix(sweeps, |before|);
    SweepLoopSpec(f, store, user, rk, wk, p, before, map[]);
  }

  /** The modules before the first failure, as the head and the rest. */
  lemma BeforeCons(sweeps: seq<Sweep>, faults: map<string, string>)
    requires sweeps != [] && sweeps[0].name !in faults
    ensures var before := sweeps[..FirstFault(sweeps, faults)];
      before != [] && before[0] == sweeps[0] && before[1..] == sweeps[1..][..FirstFault(sweeps[1..], faults)]
  {
  }

  /** The run that stops at the first failure is the loop of
      `re_encrypt_user_data` over the modules before it, none failing. */
  lemma {:induction false} WithDataIsSweepLoop(f: Fernet, store: Store, user: int, rk: Key, wk: Key, k: nat, total: nat, db: Tables, sweeps: seq<Sweep>, faults: map<string, string>)
    ensures var q := SweepLoop(f, store, user, rk, wk, Progress(k, total, [], db), sweeps[..FirstFault(sweeps, faults)], map[]);
      WithDataLoop(f, store, user, rk, wk, total, db, sweeps, faults) == (q.updated, q.db)
    decreases |sweeps|
  {
    if sweeps != [] && sweeps[0].name !in faults {
      var s := sweeps[0];
      var rows := Rows(db, s.name);
      var db1 := WriteTable(db, s.name, SweepTable(f, store, user, rk, wk, s, rows));
      WithDataIsSweepLoop(f, store, user, rk, wk, k + 1, total + |rows|, db1, sweeps[1..], faults);
      var before := sweeps[..FirstFault(sweeps, faults)];
      BeforeCons(sweeps, faults);
      var p := Progress(k, total, [], db);
      var p1 := Progress(k + 1, total + |rows|, [], db1);
      assert SweepStep(f, store, user, rk, wk, p, s, map[]) == p1;
      assert SweepLoop(f, store, user, rk, wk, p, before, map[]) == SweepLoop(f, store, user, rk, wk, p1, before[1..], map[]);
      assert WithDataLoop(f, store, user, rk, wk, total, db, sweeps, faults)
        == WithDataLoop(f, store, user, rk, wk, total + |rows|, db1, sweeps[1..], faults);
    }
  }

  /** A prefix of a list with distinct module names has distinct names. */
  lemma DistinctPrefix(sweeps: seq<Sweep>, n: nat)
    requires n <= |sweeps| && Distinct(ModuleNames(sweeps))
    ensures Distinct(ModuleNames(sweeps[..n]))
  {
    forall i, j | 0 <= i < j < n ensures ModuleNames(sweeps[..n])[i] != ModuleNames(sweeps[..n])[j] {
      assert ModuleNames(sweeps[..n])[i] == ModuleNames(sweeps)[i];
      assert ModuleNames(sweeps[..n])[j] == ModuleNames(sweeps)[j];
    }
  }

  /** `_re_encrypt_with_data` counts and sweeps exactly the modules before
      the first failing one. */
  lemma ReEncryptWithDataSpec(f: Fernet, store: Store, user: int, key: Key, db: Tables, faults: map<string, string>)
    ensures var (n, out) := ReEncryptWithData(f, store, user, key, db, faults);
      var before := SWEEPS[..FirstFault(SWEEPS, faults)];
      && n == RowsOfSucceeding(db, before, map[])
      && SweptTables(f, store, user, key, key, db, before, map[], out)
  {
    SweepsDistinct();
    WithDataLoopSpec(f, store, user, key, key, 0, db, SWEEPS, faults);
  }

  /** `_decrypt_all_user_data` over the stub `_get_decrypted_module_data`:
      an empty list for every module, whatever is stored. */
  function DecryptAllUserData(user: int, key: Key): (r: map<string, seq<Row>>)
    ensures r.Keys == set i | 0 <= i < |SWEEPS| :: SWEEPS[i].name
    ensures forall m :: m in r ==> r[m] == []
  {
    map i | 0 <= i < |SWEEPS| :: SWEEPS[i].name := []
  }

  // ---------------------------------------------------------------------
  // migrate_on_password_change.
  // ---------------------------------------------------------------------

  /** What the password change touches: the user's tables, the stored salt
      (`None` when there is no user row; an empty salt stands for NULL) and
      the session key. */
  datatype State = State(tables: Tables, salt: Option<seq<Byte>>, sessionKey: Option<Key>)

  /** How `migrate_on_password_change` ends: a result dict, or an exception
      that escapes it. */
  datatype PasswordChange =
    | Migrated(records: nat)
    | NothingToMigrate
    | Failed(message: string)
    | Raised(exception: string)

  /** Raised from the `except` branch when it reads `old_session_key` before
      the assignment at line 257 has run. */
  const UNBOUND_OLD_SESSION_KEY: string := "UnboundLocalError: old_session_key"

  /** Both keys, or why deriving one of them failed. */
  function DeriveBoth(kdf: Pbkdf2, oldPassword: string, newPassword: string, salt: seq<Byte>, newSalt: seq<Byte>): (r: Result<(Key, Key)>)
    ensures r.Ok? <==> oldPassword != "" && salt != [] && newPassword != "" && newSalt != []
    ensures r.Ok? ==> Ok(r.value.0) == DeriveKey(kdf, oldPassword, salt) && Ok(r.value.1) == DeriveKey(kdf, newPassword, newSalt)
  {
    match DeriveKey(kdf, oldPassword, salt)
    case Err(e) => Err(e)
    case Ok(oldKey) =>
      match DeriveKey(kdf, newPassword, newSalt)
      case Err(e) => Err(e)
      case Ok(newKey) => Ok((oldKey, newKey))
  }

  /** `migrate_on_password_change` as written. `newSalt` is the fresh salt,
      `faults` the modules whose sweep raises, `saltWrite` the exception of
      the salt UPDATE if it raises. The sweeps run under the new key only; an
      exception before line 257 escapes as an `UnboundLocalError`; a failed
      salt UPDATE comes after the sweeps have committed. */
  function MigrateOnPasswordChange(f: Fernet, kdf: Pbkdf2, store: Store, user: int, oldPassword: string, newPassword: string,
                                   newSalt: seq<Byte>, faults: map<string, string>, saltWrite: Option<string>, st: State): (r: (PasswordChange, State))
    ensures st.salt == Some([]) ==> r == (NothingToMigrate, st)
    ensures r.0.Migrated? ==>
      (DeriveKey(kdf, newPassword, newSalt).Ok? && r.1.salt == Some(newSalt)
       && r.1.sessionKey == Some(DeriveKey(kdf, newPassword, newSalt).value))
    ensures r.0.Raised? ==> r.1 == st
    ensures r.0.Failed? ==> r.1.salt == st.salt && saltWrite.Some?
  {
    if st.salt.None? then (Raised(UNBOUND_OLD_SESSION_KEY), st)
    else if st.salt.value == [] then (NothingToMigrate, st)
    else match DeriveBoth(kdf, oldPassword, newPassword, st.salt.value, newSalt)
      case Err(_) => (Raised(UNBOUND_OLD_SESSION_KEY), st)
      case Ok((oldKey, newKey)) =>
        var (count, tables) := ReEncryptWithData(f, store, user, newKey, st.tables, faults);
        match saltWrite
        case Some(e) =>
          (Failed("Migration failed: " + e),
           State(tables, st.salt, if HasKey(st.sessionKey) then st.sessionKey else Some(newKey)))
        case None =>
          (Migrated(count), State(tables, Some(newSalt), Some(newKey)))
  }

  /** With a stored salt and both passwords given, a successful run replaces
      the salt and leaves the new key in the session. */
  lemma PasswordChangeSucceeds(f: Fernet, kdf: Pbkdf2, store: Store, user: int, oldPassword: string, newPassword: string,
                               newSalt: seq<Byte>, faults: map<string, string>, st: State)
    requires st.salt.Some? && st.salt.value != [] && oldPassword != "" && newPassword != "" && newSalt != []
    ensures var (outcome, after) := MigrateOnPasswordChange(f, kdf, store, user, oldPassword, newPassword, newSalt, faults, None, st);
      && outcome.Migrated?
      && after.salt == Some(newSalt)
      && after.sessionKey == Some(DeriveKey(kdf, newPassword, newSalt).value)
  {
  }

  /** The one-row notes table used by the counterexamples below. */
  function OneNote(v: Value): Tables {
    map["notes" := [map["content" := v]]]
  }

  /** What every sweep does to a single note. */
  lemma SweepOneNote(f: Fernet, store: Store, user: int, key: Key, v: Value)
    ensures ReEncryptWithData(f, store, user, key, OneNote(v), map[])
      == (1, OneNote(Text(SweptValue(f, store, user, key, key, "notes", "content", v))))
  {
    var db := OneNote(v);
    ReEncryptWithDataSpec(f, store, user, key, db, map[]);
    NothingFails();
    RowsOfOneNote(db);
    var out := ReEncryptWithData(f, store, user, key, db, map[]).1;
    OneNoteTables(f, store, user, key, v, out);
  }

  lemma NothingFails()
    ensures FirstFault(SWEEPS, map[]) == |SWEEPS| && SWEEPS[..|SWEEPS|] == SWEEPS
  {
  }

  lemma OneNoteTables(f: Fernet, store: Store, user: int, key: Key, v: Value, out: Tables)
    requires SweptTables(f, store, user, key, key, OneNote(v), SWEEPS, map[], out)
    ensures out == OneNote(Text(SweptValue(f, store, user, key, key, "notes", "content", v)))
  {
    var db := OneNote(v);
    assert SWEEPS[1].name == "notes" && "notes" in db;
    assert out["notes"] == SweepTable(f, store, user, key, key, SWEEPS[1], [map["content" := v]]);
    OneNoteRow(f, store, user, key, v);
  }

  lemma RowsOfOneNote(db: Tables)
    requires db.Keys == {"notes"} && |db["notes"]| == 1
    ensures RowsOfSucceeding(db, SWEEPS, map[]) == 1
  {
    var t := SWEEPS;
    assert Rows(db, "habits") == [] && Rows(db, "todos") == [] && Rows(db, "reading") == [];
    assert Rows(db, "birthdays") == [] && Rows(db, "watchlist") == [];
    assert t[1..][1..][1..][1..][1..][1..] == [];
  }

  lemma OneNoteRow(f: Fernet, store: Store, user: int, key: Key, v: Value)
    ensures SweepTable(f, store, user, key, key, SWEEPS[1], [map["content" := v]])
      == [map["content" := Text(SweptValue(f, store, user, key, key, "notes", "content", v))]]
  {
    var row := map["content" := v];
    SweepRowSpec(f, store, user, key, key, SWEEPS[1], row);
    var r := SweepRow(f, store, user, key, key, SWEEPS[1], row);
    assert SWEEPS[1].columns == ["content"];
    assert "content" in SWEEPS[1].columns;
    assert r.Keys == {"content"};
    assert r["content"] == Text(SweptValue(f, store, user, key, key, "notes", "content", v));
    assert r == map["content" := Text(SweptValue(f, store, user, key, key, "notes", "content", v))];
    var t := SweepTable(f, store, user, key, key, SWEEPS[1], [row]);
    assert |t| == 1 && t[0] == r;
  }

  /** The sweep uses the new key: a note sealed under the old key does not
      open, its plaintext becomes the corrupted marker, and that marker is
      what the new key reads back after the change. */
  lemma PasswordChangeCorruptsOldCiphertext(f: Fernet, kdf: Pbkdf2, store: Store, user: int, oldPassword: string, newPassword: string,
                                            salt: seq<Byte>, newSalt: seq<Byte>, plaintext: string, session: Option<Key>)
    requires Lawful(f)
    requires oldPassword != "" && newPassword != "" && salt != [] && newSalt != [] && plaintext != ""
    requires DeriveKey(kdf, oldPassword, salt) != DeriveKey(kdf, newPassword, newSalt)
    ensures var oldKey := DeriveKey(kdf, oldPassword, salt).value;
      var newKey := DeriveKey(kdf, newPassword, newSalt).value;
      var token := f.seal(oldKey, plaintext);
      var (outcome, after) := MigrateOnPasswordChange(f, kdf, store, user, oldPassword, newPassword, newSalt, map[], None,
                                                      State(OneNote(Text(token)), Some(salt), session));
      && outcome == Migrated(1)
      && "notes" in after.tables && |after.tables["notes"]| == 1 && "content" in after.tables["notes"][0]
      && PlainView(f, after.tables["notes"][0]["content"], newKey) == Corrupted(token)
  {
    var oldKey := DeriveKey(kdf, oldPassword, salt).value;
    var newKey := DeriveKey(kdf, newPassword, newSalt).value;
    DerivedKeyIsValid(f, kdf, oldPassword, salt);
    DerivedKeyIsValid(f, kdf, newPassword, newSalt);
    var token := f.seal(oldKey, plaintext);
    SweepOneNote(f, store, user, newKey, Text(token));
    WrongKeyCorrupts(f, oldKey, newKey, plaintext);
    assert PlainView(f, Text(token), newKey) == Corrupted(token);
    CorruptedIsNotToken(f, token);
    SweepSettlesColumn(f, store, user, newKey, "notes", "content", Text(token));
  }

  /** An empty old password makes key derivation raise before
      `old_session_key` is assigned, so the `except` branch itself raises. */
  lemma EmptyOldPasswordEscapes(f: Fernet, kdf: Pbkdf2, store: Store, user: int, newPassword: string,
                                newSalt: seq<Byte>, faults: map<string, string>, saltWrite: Option<string>, st: State)
    requires st.salt.Some? && st.salt.value != []
    ensures MigrateOnPasswordChange(f, kdf, store, user, "", newPassword, newSalt, faults, saltWrite, st).0 == Raised(UNBOUND_OLD_SESSION_KEY)
  {
  }

  /** When the salt UPDATE fails the sweeps have already committed under the
      new key, but the stored salt stays the old one and the session goes
      back to its old key: an encrypted note is now sealed under a key that
      neither gives, and reads as the corrupted marker. */
  lemma FailedSaltWriteStrandsData(f: Fernet, kdf: Pbkdf2, store: Store, user: int, oldPassword: string, newPassword: string,
                                   salt: seq<Byte>, newSalt: seq<Byte>, sessionKey: Key, e: string)
    requires Lawful(f)
    requires oldPassword != "" && newPassword != "" && salt != [] && newSalt != [] && CanonicalKey(sessionKey)
    requires Ok(sessionKey) != DeriveKey(kdf, newPassword, newSalt)
    requires ShouldEncrypt(store, user, "notes", "content")
    ensures var newKey := DeriveKey(kdf, newPassword, newSalt).value;
      var (outcome, after) := MigrateOnPasswordChange(f, kdf, store, user, oldPassword, newPassword, newSalt, map[], Some(e),
                                                      State(OneNote(Text("hello")), Some(salt), Some(sessionKey)));
      && outcome.Failed?
      && after.salt == Some(salt)
      && after.sessionKey == Some(sessionKey)
      && after.tables == OneNote(Text(f.seal(newKey, "hello")))
      && PlainView(f, Text(f.seal(newKey, "hello")), sessionKey) == Corrupted(f.seal(newKey, "hello"))
  {
    var newKey := DeriveKey(kdf, newPassword, newSalt).value;
    DerivedKeyIsValid(f, kdf, newPassword, newSalt);
    SweepOneNote(f, store, user, newKey, Text("hello"));
    SweptHello(f, store, user, newKey);
    WrongKeyCorrupts(f, newKey, sessionKey, "hello");
  }

  /** Swept under an encrypting preference, the plain note "hello" is sealed
      under the sweep's key. */
  lemma SweptHello(f: Fernet, store: Store, user: int, key: Key)
    requires Lawful(f) && f.validKey(key) && key != ""
    requires ShouldEncrypt(store, user, "notes", "content")
    ensures SweptValue(f, store, user, key, key, "notes", "content", Text("hello")) == f.seal(key, "hello")
  {
    OrdinaryTextIsNotSniffed(f);
    assert PlainView(f, Text("hello"), key) == "hello";
  }

  // ---------------------------------------------------------------------
  // The password change as evidently intended.
  // ---------------------------------------------------------------------

  /** Every swept table moved from the old key to the new one. */
  function RekeyAll(f: Fernet, store: Store, user: int, oldKey: Key, newKey: Key, db: Tables): (r: (nat, Tables))
    ensures r.0 == RowsOfSucceeding(db, SWEEPS, map[])
    ensures SweptTables(f, store, user, oldKey, newKey, db, SWEEPS, map[], r.1)
  {
    var q := SweepLoop(f, store, user, oldKey, newKey, Progress(0, 0, [], db), SWEEPS, map[]);
    SweepsDistinct();
    SweepLoopSpec(f, store, user, oldKey, newKey, Progress(0, 0, [], db), SWEEPS, map[]);
    (q.updated, q.db)
  }

  /** The password change as evidently intended: the old session key is
      known on every path, each column is read under the old key and written
      under the new, and the sweeps and the salt change commit together, so
      any failure leaves the state as it was. */
  function MigrateOnPasswordChangeFixed(f: Fernet, kdf: Pbkdf2, store: Store, user: int, oldPassword: string, newPassword: string,
                                        newSalt: seq<Byte>, faults: map<string, string>, saltWrite: Option<string>, st: State): (r: (PasswordChange, State))
    ensures !r.0.Raised?
    ensures !r.0.Migrated? ==> r.1 == st
    ensures r.0.Migrated? ==>
      (DeriveKey(kdf, newPassword, newSalt).Ok? && r.1.salt == Some(newSalt)
       && r.1.sessionKey == Some(DeriveKey(kdf, newPassword, newSalt).value))
  {
    if st.salt.None? then (Failed("Migration failed: user not found"), st)
    else if st.salt.value == [] then (NothingToMigrate, st)
    else match DeriveBoth(kdf, oldPassword, newPassword, st.salt.value, newSalt)
      case Err(e) => (Failed("Migration failed: " + e), st)
      case Ok((oldKey, newKey)) =>
        var k := FirstFault(SWEEPS, faults);
        if k < |SWEEPS| then (Failed("Migration failed: " + faults[SWEEPS[k].name]), st)
        else if saltWrite.Some? then (Failed("Migration failed: " + saltWrite.value), st)
        else
          var (count, tables) := RekeyAll(f, store, user, oldKey, newKey, st.tables);
          (Migrated(count), State(tables, Some(newSalt), Some(newKey)))
  }

  /** After the intended password change every swept column reads under the
      new key as it read under the old one. */
  lemma FixedPasswordChangeKeepsPlaintext(f: Fernet, kdf: Pbkdf2, store: Store, user: int, oldPassword: string, newPassword: string,
                                          newSalt: seq<Byte>, st: State, s: nat, i: nat, c: string)
    requires Lawful(f)
    requires st.salt.Some? && st.salt.value != [] && oldPassword != "" && newPassword != "" && newSalt != []
    requires s < |SWEEPS| && SWEEPS[s].name in st.tables && i < |st.tables[SWEEPS[s].name]| && c in SWEEPS[s].columns
    requires !IsEncrypted(f, PlainView(f, Get(st.tables[SWEEPS[s].name][i], c), DeriveKey(kdf, oldPassword, st.salt.value).value))
    ensures var (outcome, after) := MigrateOnPasswordChangeFixed(f, kdf, store, user, oldPassword, newPassword, newSalt, map[], None, st);
      && outcome.Migrated?
      && SWEEPS[s].name in after.tables && i < |after.tables[SWEEPS[s].name]| && c in after.tables[SWEEPS[s].name][i]
      && PlainView(f, after.tables[SWEEPS[s].name][i][c], DeriveKey(kdf, newPassword, newSalt).value)
         == PlainView(f, Get(st.tables[SWEEPS[s].name][i], c), DeriveKey(kdf, oldPassword, st.salt.value).value)
  {
    var oldKey := DeriveKey(kdf, oldPassword, st.salt.value).value;
    var newKey := DeriveKey(kdf, newPassword, newSalt).value;
    DerivedKeyIsValid(f, kdf, newPassword, newSalt);
    assert FirstFault(SWEEPS, map[]) == 6;
    var m := SWEEPS[s].name;
    RekeyKeepsPlaintext(f, store, user, oldKey, newKey, m, c, Get(st.tables[m][i], c));
  }

  /** With the intended change a failed salt UPDATE, or an empty old
      password, leaves tables, salt and session as they were. */
  lemma FixedPasswordChangeIsAtomic(f: Fernet, kdf: Pbkdf2, store: Store, user: int, oldPassword: string, newPassword: string,
                                    newSalt: seq<Byte>, faults: map<string, string>, e: string, st: State)
    ensures MigrateOnPasswordChangeFixed(f, kdf, store, user, oldPassword, newPassword, newSalt, faults, Some(e), st).1 == st
    ensures MigrateOnPasswordChangeFixed(f, kdf, store, user, "", newPassword, newSalt, faults, None, st).1 == st
    ensures st.salt.Some? && st.salt.value != [] ==>
      MigrateOnPasswordChangeFixed(f, kdf, store, user, "", newPassword, newSalt, faults, None, st).0.Failed?
  {
  }
}
