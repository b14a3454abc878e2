/** Export and import of a user's data (`models/data_manager.py`). The
    backup is a JSON document; the import validates it, clears the user's
    rows, then inserts habits, completions, notes, birthdays and watchlist
    items phase by phase. The database is a store of tables, its constraint
    checks are a parameter, and the class attribute `_habit_id_mapping` is
    state that outlives one import (None until a first import sets it). */
module DataManager {
  import opened Common

  // ---------------------------------------------------------------------
  // JSON values as `json.loads` returns them, with Python's view of them.
  // ---------------------------------------------------------------------

  datatype Json = JNull | JBool(b: bool) | JInt(i: int) | JStr(s: string) | JList(items: seq<Json>)
                | JObj(fields: map<string, Json>)

  /** Python truthiness. */
  predicate PyTruthy(j: Json) {
    match j
    case JNull => false
    case JBool(b) => b
    case JInt(i) => i != 0
    case JStr(s) => s != ""
    case JList(l) => l != []
    case JObj(m) => m != map[]
  }

  /** Lists and dicts cannot be dictionary keys. */
  predicate Hashable(j: Json) {
    !j.JList? && !j.JObj?
  }

  /** The dictionary key a hashable value stands for: `True == 1` and
      `False == 0` as keys. */
  function PyKey(j: Json): Json {
    if j.JBool? then JInt(if j.b then 1 else 0) else j
  }

  /** What SQLite can bind as a parameter. */
  predicate Bindable(j: Json) {
    !j.JList? && !j.JObj?
  }

  /** `o.get(k, default)`. */
  function Field(o: map<string, Json>, k: string, default: Json): Json {
    if k in o then o[k] else default
  }

  /** `key in s` for strings: a substring test. */
  predicate IsSubstring(key: string, s: string)
    decreases |s|
  {
    (|key| <= |s| && s[..|key|] == key) || (s != [] && IsSubstring(key, s[1..]))
  }

  // ---------------------------------------------------------------------
  // _validate_import_data.
  // ---------------------------------------------------------------------

  const REQUIRED: seq<string> := ["export_info", "habits", "daily_notes", "birthdays", "watchlist"]

  /** A validation verdict, or the exception the checks raise. */
  datatype Check = Valid | Invalid(error: string) | Raises(exception: string)

  /** `key in data`: dicts test keys, lists elements, strings substrings;
      None for values `in` cannot search (a TypeError). */
  function Contains(data: Json, key: string): Option<bool> {
    match data
    case JObj(m) => Some(key in m)
    case JList(l) => Some(JStr(key) in l)
    case JStr(s) => Some(IsSubstring(key, s))
    case _ => None
  }

  /** Lines 153-155 over the keys still to check. */
  function FirstMissing(data: Json, keys: seq<string>): (r: Check)
    decreases |keys|
  {
    if keys == [] then Valid
    else match Contains(data, keys[0])
      case None => Raises("TypeError")
      case Some(false) => Invalid("Missing required section: " + keys[0])
      case Some(true) => FirstMissing(data, keys[1..])
  }

  /** `_validate_import_data`: the sections in order, then a truthy
      `export_info.version`; `.get` on anything but a dict raises. */
  function Validate(data: Json): (r: Check)
    ensures r == Valid ==> data.JObj?
  {
    match FirstMissing(data, REQUIRED)
    case Valid =>
      if !data.JObj? then Raises("AttributeError")
      else
        var info := data.fields["export_info"];
        if !info.JObj? then Raises("AttributeError")
        else if !PyTruthy(Field(info.fields, "version", JNull)) then Invalid("Missing export version information")
        else Valid
    case other => other
  }

  /** For a dict, the verdict names the first required section that is
      missing, in the order of line 151. */
  lemma FirstMissingReported(m: map<string, Json>, i: nat)
    requires i < |REQUIRED| && REQUIRED[i] !in m
    requires forall j :: 0 <= j < i ==> REQUIRED[j] in m
    ensures Validate(JObj(m)) == Invalid("Missing required section: " + REQUIRED[i])
  {
    FirstMissingFrom(m, REQUIRED, i);
  }

  lemma {:induction false} FirstMissingFrom(m: map<string, Json>, keys: seq<string>, i: nat)
    requires i < |keys| && keys[i] !in m
    requires forall j :: 0 <= j < i ==> keys[j] in m
    ensures FirstMissing(JObj(m), keys) == Invalid("Missing required section: " + keys[i])
    decreases i
  {
    if i > 0 {
      FirstMissingFrom(m, keys[1..], i - 1);
    }
  }

  lemma {:induction false} AllPresent(m: map<string, Json>, keys: seq<string>)
    requires forall j :: 0 <= j < |keys| ==> keys[j] in m
    ensures FirstMissing(JObj(m), keys) == Valid
    decreases |keys|
  {
    if keys != [] {
      AllPresent(m, keys[1..]);
    }
  }

  /** With every required section there, a dict is valid exactly when its
      `export_info` is a dict with a truthy version; `habit_completions` is
      not required. */
  lemma ValidWhenComplete(m: map<string, Json>)
    requires forall k :: k in REQUIRED ==> k in m
    ensures Validate(JObj(m)) == Valid <==>
      m["export_info"].JObj? && PyTruthy(Field(m["export_info"].fields, "version", JNull))
    ensures m["export_info"].JObj? && !PyTruthy(Field(m["export_info"].fields, "version", JNull)) ==>
      Validate(JObj(m)) == Invalid("Missing export version information")
  {
    assert forall j :: 0 <= j < |REQUIRED| ==> REQUIRED[j] in REQUIRED;
    AllPresent(m, REQUIRED);
  }

  // ---------------------------------------------------------------------
  // The store.
  // ---------------------------------------------------------------------

  datatype Table = HabitsT | CompletionsT | NotesT | BirthdaysT | WatchlistT

  /** A row: its id, its owner and its other columns. */
  datatype Rec = Rec(id: int, user: int, cols: map<string, Json>)

  datatype Db = Db(habits: seq<Rec>, completions: seq<Rec>, notes: seq<Rec>, birthdays: seq<Rec>,
                   watchlist: seq<Rec>, nextId: int)

  function Rows(db: Db, t: Table): seq<Rec> {
    match t
    case HabitsT => db.habits
    case CompletionsT => db.completions
    case NotesT => db.notes
    case BirthdaysT => db.birthdays
    case WatchlistT => db.watchlist
  }

  /** `INSERT`: the row gets the next id (`lastrowid`). */
  function Insert(db: Db, t: Table, user: int, cols: map<string, Json>): (r: Db)
    ensures Rows(r, t) == Rows(db, t) + [Rec(db.nextId, user, cols)]
    ensures forall u :: u != t ==> Rows(r, u) == Rows(db, u)
    ensures r.nextId == db.nextId + 1
  {
    var rec := Rec(db.nextId, user, cols);
    var next := db.nextId + 1;
    match t
    case HabitsT => db.(habits := db.habits + [rec], nextId := next)
    case CompletionsT => db.(completions := db.completions + [rec], nextId := next)
    case NotesT => db.(notes := db.notes + [rec], nextId := next)
    case BirthdaysT => db.(birthdays := db.birthdays + [rec], nextId := next)
    case WatchlistT => db.(watchlist := db.watchlist + [rec], nextId := next)
  }

  function OwnedBy(user: int): Rec -> bool {
    (r: Rec) => r.user == user
  }

  /** `_clear_user_data`: every table loses the user's rows. */
  function Clear(db: Db, user: int): (r: Db)
    ensures forall t, x :: x in Rows(r, t) <==> x in Rows(db, t) && x.user != user
  {
    var key := OwnedBy(user);
    Db(Select(db.habits, key, false), Select(db.completions, key, false), Select(db.notes, key, false),
       Select(db.birthdays, key, false), Select(db.watchlist, key, false), db.nextId)
  }

  /** The database's own checks (NOT NULL, CHECK, foreign keys) on a row
      about to be inserted: true where it refuses the row. */
  type Refusals = (Table, map<string, Json>) -> bool

  /** An insert succeeds when every value binds and the database accepts
      the row; otherwise it raises. */
  predicate Insertable(t: Table, cols: map<string, Json>, refuses: Refusals) {
    (forall k :: k in cols ==> Bindable(cols[k])) && !refuses(t, cols)
  }

  const DB_ERROR: string := "sqlite3.Error"

  /** The outcome of one import phase: rows inserted and the store after the
      phase, or the exception that ended it (its inserts are not committed). */
  datatype Phase = Done(count: nat, db: Db) | Raised(exception: string)

  /** `for x in section`: the elements of a list; iterating a string or a
      dict yields strings, whose `.get` raises, and numbers are not
      iterable. Called only on truthy sections. */
  function Iterate(section: Json): Result<seq<Json>> {
    match section
    case JList(l) => Ok(l)
    case JStr(_) => Err("AttributeError")
    case JObj(_) => Err("AttributeError")
    case _ => Err("TypeError")
  }

  // ---------------------------------------------------------------------
  // Notes, birthdays and the watchlist: keep, build, insert.
  // ---------------------------------------------------------------------

  /** The rows a phase inserts: the built columns of the items it keeps. */
  function Builds(items: seq<Json>, keep: map<string, Json> -> bool, build: map<string, Json> -> map<string, Json>)
    : seq<map<string, Json>>
    decreases |items|
  {
    if items == [] then []
    else (if items[0].JObj? && keep(items[0].fields) then [build(items[0].fields)] else [])
         + Builds(items[1..], keep, build)
  }

  /** An item that makes the loop raise. */
  predicate Breaks(j: Json, t: Table, keep: map<string, Json> -> bool, build: map<string, Json> -> map<string, Json>,
                   refuses: Refusals) {
    !j.JObj? || (keep(j.fields) && !Insertable(t, build(j.fields), refuses))
  }

  /** The loop of `_import_notes`, `_import_birthdays` and `_import_watchlist`. */
  function InsertEach(db: Db, t: Table, user: int, items: seq<Json>, keep: map<string, Json> -> bool,
                      build: map<string, Json> -> map<string, Json>, refuses: Refusals): Phase
    decreases |items|
  {
    if items == [] then Done(0, db)
    else if !items[0].JObj? then Raised("AttributeError")
    else
      var o := items[0].fields;
      if !keep(o) then InsertEach(db, t, user, items[1..], keep, build, refuses)
      else if !Insertable(t, build(o), refuses) then Raised(DB_ERROR)
      else match InsertEach(Insert(db, t, user, build(o)), t, user, items[1..], keep, build, refuses)
        case Done(n, d) => Done(n + 1, d)
        case Raised(e) => Raised(e)
  }

  function Cols(rs: seq<Rec>): seq<map<string, Json>> {
    seq(|rs|, i requires 0 <= i < |rs| => rs[i].cols)
  }

  /** `d` is `db` with `added` appended to table `t` for `user`, the other
      tables untouched. */
  predicate Appended(db: Db, d: Db, t: Table, user: int, added: seq<map<string, Json>>) {
    var before := Rows(db, t);
    |before| <= |Rows(d, t)| && Rows(d, t)[..|before|] == before
    && Cols(Rows(d, t)[|before|..]) == added
    && (forall i :: |before| <= i < |Rows(d, t)| ==> Rows(d, t)[i].user == user)
    && (forall u :: u != t ==> Rows(d, u) == Rows(db, u))
  }

  /** A phase raises exactly when some item breaks the loop; otherwise it
      appends exactly the kept items' rows, in order, and counts them. */
  lemma {:induction false} InsertEachSpec(db: Db, t: Table, user: int, items: seq<Json>,
                                          keep: map<string, Json> -> bool,
                                          build: map<string, Json> -> map<string, Json>, refuses: Refusals)
    ensures var r := InsertEach(db, t, user, items, keep, build, refuses);
      r.Raised? <==> exists i :: 0 <= i < |items| && Breaks(items[i], t, keep, build, refuses)
    ensures var r := InsertEach(db, t, user, items, keep, build, refuses);
      r.Done? ==> r.count == |Builds(items, keep, build)| && Appended(db, r.db, t, user, Builds(items, keep, build))
    decreases |items|
  {
    if items != [] {
      var rest := items[1..];
      assert forall i :: 1 <= i < |items| ==> items[i] == rest[i - 1];
      if items[0].JObj? {
        var o := items[0].fields;
        if !keep(o) {
          InsertEachSpec(db, t, user, rest, keep, build, refuses);
          assert Builds(items, keep, build) == [] + Builds(rest, keep, build);
        } else if Insertable(t, build(o), refuses) {
          var db1 := Insert(db, t, user, build(o));
          InsertEachSpec(db1, t, user, rest, keep, build, refuses);
          var r := InsertEach(db1, t, user, rest, keep, build, refuses);
          if r.Done? {
            AppendedStep(db, db1, r.db, t, user, build(o), Builds(rest, keep, build));
          }
        }
      }
    }
  }

  /** One insert followed by a run of appends is one longer run. */
  lemma AppendedStep(db: Db, db1: Db, d: Db, t: Table, user: int, c: map<string, Json>, more: seq<map<string, Json>>)
    requires db1 == Insert(db, t, user, c)
    requires Appended(db1, d, t, user, more)
    ensures Appended(db, d, t, user, [c] + more)
  {
    var before := Rows(db, t);
    var mid := Rows(db1, t);
    var after := Rows(d, t);
    assert after[..|before|] == mid[..|before|] == before;
    assert after[|before|..] == [after[|before|]] + after[|mid|..];
    assert after[|before|] == mid[|before|] == Rec(db.nextId, user, c);
  }

  /** `_import_notes` etc.: a falsy section imports nothing. */
  function ImportSection(db: Db, t: Table, user: int, section: Json, keep: map<string, Json> -> bool,
                         build: map<string, Json> -> map<string, Json>, refuses: Refusals): Phase
  {
    if !PyTruthy(section) then Done(0, db)
    else match Iterate(section)
      case Err(e) => Raised(e)
      case Ok(items) => InsertEach(db, t, user, items, keep, build, refuses)
  }

  /** Line 254: a note needs a date and content. */
  function NoteKeep(): map<string, Json> -> bool {
    (o: map<string, Json>) => PyTruthy(Field(o, "note_date", JNull)) && PyTruthy(Field(o, "content", JNull))
  }

  function NoteBuild(): map<string, Json> -> map<string, Json> {
    (o: map<string, Json>) => map["note_date" := Field(o, "note_date", JNull), "content" := Field(o, "content", JNull)]
  }

  /** Line 279: a birthday needs a name and a birth date. */
  function BirthdayKeep(): map<string, Json> -> bool {
    (o: map<string, Json>) => PyTruthy(Field(o, "name", JNull)) && PyTruthy(Field(o, "birth_date", JNull))
  }

  function BirthdayBuild(): map<string, Json> -> map<string, Json> {
    (o: map<string, Json>) => map["name" := Field(o, "name", JNull), "birth_date" := Field(o, "birth_date", JNull),
                                  "relationship_type" := Field(o, "relationship_type", JNull),
                                  "notes" := Field(o, "notes", JNull)]
  }

  /** Line 302: a watchlist item needs a title and a type. */
  function WatchKeep(): map<string, Json> -> bool {
    (o: map<string, Json>) => PyTruthy(Field(o, "title", JNull)) && PyTruthy(Field(o, "type", JNull))
  }

  /** Lines 309-314, with the defaults `want_to_watch`, `medium` and 0 where
      the key is absent. */
  function WatchBuild(): map<string, Json> -> map<string, Json> {
    (o: map<string, Json>) =>
      map["title" := Field(o, "title", JNull), "type" := Field(o, "type", JNull), "genre" := Field(o, "genre", JNull),
          "status" := Field(o, "status", JStr("want_to_watch")), "priority" := Field(o, "priority", JStr("medium")),
          "rating" := Field(o, "rating", JNull), "notes" := Field(o, "notes", JNull),
          "current_episode" := Field(o, "current_episode", JInt(0)),
          "total_episodes" := Field(o, "total_episodes", JNull), "release_year" := Field(o, "release_year", JNull),
          "date_added" := Field(o, "date_added", JNull), "date_completed" := Field(o, "date_completed", JNull)]
  }

  /** A watchlist item without status, priority or current episode is stored
      with `want_to_watch`, `medium` and 0; given values are kept. */
  lemma WatchDefaults(o: map<string, Json>)
    ensures var c := WatchBuild()(o);
      c["status"] == (if "status" in o then o["status"] else JStr("want_to_watch"))
      && c["priority"] == (if "priority" in o then o["priority"] else JStr("medium"))
      && c["current_episode"] == (if "current_episode" in o then o["current_episode"] else JInt(0))
      && c["title"] == o["title"] <== "title" in o
  {
  }

  // ---------------------------------------------------------------------
  // _import_habits.
  // ---------------------------------------------------------------------

  type IdMap = map<Json, int>

  /** The outcome of the habits phase: the count, the store and the mapping
      left in the class attribute. */
  datatype HabitPhase = HDone(count: nat, db: Db, mapping: Option<IdMap>) | HRaised(exception: string)

  function HabitName(o: map<string, Json>): Json {
    Field(o, "name", JStr(""))
  }

  function HabitCols(o: map<string, Json>): map<string, Json> {
    map["name" := HabitName(o), "description" := Field(o, "description", JNull),
        "points" := Field(o, "points", JInt(1))]
  }

  function HabitKeep(): map<string, Json> -> bool {
    (o: map<string, Json>) => PyTruthy(HabitName(o))
  }

  function HabitBuild(): map<string, Json> -> map<string, Json> {
    (o: map<string, Json>) => HabitCols(o)
  }

  /** The loop of lines 185-200; `acc` is `id_mapping` so far. */
  function InsertHabits(db: Db, user: int, items: seq<Json>, acc: IdMap, refuses: Refusals): (r: HabitPhase)
    ensures r.HDone? ==> r.mapping.Some?
    decreases |items|
  {
    if items == [] then HDone(0, db, Some(acc))
    else if !items[0].JObj? then HRaised("AttributeError")
    else
      var o := items[0].fields;
      var oldId := Field(o, "id", JNull);
      if !PyTruthy(HabitName(o)) then InsertHabits(db, user, items[1..], acc, refuses)
      else if !Insertable(HabitsT, HabitCols(o), refuses) then HRaised(DB_ERROR)
      else if PyTruthy(oldId) && !Hashable(oldId) then HRaised("TypeError")
      else
        var acc' := if PyTruthy(oldId) then acc[PyKey(oldId) := db.nextId] else acc;
        match InsertHabits(Insert(db, HabitsT, user, HabitCols(o)), user, items[1..], acc', refuses)
        case HDone(n, d, m) => HDone(n + 1, d, m)
        case HRaised(e) => HRaised(e)
  }

  /** Every id the mapping gives is either carried over from `acc` or the id
      of a habit row this run inserted for the user. */
  predicate MapsIntoNew(m: IdMap, acc: IdMap, db: Db, d: Db, user: int) {
    forall k :: k in m ==>
      ((k in acc && m[k] == acc[k])
       || exists i :: |db.habits| <= i < |d.habits| && d.habits[i].id == m[k] && d.habits[i].user == user)
  }

  /** The habits loop inserts exactly the items with a truthy name, in
      order, for the user; the mapping it leaves only adds ids of rows it
      inserted. */
  lemma {:induction false} InsertHabitsSpec(db: Db, user: int, items: seq<Json>, acc: IdMap, refuses: Refusals)
    ensures var r := InsertHabits(db, user, items, acc, refuses);
      r.HDone? ==>
        (r.count == |Builds(items, HabitKeep(), HabitBuild())|
         && Appended(db, r.db, HabitsT, user, Builds(items, HabitKeep(), HabitBuild()))
         && MapsIntoNew(r.mapping.value, acc, db, r.db, user))
    decreases |items|
  {
    var r := InsertHabits(db, user, items, acc, refuses);
    if items != [] && items[0].JObj? && r.HDone? {
      var o := items[0].fields;
      var oldId := Field(o, "id", JNull);
      var rest := items[1..];
      if !PyTruthy(HabitName(o)) {
        InsertHabitsSpec(db, user, rest, acc, refuses);
        assert Builds(items, HabitKeep(), HabitBuild()) == [] + Builds(rest, HabitKeep(), HabitBuild());
      } else {
        var acc' := if PyTruthy(oldId) then acc[PyKey(oldId) := db.nextId] else acc;
        var db1 := Insert(db, HabitsT, user, HabitCols(o));
        InsertHabitsSpec(db1, user, rest, acc', refuses);
        AppendedStep(db, db1, r.db, HabitsT, user, HabitCols(o), Builds(rest, HabitKeep(), HabitBuild()));
        var m := r.mapping.value;
        assert db1.habits[|db.habits|] == Rec(db.nextId, user, HabitCols(o));
        forall k | k in m
          ensures (k in acc && m[k] == acc[k])
            || exists i :: |db.habits| <= i < |r.db.habits| && r.db.habits[i].id == m[k] && r.db.habits[i].user == user
        {
          if k in acc' && m[k] == acc'[k] {
            if !(k in acc && m[k] == acc[k]) {
              assert r.db.habits[|db.habits|] == db1.habits[|db.habits|];
            }
          } else {
            var i :| |db1.habits| <= i < |r.db.habits| && r.db.habits[i].id == m[k] && r.db.habits[i].user == user;
          }
        }
      }
    }
  }

  /** A kept item with a truthy id is in the mapping the loop leaves, and
      nothing `acc` held is dropped. */
  lemma {:induction false} InsertHabitsMapsEveryId(db: Db, user: int, items: seq<Json>, acc: IdMap, refuses: Refusals)
    ensures var r := InsertHabits(db, user, items, acc, refuses);
      r.HDone? ==>
        ((forall k :: k in acc ==> k in r.mapping.value)
         && forall i :: (0 <= i < |items| && items[i].JObj? && PyTruthy(HabitName(items[i].fields))
                         && PyTruthy(Field(items[i].fields, "id", JNull)))
                        ==> PyKey(Field(items[i].fields, "id", JNull)) in r.mapping.value)
    decreases |items|
  {
    var r := InsertHabits(db, user, items, acc, refuses);
    if items != [] && items[0].JObj? && r.HDone? {
      var o := items[0].fields;
      var oldId := Field(o, "id", JNull);
      var rest := items[1..];
      assert forall i :: 1 <= i < |items| ==> items[i] == rest[i - 1];
      if !PyTruthy(HabitName(o)) {
        InsertHabitsMapsEveryId(db, user, rest, acc, refuses);
      } else {
        var acc' := if PyTruthy(oldId) then acc[PyKey(oldId) := db.nextId] else acc;
        assert forall k :: k in acc ==> k in acc';
        assert PyTruthy(oldId) ==> PyKey(oldId) in acc';
        InsertHabitsMapsEveryId(Insert(db, HabitsT, user, HabitCols(o)), user, rest, acc', refuses);
      }
    }
  }

  /** A habit item the loop inserts and records in the mapping: it has a
      truthy name and a truthy old id. */
  predicate MappedItem(j: Json) {
    j.JObj? && PyTruthy(HabitName(j.fields)) && PyTruthy(Field(j.fields, "id", JNull))
  }

  /** The mapping key of an item's old id. */
  function OldKey(j: Json): Json
    requires j.JObj?
  {
    PyKey(Field(j.fields, "id", JNull))
  }

  /** No later mapped item reuses the old id of item `i`, so item `i`
      writes the last entry for that key. */
  predicate LastWithKey(items: seq<Json>, i: int)
    requires 0 <= i < |items| && items[i].JObj?
  {
    forall j :: i < j < |items| && MappedItem(items[j]) ==> OldKey(items[j]) != OldKey(items[i])
  }

  /** Number of habit rows inserted for the items before position `i`. */
  function KeptBefore(items: seq<Json>, i: int): nat
    requires 0 <= i <= |items|
  {
    |Builds(items[..i], HabitKeep(), HabitBuild())|
  }

  lemma KeptBeforeCons(items: seq<Json>, i: int)
    requires 1 <= i <= |items| && items[0].JObj?
    ensures KeptBefore(items, i) == (if HabitKeep()(items[0].fields) then 1 else 0) + KeptBefore(items[1..], i - 1)
  {
    assert items[..i][1..] == items[1..][..i - 1];
  }

  /** Keys that no mapped item touches keep the value `acc` gave them. */
  lemma {:induction false} InsertHabitsKeepsOtherKeys(db: Db, user: int, items: seq<Json>, acc: IdMap,
                                                       refuses: Refusals, k: Json)
    requires k in acc
    requires forall j :: 0 <= j < |items| && MappedItem(items[j]) ==> OldKey(items[j]) != k
    ensures var r := InsertHabits(db, user, items, acc, refuses);
      r.HDone? ==> k in r.mapping.value && r.mapping.value[k] == acc[k]
    decreases |items|
  {
    var r := InsertHabits(db, user, items, acc, refuses);
    if items != [] && items[0].JObj? && r.HDone? {
      var o := items[0].fields;
      var oldId := Field(o, "id", JNull);
      var rest := items[1..];
      assert forall j :: 0 <= j < |rest| ==> rest[j] == items[j + 1];
      if !PyTruthy(HabitName(o)) {
        InsertHabitsKeepsOtherKeys(db, user, rest, acc, refuses, k);
      } else {
        var acc' := if PyTruthy(oldId) then acc[PyKey(oldId) := db.nextId] else acc;
        assert PyTruthy(oldId) ==> MappedItem(items[0]) && PyKey(oldId) != k;
        InsertHabitsKeepsOtherKeys(Insert(db, HabitsT, user, HabitCols(o)), user, rest, acc', refuses, k);
      }
    }
  }

  /** The mapping sends the old id of a mapped item, when no later item
      reuses it, to the id of the row inserted for that item: the first
      free id plus the number of rows inserted before it. */
  lemma {:induction false} InsertHabitsMapsOwnId(db: Db, user: int, items: seq<Json>, acc: IdMap, refuses: Refusals)
    ensures var r := InsertHabits(db, user, items, acc, refuses);
      r.HDone? ==> forall i :: 0 <= i < |items| && MappedItem(items[i]) && LastWithKey(items, i) ==>
        OldKey(items[i]) in r.mapping.value && r.mapping.value[OldKey(items[i])] == db.nextId + KeptBefore(items, i)
    decreases |items|
  {
    var r := InsertHabits(db, user, items, acc, refuses);
    if items != [] && items[0].JObj? && r.HDone? {
      var o := items[0].fields;
      var oldId := Field(o, "id", JNull);
      var rest := items[1..];
      assert forall j :: 0 <= j < |rest| ==> rest[j] == items[j + 1];
      if !PyTruthy(HabitName(o)) {
        InsertHabitsMapsOwnId(db, user, rest, acc, refuses);
        forall i | 0 <= i < |items| && MappedItem(items[i]) && LastWithKey(items, i)
          ensures OldKey(items[i]) in r.mapping.value && r.mapping.value[OldKey(items[i])] == db.nextId + KeptBefore(items, i)
        {
          KeptBeforeCons(items, i);
          assert LastWithKey(rest, i - 1);
        }
      } else {
        var acc' := if PyTruthy(oldId) then acc[PyKey(oldId) := db.nextId] else acc;
        var db1 := Insert(db, HabitsT, user, HabitCols(o));
        InsertHabitsMapsOwnId(db1, user, rest, acc', refuses);
        forall i | 0 <= i < |items| && MappedItem(items[i]) && LastWithKey(items, i)
          ensures OldKey(items[i]) in r.mapping.value && r.mapping.value[OldKey(items[i])] == db.nextId + KeptBefore(items, i)
        {
          if i == 0 {
            assert KeptBefore(items, 0) == 0 by { assert items[..0] == []; }
            InsertHabitsKeepsOtherKeys(db1, user, rest, acc', refuses, OldKey(items[0]));
          } else {
            KeptBeforeCons(items, i);
            assert LastWithKey(rest, i - 1);
          }
        }
      }
    }
  }

  /** The habit rows the loop inserts take consecutive ids from the first
      free one. */
  lemma {:induction false} InsertHabitsIds(db: Db, user: int, items: seq<Json>, acc: IdMap, refuses: Refusals)
    ensures var r := InsertHabits(db, user, items, acc, refuses);
      r.HDone? ==> (|db.habits| <= |r.db.habits|
        && forall n :: |db.habits| <= n < |r.db.habits| ==> r.db.habits[n].id == db.nextId + (n - |db.habits|))
    decreases |items|
  {
    var r := InsertHabits(db, user, items, acc, refuses);
    if items != [] && items[0].JObj? && r.HDone? {
      var o := items[0].fields;
      var oldId := Field(o, "id", JNull);
      var rest := items[1..];
      if !PyTruthy(HabitName(o)) {
        InsertHabitsIds(db, user, rest, acc, refuses);
      } else {
        var acc' := if PyTruthy(oldId) then acc[PyKey(oldId) := db.nextId] else acc;
        var db1 := Insert(db, HabitsT, user, HabitCols(o));
        InsertHabitsIds(db1, user, rest, acc', refuses);
        InsertHabitsSpec(db1, user, rest, acc', refuses);
        assert r.db.habits[..|db1.habits|] == db1.habits;
        forall n | |db.habits| <= n < |r.db.habits|
          ensures r.db.habits[n].id == db.nextId + (n - |db.habits|)
        {
          if n == |db.habits| {
            assert r.db.habits[n] == db1.habits[n];
          }
        }
      }
    }
  }

  /** Item `i`, when kept, is built into the rows at position
      `KeptBefore(items, i)` of the kept list. */
  lemma {:induction false} BuildsAt(items: seq<Json>, i: int)
    requires 0 <= i < |items| && items[i].JObj? && HabitKeep()(items[i].fields)
    ensures KeptBefore(items, i) < |Builds(items, HabitKeep(), HabitBuild())|
    ensures Builds(items, HabitKeep(), HabitBuild())[KeptBefore(items, i)] == HabitCols(items[i].fields)
    decreases i
  {
    var rest := items[1..];
    var head := if items[0].JObj? && HabitKeep()(items[0].fields) then [HabitBuild()(items[0].fields)] else [];
    assert Builds(items, HabitKeep(), HabitBuild()) == head + Builds(rest, HabitKeep(), HabitBuild());
    if i == 0 {
      assert items[..0] == [];
    } else {
      assert rest[i - 1] == items[i];
      BuildsAt(rest, i - 1);
      assert items[..i] == [items[0]] + rest[..i - 1];
      assert Builds(items[..i], HabitKeep(), HabitBuild()) == head + Builds(rest[..i - 1], HabitKeep(), HabitBuild()) by {
        assert (items[..i])[1..] == rest[..i - 1];
      }
    }
  }

  /** The id remapping the completions phase relies on: a mapped item's old
      id, when no later item reuses it, leads to the habit row inserted for
      that very item, which holds its name, description and points. */
  lemma InsertHabitsPairsIds(db: Db, user: int, items: seq<Json>, refuses: Refusals, i: int)
    requires 0 <= i < |items| && MappedItem(items[i]) && LastWithKey(items, i)
    ensures var r := InsertHabits(db, user, items, map[], refuses);
      r.HDone? ==>
        var row := |db.habits| + KeptBefore(items, i);
        && OldKey(items[i]) in r.mapping.value
        && row < |r.db.habits|
        && r.db.habits[row].id == r.mapping.value[OldKey(items[i])]
        && r.db.habits[row].user == user
        && r.db.habits[row].cols == HabitCols(items[i].fields)
  {
    var r := InsertHabits(db, user, items, map[], refuses);
    if r.HDone? {
      InsertHabitsMapsOwnId(db, user, items, map[], refuses);
      InsertHabitsIds(db, user, items, map[], refuses);
      InsertHabitsSpec(db, user, items, map[], refuses);
      BuildsAt(items, i);
      var n := KeptBefore(items, i);
      var added := r.db.habits[|db.habits|..];
      assert Cols(added) == Builds(items, HabitKeep(), HabitBuild());
      assert added[n] == r.db.habits[|db.habits| + n];
    }
  }

  /** `_import_habits` as written: a falsy section returns before line 205,
      so the mapping of an earlier import stays in place. */
  function ImportHabits(db: Db, user: int, section: Json, prior: Option<IdMap>, refuses: Refusals): HabitPhase {
    if !PyTruthy(section) then HDone(0, db, prior)
    else match Iterate(section)
      case Err(e) => HRaised(e)
      case Ok(items) => InsertHabits(db, user, items, map[], refuses)
  }

  /** `_import_habits` as intended: every import starts from an empty
      mapping. */
  function ImportHabitsFixed(db: Db, user: int, section: Json, refuses: Refusals): HabitPhase {
    if !PyTruthy(section) then HDone(0, db, Some(map[]))
    else match Iterate(section)
      case Err(e) => HRaised(e)
      case Ok(items) => InsertHabits(db, user, items, map[], refuses)
  }

  // ---------------------------------------------------------------------
  // _import_habit_completions.
  // ---------------------------------------------------------------------

  /** A completion row's `(habit_id, completion_date)`. */
  function Pair(r: Rec): (Json, Json) {
    (Field(r.cols, "habit_id", JNull), Field(r.cols, "completion_date", JNull))
  }

  /** The lookup of lines 226-229, over the whole table. */
  predicate HasCompletion(rs: seq<Rec>, habit: int, date: Json) {
    exists r :: r in rs && Pair(r) == (JInt(habit), date)
  }

  function CompletionCols(habit: int, date: Json): map<string, Json> {
    map["habit_id" := JInt(habit), "completion_date" := date]
  }

  /** The loop of lines 218-236. */
  function InsertCompletions(db: Db, user: int, items: seq<Json>, mapping: IdMap, refuses: Refusals): Phase
    decreases |items|
  {
    if items == [] then Done(0, db)
    else if !items[0].JObj? then Raised("AttributeError")
    else
      var o := items[0].fields;
      var oldId := Field(o, "habit_id", JNull);
      var date := Field(o, "completion_date", JNull);
      if !Hashable(oldId) then Raised("TypeError")
      else if !(PyKey(oldId) in mapping && PyTruthy(date)) then InsertCompletions(db, user, items[1..], mapping, refuses)
      else
        var habit := mapping[PyKey(oldId)];
        if !Bindable(date) then Raised(DB_ERROR)
        else if HasCompletion(db.completions, habit, date) then InsertCompletions(db, user, items[1..], mapping, refuses)
        else if !Insertable(CompletionsT, CompletionCols(habit, date), refuses) then Raised(DB_ERROR)
        else match InsertCompletions(Insert(db, CompletionsT, user, CompletionCols(habit, date)), user, items[1..],
                                     mapping, refuses)
          case Done(n, d) => Done(n + 1, d)
          case Raised(e) => Raised(e)
  }

  /** No two completion rows share habit and date (`UNIQUE(habit_id,
      completion_date)`). */
  predicate UniquePairs(rs: seq<Rec>) {
    forall i, j :: 0 <= i < j < |rs| ==> Pair(rs[i]) != Pair(rs[j])
  }

  /** A completion row the loop inserts: the user's, for a habit id the
      mapping gives, on a truthy date. */
  ghost predicate MappedCompletion(r: Rec, user: int, mapping: IdMap) {
    r.user == user && exists k, date :: k in mapping && PyTruthy(date) && r.cols == CompletionCols(mapping[k], date)
  }

  /** The completions loop appends one row per insert and counts them; each
      new row is a mapped completion, and no pair already there is
      duplicated. */
  lemma {:induction false} InsertCompletionsSpec(db: Db, user: int, items: seq<Json>, mapping: IdMap, refuses: Refusals)
    ensures var r := InsertCompletions(db, user, items, mapping, refuses);
      r.Done? ==>
        (|db.completions| + r.count == |r.db.completions| && r.db.completions[..|db.completions|] == db.completions
         && (forall u :: u != CompletionsT ==> Rows(r.db, u) == Rows(db, u))
         && (forall i :: |db.completions| <= i < |r.db.completions| ==> MappedCompletion(r.db.completions[i], user, mapping))
         && (UniquePairs(db.completions) ==> UniquePairs(r.db.completions)))
    decreases |items|
  {
    var r := InsertCompletions(db, user, items, mapping, refuses);
    if items != [] && items[0].JObj? && r.Done? {
      var o := items[0].fields;
      var oldId := Field(o, "habit_id", JNull);
      var date := Field(o, "completion_date", JNull);
      var rest := items[1..];
      if !(PyKey(oldId) in mapping && PyTruthy(date)) || HasCompletion(db.completions, mapping[PyKey(oldId)], date) {
        InsertCompletionsSpec(db, user, rest, mapping, refuses);
        assert r == InsertCompletions(db, user, rest, mapping, refuses);
      } else {
        var habit := mapping[PyKey(oldId)];
        var x := Rec(db.nextId, user, CompletionCols(habit, date));
        var db1 := Insert(db, CompletionsT, user, CompletionCols(habit, date));
        InsertCompletionsSpec(db1, user, rest, mapping, refuses);
        var r1 := InsertCompletions(db1, user, rest, mapping, refuses);
        assert r1.Done? && r.db == r1.db && r.count == r1.count + 1;
        assert db1.completions == db.completions + [x];
        assert r.db.completions[..|db.completions|] == r.db.completions[..|db1.completions|][..|db.completions|];
        assert MappedCompletion(x, user, mapping);
        assert r.db.completions[|db.completions|] == db1.completions[|db.completions|] == x;
        if UniquePairs(db.completions) {
          UniquePairsSnoc(db.completions, x, habit, date);
        }
      }
    }
  }

  lemma UniquePairsSnoc(rs: seq<Rec>, x: Rec, habit: int, date: Json)
    requires UniquePairs(rs) && !HasCompletion(rs, habit, date) && Pair(x) == (JInt(habit), date)
    ensures UniquePairs(rs + [x])
  {
    var s := rs + [x];
    forall i, j | 0 <= i < j < |s| ensures Pair(s[i]) != Pair(s[j]) {
      if j < |rs| {
        assert s[i] == rs[i] && s[j] == rs[j];
      } else {
        assert s[i] in rs;
      }
    }
  }

  /** `_import_habit_completions`: nothing without a section or before any
      mapping exists. */
  function ImportCompletions(db: Db, user: int, section: Json, mapping: Option<IdMap>, refuses: Refusals): Phase {
    if !PyTruthy(section) || mapping.None? then Done(0, db)
    else match Iterate(section)
      case Err(e) => Raised(e)
      case Ok(items) => InsertCompletions(db, user, items, mapping.value, refuses)
  }

  // ---------------------------------------------------------------------
  // import_full.
  // ---------------------------------------------------------------------

  /** `{"success": True, "message": ...}`, `{"success": False, "error": ...}`
      for invalid data, or the exception caught by line 145 (whose text
      `str(e)` is not modelled). */
  datatype Outcome = Success(message: string) | Failure(error: string) | Caught(exception: string)

  function Imported(what: string, n: nat): string {
    what + ": " + NatToString(n) + " imported"
  }

  /** The state `import_full` leaves: the outcome, the store and the class
      attribute. */
  datatype Run = Run(outcome: Outcome, db: Db, mapping: Option<IdMap>)

  /** Lines 131-143: notes, birthdays and the watchlist after habits and
      completions. */
  function ImportRest(db: Db, user: int, sections: map<string, Json>, habitsMsg: string, completionsMsg: string,
                      mapping: Option<IdMap>, refuses: Refusals): Run
  {
    match ImportSection(db, NotesT, user, Field(sections, "daily_notes", JList([])), NoteKeep(), NoteBuild(), refuses)
    case Raised(e) => Run(Caught(e), db, mapping)
    case Done(nn, d3) =>
      match ImportSection(d3, BirthdaysT, user, Field(sections, "birthdays", JList([])), BirthdayKeep(), BirthdayBuild(), refuses)
      case Raised(e) => Run(Caught(e), d3, mapping)
      case Done(nb, d4) =>
        match ImportSection(d4, WatchlistT, user, Field(sections, "watchlist", JList([])), WatchKeep(), WatchBuild(), refuses)
        case Raised(e) => Run(Caught(e), d4, mapping)
        case Done(nw, d5) =>
          Run(Success(habitsMsg + " | " + completionsMsg + " | " + Imported("Notes", nn) + " | " + Imported("Birthdays", nb)
                      + " | " + Imported("Watchlist", nw)), d5, mapping)
  }

  /** `import_full` as written. A phase that raises ends the import: the
      clearing and the phases before it stay committed, its own inserts are
      dropped. */
  function ImportFull(db: Db, prior: Option<IdMap>, user: int, data: Json, refuses: Refusals): (r: Run)
    ensures Validate(data) != Valid ==> r.db == db && r.mapping == prior && !r.outcome.Success?
  {
    match Validate(data)
    case Invalid(e) => Run(Failure(e), db, prior)
    case Raises(x) => Run(Caught(x), db, prior)
    case Valid =>
      var m := data.fields;
      var d1 := Clear(db, user);
      match ImportHabits(d1, user, Field(m, "habits", JList([])), prior, refuses)
      case HRaised(e) => Run(Caught(e), d1, prior)
      case HDone(nh, d2, mapping) =>
        match ImportCompletions(d2, user, Field(m, "habit_completions", JList([])), mapping, refuses)
        case Raised(e) => Run(Caught(e), d2, mapping)
        case Done(nc, d3) =>
          ImportRest(d3, user, m, Imported("Habits", nh), Imported("Completions", nc), mapping, refuses)
  }

  /** `import_full` with the corrected habits phase. */
  function ImportFullFixed(db: Db, prior: Option<IdMap>, user: int, data: Json, refuses: Refusals): (r: Run)
    ensures Validate(data) != Valid ==> r.db == db && r.mapping == prior && !r.outcome.Success?
  {
    match Validate(data)
    case Invalid(e) => Run(Failure(e), db, prior)
    case Raises(x) => Run(Caught(x), db, prior)
    case Valid =>
      var m := data.fields;
      var d1 := Clear(db, user);
      match ImportHabitsFixed(d1, user, Field(m, "habits", JList([])), refuses)
      case HRaised(e) => Run(Caught(e), d1, prior)
      case HDone(nh, d2, mapping) =>
        match ImportCompletions(d2, user, Field(m, "habit_completions", JList([])), mapping, refuses)
        case Raised(e) => Run(Caught(e), d2, mapping)
        case Done(nc, d3) =>
          ImportRest(d3, user, m, Imported("Habits", nh), Imported("Completions", nc), mapping, refuses)
  }

  // ---------------------------------------------------------------------
  // The stale mapping.
  // ---------------------------------------------------------------------

  function NoRefusals(): Refusals {
    (t: Table, c: map<string, Json>) => false
  }

  /** A backup with sections but no habits and one completion for oldId habit 1. */
  function OrphanBackup(): Json {
    JObj(map["export_info" := JObj(map["version" := JStr("1.0")]), "habits" := JList([]),
             "habit_completions" := JList([OrphanItem()]),
             "daily_notes" := JList([]), "birthdays" := JList([]), "watchlist" := JList([])])
  }

  /** As written, an import whose backup has no habits reuses the mapping an
      earlier import left (here oldId habit 1 to row 7): the completion is
      inserted for habit row 7, although the user has no habit at all. */
  lemma StaleMappingInsertsOrphan()
    ensures var db := Db([], [], [], [], [], 100);
      var r := ImportFull(db, Some(map[JInt(1) := 7]), 5, OrphanBackup(), NoRefusals());
      r.outcome.Success? && |r.db.completions| == 1 && Pair(r.db.completions[0]).0 == JInt(7)
      && r.db.habits == []
  {
    var data := OrphanBackup();
    var m := data.fields;
    var db := Db([], [], [], [], [], 100);
    var mapping := map[JInt(1) := 7];
    OrphanBackupValid();
    assert Clear(db, 5) == db;
    assert ImportHabits(db, 5, Field(m, "habits", JList([])), Some(mapping), NoRefusals()) == HDone(0, db, Some(mapping));
    var d := OrphanCompletionInserted();
    assert Field(m, "habit_completions", JList([])) == JList([OrphanItem()]);
    assert ImportCompletions(db, 5, JList([OrphanItem()]), Some(mapping), NoRefusals()) == Done(1, d);
    OrphanRestEmpty(d, Imported("Habits", 0), Imported("Completions", 1), Some(mapping));
    assert ImportFull(db, Some(mapping), 5, data, NoRefusals())
      == ImportRest(d, 5, m, Imported("Habits", 0), Imported("Completions", 1), Some(mapping), NoRefusals());
  }

  function OrphanItem(): Json {
    JObj(map["habit_id" := JInt(1), "completion_date" := JStr("2024-01-01")])
  }

  lemma OrphanBackupValid()
    ensures Validate(OrphanBackup()) == Valid
  {
    AllPresent(OrphanBackup().fields, REQUIRED);
  }

  /** The stale mapping sends the completion to habit row 7. */
  lemma OrphanCompletionInserted() returns (d: Db)
    ensures InsertCompletions(Db([], [], [], [], [], 100), 5, [OrphanItem()], map[JInt(1) := 7], NoRefusals()) == Done(1, d)
    ensures d.habits == [] && |d.completions| == 1 && Pair(d.completions[0]).0 == JInt(7)
  {
    var db := Db([], [], [], [], [], 100);
    var item := OrphanItem();
    assert !HasCompletion([], 7, JStr("2024-01-01"));
    var c := CompletionCols(7, JStr("2024-01-01"));
    assert Insertable(CompletionsT, c, NoRefusals());
    d := Insert(db, CompletionsT, 5, c);
    assert InsertCompletions(db, 5, [item], map[JInt(1) := 7], NoRefusals()) == Done(1, d) by {
      assert [item][1..] == [];
    }
    assert Rows(d, CompletionsT) == [Rec(100, 5, c)];
    assert Rows(d, HabitsT) == [];
  }

  /** The backup's other sections are empty lists, so the rest of the import
      inserts nothing and succeeds. */
  lemma OrphanRestEmpty(d: Db, habitsMsg: string, completionsMsg: string, mapping: Option<IdMap>)
    ensures var r := ImportRest(d, 5, OrphanBackup().fields, habitsMsg, completionsMsg, mapping, NoRefusals());
      r.outcome.Success? && r.db == d
  {
    var m := OrphanBackup().fields;
    assert Field(m, "daily_notes", JList([])) == JList([]);
    assert Field(m, "birthdays", JList([])) == JList([]);
    assert Field(m, "watchlist", JList([])) == JList([]);
  }

  /** The corrected import: every completion it inserts refers to a habit row
      the same import inserted for the same user. */
  lemma FixedCompletionsReferToImportedHabits(db: Db, prior: Option<IdMap>, user: int, data: Json, refuses: Refusals)
    requires Validate(data) == Valid
    ensures var r := ImportFullFixed(db, prior, user, data, refuses);
      var d1 := Clear(db, user);
      r.outcome.Success? ==>
        forall i :: |d1.completions| <= i < |r.db.completions| ==>
          r.db.completions[i].user == user
          && exists j :: |d1.habits| <= j < |r.db.habits| && r.db.habits[j].user == user
               && Pair(r.db.completions[i]).0 == JInt(r.db.habits[j].id)
  {
    var r := ImportFullFixed(db, prior, user, data, refuses);
    var m := data.fields;
    var d1 := Clear(db, user);
    var hp := ImportHabitsFixed(d1, user, Field(m, "habits", JList([])), refuses);
    if r.outcome.Success? {
      assert hp.HDone?;
      FixedHabitsMapIntoNew(d1, user, Field(m, "habits", JList([])), refuses);
      var cp := ImportCompletions(hp.db, user, Field(m, "habit_completions", JList([])), hp.mapping, refuses);
      assert cp.Done?;
      CompletionsAreMapped(hp.db, user, Field(m, "habit_completions", JList([])), hp.mapping.value, refuses);
      RestKeepsHabitsAndCompletions(cp.db, user, m, Imported("Habits", hp.count), Imported("Completions", cp.count),
                                    hp.mapping, refuses);
      assert r == ImportRest(cp.db, user, m, Imported("Habits", hp.count), Imported("Completions", cp.count),
                             hp.mapping, refuses);
      ReferencesFollow(d1, hp.db, cp.db, r.db, user, hp.mapping.value);
    }
  }

  /** The chain of the corrected import: mapped completions whose mapping
      points into new habit rows refer to new habit rows. */
  lemma ReferencesFollow(d1: Db, d2: Db, d3: Db, d: Db, user: int, mapping: IdMap)
    requires MapsIntoNew(mapping, map[], d1, d2, user)
    requires d3.habits == d2.habits && d.habits == d3.habits && d.completions == d3.completions
    requires |d2.completions| <= |d3.completions| && |d1.completions| == |d2.completions|
    requires forall i :: |d2.completions| <= i < |d3.completions| ==> MappedCompletion(d3.completions[i], user, mapping)
    ensures forall i :: |d1.completions| <= i < |d.completions| ==>
          d.completions[i].user == user
          && exists j :: |d1.habits| <= j < |d.habits| && d.habits[j].user == user
               && Pair(d.completions[i]).0 == JInt(d.habits[j].id)
  {
    forall i | |d1.completions| <= i < |d.completions|
      ensures d.completions[i].user == user
          && exists j :: |d1.habits| <= j < |d.habits| && d.habits[j].user == user
               && Pair(d.completions[i]).0 == JInt(d.habits[j].id)
    {
      assert MappedCompletion(d3.completions[i], user, mapping);
      var k, date :| k in mapping && PyTruthy(date) && d3.completions[i].cols == CompletionCols(mapping[k], date);
      var j :| |d1.habits| <= j < |d2.habits| && d2.habits[j].id == mapping[k] && d2.habits[j].user == user;
    }
  }

  /** The corrected habits phase leaves a mapping into the rows it inserted. */
  lemma FixedHabitsMapIntoNew(d1: Db, user: int, section: Json, refuses: Refusals)
    ensures var hp := ImportHabitsFixed(d1, user, section, refuses);
      hp.HDone? ==>
        (hp.mapping.Some? && MapsIntoNew(hp.mapping.value, map[], d1, hp.db, user)
         && hp.db.completions == d1.completions)
  {
    if PyTruthy(section) && Iterate(section).Ok? {
      InsertHabitsSpec(d1, user, Iterate(section).value, map[], refuses);
      var hp := ImportHabitsFixed(d1, user, section, refuses);
      if hp.HDone? {
        assert Rows(hp.db, CompletionsT) == Rows(d1, CompletionsT);
      }
    }
  }

  /** The completions phase keeps habits and appends only mapped rows. */
  lemma CompletionsAreMapped(d2: Db, user: int, section: Json, mapping: IdMap, refuses: Refusals)
    ensures var cp := ImportCompletions(d2, user, section, Some(mapping), refuses);
      cp.Done? ==>
        (cp.db.habits == d2.habits && |d2.completions| <= |cp.db.completions|
         && forall i :: |d2.completions| <= i < |cp.db.completions| ==> MappedCompletion(cp.db.completions[i], user, mapping))
  {
    if PyTruthy(section) && Iterate(section).Ok? {
      InsertCompletionsSpec(d2, user, Iterate(section).value, mapping, refuses);
      var cp := ImportCompletions(d2, user, section, Some(mapping), refuses);
      if cp.Done? {
        assert Rows(cp.db, HabitsT) == Rows(d2, HabitsT);
      }
    }
  }

  /** A section of notes, birthdays or watchlist items touches neither
      habits nor completions. */
  lemma SectionKeepsHabits(db: Db, t: Table, user: int, section: Json, keep: map<string, Json> -> bool,
                           build: map<string, Json> -> map<string, Json>, refuses: Refusals)
    requires t != HabitsT && t != CompletionsT
    ensures var p := ImportSection(db, t, user, section, keep, build, refuses);
      p.Done? ==> p.db.habits == db.habits && p.db.completions == db.completions
  {
    if PyTruthy(section) && Iterate(section).Ok? {
      InsertEachSpec(db, t, user, Iterate(section).value, keep, build, refuses);
      var p := ImportSection(db, t, user, section, keep, build, refuses);
      if p.Done? {
        assert Rows(p.db, HabitsT) == Rows(db, HabitsT) && Rows(p.db, CompletionsT) == Rows(db, CompletionsT);
      }
    }
  }

  /** The last three phases touch neither habits nor completions. */
  lemma RestKeepsHabitsAndCompletions(db: Db, user: int, sections: map<string, Json>, habitsMsg: string,
                                      completionsMsg: string, mapping: Option<IdMap>, refuses: Refusals)
    ensures var r := ImportRest(db, user, sections, habitsMsg, completionsMsg, mapping, refuses);
      r.outcome.Success? ==> r.db.habits == db.habits && r.db.completions == db.completions
  {
    var notes := Field(sections, "daily_notes", JList([]));
    SectionKeepsHabits(db, NotesT, user, notes, NoteKeep(), NoteBuild(), refuses);
    var p3 := ImportSection(db, NotesT, user, notes, NoteKeep(), NoteBuild(), refuses);
    if p3.Done? {
      var bs := Field(sections, "birthdays", JList([]));
      SectionKeepsHabits(p3.db, BirthdaysT, user, bs, BirthdayKeep(), BirthdayBuild(), refuses);
      var p4 := ImportSection(p3.db, BirthdaysT, user, bs, BirthdayKeep(), BirthdayBuild(), refuses);
      if p4.Done? {
        var ws := Field(sections, "watchlist", JList([]));
        SectionKeepsHabits(p4.db, WatchlistT, user, ws, WatchKeep(), WatchBuild(), refuses);
      }
    }
  }

  // ---------------------------------------------------------------------
  // export_full.
  // ---------------------------------------------------------------------

  function RowsJson(rs: seq<Rec>, withId: bool): seq<Json> {
    seq(|rs|, i requires 0 <= i < |rs| => JObj(if withId then rs[i].cols["id" := JInt(rs[i].id)] else rs[i].cols))
  }

  function OwnRows(rs: seq<Rec>, user: int): seq<Rec> {
    Select(rs, OwnedBy(user), true)
  }

  /** The ids of the user's habits. */
  function HabitIds(db: Db, user: int): set<int> {
    set r | r in db.habits && r.user == user :: r.id
  }

  /** The completions joined to the user's habits (line 55-56). */
  function HabitIdOf(): Rec -> Json {
    (r: Rec) => Field(r.cols, "habit_id", JNull)
  }

  function JoinedCompletions(db: Db, user: int): seq<Rec> {
    Select(db.completions, (r: Rec) => HabitIdOf()(r).JInt? && HabitIdOf()(r).i in HabitIds(db, user), true)
  }

  /** `export_full`: the export information and the user's rows of each
      table (their order of lines 43-98 is the store's here). */
  function ExportFull(db: Db, user: int, username: string, timestamp: string): (r: Json)
    ensures r.JObj? && forall k :: k in REQUIRED ==> k in r.fields
  {
    JObj(map["export_info" := JObj(map["version" := JStr("1.0"), "timestamp" := JStr(timestamp),
                                       "username" := JStr(username), "app" := JStr("HabitStack")]),
             "habits" := JList(RowsJson(OwnRows(db.habits, user), true)),
             "habit_completions" := JList(RowsJson(JoinedCompletions(db, user), false)),
             "daily_notes" := JList(RowsJson(OwnRows(db.notes, user), false)),
             "birthdays" := JList(RowsJson(OwnRows(db.birthdays, user), false)),
             "watchlist" := JList(RowsJson(OwnRows(db.watchlist, user), false))])
  }

  /** Every export passes the import's validation. */
  lemma ExportValidates(db: Db, user: int, username: string, timestamp: string)
    ensures Validate(ExportFull(db, user, username, timestamp)) == Valid
  {
    var e := ExportFull(db, user, username, timestamp);
    AllPresent(e.fields, REQUIRED);
  }
}
