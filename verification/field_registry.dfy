/** The catalogue of encryptable fields (`utils/field_registry.py`): an
    append-only list whose identity is the pair (module, field name), the
    preference key `module_field` and its inverse, grouping by module in a
    fixed usage order, and reloading from stored rows. */
module FieldRegistry {
  import opened Common

  /** One encryptable field. Equality and hashing in the source look only at
      the module and the field name; see `SameField`. */
  datatype EncryptableField = EncryptableField(
    moduleName: string,
    fieldName: string,
    displayName: string,
    description: string,
    recommended: bool,
    versionAdded: string)

  /** The source's `__eq__`: same module and same field name. */
  predicate SameField(a: EncryptableField, b: EncryptableField) {
    a.moduleName == b.moduleName && a.fieldName == b.fieldName
  }

  /** `field in self.fields` under that equality. */
  predicate Registered(fields: seq<EncryptableField>, f: EncryptableField) {
    exists i :: 0 <= i < |fields| && SameField(fields[i], f)
  }

  /** No two entries share an identity. */
  predicate UniqueIdentities(fields: seq<EncryptableField>) {
    forall i, j :: 0 <= i < j < |fields| ==> !SameField(fields[i], fields[j])
  }

  function ModuleOf(f: EncryptableField): string {
    f.moduleName
  }

  /** Identity is all that equality sees: two fields with the same module and
      field name are equal whatever their display data, and two equal fields
      have the same hash input. */
  lemma EqualityIgnoresDisplayData(a: EncryptableField, b: EncryptableField)
    requires a.moduleName == b.moduleName && a.fieldName == b.fieldName
    ensures SameField(a, b) && SameField(b, a)
    ensures forall fs :: Registered(fs, a) <==> Registered(fs, b)
  {
  }

  // ---------------------------------------------------------------------
  // Registration.
  // ---------------------------------------------------------------------

  /** `register_field` on the in-memory list: append unless an equal field is
      already there. */
  function RegisterField(fields: seq<EncryptableField>, f: EncryptableField): (r: seq<EncryptableField>)
    ensures fields <= r && |r| <= |fields| + 1
    ensures Registered(r, f)
    ensures forall g :: Registered(r, g) <==> Registered(fields, g) || SameField(f, g)
    ensures UniqueIdentities(fields) ==> UniqueIdentities(r)
  {
    if Registered(fields, f) then fields
    else
      var r := fields + [f];
      assert r[|fields|] == f;
      assert forall g :: Registered(r, g) ==> Registered(fields, g) || SameField(f, g) by {
        forall g | Registered(r, g) ensures Registered(fields, g) || SameField(f, g) {
          var i :| 0 <= i < |r| && SameField(r[i], g);
          if i < |fields| { assert r[i] == fields[i]; }
        }
      }
      assert forall g :: Registered(fields, g) ==> Registered(r, g) by {
        forall g | Registered(fields, g) ensures Registered(r, g) {
          var i :| 0 <= i < |fields| && SameField(fields[i], g);
          assert r[i] == fields[i];
        }
      }
      r
  }

  /** Registering a field that is already known leaves the list unchanged,
      so registering twice is the same as registering once. */
  lemma RegisterIdempotent(fields: seq<EncryptableField>, f: EncryptableField, g: EncryptableField)
    requires SameField(f, g)
    ensures RegisterField(RegisterField(fields, f), g) == RegisterField(fields, f)
  {
    assert Registered(RegisterField(fields, f), g);
  }

  function RegisterAll(fields: seq<EncryptableField>, fs: seq<EncryptableField>): (r: seq<EncryptableField>)
    ensures fields <= r
    ensures UniqueIdentities(fields) ==> UniqueIdentities(r)
    decreases |fs|
  {
    if fs == [] then fields else RegisterAll(RegisterField(fields, fs[0]), fs[1..])
  }

  /** Registering fields none of which is known, and no two of which are
      equal, appends them all in order. */
  lemma {:induction false} RegisterAllFresh(fields: seq<EncryptableField>, fs: seq<EncryptableField>)
    requires UniqueIdentities(fields + fs)
    ensures RegisterAll(fields, fs) == fields + fs
    decreases |fs|
  {
    if fs != [] {
      var all := fields + fs;
      assert !Registered(fields, fs[0]) by {
        forall i | 0 <= i < |fields| ensures !SameField(fields[i], fs[0]) {
          assert all[i] == fields[i] && all[|fields|] == fs[0];
        }
      }
      assert RegisterField(fields, fs[0]) == fields + [fs[0]];
      assert fields + [fs[0]] + fs[1..] == all;
      RegisterAllFresh(fields + [fs[0]], fs[1..]);
    }
  }

  function Field(m: string, f: string, display: string, description: string, recommended: bool): EncryptableField {
    EncryptableField(m, f, display, description, recommended, "1.0")
  }

  /** The fields `_register_default_fields` registers, in order. */
  function DefaultFields(): seq<EncryptableField> {
    [ Field("habits", "name", "Habit Names", "Your personal habit titles and goals", true),
      Field("habits", "description", "Habit Descriptions", "Detailed explanations and motivations for your habits", true),
      Field("notes", "content", "Daily Notes Content", "Your private journal entries and daily reflections", true),
      Field("todos", "title", "Todo Titles", "Task names and titles in your todo list", true),
      Field("todos", "description", "Todo Descriptions", "Detailed task descriptions and notes", true),
      Field("todos", "category", "Todo Categories", "Task organization categories and labels", false),
      Field("reading", "notes", "Reading Notes", "Your personal thoughts and notes about books", true),
      Field("birthdays", "name", "Contact Names", "Names of people in your birthday reminders", false),
      Field("birthdays", "notes", "Birthday Notes", "Personal notes about relationships and memories", true),
      Field("watchlist", "notes", "Watchlist Notes", "Your personal reviews and notes about movies/shows", true) ]
  }

  /** The registry as constructed: the defaults registered into an empty list. */
  function InitialRegistry(): seq<EncryptableField> {
    RegisterAll([], DefaultFields())
  }

  /** The constructed registry holds exactly the ten default fields, in order,
      without duplicates. */
  lemma DefaultRegistry()
    ensures InitialRegistry() == DefaultFields()
    ensures |InitialRegistry()| == 10
    ensures UniqueIdentities(InitialRegistry())
  {
    DefaultFieldsUnique();
    RegisterAllIntoEmpty(DefaultFields());
  }

  /** Distinct fields registered into an empty list are kept as given. */
  lemma RegisterAllIntoEmpty(d: seq<EncryptableField>)
    requires UniqueIdentities(d)
    ensures RegisterAll([], d) == d
  {
    assert [] + d == d;
    RegisterAllFresh([], d);
  }

  lemma DefaultFieldsUnique()
    ensures UniqueIdentities(DefaultFields())
  {
    var d := DefaultFields();
    var sig := DefaultSignatures();
    forall i, j | 0 <= i < j < 10 ensures !SameField(d[i], d[j]) {
      assert sig[i] != sig[j];
    }
  }

  /** The first letter of the module and the second of the field name
      already tell the ten default fields apart. */
  function DefaultSignatures(): (r: seq<(char, char)>)
    ensures |r| == |DefaultFields()|
    ensures forall i :: 0 <= i < |r| ==>
      (|DefaultFields()[i].moduleName| > 0 && |DefaultFields()[i].fieldName| > 1
       && r[i] == (DefaultFields()[i].moduleName[0], DefaultFields()[i].fieldName[1]))
  {
    [('h', 'a'), ('h', 'e'), ('n', 'o'), ('t', 'i'), ('t', 'e'),
     ('t', 'a'), ('r', 'o'), ('b', 'a'), ('b', 'o'), ('w', 'o')]
  }

  lemma DefaultRecommendations()
    ensures |DefaultFields()| == 10
    ensures DefaultFields()[5].moduleName == "todos" && DefaultFields()[5].fieldName == "category"
    ensures DefaultFields()[7].moduleName == "birthdays" && DefaultFields()[7].fieldName == "name"
    ensures forall i :: 0 <= i < 10 ==> (!DefaultFields()[i].recommended <==> i == 5 || i == 7)
  {
  }

  // ---------------------------------------------------------------------
  // Preference keys.
  // ---------------------------------------------------------------------

  /** `get_field_key`. */
  function FieldKey(m: string, f: string): string {
    m + "_" + f
  }

  /** The key is the module, one `_`, then the field name. */
  lemma FieldKeyParts(m: string, f: string)
    ensures |FieldKey(m, f)| == |m| + 1 + |f|
    ensures FieldKey(m, f)[..|m|] == m && FieldKey(m, f)[|m|] == '_' && FieldKey(m, f)[|m| + 1..] == f
  {
  }

  /** The preference key of a field. */
  function KeyOf(f: EncryptableField): string {
    FieldKey(f.moduleName, f.fieldName)
  }

  /** The preference keys of a list of fields. */
  function KeysOf(fields: seq<EncryptableField>): set<string> {
    set i | 0 <= i < |fields| :: KeyOf(fields[i])
  }

  /** `field_key.split('_', 1)`: `None` when there is no `_` (the unpacking
      raises `ValueError`), else the text before the first `_` and the rest. */
  function SplitKey(key: string): (r: Option<(string, string)>)
    ensures r.None? <==> '_' !in key
    ensures r.Some? ==> '_' !in r.value.0 && FieldKey(r.value.0, r.value.1) == key
  {
    var i := IndexOf(key, '_');
    if i == |key| then None
    else
      var m := key[..i];
      assert '_' !in m by {
        forall j | 0 <= j < |m| ensures m[j] != '_' { assert m[j] == key[j]; }
      }
      assert key == m + "_" + key[i + 1..];
      Some((m, key[i + 1..]))
  }

  /** The first registered field with the given module and field name. */
  function FirstMatch(fields: seq<EncryptableField>, m: string, f: string): (r: Option<EncryptableField>)
    ensures r.None? <==> !Registered(fields, Field(m, f, "", "", false))
    ensures r.Some? ==> r.value in fields && r.value.moduleName == m && r.value.fieldName == f
    ensures r.Some? ==> FirstWith(fields, m, f, r.value)
    decreases |fields|
  {
    if fields == [] then None
    else if fields[0].moduleName == m && fields[0].fieldName == f then
      assert FirstWith(fields, m, f, fields[0]) by { assert fields[0] == fields[0]; }
      Some(fields[0])
    else
      var r := FirstMatch(fields[1..], m, f);
      RegisteredCons(fields, Field(m, f, "", "", false));
      if r.Some? then FirstWithCons(fields, m, f, r.value); r else r
  }

  /** `x` is at a position before which no field has module `m` and name `f`. */
  predicate FirstWith(fields: seq<EncryptableField>, m: string, f: string, x: EncryptableField) {
    exists i :: 0 <= i < |fields| && fields[i] == x &&
      forall j :: 0 <= j < i ==> !(fields[j].moduleName == m && fields[j].fieldName == f)
  }

  lemma RegisteredCons(fields: seq<EncryptableField>, g: EncryptableField)
    requires fields != []
    ensures Registered(fields, g) <==> SameField(fields[0], g) || Registered(fields[1..], g)
  {
    if Registered(fields, g) && !SameField(fields[0], g) {
      var i :| 0 <= i < |fields| && SameField(fields[i], g);
      assert fields[1..][i - 1] == fields[i];
    }
    if Registered(fields[1..], g) {
      var i :| 0 <= i < |fields[1..]| && SameField(fields[1..][i], g);
      assert fields[i + 1] == fields[1..][i];
    }
  }

  lemma FirstWithCons(fields: seq<EncryptableField>, m: string, f: string, x: EncryptableField)
    requires fields != [] && !(fields[0].moduleName == m && fields[0].fieldName == f)
    requires FirstWith(fields[1..], m, f, x)
    ensures FirstWith(fields, m, f, x)
  {
    var tail := fields[1..];
    var i :| 0 <= i < |tail| && tail[i] == x && forall j :: 0 <= j < i ==> !(tail[j].moduleName == m && tail[j].fieldName == f);
    assert fields[i + 1] == x;
    forall j | 0 <= j < i + 1 ensures !(fields[j].moduleName == m && fields[j].fieldName == f) {
      if j > 0 {
        assert fields[j] == tail[j - 1];
      }
    }
  }

  /** `get_field_by_key`. */
  function GetFieldByKey(fields: seq<EncryptableField>, key: string): (r: Option<EncryptableField>)
    ensures '_' !in key ==> r.None?
    ensures r.Some? ==> r.value in fields && FieldKey(r.value.moduleName, r.value.fieldName) == key
  {
    match SplitKey(key)
    case None => None
    case Some((m, f)) => FirstMatch(fields, m, f)
  }

  /** Splitting a key whose module part has no `_` recovers both parts. */
  lemma SplitFieldKey(m: string, f: string)
    requires '_' !in m
    ensures SplitKey(FieldKey(m, f)) == Some((m, f))
  {
    var key := FieldKey(m, f);
    FieldKeyParts(m, f);
    assert IndexOf(key, '_') == |m| by {
      forall j | 0 <= j < |m| ensures key[j] != '_' { assert key[j] == m[j]; }
    }
  }

  /** Lookup inverts key formation when the module name has no `_`: the key
      of a registered field finds a field with that identity, and the key of
      an unregistered one finds nothing. */
  lemma KeyLookupInverts(fields: seq<EncryptableField>, m: string, f: string)
    requires '_' !in m
    ensures var r := GetFieldByKey(fields, FieldKey(m, f));
      (r.Some? <==> Registered(fields, Field(m, f, "", "", false)))
      && (r.Some? ==> r.value.moduleName == m && r.value.fieldName == f)
  {
    SplitFieldKey(m, f);
  }

  /** A module name containing `_` is split in the wrong place: a field of
      module `daily_notes` cannot be found by its own key. */
  lemma UnderscoredModuleIsNotFound()
    ensures GetFieldByKey([Field("daily_notes", "content", "", "", true)], FieldKey("daily_notes", "content")).None?
  {
    assert FieldKey("daily_notes", "content") == FieldKey("daily", "notes_content");
    assert '_' !in "daily";
    SplitFieldKey("daily", "notes_content");
    assert "daily_notes" != "daily";
  }

  // ---------------------------------------------------------------------
  // Grouping by module.
  // ---------------------------------------------------------------------

  /** The usage order in which known modules are listed. */
  const MODULE_ORDER: seq<string> := ["habits", "notes", "todos", "reading", "birthdays", "watchlist"]

  datatype ModuleGroup = ModuleGroup(name: string, fields: seq<EncryptableField>)

  /** Distinct module names in order of first appearance (the insertion order
      of the intermediate dict). */
  function ModulesInOrder(fields: seq<EncryptableField>): (r: seq<string>)
    ensures Distinct(r)
    ensures forall i :: 0 <= i < |fields| ==> fields[i].moduleName in r
    ensures forall m :: m in r ==> exists j :: 0 <= j < |fields| && fields[j].moduleName == m
    decreases |fields|
  {
    if fields == [] then []
    else
      var init := fields[..|fields| - 1];
      var m := fields[|fields| - 1].moduleName;
      var prev := ModulesInOrder(init);
      assert forall i :: 0 <= i < |init| ==> init[i] == fields[i];
      if m in prev then prev else prev + [m]
  }

  /** The modules are listed in the order in which the fields first meet
      them, the insertion order of the dictionary of groups. */
  lemma {:induction false} ModulesInFirstOrder(fields: seq<EncryptableField>)
    ensures forall i, j :: 0 <= i < j < |ModulesInOrder(fields)| ==>
      FirstAt(fields, ModulesInOrder(fields)[i]) < FirstAt(fields, ModulesInOrder(fields)[j]) < |fields|
    decreases |fields|
  {
    if fields != [] {
      var init := fields[..|fields| - 1];
      var m := fields[|fields| - 1].moduleName;
      var prev := ModulesInOrder(init);
      ModulesInFirstOrder(init);
      LiftOrder(fields, prev);
      assert ModulesInOrder(fields) == if m in prev then prev else prev + [m];
      FirstOrderStep(fields, prev, m, ModulesInOrder(fields));
    } else {
      assert ModulesInOrder(fields) == [];
    }
  }

  /** The order facts about the modules of all fields but the last, read
      over all the fields. */
  lemma LiftOrder(fields: seq<EncryptableField>, prev: seq<string>)
    requires fields != []
    requires forall i :: 0 <= i < |fields| - 1 ==> fields[i].moduleName in prev
    requires forall m :: m in prev ==> exists j :: 0 <= j < |fields| - 1 && fields[j].moduleName == m
    requires forall i, j :: 0 <= i < j < |prev| ==>
      FirstAt(fields[..|fields| - 1], prev[i]) < FirstAt(fields[..|fields| - 1], prev[j])
    ensures forall i, j :: 0 <= i < j < |prev| ==> FirstAt(fields, prev[i]) < FirstAt(fields, prev[j]) < |fields| - 1
    ensures forall i :: 0 <= i < |prev| ==> FirstAt(fields, prev[i]) < |fields| - 1
    ensures fields[|fields| - 1].moduleName !in prev ==> FirstAt(fields, fields[|fields| - 1].moduleName) == |fields| - 1
  {
    FirstAtPrefix(fields, prev);
    LiftPairs(fields, prev);
    FirstAtNew(fields, prev);
  }

  lemma LiftPairs(fields: seq<EncryptableField>, prev: seq<string>)
    requires fields != []
    requires forall m :: m in prev ==> FirstAt(fields, m) == FirstAt(fields[..|fields| - 1], m) < |fields| - 1
    requires forall i, j :: 0 <= i < j < |prev| ==>
      FirstAt(fields[..|fields| - 1], prev[i]) < FirstAt(fields[..|fields| - 1], prev[j])
    ensures forall i, j :: 0 <= i < j < |prev| ==> FirstAt(fields, prev[i]) < FirstAt(fields, prev[j]) < |fields| - 1
    ensures forall i :: 0 <= i < |prev| ==> FirstAt(fields, prev[i]) < |fields| - 1
  {
    forall i, j | 0 <= i < j < |prev|
      ensures FirstAt(fields, prev[i]) < FirstAt(fields, prev[j]) < |fields| - 1
    {
      assert prev[i] in prev && prev[j] in prev;
    }
    forall i | 0 <= i < |prev|
      ensures FirstAt(fields, prev[i]) < |fields| - 1
    {
      assert prev[i] in prev;
    }
  }

  /** A module none of the earlier fields has is first met at the last one. */
  lemma FirstAtNew(fields: seq<EncryptableField>, prev: seq<string>)
    requires fields != []
    requires forall i :: 0 <= i < |fields| - 1 ==> fields[i].moduleName in prev
    ensures fields[|fields| - 1].moduleName !in prev ==> FirstAt(fields, fields[|fields| - 1].moduleName) == |fields| - 1
  {
    var init := fields[..|fields| - 1];
    var m := fields[|fields| - 1].moduleName;
    if m !in prev {
      assert forall j :: 0 <= j < |init| ==> init[j] == fields[j];
      assert FirstAt(init, m) == |init|;
    }
  }

  /** One step of `ModulesInFirstOrder`: a module met for the first time at
      the last field goes after all earlier ones. */
  lemma FirstOrderStep(fields: seq<EncryptableField>, prev: seq<string>, m: string, r: seq<string>)
    requires fields != []
    requires r == if m in prev then prev else prev + [m]
    requires forall i, j :: 0 <= i < j < |prev| ==> FirstAt(fields, prev[i]) < FirstAt(fields, prev[j]) < |fields| - 1
    requires forall i :: 0 <= i < |prev| ==> FirstAt(fields, prev[i]) < |fields| - 1
    requires m !in prev ==> FirstAt(fields, m) == |fields| - 1
    ensures forall i, j :: 0 <= i < j < |r| ==> FirstAt(fields, r[i]) < FirstAt(fields, r[j]) < |fields|
  {
    if m !in prev {
      forall i, j | 0 <= i < j < |r|
        ensures FirstAt(fields, r[i]) < FirstAt(fields, r[j]) < |fields|
      {
        assert r[i] == prev[i];
        if j < |prev| {
          assert r[j] == prev[j];
        }
      }
    }
  }

  /** Position of the first field of module `m`, or `|fields|` when there
      is none: the order in which the dictionary of groups meets `m`. */
  function FirstAt(fields: seq<EncryptableField>, m: string): (r: nat)
    ensures r <= |fields|
    ensures r < |fields| ==> fields[r].moduleName == m
    ensures forall j :: 0 <= j < r ==> fields[j].moduleName != m
    decreases |fields|
  {
    if fields == [] then 0
    else
      var init := fields[..|fields| - 1];
      var p := FirstAt(init, m);
      assert forall j :: 0 <= j < |init| ==> init[j] == fields[j];
      if p < |init| then p else if fields[|fields| - 1].moduleName == m then |init| else |fields|
  }

  /** Modules already met in the first `|fields| - 1` fields keep their
      first position when a field is added. */
  lemma FirstAtPrefix(fields: seq<EncryptableField>, prev: seq<string>)
    requires fields != []
    requires forall m :: m in prev ==> exists j :: 0 <= j < |fields| - 1 && fields[j].moduleName == m
    ensures forall m :: m in prev ==>
      FirstAt(fields, m) == FirstAt(fields[..|fields| - 1], m) < |fields| - 1
  {
    var init := fields[..|fields| - 1];
    forall m | m in prev
      ensures FirstAt(fields, m) == FirstAt(init, m) < |init|
    {
      var j :| 0 <= j < |init| && fields[j].moduleName == m;
      assert init[j] == fields[j];
    }
  }

  /** The usage order names each module once: their first letters differ. */
  lemma ModuleOrderDistinct()
    ensures Distinct(MODULE_ORDER)
  {
    var initials := ['h', 'n', 't', 'r', 'b', 'w'];
    forall i | 0 <= i < 6 ensures |MODULE_ORDER[i]| > 0 && MODULE_ORDER[i][0] == initials[i] {
    }
    forall i, j | 0 <= i < j < 6 ensures MODULE_ORDER[i] != MODULE_ORDER[j] {
      assert initials[i] != initials[j];
    }
  }

  /** Position of a module in the usage order (6 for any other module). */
  function Rank(m: string): nat {
    IndexOf(MODULE_ORDER, m)
  }

  /** Present known modules, in usage order. */
  function KnownPresent(present: seq<string>): (r: seq<string>)
    ensures forall i :: 0 <= i < |r| ==> r[i] in present && r[i] in MODULE_ORDER
    ensures forall m :: m in present && m in MODULE_ORDER ==> m in r
    ensures Distinct(r)
    ensures forall i, j :: 0 <= i < j < |r| ==> Rank(r[i]) < Rank(r[j])
  {
    var key := (m: string) => m in present;
    var r := Select(MODULE_ORDER, key, true);
    ModuleOrderDistinct();
    SelectDistinct(MODULE_ORDER, key, true);
    SelectKeepsOrder(MODULE_ORDER, key, true);
    forall i, j | 0 <= i < j < |r| ensures Rank(r[i]) < Rank(r[j]) {
      assert ComesBefore(MODULE_ORDER, r[i], r[j]);
      var a, b :| 0 <= a < b < |MODULE_ORDER| && MODULE_ORDER[a] == r[i] && MODULE_ORDER[b] == r[j];
      DistinctIndex(MODULE_ORDER, a);
      DistinctIndex(MODULE_ORDER, b);
    }
    r
  }

  /** Present modules outside the usage order, in their given order. */
  function OtherPresent(present: seq<string>): (r: seq<string>)
    ensures forall i :: 0 <= i < |r| ==> r[i] in present && r[i] !in MODULE_ORDER
    ensures forall m :: m in present && m !in MODULE_ORDER ==> m in r
    ensures Distinct(present) ==> Distinct(r)
    ensures forall i, j :: 0 <= i < j < |r| ==> ComesBefore(present, r[i], r[j])
  {
    var key := (m: string) => m in MODULE_ORDER;
    SelectKeepsOrder(present, key, false);
    if Distinct(present) then SelectDistinct(present, key, false); Select(present, key, false)
    else Select(present, key, false)
  }

  /** Group names: present known modules in usage order, then the rest in
      order of first appearance. */
  function GroupNames(fields: seq<EncryptableField>): seq<string> {
    var present := ModulesInOrder(fields);
    KnownPresent(present) + OtherPresent(present)
  }

  function Groups(fields: seq<EncryptableField>, names: seq<string>): (r: seq<ModuleGroup>)
    ensures |r| == |names|
    ensures forall i :: 0 <= i < |r| ==> r[i].name == names[i] && r[i].fields == Select(fields, ModuleOf, names[i])
    decreases |names|
  {
    if names == [] then []
    else [ModuleGroup(names[0], Select(fields, ModuleOf, names[0]))] + Groups(fields, names[1..])
  }

  function TotalSize(groups: seq<ModuleGroup>): nat
    decreases |groups|
  {
    if groups == [] then 0 else |groups[0].fields| + TotalSize(groups[1..])
  }

  /** `get_fields_by_module`. Each group holds exactly that module's fields
      and is non-empty; every module appears once; known modules come first,
      in usage order. */
  function GetFieldsByModule(fields: seq<EncryptableField>): (r: seq<ModuleGroup>)
    ensures forall i :: 0 <= i < |r| ==> r[i].fields == Select(fields, ModuleOf, r[i].name) && r[i].fields != []
    ensures forall i, j :: 0 <= i < j < |r| ==> r[i].name != r[j].name
    ensures forall i :: 0 <= i < |fields| ==> exists j :: 0 <= j < |r| && r[j].name == fields[i].moduleName
    ensures forall i, j :: 0 <= i < j < |r| && r[j].name in MODULE_ORDER ==>
      r[i].name in MODULE_ORDER && Rank(r[i].name) < Rank(r[j].name)
  {
    var names := GroupNames(fields);
    GroupNamesDistinct(fields);
    GroupNamesRanked(fields);
    GroupNamesCover(fields);
    GroupsSpec(fields, names);
    Groups(fields, names)
  }

  /** The groups of a list of names inherit the names' properties: distinct
      and ranked names give distinct and ranked groups, names of modules that
      have fields give non-empty groups, and names covering every field's
      module give a group for every field. */
  lemma GroupsSpec(fields: seq<EncryptableField>, names: seq<string>)
    requires Distinct(names)
    requires forall m :: m in names ==> m in ModulesInOrder(fields)
    requires forall i :: 0 <= i < |fields| ==> fields[i].moduleName in names
    requires forall i, j :: 0 <= i < j < |names| && names[j] in MODULE_ORDER ==>
      names[i] in MODULE_ORDER && Rank(names[i]) < Rank(names[j])
    ensures var r := Groups(fields, names);
      forall i :: 0 <= i < |r| ==> r[i].fields == Select(fields, ModuleOf, r[i].name) && r[i].fields != []
    ensures var r := Groups(fields, names);
      forall i, j :: 0 <= i < j < |r| ==> r[i].name != r[j].name
    ensures var r := Groups(fields, names);
      forall i :: 0 <= i < |fields| ==> exists j :: 0 <= j < |r| && r[j].name == fields[i].moduleName
    ensures var r := Groups(fields, names);
      forall i, j :: 0 <= i < j < |r| && r[j].name in MODULE_ORDER ==>
        r[i].name in MODULE_ORDER && Rank(r[i].name) < Rank(r[j].name)
  {
    var r := Groups(fields, names);
    forall i | 0 <= i < |r| ensures r[i].fields != [] {
      GroupNonEmpty(fields, names[i]);
    }
    forall i | 0 <= i < |fields| ensures exists j :: 0 <= j < |r| && r[j].name == fields[i].moduleName {
      NamedGroup(r, names, fields[i].moduleName);
    }
  }

  /** Each listed name has its group. */
  lemma NamedGroup(r: seq<ModuleGroup>, names: seq<string>, m: string)
    requires |r| == |names| && forall i :: 0 <= i < |r| ==> r[i].name == names[i]
    requires m in names
    ensures exists j :: 0 <= j < |r| && r[j].name == m
  {
    var j :| 0 <= j < |names| && names[j] == m;
    assert r[j].name == m;
  }

  lemma GroupNonEmpty(fields: seq<EncryptableField>, m: string)
    requires m in ModulesInOrder(fields)
    ensures Select(fields, ModuleOf, m) != []
  {
    var j :| 0 <= j < |fields| && fields[j].moduleName == m;
    assert ModuleOf(fields[j]) == m;
  }

  /** Every field's module is among the group names, and every group name is
      the module of some field. */
  lemma GroupNamesCover(fields: seq<EncryptableField>)
    ensures forall i :: 0 <= i < |fields| ==> fields[i].moduleName in GroupNames(fields)
    ensures forall m :: m in GroupNames(fields) ==> m in ModulesInOrder(fields)
  {
    var present := ModulesInOrder(fields);
    var known := KnownPresent(present);
    var other := OtherPresent(present);
    forall i | 0 <= i < |fields| ensures fields[i].moduleName in known + other {
      var m := fields[i].moduleName;
      if m in MODULE_ORDER { assert m in known; } else { assert m in other; }
    }
  }

  lemma GroupNamesDistinct(fields: seq<EncryptableField>)
    ensures Distinct(GroupNames(fields))
  {
    var present := ModulesInOrder(fields);
    var known := KnownPresent(present);
    var other := OtherPresent(present);
    forall x | x in known ensures x !in other {
      var i :| 0 <= i < |known| && known[i] == x;
      assert x in MODULE_ORDER;
    }
    DistinctAppend(known, other);
  }

  /** Two lists without repeats and without common elements join into a
      list without repeats. */
  lemma DistinctAppend<T>(a: seq<T>, b: seq<T>)
    requires Distinct(a) && Distinct(b)
    requires forall x :: x in a ==> x !in b
    ensures Distinct(a + b)
  {
    var ab := a + b;
    forall i, j | 0 <= i < j < |ab| ensures ab[i] != ab[j] {
      if j < |a| {
        assert ab[i] == a[i] && ab[j] == a[j];
      } else if i >= |a| {
        assert ab[i] == b[i - |a|] && ab[j] == b[j - |a|];
      } else {
        assert ab[i] == a[i] && a[i] in a && ab[j] == b[j - |a|];
      }
    }
  }

  lemma GroupNamesRanked(fields: seq<EncryptableField>)
    ensures forall i, j :: 0 <= i < j < |GroupNames(fields)| && GroupNames(fields)[j] in MODULE_ORDER ==>
      GroupNames(fields)[i] in MODULE_ORDER && Rank(GroupNames(fields)[i]) < Rank(GroupNames(fields)[j])
  {
    var present := ModulesInOrder(fields);
    var known := KnownPresent(present);
    var other := OtherPresent(present);
    var names := known + other;
    forall i, j | 0 <= i < j < |names| && names[j] in MODULE_ORDER
      ensures names[i] in MODULE_ORDER && Rank(names[i]) < Rank(names[j])
    {
      if j >= |known| {
        assert false;
      } else {
        assert names[i] == known[i] && names[j] == known[j];
      }
    }
  }

  lemma DistinctIndex<T>(s: seq<T>, a: nat)
    requires Distinct(s) && a < |s|
    ensures IndexOf(s, s[a]) == a
  {
  }

  /** Every registered field lands in exactly one group: the group sizes add
      up to the number of registered fields. */
  lemma GroupingIsPartition(fields: seq<EncryptableField>)
    ensures TotalSize(GetFieldsByModule(fields)) == |fields|
  {
    var names := GroupNames(fields);
    GroupNamesDistinct(fields);
    GroupNamesCover(fields);
    GroupsTotal(fields, names);
    SelectPartition(fields, ModuleOf, names);
    CountKeyInAll(fields, ModuleOf, names);
  }

  /** Within a group, fields keep their registration order. */
  lemma GroupKeepsRegistrationOrder(fields: seq<EncryptableField>, i: nat)
    requires i < |GetFieldsByModule(fields)|
    ensures var g := GetFieldsByModule(fields)[i].fields;
      forall a, b :: 0 <= a < b < |g| ==> ComesBefore(fields, g[a], g[b])
  {
    SelectKeepsOrder(fields, ModuleOf, GetFieldsByModule(fields)[i].name);
  }

  lemma {:induction false} GroupsTotal(fields: seq<EncryptableField>, names: seq<string>)
    ensures TotalSize(Groups(fields, names)) == SumSelected(fields, ModuleOf, names)
    decreases |names|
  {
    if names != [] {
      GroupsTotal(fields, names[1..]);
      assert Groups(fields, names)[1..] == Groups(fields, names[1..]);
    }
  }

  // ---------------------------------------------------------------------
  // Reloading from stored rows.
  // ---------------------------------------------------------------------

  /** A row of the `encryptable_fields` table as read back. */
  datatype StoredField = StoredField(
    moduleName: string,
    fieldName: string,
    displayName: string,
    description: string,
    recommendEncrypt: int,
    addedVersion: Option<string>)

  const DEFAULT_VERSION: string := "1.0"

  function FromStored(row: StoredField): EncryptableField {
    EncryptableField(row.moduleName, row.fieldName, row.displayName, row.description,
      row.recommendEncrypt != 0, if Truthy(row.addedVersion) then row.addedVersion.value else DEFAULT_VERSION)
  }

  /** `refresh_from_database`, given the rows the query returned (`None` when
      the query fails, in which case the list is kept). */
  function RefreshFromDatabase(current: seq<EncryptableField>, fetched: Option<seq<StoredField>>): (r: seq<EncryptableField>)
    ensures fetched.None? ==> r == current
    ensures fetched.Some? ==> |r| == |fetched.value|
    ensures fetched.Some? ==> forall i :: 0 <= i < |r| ==>
      && r[i].moduleName == fetched.value[i].moduleName
      && r[i].fieldName == fetched.value[i].fieldName
      && r[i].displayName == fetched.value[i].displayName
      && r[i].description == fetched.value[i].description
      && (r[i].recommended <==> fetched.value[i].recommendEncrypt != 0)
      && (r[i].versionAdded == if Truthy(fetched.value[i].addedVersion) then fetched.value[i].addedVersion.value else "1.0")
  {
    match fetched
    case None => current
    case Some(rows) => seq(|rows|, i requires 0 <= i < |rows| => FromStored(rows[i]))
  }

  /** The row `register_field` writes for a field (booleans stored as 0/1). */
  function Persist(f: EncryptableField): StoredField {
    StoredField(f.moduleName, f.fieldName, f.displayName, f.description,
      if f.recommended then 1 else 0, Some(f.versionAdded))
  }

  /** Persisting fields and reading them back yields the same fields when
      every version is non-empty; an empty version comes back as "1.0". */
  lemma RefreshRoundTrip(current: seq<EncryptableField>, fields: seq<EncryptableField>)
    ensures var back := RefreshFromDatabase(current, Some(seq(|fields|, i requires 0 <= i < |fields| => Persist(fields[i]))));
      |back| == |fields|
      && forall i :: 0 <= i < |fields| ==>
        back[i] == (if fields[i].versionAdded == "" then fields[i].(versionAdded := "1.0") else fields[i])
  {
  }
}
