/** The todo model (`models/todo.py`): what `create` writes, the five status
    buckets, completion toggling, the statistics, and `update`, which as
    written bypasses encryption. A table is the sequence of its rows; `today`
    and `now` are parameters. */
module Todos {
  import opened Common
  import opened Encryption
  import opened Preferences
  import opened BaseEncrypted

  /** `Todo.ENCRYPTED_FIELDS`. */
  const TODO_FIELDS: Mapping := [("title", "title"), ("description", "description"), ("category", "category")]

  /** A row of `todos`. Dates are ISO strings; `deleted` is `deleted_at IS NOT NULL`. */
  datatype Todo = Todo(
    id: int, user: int,
    title: string, description: Option<string>, priority: string, dueDate: Option<string>, category: Option<string>,
    completed: bool, completedAt: Option<string>, deleted: bool)

  /** The user-supplied columns an INSERT or UPDATE writes. */
  datatype TodoColumns = TodoColumns(
    title: string, description: Option<string>, priority: string, dueDate: Option<string>, category: Option<string>)

  lemma TodoFieldsIdentity()
    ensures IdentityMapping(TODO_FIELDS)
    ensures "title" in Names(TODO_FIELDS) && "description" in Names(TODO_FIELDS) && "category" in Names(TODO_FIELDS)
  {
    assert TODO_FIELDS[0].0 == "title" && TODO_FIELDS[1].0 == "description" && TODO_FIELDS[2].0 == "category";
  }

  // ---------------------------------------------------------------------
  // create.
  // ---------------------------------------------------------------------

  /** `Todo.create` up to the INSERT: description and category default to
      "", the three text fields go through storage processing, and empty
      results are stored as NULL. Priority and due date are stored as given. */
  function Create(f: Fernet, store: Store, s: Session, title: string, description: Option<string>, priority: string,
                  dueDate: Option<string>, category: Option<string>): (r: TodoColumns)
    ensures r.priority == priority && r.dueDate == dueDate
    ensures r.title == EncryptFieldIfNeeded(f, store, s, title, "todos", "title")
    ensures r.description == EmptyToNone(EncryptFieldIfNeeded(f, store, s, OrEmpty(description), "todos", "description"))
    ensures r.category == EmptyToNone(EncryptFieldIfNeeded(f, store, s, OrEmpty(category), "todos", "category"))
    ensures !Truthy(description) ==> r.description == None
    ensures !Truthy(category) ==> r.category == None
  {
    var data := map["title" := Text(title), "description" := Text(OrEmpty(description)), "category" := Text(OrEmpty(category))];
    var stored := ProcessFieldsForStorage(f, store, s, data, "todos", TODO_FIELDS);
    TodoFieldsIdentity();
    StorageByColumn(f, store, s, data, "todos", TODO_FIELDS);
    TodoColumns(stored["title"].s, EmptyToNone(stored["description"].s), priority, dueDate, EmptyToNone(stored["category"].s))
  }

  /** Reading back what `create` wrote gives the inputs, with a falsy
      description or category coming back as NULL. */
  lemma CreateRoundTrip(f: Fernet, store: Store, s: Session, title: string, description: Option<string>, priority: string,
                        dueDate: Option<string>, category: Option<string>)
    requires Lawful(f) && Active(s) && f.validKey(s.key.value)
    ensures var r := Create(f, store, s, title, description, priority, dueDate, category);
      && DecryptFieldIfNeeded(f, store, s, r.title, "todos", "title") == title
      && (r.description.None? <==> !Truthy(description))
      && (r.description.Some? ==> DecryptFieldIfNeeded(f, store, s, r.description.value, "todos", "description") == description.value)
      && (r.category.None? <==> !Truthy(category))
      && (r.category.Some? ==> DecryptFieldIfNeeded(f, store, s, r.category.value, "todos", "category") == category.value)
  {
    FieldRoundTrip(f, store, s, title, "todos", "title");
    FieldRoundTrip(f, store, s, OrEmpty(description), "todos", "description");
    FieldRoundTrip(f, store, s, OrEmpty(category), "todos", "category");
    NonEmptyStaysNonEmpty(f, store, s, OrEmpty(description), "todos", "description");
    NonEmptyStaysNonEmpty(f, store, s, OrEmpty(category), "todos", "category");
  }

  /** Under a lawful cipher storage never turns text into "". */
  lemma NonEmptyStaysNonEmpty(f: Fernet, store: Store, s: Session, value: string, m: string, field: string)
    requires Lawful(f) && Active(s) && f.validKey(s.key.value)
    ensures (EncryptFieldIfNeeded(f, store, s, value, m, field) == "") <==> value == ""
  {
  }

  /** `create` stores a non-empty title as ciphertext exactly when the user's
      preference for todos.title is on. */
  lemma CreateEncryptsPreferredTitle(f: Fernet, store: Store, s: Session, title: string, description: Option<string>,
                                     priority: string, dueDate: Option<string>, category: Option<string>)
    requires Lawful(f) && Active(s) && f.validKey(s.key.value)
    requires title != "" && !IsEncrypted(f, title)
    ensures IsEncrypted(f, Create(f, store, s, title, description, priority, dueDate, category).title)
      <==> ShouldEncrypt(store, s.user.value, "todos", "title")
  {
    EncryptedIffPreferred(f, store, s, title, "todos", "title");
  }

  // ---------------------------------------------------------------------
  // update: as written and as intended.
  // ---------------------------------------------------------------------

  /** A live row of the user with this id (`WHERE id = ? AND user_id = ? AND
      deleted_at IS NULL`). */
  predicate LiveMatch(t: Todo, id: int, user: int) {
    t.id == id && t.user == user && !t.deleted
  }

  predicate HasLiveMatch(table: seq<Todo>, id: int, user: int) {
    exists i :: 0 <= i < |table| && LiveMatch(table[i], id, user)
  }

  function WithColumns(t: Todo, c: TodoColumns): Todo {
    t.(title := c.title, description := c.description, priority := c.priority, dueDate := c.dueDate, category := c.category)
  }

  /** The UPDATE of `Todo.update`: every live row of the user with this id
      receives the columns; the result is whether any row matched. */
  function ApplyUpdate(table: seq<Todo>, id: int, user: int, c: TodoColumns): (r: (bool, seq<Todo>))
    ensures r.0 <==> HasLiveMatch(table, id, user)
    ensures |r.1| == |table|
    ensures forall i :: 0 <= i < |table| ==>
      r.1[i] == if LiveMatch(table[i], id, user) then WithColumns(table[i], c) else table[i]
  {
    (HasLiveMatch(table, id, user),
     seq(|table|, i requires 0 <= i < |table| => if LiveMatch(table[i], id, user) then WithColumns(table[i], c) else table[i]))
  }

  /** `Todo.update` as written: the arguments go to the database as they
      are, with no storage processing. */
  function Update(table: seq<Todo>, id: int, user: int, title: string, description: Option<string>, priority: string,
                  dueDate: Option<string>, category: Option<string>): (r: (bool, seq<Todo>))
    ensures r.0 <==> HasLiveMatch(table, id, user)
    ensures |r.1| == |table|
    ensures forall i :: 0 <= i < |table| && LiveMatch(table[i], id, user) ==>
      r.1[i].title == title && r.1[i].description == description && r.1[i].category == category
    ensures forall i :: 0 <= i < |table| && LiveMatch(table[i], id, user) ==>
      r.1[i] == table[i].(title := title, description := description, priority := priority, dueDate := dueDate,
                          category := category)
    ensures forall i :: 0 <= i < |table| && !LiveMatch(table[i], id, user) ==> r.1[i] == table[i]
  {
    ApplyUpdate(table, id, user, TodoColumns(title, description, priority, dueDate, category))
  }

  /** As written, editing a todo whose title the user wants encrypted stores
      the new title in plaintext, while `create` would have sealed it. */
  lemma UpdateStoresPlaintext(f: Fernet, store: Store, s: Session, table: seq<Todo>, i: nat, title: string,
                              description: Option<string>, priority: string, dueDate: Option<string>, category: Option<string>)
    requires Lawful(f) && Active(s) && f.validKey(s.key.value)
    requires ShouldEncrypt(store, s.user.value, "todos", "title")
    requires title != "" && !IsEncrypted(f, title)
    requires i < |table| && LiveMatch(table[i], table[i].id, s.user.value)
    ensures var (found, after) := Update(table, table[i].id, s.user.value, title, description, priority, dueDate, category);
      found && !IsEncrypted(f, after[i].title)
    ensures IsEncrypted(f, Create(f, store, s, title, description, priority, dueDate, category).title)
  {
    CreateEncryptsPreferredTitle(f, store, s, title, description, priority, dueDate, category);
  }

  /** `Todo.update` as evidently intended: the columns are prepared exactly
      as `create` prepares them. */
  function UpdateFixed(f: Fernet, store: Store, s: Session, table: seq<Todo>, id: int, title: string, description: Option<string>,
                       priority: string, dueDate: Option<string>, category: Option<string>): (r: (bool, seq<Todo>))
    requires s.user.Some?
    ensures r.0 <==> HasLiveMatch(table, id, s.user.value)
    ensures |r.1| == |table|
    ensures forall i :: 0 <= i < |table| && LiveMatch(table[i], id, s.user.value) ==>
      r.1[i].title == EncryptFieldIfNeeded(f, store, s, title, "todos", "title")
    ensures var c := Create(f, store, s, title, description, priority, dueDate, category);
      forall i :: 0 <= i < |table| && LiveMatch(table[i], id, s.user.value) ==>
        r.1[i] == table[i].(title := c.title, description := c.description, priority := c.priority,
                            dueDate := c.dueDate, category := c.category)
    ensures forall i :: 0 <= i < |table| && !LiveMatch(table[i], id, s.user.value) ==> r.1[i] == table[i]
  {
    ApplyUpdate(table, id, s.user.value, Create(f, store, s, title, description, priority, dueDate, category))
  }

  /** With the intended update, the stored title is ciphertext exactly when
      the preference is on, and it reads back as the new title. */
  lemma UpdateFixedHonoursPreference(f: Fernet, store: Store, s: Session, table: seq<Todo>, i: nat, title: string,
                                     description: Option<string>, priority: string, dueDate: Option<string>, category: Option<string>)
    requires Lawful(f) && Active(s) && f.validKey(s.key.value)
    requires title != "" && !IsEncrypted(f, title)
    requires i < |table| && LiveMatch(table[i], table[i].id, s.user.value)
    ensures var (found, after) := UpdateFixed(f, store, s, table, table[i].id, title, description, priority, dueDate, category);
      && found
      && (IsEncrypted(f, after[i].title) <==> ShouldEncrypt(store, s.user.value, "todos", "title"))
      && DecryptFieldIfNeeded(f, store, s, after[i].title, "todos", "title") == title
  {
    EncryptedIffPreferred(f, store, s, title, "todos", "title");
    FieldRoundTrip(f, store, s, title, "todos", "title");
  }

  // ---------------------------------------------------------------------
  // toggle_completion.
  // ---------------------------------------------------------------------

  /** `Todo.toggle_completion`: `None` when no live row of the user has this
      id, otherwise the flipped status with `completed_at` set to `now` only
      when the todo becomes completed. */
  function ToggleCompletion(table: seq<Todo>, id: int, user: int, now: string): (r: (bool, seq<Todo>))
    ensures !r.0 <==> !HasLiveMatch(table, id, user)
    ensures !r.0 ==> r.1 == table
    ensures |r.1| == |table|
    ensures forall i :: 0 <= i < |table| && !LiveMatch(table[i], id, user) ==> r.1[i] == table[i]
  {
    var first := FirstLive(table, id, user);
    if first == |table| then (false, table)
    else
      var newStatus := !table[first].completed;
      var completedAt := if newStatus then Some(now) else None;
      (true, seq(|table|, i requires 0 <= i < |table| =>
                 if LiveMatch(table[i], id, user) then table[i].(completed := newStatus, completedAt := completedAt) else table[i]))
  }

  /** Position of the first live row of the user with this id, or `|table|`
      (the `fetchone` of the status SELECT). */
  function FirstLive(table: seq<Todo>, id: int, user: int): (r: nat)
    ensures r <= |table|
    ensures r < |table| ==> LiveMatch(table[r], id, user)
    ensures r == |table| <==> !HasLiveMatch(table, id, user)
    ensures forall i :: 0 <= i < r ==> !LiveMatch(table[i], id, user)
    decreases |table|
  {
    if table == [] then 0
    else if LiveMatch(table[0], id, user) then 0
    else
      var r := FirstLive(table[1..], id, user);
      assert forall i :: 1 <= i < |table| ==> table[i] == table[1..][i - 1];
      1 + r
  }

  /** A toggled todo has the opposite status, and a completion time exactly
      when it is now completed. */
  lemma ToggleFlips(table: seq<Todo>, i: nat, now: string)
    requires i < |table| && !table[i].deleted
    requires forall j :: 0 <= j < |table| && j != i ==> table[j].id != table[i].id
    ensures var (found, after) := ToggleCompletion(table, table[i].id, table[i].user, now);
      && found
      && after[i].completed == !table[i].completed
      && (after[i].completedAt.Some? <==> after[i].completed)
      && (after[i].completed ==> after[i].completedAt == Some(now))
  {
    assert FirstLive(table, table[i].id, table[i].user) == i;
  }

  /** Two toggles give back the original status. */
  lemma ToggleTwiceRestoresStatus(table: seq<Todo>, i: nat, now: string, later: string)
    requires i < |table| && !table[i].deleted
    requires forall j :: 0 <= j < |table| && j != i ==> table[j].id != table[i].id
    ensures var once := ToggleCompletion(table, table[i].id, table[i].user, now).1;
      ToggleCompletion(once, table[i].id, table[i].user, later).1[i].completed == table[i].completed
  {
    ToggleFlips(table, i, now);
    var once := ToggleCompletion(table, table[i].id, table[i].user, now).1;
    assert once[i].id == table[i].id && once[i].user == table[i].user && !once[i].deleted;
    forall j | 0 <= j < |once| && j != i ensures once[j].id != once[i].id {
      assert once[j].id == table[j].id;
    }
    ToggleFlips(once, i, later);
  }

  // ---------------------------------------------------------------------
  // get_todos_by_status.
  // ---------------------------------------------------------------------

  datatype Bucket = Overdue | DueToday | Upcoming | Someday | Completed

  /** The branch a todo takes in `get_todos_by_status`: completed first, then
      a truthy due date compared with today as strings, else someday. */
  function Classify(t: Todo, today: string): (b: Bucket)
    ensures t.completed <==> b == Completed
    ensures b == Someday <==> !t.completed && !Truthy(t.dueDate)
    ensures b == Overdue <==> !t.completed && Truthy(t.dueDate) && LexLess(t.dueDate.value, today)
    ensures b == DueToday <==> !t.completed && Truthy(t.dueDate) && t.dueDate.value == today
  {
    LexLessIrreflexive(today);
    if t.completed then Completed
    else if Truthy(t.dueDate) then
      if LexLess(t.dueDate.value, today) then Overdue
      else if t.dueDate.value == today then DueToday
      else Upcoming
    else Someday
  }

  lemma LexLessIrreflexive(a: string)
    ensures !LexLess(a, a)
  {
  }

  function Classifier(today: string): Todo -> Bucket {
    (t: Todo) => Classify(t, today)
  }

  /** The dict `get_todos_by_status` returns. */
  datatype Organized = Organized(overdue: seq<Todo>, today: seq<Todo>, upcoming: seq<Todo>, someday: seq<Todo>, completed: seq<Todo>)

  /** The bucket of `o` named `b`. */
  function BucketOf(o: Organized, b: Bucket): seq<Todo> {
    match b
    case Overdue => o.overdue
    case DueToday => o.today
    case Upcoming => o.upcoming
    case Someday => o.someday
    case Completed => o.completed
  }

  const BUCKETS: seq<Bucket> := [Overdue, DueToday, Upcoming, Someday, Completed]

  /** Every bucket of `r` holds exactly the todos of `todos` that take its
      branch, in their original order. */
  predicate Organizes(r: Organized, todos: seq<Todo>, today: string) {
    && r.overdue == Select(todos, Classifier(today), Overdue)
    && r.today == Select(todos, Classifier(today), DueToday)
    && r.upcoming == Select(todos, Classifier(today), Upcoming)
    && r.someday == Select(todos, Classifier(today), Someday)
    && r.completed == Select(todos, Classifier(today), Completed)
  }

  /** `Todo.get_todos_by_status` over the user's live todos in query order:
      each todo is appended to the bucket of its branch. */
  method GetTodosByStatus(todos: seq<Todo>, today: string) returns (r: Organized)
    ensures Organizes(r, todos, today)
  {
    var key := Classifier(today);
    r := Organized([], [], [], [], []);
    var i := 0;
    while i < |todos|
      invariant 0 <= i <= |todos|
      invariant Organizes(r, todos[..i], today)
    {
      var t := todos[i];
      assert todos[..i + 1] == todos[..i] + [t];
      SelectSnoc(todos[..i], t, key, Overdue);
      SelectSnoc(todos[..i], t, key, DueToday);
      SelectSnoc(todos[..i], t, key, Upcoming);
      SelectSnoc(todos[..i], t, key, Someday);
      SelectSnoc(todos[..i], t, key, Completed);
      var b := Classify(t, today);
      assert key(t) == b;
      if b == Completed {
        r := r.(completed := r.completed + [t]);
      } else if b == Overdue {
        r := r.(overdue := r.overdue + [t]);
      } else if b == DueToday {
        r := r.(today := r.today + [t]);
      } else if b == Upcoming {
        r := r.(upcoming := r.upcoming + [t]);
      } else {
        r := r.(someday := r.someday + [t]);
      }
      i := i + 1;
    }
    assert todos[..|todos|] == todos;
  }

  /** The buckets partition the todos: their sizes add up to the number of
      todos. */
  lemma BucketsPartition(todos: seq<Todo>, today: string, r: Organized)
    requires Organizes(r, todos, today)
    ensures |r.overdue| + |r.today| + |r.upcoming| + |r.someday| + |r.completed| == |todos|
  {
    BucketSizes(todos, Classifier(today));
  }

  lemma BucketSizes(todos: seq<Todo>, key: Todo -> Bucket)
    ensures |Select(todos, key, Overdue)| + |Select(todos, key, DueToday)| + |Select(todos, key, Upcoming)|
            + |Select(todos, key, Someday)| + |Select(todos, key, Completed)| == |todos|
  {
    assert Distinct(BUCKETS);
    SelectPartition(todos, key, BUCKETS);
    forall i | 0 <= i < |todos| ensures key(todos[i]) in BUCKETS {
      var b := key(todos[i]);
      assert b == BUCKETS[0] || b == BUCKETS[1] || b == BUCKETS[2] || b == BUCKETS[3] || b == BUCKETS[4];
    }
    CountKeyInAll(todos, key, BUCKETS);
    var t := BUCKETS;
    assert t[1..][1..][1..][1..][1..] == [];
  }

  /** Each bucket keeps the query order of its todos. */
  lemma BucketsKeepOrder(todos: seq<Todo>, today: string, r: Organized, b: Bucket)
    requires Organizes(r, todos, today)
    ensures forall i, j :: 0 <= i < j < |BucketOf(r, b)| ==> ComesBefore(todos, BucketOf(r, b)[i], BucketOf(r, b)[j])
  {
    assert BucketOf(r, b) == Select(todos, Classifier(today), b);
    SelectKeepsOrder(todos, Classifier(today), b);
  }

  /** A completed todo lands in `completed` whatever its due date. */
  lemma CompletedIgnoresDueDate(t: Todo, today: string, due: Option<string>)
    requires t.completed
    ensures Classify(t.(dueDate := due), today) == Completed
  {
  }

  // ---------------------------------------------------------------------
  // get_stats.
  // ---------------------------------------------------------------------

  /** The four counters the stats query selects; each may come back NULL. */
  datatype RawStats = RawStats(total: Option<int>, completed: Option<int>, overdue: Option<int>, dueToday: Option<int>)

  datatype Stats = Stats(total: int, completed: int, overdue: int, dueToday: int)

  /** The normalisation at the end of `get_stats`: a missing row is all zeros,
      a NULL counter is 0. */
  function NormaliseStats(raw: Option<RawStats>): (r: Stats)
    ensures raw.None? ==> r == Stats(0, 0, 0, 0)
    ensures raw.Some? ==> r == Stats(OrZero(raw.value.total), OrZero(raw.value.completed),
                                     OrZero(raw.value.overdue), OrZero(raw.value.dueToday))
  {
    match raw
    case None => Stats(0, 0, 0, 0)
    case Some(s) => Stats(OrZero(s.total), OrZero(s.completed), OrZero(s.overdue), OrZero(s.dueToday))
  }

  /** SQL's `completed = 0 AND due_date < date('now')`: NULL never compares. */
  function SqlOverdue(today: string): Todo -> bool {
    (t: Todo) => !t.completed && t.dueDate.Some? && LexLess(t.dueDate.value, today)
  }

  function SqlDueToday(today: string): Todo -> bool {
    (t: Todo) => !t.completed && t.dueDate.Some? && t.dueDate.value == today
  }

  function IsCompleted(): Todo -> bool {
    (t: Todo) => t.completed
  }

  /** `get_stats` over the user's live todos. `utcToday` is SQLite's
      `date('now')`, the UTC date, which the buckets do not use. */
  function GetStats(todos: seq<Todo>, utcToday: string): (r: Stats)
    ensures r.completed + r.overdue + r.dueToday <= r.total == |todos|
    ensures 0 <= r.completed && 0 <= r.overdue && 0 <= r.dueToday
    ensures r.completed == CountWhere(todos, IsCompleted())
    ensures r.overdue == CountWhere(todos, SqlOverdue(utcToday))
    ensures r.dueToday == CountWhere(todos, SqlDueToday(utcToday))
  {
    var raw := RawStats(Some(|todos|), Some(CountWhere(todos, IsCompleted())),
                        Some(CountWhere(todos, SqlOverdue(utcToday))), Some(CountWhere(todos, SqlDueToday(utcToday))));
    CountsDisjoint(todos, utcToday);
    NormaliseStats(Some(raw))
  }

  lemma {:induction false} CountsDisjoint(todos: seq<Todo>, today: string)
    ensures CountWhere(todos, IsCompleted()) + CountWhere(todos, SqlOverdue(today)) + CountWhere(todos, SqlDueToday(today)) <= |todos|
    decreases |todos|
  {
    if todos != [] {
      CountsDisjoint(todos[..|todos| - 1], today);
      var t := todos[|todos| - 1];
      if t.dueDate.Some? {
        LexLessIrreflexive(t.dueDate.value);
      }
    }
  }

  /** When no due date is the empty string, the three SQL counts are the
      sizes of the matching buckets computed against the same date. */
  lemma {:induction false} CountsMatchBuckets(todos: seq<Todo>, today: string)
    requires forall i :: 0 <= i < |todos| ==> todos[i].dueDate != Some("")
    ensures CountWhere(todos, IsCompleted()) == |Select(todos, Classifier(today), Completed)|
    ensures CountWhere(todos, SqlOverdue(today)) == |Select(todos, Classifier(today), Overdue)|
    ensures CountWhere(todos, SqlDueToday(today)) == |Select(todos, Classifier(today), DueToday)|
    decreases |todos|
  {
    if todos != [] {
      var init := todos[..|todos| - 1];
      var t := todos[|todos| - 1];
      assert todos == init + [t];
      CountsMatchBuckets(init, today);
      SelectSnoc(init, t, Classifier(today), Completed);
      SelectSnoc(init, t, Classifier(today), Overdue);
      SelectSnoc(init, t, Classifier(today), DueToday);
    }
  }

  /** On a day when SQLite's UTC date is the local date, and when no due date
      is the empty string, the statistics' counters are the sizes of the
      completed, overdue and due-today buckets. */
  lemma StatsMatchBuckets(todos: seq<Todo>, utcToday: string, localToday: string)
    requires utcToday == localToday
    requires forall i :: 0 <= i < |todos| ==> todos[i].dueDate != Some("")
    ensures forall r :: Organizes(r, todos, localToday) ==>
      && GetStats(todos, utcToday).completed == |r.completed|
      && GetStats(todos, utcToday).overdue == |r.overdue|
      && GetStats(todos, utcToday).dueToday == |r.today|
  {
    CountsMatchBuckets(todos, localToday);
  }

  /** When the two clocks disagree, a todo due on the local date is in the
      due-today bucket but is not counted as due today by the statistics. */
  lemma ClocksDisagree()
    ensures var t := Todo(1, 1, "t", None, "medium", Some("2025-01-02"), None, false, None, false);
      && GetStats([t], "2025-01-01").dueToday == 0
      && Select([t], Classifier("2025-01-02"), DueToday) == [t]
  {
    var t := Todo(1, 1, "t", None, "medium", Some("2025-01-02"), None, false, None, false);
    assert [t][..0] == [];
    assert Classify(t, "2025-01-02") == DueToday;
    assert Select([t], Classifier("2025-01-02"), DueToday) == [t];
  }

  /** An empty due date is where they part: SQL counts it as overdue (every
      date sorts after ""), the bucketing treats it as no date. */
  lemma EmptyDueDateDisagrees(today: string, t: Todo)
    requires today != "" && !t.completed && t.dueDate == Some("")
    ensures CountWhere([t], SqlOverdue(today)) == 1
    ensures Classify(t, today) == Someday
  {
    assert [t][..0] == [];
  }
}
