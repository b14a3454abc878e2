/** The watchlist model (`models/watchlist.py`): status buckets, the UPDATE
    statement `update_watchlist_item` assembles clause by clause, and the
    fixed updates of `create_watchlist_item`, `mark_as_completed` and
    `update_episode_progress`. A row is a map from column to SQL value;
    `CURRENT_DATE` is the parameter `today`. */
module Watchlist {
  import opened Common

  datatype SqlValue = SqlNull | Str(s: string) | Num(n: int)

  /** A `watchlist` row. */
  type WatchRow = map<string, SqlValue>

  function Col(row: WatchRow, c: string): SqlValue {
    if c in row then row[c] else SqlNull
  }

  const WATCHING: string := "watching"
  const WANT_TO_WATCH: string := "want_to_watch"
  const COMPLETED: string := "completed"

  /** The statuses `get_watchlist_by_status` has a bucket for. */
  const STATUSES: seq<SqlValue> := [Str(WATCHING), Str(WANT_TO_WATCH), Str(COMPLETED)]

  // ---------------------------------------------------------------------
  // get_watchlist_by_status.
  // ---------------------------------------------------------------------

  datatype ByStatus = ByStatus(watching: seq<WatchRow>, wantToWatch: seq<WatchRow>, completed: seq<WatchRow>)

  function StatusKey(): WatchRow -> SqlValue {
    (row: WatchRow) => Col(row, "status")
  }

  /** Each item goes to the bucket of its status, in query order; an item
      with any other status is in no bucket. */
  function GetWatchlistByStatus(items: seq<WatchRow>): (r: ByStatus)
    ensures forall x :: x in r.watching ==> x in items && Col(x, "status") == Str(WATCHING)
    ensures forall x :: x in r.wantToWatch ==> x in items && Col(x, "status") == Str(WANT_TO_WATCH)
    ensures forall x :: x in r.completed ==> x in items && Col(x, "status") == Str(COMPLETED)
    ensures forall i :: 0 <= i < |items| && Col(items[i], "status") == Str(WATCHING) ==> items[i] in r.watching
    ensures forall i :: 0 <= i < |items| && Col(items[i], "status") == Str(WANT_TO_WATCH) ==> items[i] in r.wantToWatch
    ensures forall i :: 0 <= i < |items| && Col(items[i], "status") == Str(COMPLETED) ==> items[i] in r.completed
  {
    var key := StatusKey();
    ByStatus(Select(items, key, Str(WATCHING)), Select(items, key, Str(WANT_TO_WATCH)), Select(items, key, Str(COMPLETED)))
  }

  /** The buckets together hold exactly the items with a known status, each
      once, and keep their query order. */
  lemma ByStatusPartition(items: seq<WatchRow>)
    ensures var r := GetWatchlistByStatus(items);
      |r.watching| + |r.wantToWatch| + |r.completed| == CountKeyIn(items, StatusKey(), STATUSES)
    ensures var r := GetWatchlistByStatus(items);
      forall i, j :: 0 <= i < j < |r.watching| ==> ComesBefore(items, r.watching[i], r.watching[j])
    ensures var r := GetWatchlistByStatus(items);
      forall i, j :: 0 <= i < j < |r.wantToWatch| ==> ComesBefore(items, r.wantToWatch[i], r.wantToWatch[j])
    ensures var r := GetWatchlistByStatus(items);
      forall i, j :: 0 <= i < j < |r.completed| ==> ComesBefore(items, r.completed[i], r.completed[j])
  {
    var key := StatusKey();
    assert Distinct(STATUSES);
    SelectPartition(items, key, STATUSES);
    var t := STATUSES;
    assert t[1..][1..][1..] == [];
    SelectKeepsOrder(items, key, Str(WATCHING));
    SelectKeepsOrder(items, key, Str(WANT_TO_WATCH));
    SelectKeepsOrder(items, key, Str(COMPLETED));
  }

  /** When every item has a known status, nothing is dropped. */
  lemma ByStatusKeepsAllKnown(items: seq<WatchRow>)
    requires forall i :: 0 <= i < |items| ==> Col(items[i], "status") in STATUSES
    ensures var r := GetWatchlistByStatus(items);
      |r.watching| + |r.wantToWatch| + |r.completed| == |items|
  {
    ByStatusPartition(items);
    CountKeyInAll(items, StatusKey(), STATUSES);
  }

  // ---------------------------------------------------------------------
  // The UPDATE statement and what it does to a row.
  // ---------------------------------------------------------------------

  /** One entry of the SET list: a bound parameter, `CURRENT_DATE` or `NULL`. */
  datatype Assignment = Bind(column: string, value: SqlValue) | CurrentDate(column: string) | SetNull(column: string)

  /** The text of one SET entry. */
  function Render(a: Assignment): string {
    match a
    case Bind(c, _) => c + " = ?"
    case CurrentDate(c) => c + " = CURRENT_DATE"
    case SetNull(c) => c + " = NULL"
  }

  /** `', '.join(...)`. */
  function JoinComma(parts: seq<string>): string
    decreases |parts|
  {
    if parts == [] then "" else if |parts| == 1 then parts[0] else parts[0] + ", " + JoinComma(parts[1..])
  }

  function RenderAll(sets: seq<Assignment>): (r: seq<string>)
    ensures |r| == |sets|
    ensures forall i :: 0 <= i < |sets| ==> r[i] == Render(sets[i])
  {
    if sets == [] then [] else [Render(sets[0])] + RenderAll(sets[1..])
  }

  const UPDATE_HEAD: string := "UPDATE watchlist SET "
  const WHERE_ID: string := " WHERE id = "
  const AND_USER: string := " AND user_id = "

  /** The statement of lines 145-149. */
  function UpdateQuery(sets: seq<Assignment>): string {
    UPDATE_HEAD + JoinComma(RenderAll(sets)) + WHERE_ID + "?" + AND_USER + "?"
  }

  /** The bound parameters of the SET list, in order. */
  function SetParams(sets: seq<Assignment>): (r: seq<SqlValue>)
    ensures |r| <= |sets|
  {
    if sets == [] then [] else (if sets[0].Bind? then [sets[0].value] else []) + SetParams(sets[1..])
  }

  /** The parameter list of line 143: the SET parameters, then id and user. */
  function UpdateParams(sets: seq<Assignment>, id: int, user: int): seq<SqlValue> {
    SetParams(sets) + [Num(id), Num(user)]
  }

  /** Number of `?` in a string. */
  function Marks(s: string): nat {
    multiset(s)['?']
  }

  /** A column name without `?`, as every column the builder names is. */
  predicate PlainColumn(c: string) {
    '?' !in c
  }

  lemma MarksOfPlain(s: string)
    requires '?' !in s
    ensures Marks(s) == 0
  {
    assert '?' !in multiset(s);
  }

  lemma RenderMarks(a: Assignment)
    requires PlainColumn(a.column)
    ensures Marks(Render(a)) == if a.Bind? then 1 else 0
  {
    MarksOfPlain(a.column);
    match a
    case Bind(c, _) =>
      assert Marks(" = ?") == 1;
    case CurrentDate(c) =>
      MarksOfPlain(" = CURRENT_DATE");
    case SetNull(c) =>
      MarksOfPlain(" = NULL");
  }

  lemma {:induction false} JoinMarks(sets: seq<Assignment>)
    requires forall i :: 0 <= i < |sets| ==> PlainColumn(sets[i].column)
    ensures Marks(JoinComma(RenderAll(sets))) == |SetParams(sets)|
    decreases |sets|
  {
    if sets != [] {
      RenderMarks(sets[0]);
      JoinMarks(sets[1..]);
      assert RenderAll(sets)[1..] == RenderAll(sets[1..]);
      MarksOfPlain(", ");
    }
  }

  /** Whatever SET list is built from plain column names, the statement has
      exactly as many placeholders as parameters, the two of WHERE included. */
  lemma PlaceholdersMatchParams(sets: seq<Assignment>, id: int, user: int)
    requires forall i :: 0 <= i < |sets| ==> PlainColumn(sets[i].column)
    ensures Marks(UpdateQuery(sets)) == |UpdateParams(sets, id, user)|
  {
    JoinMarks(sets);
    FrameMarks(JoinComma(RenderAll(sets)));
  }

  /** The text around the SET list adds the two placeholders of WHERE. */
  lemma FrameMarks(body: string)
    ensures Marks(UPDATE_HEAD + body + WHERE_ID + "?" + AND_USER + "?") == Marks(body) + 2
  {
    FixedTextIsPlain();
    var s0 := UPDATE_HEAD + body;
    var s1 := s0 + WHERE_ID;
    var s2 := s1 + "?";
    var s3 := s2 + AND_USER;
    MarksConcat(UPDATE_HEAD, body);
    MarksConcat(s0, WHERE_ID);
    MarksConcat(s1, "?");
    MarksConcat(s2, AND_USER);
    MarksConcat(s3, "?");
  }

  /** The fixed text around the SET list holds no placeholder of its own. */
  lemma FixedTextIsPlain()
    ensures Marks(UPDATE_HEAD) == 0 && Marks(WHERE_ID) == 0 && Marks(AND_USER) == 0 && Marks("?") == 1
  {
    HeadIsPlain();
    WhereIsPlain();
    AndIsPlain();
    MarksOfPlain(UPDATE_HEAD);
    MarksOfPlain(WHERE_ID);
    MarksOfPlain(AND_USER);
  }

  lemma HeadIsPlain() ensures '?' !in UPDATE_HEAD {}
  lemma WhereIsPlain() ensures '?' !in WHERE_ID {}
  lemma AndIsPlain() ensures '?' !in AND_USER {}

  lemma MarksConcat(a: string, b: string)
    ensures Marks(a + b) == Marks(a) + Marks(b)
  {
    assert multiset(a + b) == multiset(a) + multiset(b);
  }

  /** What one SET entry does to a row. */
  function Assign(row: WatchRow, a: Assignment, today: string): (r: WatchRow)
    ensures r.Keys == row.Keys + {a.column}
  {
    match a
    case Bind(c, v) => row[c := v]
    case CurrentDate(c) => row[c := Str(today)]
    case SetNull(c) => row[c := SqlNull]
  }

  /** The value an entry writes. */
  function Written(a: Assignment, today: string): SqlValue {
    match a
    case Bind(_, v) => v
    case CurrentDate(_) => Str(today)
    case SetNull(_) => SqlNull
  }

  /** The SET list applied to a matching row, left to right. */
  function Execute(row: WatchRow, sets: seq<Assignment>, today: string): WatchRow
    decreases |sets|
  {
    if sets == [] then row else Execute(Assign(row, sets[0], today), sets[1..], today)
  }

  function ColumnsOf(sets: seq<Assignment>): (r: seq<string>)
    ensures |r| == |sets|
    ensures forall i :: 0 <= i < |sets| ==> r[i] == sets[i].column
  {
    if sets == [] then [] else [sets[0].column] + ColumnsOf(sets[1..])
  }

  /** With no column named twice, each named column ends up with the value
      its entry writes, and every other column is left as it was. */
  lemma {:induction false} ExecuteDistinct(row: WatchRow, sets: seq<Assignment>, today: string)
    requires Distinct(ColumnsOf(sets))
    ensures forall i :: 0 <= i < |sets| ==> Col(Execute(row, sets, today), sets[i].column) == Written(sets[i], today)
    ensures forall c :: c !in ColumnsOf(sets) ==> Col(Execute(row, sets, today), c) == Col(row, c)
    decreases |sets|
  {
    if sets != [] {
      var next := Assign(row, sets[0], today);
      var tail := sets[1..];
      assert ColumnsOf(tail) == ColumnsOf(sets)[1..];
      assert Distinct(ColumnsOf(tail)) by {
        forall i, j | 0 <= i < j < |ColumnsOf(tail)| ensures ColumnsOf(tail)[i] != ColumnsOf(tail)[j] {
          assert ColumnsOf(tail)[i] == ColumnsOf(sets)[i + 1];
          assert ColumnsOf(tail)[j] == ColumnsOf(sets)[j + 1];
        }
      }
      ExecuteDistinct(next, tail, today);
      assert sets[0].column !in ColumnsOf(tail) by {
        forall j | 0 <= j < |ColumnsOf(tail)| ensures ColumnsOf(tail)[j] != sets[0].column {
          assert ColumnsOf(tail)[j] == ColumnsOf(sets)[j + 1];
        }
      }
      forall i | 0 <= i < |sets| ensures Col(Execute(row, sets, today), sets[i].column) == Written(sets[i], today) {
        if i > 0 {
          assert sets[i] == tail[i - 1];
        }
      }
      forall c | c !in ColumnsOf(sets) ensures Col(Execute(row, sets, today), c) == Col(row, c) {
        assert c != sets[0].column;
        assert ColumnsOf(sets) == [sets[0].column] + ColumnsOf(tail);
      }
    }
  }

  // ---------------------------------------------------------------------
  // update_watchlist_item.
  // ---------------------------------------------------------------------

  /** The keyword arguments of `update_watchlist_item`; `None` is "leave
      this column alone". */
  datatype UpdateArgs = UpdateArgs(
    title: string, itemType: string, genre: Option<string>, status: Option<string>, priority: Option<string>,
    rating: Option<int>, currentEpisode: Option<int>, totalEpisodes: Option<int>, releaseYear: Option<int>,
    notes: Option<string>)

  /** `v.strip() if v else None`. */
  function CleanText(v: string): SqlValue {
    if v != "" then Str(Strip(v)) else SqlNull
  }

  function TextArg(v: Option<string>): Option<SqlValue> {
    if v.Some? then Some(Str(v.value)) else None
  }

  function IntArg(v: Option<int>): Option<SqlValue> {
    if v.Some? then Some(Num(v.value)) else None
  }

  function CleanArg(v: Option<string>): Option<SqlValue> {
    if v.Some? then Some(CleanText(v.value)) else None
  }

  /** `if v is not None: updates.append('column = ?')`. */
  function Slot(column: string, v: Option<SqlValue>): (r: Option<Assignment>)
    ensures r.Some? <==> v.Some?
    ensures r.Some? ==> r.value.column == column
  {
    if v.Some? then Some(Bind(column, v.value)) else None
  }

  /** Lines 113-117: what a status update does to `date_completed`. */
  function DateSlot(status: Option<string>): (r: Option<Assignment>)
    ensures r.Some? ==> r.value.column == "date_completed"
  {
    if status == Some(COMPLETED) then Some(CurrentDate("date_completed"))
    else if status == Some(WANT_TO_WATCH) || status == Some(WATCHING) then Some(SetNull("date_completed"))
    else None
  }

  /** Every column the builder can name, in the order it names them. */
  const UPDATE_COLUMNS: seq<string> := ["title", "type", "genre", "status", "date_completed", "priority", "rating",
                                         "current_episode", "total_episodes", "release_year", "notes"]

  /** Lines 102-141: the entry each column of `UPDATE_COLUMNS` gets, or None
      where the source appends nothing. */
  function Slots(a: UpdateArgs): seq<Option<Assignment>> {
    [Some(Bind("title", Str(Strip(a.title)))), Some(Bind("type", Str(a.itemType))),
     Slot("genre", CleanArg(a.genre)), Slot("status", TextArg(a.status)), DateSlot(a.status),
     Slot("priority", TextArg(a.priority)), Slot("rating", IntArg(a.rating)),
     Slot("current_episode", IntArg(a.currentEpisode)), Slot("total_episodes", IntArg(a.totalEpisodes)),
     Slot("release_year", IntArg(a.releaseYear)), Slot("notes", CleanArg(a.notes))]
  }

  /** The entries that are there, in order. */
  function Present(slots: seq<Option<Assignment>>): (r: seq<Assignment>)
    ensures |r| <= |slots|
  {
    if slots == [] then [] else (if slots[0].Some? then [slots[0].value] else []) + Present(slots[1..])
  }

  /** The `updates` list `update_watchlist_item` builds: each entry names
      one of the builder's columns, and no column twice. */
  function BuildUpdate(a: UpdateArgs): (r: seq<Assignment>)
    ensures forall i :: 0 <= i < |r| ==> r[i].column in UPDATE_COLUMNS
    ensures Distinct(ColumnsOf(r))
  {
    SlotsOfUpdate(a);
    PresentColumns(Slots(a), UPDATE_COLUMNS);
    PresentDistinct(Slots(a), UPDATE_COLUMNS);
    Present(Slots(a))
  }

  /** Slot `k` names column `cols[k]` when it is filled. */
  predicate SlotsFit(slots: seq<Option<Assignment>>, cols: seq<string>) {
    |slots| == |cols| && forall k :: 0 <= k < |slots| && slots[k].Some? ==> slots[k].value.column == cols[k]
  }

  lemma SlotsOfUpdate(a: UpdateArgs)
    ensures SlotsFit(Slots(a), UPDATE_COLUMNS) && Distinct(UPDATE_COLUMNS)
    ensures forall k :: 0 <= k < |UPDATE_COLUMNS| ==> PlainColumn(UPDATE_COLUMNS[k])
  {
    UpdateColumnsDistinct();
    UpdateColumnsPlain();
    SlotsFitColumns(a);
  }

  lemma SlotsFitColumns(a: UpdateArgs)
    ensures SlotsFit(Slots(a), UPDATE_COLUMNS)
  {
    var s := Slots(a);
    var c := UPDATE_COLUMNS;
    assert |s| == |c| == 11;
    forall k | 0 <= k < 11 && s[k].Some? ensures s[k].value.column == c[k] {
      if k < 4 {
        assert k == 0 || k == 1 || k == 2 || k == 3;
      } else if k < 8 {
        assert k == 4 || k == 5 || k == 6 || k == 7;
      } else {
        assert k == 8 || k == 9 || k == 10;
      }
    }
  }

  lemma UpdateColumnsDistinct()
    ensures Distinct(UPDATE_COLUMNS)
  {
  }

  lemma UpdateColumnsPlain()
    ensures forall k :: 0 <= k < |UPDATE_COLUMNS| ==> PlainColumn(UPDATE_COLUMNS[k])
  {
  }

  /** The entries present are exactly the filled slots. */
  lemma {:induction false} PresentMembers(slots: seq<Option<Assignment>>)
    ensures forall x :: x in Present(slots) <==> Some(x) in slots
    decreases |slots|
  {
    if slots != [] {
      PresentMembers(slots[1..]);
      assert slots == [slots[0]] + slots[1..];
    }
  }

  /** Each entry present names the column of its slot. */
  lemma PresentColumns(slots: seq<Option<Assignment>>, cols: seq<string>)
    requires SlotsFit(slots, cols)
    ensures forall i :: 0 <= i < |Present(slots)| ==> Present(slots)[i].column in cols
  {
    PresentMembers(slots);
    var r := Present(slots);
    forall i | 0 <= i < |r| ensures r[i].column in cols {
      assert r[i] in r;
      var k :| 0 <= k < |slots| && slots[k] == Some(r[i]);
    }
  }

  /** The filled slots, in order, name distinct columns. */
  lemma {:induction false} PresentDistinct(slots: seq<Option<Assignment>>, cols: seq<string>)
    requires SlotsFit(slots, cols) && Distinct(cols)
    ensures Distinct(ColumnsOf(Present(slots)))
    decreases |slots|
  {
    if slots != [] {
      var tail := slots[1..];
      var ct := cols[1..];
      assert Distinct(ct) by {
        forall i, j | 0 <= i < j < |ct| ensures ct[i] != ct[j] {
          assert ct[i] == cols[i + 1] && ct[j] == cols[j + 1];
        }
      }
      assert SlotsFit(tail, ct) by {
        forall k | 0 <= k < |tail| && tail[k].Some? ensures tail[k].value.column == ct[k] {
          assert tail[k] == slots[k + 1];
        }
      }
      PresentDistinct(tail, ct);
      PresentColumns(tail, ct);
      var rest := Present(tail);
      if slots[0].Some? {
        var cs := ColumnsOf(Present(slots));
        assert Present(slots) == [slots[0].value] + rest;
        assert cs == [cols[0]] + ColumnsOf(rest);
        forall j | 0 <= j < |rest| ensures rest[j].column != cols[0] {
          var m :| 0 <= m < |ct| && ct[m] == rest[j].column;
          assert cols[m + 1] == rest[j].column;
        }
        forall i, j | 0 <= i < j < |cs| ensures cs[i] != cs[j] {
          assert cs[j] == rest[j - 1].column;
          if i > 0 {
            assert cs[i] == ColumnsOf(rest)[i - 1] && cs[j] == ColumnsOf(rest)[j - 1];
          }
        }
      } else {
        assert Present(slots) == rest;
      }
    }
  }

  /** Executing the filled slots writes column `cols[k]` exactly when slot
      `k` is filled. */
  lemma SlotSemantics(row: WatchRow, slots: seq<Option<Assignment>>, cols: seq<string>, today: string, k: nat)
    requires SlotsFit(slots, cols) && Distinct(cols) && k < |cols|
    ensures Col(Execute(row, Present(slots), today), cols[k]) == if slots[k].Some? then Written(slots[k].value, today) else Col(row, cols[k])
  {
    var sets := Present(slots);
    PresentMembers(slots);
    PresentColumns(slots, cols);
    PresentDistinct(slots, cols);
    ExecuteDistinct(row, sets, today);
    if slots[k].Some? {
      assert Some(slots[k].value) in slots;
      var i :| 0 <= i < |sets| && sets[i] == slots[k].value;
    } else {
      forall i | 0 <= i < |sets| ensures sets[i].column != cols[k] {
        assert sets[i] in sets;
        var k' :| 0 <= k' < |slots| && slots[k'] == Some(sets[i]);
      }
      assert cols[k] !in ColumnsOf(sets);
    }
  }

  /** Columns outside `cols` are never written. */
  lemma OtherColumnsUntouched(row: WatchRow, slots: seq<Option<Assignment>>, cols: seq<string>, today: string)
    requires SlotsFit(slots, cols) && Distinct(cols)
    ensures forall c :: c !in cols ==> Col(Execute(row, Present(slots), today), c) == Col(row, c)
  {
    var sets := Present(slots);
    PresentColumns(slots, cols);
    PresentDistinct(slots, cols);
    ExecuteDistinct(row, sets, today);
    forall c | c !in cols ensures c !in ColumnsOf(sets) {
    }
  }

  /** What `update_watchlist_item` does to a matching row: title (stripped)
      and type always; each optional column exactly when its argument is not
      None, an empty genre or notes becoming NULL; every other column
      untouched. */
  lemma UpdateSemantics(row: WatchRow, a: UpdateArgs, today: string)
    ensures var r := Execute(row, BuildUpdate(a), today);
      && Col(r, "title") == Str(Strip(a.title))
      && Col(r, "type") == Str(a.itemType)
      && Col(r, "genre") == (if a.genre.Some? then CleanText(a.genre.value) else Col(row, "genre"))
      && Col(r, "priority") == (if a.priority.Some? then Str(a.priority.value) else Col(row, "priority"))
      && Col(r, "rating") == (if a.rating.Some? then Num(a.rating.value) else Col(row, "rating"))
      && Col(r, "current_episode") == (if a.currentEpisode.Some? then Num(a.currentEpisode.value) else Col(row, "current_episode"))
      && Col(r, "total_episodes") == (if a.totalEpisodes.Some? then Num(a.totalEpisodes.value) else Col(row, "total_episodes"))
      && Col(r, "release_year") == (if a.releaseYear.Some? then Num(a.releaseYear.value) else Col(row, "release_year"))
      && Col(r, "notes") == (if a.notes.Some? then CleanText(a.notes.value) else Col(row, "notes"))
      && (forall c :: c !in UPDATE_COLUMNS ==> Col(r, c) == Col(row, c))
  {
    var slots := Slots(a);
    SlotsOfUpdate(a);
    SlotSemantics(row, slots, UPDATE_COLUMNS, today, 0);
    SlotSemantics(row, slots, UPDATE_COLUMNS, today, 1);
    SlotSemantics(row, slots, UPDATE_COLUMNS, today, 2);
    SlotSemantics(row, slots, UPDATE_COLUMNS, today, 5);
    SlotSemantics(row, slots, UPDATE_COLUMNS, today, 6);
    SlotSemantics(row, slots, UPDATE_COLUMNS, today, 7);
    SlotSemantics(row, slots, UPDATE_COLUMNS, today, 8);
    SlotSemantics(row, slots, UPDATE_COLUMNS, today, 9);
    SlotSemantics(row, slots, UPDATE_COLUMNS, today, 10);
    OtherColumnsUntouched(row, slots, UPDATE_COLUMNS, today);
  }

  /** The status part: status set when given; `date_completed` set to today
      for completed, cleared for want_to_watch or watching, and otherwise
      left as it was. */
  lemma UpdateStatusSemantics(row: WatchRow, a: UpdateArgs, today: string)
    ensures var r := Execute(row, BuildUpdate(a), today);
      && Col(r, "status") == (if a.status.Some? then Str(a.status.value) else Col(row, "status"))
      && Col(r, "date_completed") == (
        if a.status == Some(COMPLETED) then Str(today)
        else if a.status == Some(WANT_TO_WATCH) || a.status == Some(WATCHING) then SqlNull
        else Col(row, "date_completed"))
  {
    var slots := Slots(a);
    SlotsOfUpdate(a);
    SlotSemantics(row, slots, UPDATE_COLUMNS, today, 3);
    SlotSemantics(row, slots, UPDATE_COLUMNS, today, 4);
  }

  /** The statement `update_watchlist_item` sends binds every placeholder. */
  lemma UpdateStatementIsWellFormed(a: UpdateArgs, id: int, user: int)
    ensures Marks(UpdateQuery(BuildUpdate(a))) == |UpdateParams(BuildUpdate(a), id, user)|
  {
    SlotsOfUpdate(a);
    PresentColumns(Slots(a), UPDATE_COLUMNS);
    PlaceholdersMatchParams(BuildUpdate(a), id, user);
  }

  // ---------------------------------------------------------------------
  // The fixed statements.
  // ---------------------------------------------------------------------

  /** The columns `create_watchlist_item` inserts (lines 81-86): title,
      genre and notes stripped, a falsy genre or notes stored as NULL. */
  function CreateWatchlistItem(title: string, itemType: string, genre: Option<string>, priority: string,
                               totalEpisodes: Option<int>, releaseYear: Option<int>, notes: Option<string>): (r: WatchRow)
    ensures r.Keys == {"title", "type", "genre", "priority", "total_episodes", "release_year", "notes"}
    ensures Col(r, "title") == Str(Strip(title)) && Col(r, "type") == Str(itemType) && Col(r, "priority") == Str(priority)
    ensures Col(r, "genre") == SqlNull <==> !Truthy(genre)
    ensures Col(r, "notes") == SqlNull <==> !Truthy(notes)
    ensures Truthy(genre) ==> Col(r, "genre") == Str(Strip(genre.value))
    ensures Truthy(notes) ==> Col(r, "notes") == Str(Strip(notes.value))
  {
    map["title" := Str(Strip(title)), "type" := Str(itemType),
        "genre" := StrippedOrNull(genre),
        "priority" := Str(priority),
        "total_episodes" := if totalEpisodes.Some? then Num(totalEpisodes.value) else SqlNull,
        "release_year" := if releaseYear.Some? then Num(releaseYear.value) else SqlNull,
        "notes" := StrippedOrNull(notes)]
  }

  /** `x.strip() if x else None`. */
  function StrippedOrNull(x: Option<string>): (r: SqlValue)
    ensures r == SqlNull <==> !Truthy(x)
    ensures Truthy(x) ==> r == Str(Strip(x.value))
  {
    if Truthy(x) then Str(Strip(x.value)) else SqlNull
  }

  /** `mark_as_completed` (lines 169-180) as a SET list: status and date
      always, the rating only when one is given. */
  function MarkAsCompleted(rating: Option<int>): (r: seq<Assignment>)
    ensures ColumnsOf(r) == ["status", "date_completed"] + (if rating.Some? then ["rating"] else [])
  {
    var slots := [Some(Bind("status", Str(COMPLETED))), Some(CurrentDate("date_completed")), Slot("rating", IntArg(rating))];
    var last := if rating.Some? then [Bind("rating", Num(rating.value))] else [];
    assert slots[1..] == [slots[1], slots[2]] && slots[1..][1..] == [slots[2]] && [slots[2]][1..] == [];
    assert Present([slots[2]]) == last;
    assert Present(slots[1..]) == [CurrentDate("date_completed")] + last;
    assert Present(slots) == [Bind("status", Str(COMPLETED)), CurrentDate("date_completed")] + last;
    Present(slots)
  }

  /** Marking completed sets the status and today's date, and touches the
      rating only when one is given. */
  lemma MarkAsCompletedSemantics(row: WatchRow, rating: Option<int>, today: string)
    ensures var r := Execute(row, MarkAsCompleted(rating), today);
      && Col(r, "status") == Str(COMPLETED)
      && Col(r, "date_completed") == Str(today)
      && Col(r, "rating") == (if rating.Some? then Num(rating.value) else Col(row, "rating"))
      && (forall c :: c != "status" && c != "date_completed" && c != "rating" ==> Col(r, c) == Col(row, c))
  {
    var slots := [Some(Bind("status", Str(COMPLETED))), Some(CurrentDate("date_completed")), Slot("rating", IntArg(rating))];
    var cols := ["status", "date_completed", "rating"];
    assert SlotsFit(slots, cols) && Distinct(cols);
    SlotSemantics(row, slots, cols, today, 0);
    SlotSemantics(row, slots, cols, today, 1);
    SlotSemantics(row, slots, cols, today, 2);
    OtherColumnsUntouched(row, slots, cols, today);
  }

  /** `update_episode_progress` (lines 157-161) as a SET list. */
  function UpdateEpisodeProgress(currentEpisode: int): seq<Assignment> {
    [Bind("current_episode", Num(currentEpisode)), Bind("status", Str(WATCHING))]
  }

  /** Recording progress forces the status to watching, whatever it was, and
      leaves `date_completed` as it was. */
  lemma EpisodeProgressForcesWatching(row: WatchRow, currentEpisode: int, today: string)
    ensures var r := Execute(row, UpdateEpisodeProgress(currentEpisode), today);
      && Col(r, "current_episode") == Num(currentEpisode)
      && Col(r, "status") == Str(WATCHING)
      && (forall c :: c != "current_episode" && c != "status" ==> Col(r, c) == Col(row, c))
  {
    var sets := UpdateEpisodeProgress(currentEpisode);
    assert ColumnsOf(sets) == ["current_episode", "status"];
    ExecuteDistinct(row, sets, today);
  }
}
