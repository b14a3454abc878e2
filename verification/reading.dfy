/** The reading list (`models/reading.py`): status buckets with a progress
    percentage, the status and completion updates, soft deletion and the
    statistics. The `reading_list` table is a sequence of rows; every read
    query sees only the user's rows whose `deleted_at` is NULL, and
    `CURRENT_TIMESTAMP` is the parameter `now`, kept to the day. */
module Reading {
  import opened Common
  import opened Dates

  /** A row of `reading_list`. */
  datatype Book = Book(id: int, user: int, title: string, author: string,
                       totalPages: Option<int>, currentPage: Option<int>, status: string,
                       rating: Option<int>, notes: Option<string>,
                       dateCompleted: Option<Date>, updatedAt: Option<Date>, deletedAt: Option<Date>)

  const CURRENTLY_READING: string := "currently_reading"
  const WANT_TO_READ: string := "want_to_read"
  const COMPLETED: string := "completed"

  /** The statuses `get_books_by_status` has a bucket for. */
  const STATUSES: seq<string> := [CURRENTLY_READING, WANT_TO_READ, COMPLETED]

  /** Python truthiness of an optional integer column: NULL and 0 are falsy. */
  predicate IntTruthy(v: Option<int>) {
    v.Some? && v.value != 0
  }

  // ---------------------------------------------------------------------
  // The rows every read query sees.
  // ---------------------------------------------------------------------

  /** `user_id = ? AND deleted_at IS NULL`. */
  function LiveFor(user: int): Book -> bool {
    (b: Book) => b.user == user && b.deletedAt.None?
  }

  /** The user's live rows, in table order. */
  function Visible(table: seq<Book>, user: int): seq<Book> {
    Select(table, LiveFor(user), true)
  }

  /** `id = ? AND user_id = ? AND deleted_at IS NULL`, the row test of every
      single-book statement. */
  predicate Matches(b: Book, id: int, user: int) {
    b.id == id && b.user == user && b.deletedAt.None?
  }

  predicate HasMatch(table: seq<Book>, id: int, user: int) {
    exists i :: 0 <= i < |table| && Matches(table[i], id, user)
  }

  /** `get_by_id`: the first live row with this id and owner. */
  function GetById(table: seq<Book>, id: int, user: int): (r: Option<Book>)
    ensures r.Some? <==> HasMatch(table, id, user)
    ensures r.Some? ==> r.value in table && Matches(r.value, id, user)
    decreases |table|
  {
    if table == [] then None
    else if Matches(table[0], id, user) then Some(table[0])
    else
      var rest := GetById(table[1..], id, user);
      assert HasMatch(table, id, user) ==> HasMatch(table[1..], id, user) by {
        if HasMatch(table, id, user) {
          var i :| 0 <= i < |table| && Matches(table[i], id, user);
          assert table[1..][i - 1] == table[i];
        }
      }
      rest
  }

  /** `get_user_books`: the user's live rows, narrowed to one status when a
      non-empty status is given. */
  function GetUserBooks(table: seq<Book>, user: int, status: Option<string>): (r: seq<Book>)
    ensures forall b :: b in r ==> b in table && LiveFor(user)(b)
    ensures Truthy(status) ==> forall b :: b in r ==> b.status == status.value
    ensures forall i :: (0 <= i < |table| && LiveFor(user)(table[i])
                         && (!Truthy(status) || table[i].status == status.value)) ==> table[i] in r
  {
    var live := Visible(table, user);
    if Truthy(status) then Select(live, (b: Book) => b.status, status.value) else live
  }

  // ---------------------------------------------------------------------
  // get_books_by_status.
  // ---------------------------------------------------------------------

  /** `int(x)` of a quotient: truncation toward zero, also for negative
      operands. */
  function TruncDiv(a: int, b: int): int
    requires b != 0
  {
    var q := (if a < 0 then -a else a) / (if b < 0 then -b else b);
    if (a < 0) != (b < 0) then -q else q
  }

  /** Lines 69-72: `min(100, int(current / total * 100))` when both page
      counts are truthy, else 0, with the quotient taken exactly. */
  function Progress(b: Book): (r: int)
    ensures r <= 100
    ensures !(IntTruthy(b.totalPages) && IntTruthy(b.currentPage)) ==> r == 0
    ensures IntTruthy(b.totalPages) && IntTruthy(b.currentPage) && b.totalPages.value > 0 && b.currentPage.value > 0 ==>
      0 <= r && (b.currentPage.value >= b.totalPages.value ==> r == 100)
      && (b.currentPage.value < b.totalPages.value ==>
            r * b.totalPages.value <= b.currentPage.value * 100 < (r + 1) * b.totalPages.value)
  {
    if IntTruthy(b.totalPages) && IntTruthy(b.currentPage) then
      Min(100, TruncDiv(b.currentPage.value * 100, b.totalPages.value))
    else 0
  }

  /** A book dict with its `progress_percentage`. */
  datatype View = View(book: Book, progress: int)

  function Annotate(books: seq<Book>): seq<View> {
    seq(|books|, i requires 0 <= i < |books| => View(books[i], Progress(books[i])))
  }

  function ViewStatus(): View -> string {
    (v: View) => v.book.status
  }

  datatype ByStatus = ByStatus(currentlyReading: seq<View>, wantToRead: seq<View>, completed: seq<View>)

  /** `bucket` is the bucket of status `st`: books with that status only,
      every live book of the user with that status annotated with its
      progress, in query order. */
  ghost predicate IsBucket(table: seq<Book>, user: int, st: string, bucket: seq<View>) {
    && (forall v :: v in bucket ==> v.book.status == st)
    && (forall b :: b in table && LiveFor(user)(b) && b.status == st ==> View(b, Progress(b)) in bucket)
    && (forall i, j :: 0 <= i < j < |bucket| ==> ComesBefore(Annotate(Visible(table, user)), bucket[i], bucket[j]))
  }

  /** `get_books_by_status`: each live book of the user goes, with its
      progress, to the bucket of its status, in query order; other statuses
      are dropped. */
  function GetBooksByStatus(table: seq<Book>, user: int): (r: ByStatus)
    ensures IsBucket(table, user, CURRENTLY_READING, r.currentlyReading)
    ensures IsBucket(table, user, WANT_TO_READ, r.wantToRead)
    ensures IsBucket(table, user, COMPLETED, r.completed)
  {
    var views := Annotate(Visible(table, user));
    BucketOf(table, user, CURRENTLY_READING);
    BucketOf(table, user, WANT_TO_READ);
    BucketOf(table, user, COMPLETED);
    ByStatus(Select(views, ViewStatus(), CURRENTLY_READING), Select(views, ViewStatus(), WANT_TO_READ),
             Select(views, ViewStatus(), COMPLETED))
  }

  /** Selecting status `st` from the annotated live books gives its bucket. */
  lemma BucketOf(table: seq<Book>, user: int, st: string)
    ensures IsBucket(table, user, st, Select(Annotate(Visible(table, user)), ViewStatus(), st))
  {
    var live := Visible(table, user);
    var views := Annotate(live);
    var bucket := Select(views, ViewStatus(), st);
    forall b | b in table && LiveFor(user)(b) && b.status == st
      ensures View(b, Progress(b)) in bucket
    {
      var i :| 0 <= i < |table| && table[i] == b;
      var j :| 0 <= j < |live| && live[j] == b;
      assert views[j] == View(b, Progress(b));
    }
    SelectKeepsOrder(views, ViewStatus(), st);
  }

  /** Every bucketed book is a live book of the user, carries its own
      progress and that progress is at most 100. */
  lemma BucketsHoldLiveBooks(table: seq<Book>, user: int)
    ensures var r := GetBooksByStatus(table, user);
      forall v :: v in r.currentlyReading + r.wantToRead + r.completed ==>
        v.book in table && LiveFor(user)(v.book) && v.progress == Progress(v.book) <= 100
  {
  }

  /** The buckets together hold exactly the live books whose status is one
      of the three, each once. */
  lemma BooksPartition(table: seq<Book>, user: int)
    ensures var r := GetBooksByStatus(table, user);
      |r.currentlyReading| + |r.wantToRead| + |r.completed|
        == CountKeyIn(Annotate(Visible(table, user)), ViewStatus(), STATUSES)
  {
    var views := Annotate(Visible(table, user));
    var key := ViewStatus();
    assert Distinct(STATUSES);
    SelectPartition(views, key, STATUSES);
    var t := STATUSES;
    assert t[1..][1..][1..] == [];
    assert SumSelected(views, key, t) == |Select(views, key, t[0])| + SumSelected(views, key, t[1..]);
    assert SumSelected(views, key, t[1..]) == |Select(views, key, t[1])| + SumSelected(views, key, t[1..][1..]);
    assert SumSelected(views, key, t[1..][1..]) == |Select(views, key, t[2])| + SumSelected(views, key, t[1..][1..][1..]);
  }

  // ---------------------------------------------------------------------
  // The single-book updates.
  // ---------------------------------------------------------------------

  /** An UPDATE with the single-book WHERE clause: `g` rewrites every
      matching row, and the returned flag is `rowcount > 0`. */
  function UpdateWhere(table: seq<Book>, id: int, user: int, g: Book -> Book): (r: (bool, seq<Book>))
    ensures r.0 <==> HasMatch(table, id, user)
    ensures |r.1| == |table|
    ensures forall i :: 0 <= i < |table| ==> r.1[i] == if Matches(table[i], id, user) then g(table[i]) else table[i]
  {
    (HasMatch(table, id, user),
     seq(|table|, i requires 0 <= i < |table| => if Matches(table[i], id, user) then g(table[i]) else table[i]))
  }

  /** The row rewrite of `update_status`, lines 110-121. */
  function SetStatus(status: string, now: Date): Book -> Book {
    (b: Book) => b.(status := status, dateCompleted := if status == COMPLETED then Some(now) else None,
                    updatedAt := Some(now))
  }

  /** `update_status`: the matching row takes the new status; its completion
      date is set to now for `completed` and cleared for anything else; the
      other columns and all other rows stay. */
  function UpdateStatus(table: seq<Book>, id: int, user: int, status: string, now: Date): (r: (bool, seq<Book>))
    ensures r.0 <==> HasMatch(table, id, user)
    ensures |r.1| == |table|
    ensures forall i :: 0 <= i < |table| && Matches(table[i], id, user) ==>
      r.1[i].status == status && (r.1[i].dateCompleted == Some(now) <==> status == COMPLETED)
      && (status != COMPLETED ==> r.1[i].dateCompleted.None?)
      && r.1[i].(status := table[i].status, dateCompleted := table[i].dateCompleted, updatedAt := table[i].updatedAt)
         == table[i]
    ensures forall i :: 0 <= i < |table| && !Matches(table[i], id, user) ==> r.1[i] == table[i]
  {
    UpdateWhere(table, id, user, SetStatus(status, now))
  }

  /** The row rewrite of `mark_completed`, lines 149-154. */
  function Complete(pages: Option<int>, rating: Option<int>, now: Date): Book -> Book {
    (b: Book) => b.(status := COMPLETED, currentPage := pages, rating := rating,
                    dateCompleted := Some(now), updatedAt := Some(now))
  }

  /** `mark_completed`: False when the book is not there; otherwise the row
      is completed, rated with the given rating (None included) and its
      current page set to the total, or NULL when the total is falsy. */
  function MarkCompleted(table: seq<Book>, id: int, user: int, rating: Option<int>, now: Date): (r: (bool, seq<Book>))
    ensures r.0 <==> HasMatch(table, id, user)
    ensures !r.0 ==> r.1 == table
    ensures |r.1| == |table|
    ensures forall i :: 0 <= i < |table| && !Matches(table[i], id, user) ==> r.1[i] == table[i]
  {
    match GetById(table, id, user)
    case None => (false, table)
    case Some(book) =>
      var pages := if IntTruthy(book.totalPages) then book.totalPages else None;
      UpdateWhere(table, id, user, Complete(pages, rating, now))
  }

  /** After `mark_completed` the book reads back completed, with its rating,
      completed today, and at full progress when it has a page count (at 0
      progress otherwise). */
  lemma MarkCompletedReadsBack(table: seq<Book>, id: int, user: int, rating: Option<int>, now: Date)
    requires HasMatch(table, id, user)
    ensures var r := MarkCompleted(table, id, user, rating, now);
      var b := GetById(table, id, user).value;
      var after := GetById(r.1, id, user);
      after.Some? && after.value.status == COMPLETED && after.value.rating == rating
      && after.value.dateCompleted == Some(now)
      && after.value.currentPage == (if IntTruthy(b.totalPages) then b.totalPages else None)
      && Progress(after.value) == (if IntTruthy(b.totalPages) then 100 else 0)
  {
    var b := GetById(table, id, user).value;
    var pages := if IntTruthy(b.totalPages) then b.totalPages else None;
    var r := MarkCompleted(table, id, user, rating, now);
    var i := FirstMatch(table, id, user);
    FirstMatchIsGetById(table, id, user);
    assert r.1 == UpdateWhere(table, id, user, Complete(pages, rating, now)).1;
    assert r.1[i] == Complete(pages, rating, now)(b);
    FirstMatchAfter(table, r.1, id, user, i);
    FullBookProgress(r.1[i]);
  }

  /** A book whose current page is its truthy total is at 100 percent. */
  lemma FullBookProgress(b: Book)
    requires b.currentPage == (if IntTruthy(b.totalPages) then b.totalPages else None)
    ensures Progress(b) == if IntTruthy(b.totalPages) then 100 else 0
  {
    if IntTruthy(b.totalPages) {
      var t := b.totalPages.value;
      var m := if t < 0 then -t else t;
      assert (if t * 100 < 0 then -(t * 100) else t * 100) == m * 100;
      HundredTimesOver(m);
    }
  }

  lemma HundredTimesOver(m: int)
    requires m > 0
    ensures (m * 100) / m == 100
  {
    DivUnique(m * 100, m, 100);
  }

  /** The quotient is the one `q` with `q * b <= a < (q + 1) * b`. */
  lemma DivUnique(a: int, b: int, q: int)
    requires b > 0 && q * b <= a < (q + 1) * b
    ensures a / b == q
  {
    var d := a / b;
    if d < q {
      MulMono(d + 1, q, b);
    } else if d > q {
      MulMono(q + 1, d, b);
    }
  }

  lemma MulMono(x: int, y: int, b: int)
    requires x <= y && b > 0
    ensures x * b <= y * b
  {
    assert y * b - x * b == (y - x) * b;
  }

  /** Position of the first matching row. */
  function FirstMatch(table: seq<Book>, id: int, user: int): (i: nat)
    requires HasMatch(table, id, user)
    ensures i < |table| && Matches(table[i], id, user)
    ensures forall j :: 0 <= j < i ==> !Matches(table[j], id, user)
    decreases |table|
  {
    if Matches(table[0], id, user) then 0
    else
      assert HasMatch(table[1..], id, user) by {
        var k :| 0 <= k < |table| && Matches(table[k], id, user);
        assert table[1..][k - 1] == table[k];
      }
      var j := FirstMatch(table[1..], id, user);
      assert forall m :: 1 <= m <= j ==> table[m] == table[1..][m - 1];
      1 + j
  }

  lemma {:induction false} FirstMatchIsGetById(table: seq<Book>, id: int, user: int)
    requires HasMatch(table, id, user)
    ensures GetById(table, id, user) == Some(table[FirstMatch(table, id, user)])
    decreases |table|
  {
    if !Matches(table[0], id, user) {
      assert HasMatch(table[1..], id, user) by {
        var k :| 0 <= k < |table| && Matches(table[k], id, user);
        assert table[1..][k - 1] == table[k];
      }
      FirstMatchIsGetById(table[1..], id, user);
    }
  }

  /** When the row at `i` still matches after an update that kept the rows
      before it, `get_by_id` finds that row. */
  lemma {:induction false} FirstMatchAfter(table: seq<Book>, after: seq<Book>, id: int, user: int, i: nat)
    requires |after| == |table| && i < |table|
    requires forall j :: 0 <= j < i ==> !Matches(table[j], id, user) && after[j] == table[j]
    requires Matches(after[i], id, user)
    ensures GetById(after, id, user) == Some(after[i])
    decreases i
  {
    if i > 0 {
      assert !Matches(after[0], id, user);
      forall j | 0 <= j < i - 1 ensures !Matches(table[1..][j], id, user) && after[1..][j] == table[1..][j] {
        assert table[1..][j] == table[j + 1] && after[1..][j] == after[j + 1];
      }
      FirstMatchAfter(table[1..], after[1..], id, user, i - 1);
    }
  }

  // ---------------------------------------------------------------------
  // delete: a soft delete.
  // ---------------------------------------------------------------------

  function Stamp(now: Date): Book -> Book {
    (b: Book) => b.(deletedAt := Some(now))
  }

  /** `delete`: stamps `deleted_at` on the matching live row. */
  function Delete(table: seq<Book>, id: int, user: int, now: Date): (r: (bool, seq<Book>))
    ensures r.0 <==> HasMatch(table, id, user)
    ensures |r.1| == |table|
  {
    UpdateWhere(table, id, user, Stamp(now))
  }

  /** After a delete the book is gone from every read: `get_by_id` finds
      nothing, and the user's live rows are the former ones without it. */
  lemma DeleteHides(table: seq<Book>, id: int, user: int, now: Date)
    ensures var r := Delete(table, id, user, now);
      GetById(r.1, id, user).None?
      && forall b :: b in Visible(r.1, user) <==> b in Visible(table, user) && b.id != id
  {
    var r := Delete(table, id, user, now);
    forall b | b in Visible(r.1, user) ensures b in Visible(table, user) && b.id != id {
      var i :| 0 <= i < |r.1| && r.1[i] == b;
      assert !Matches(table[i], id, user);
      assert table[i] == b;
    }
    forall b | b in Visible(table, user) && b.id != id ensures b in Visible(r.1, user) {
      var i :| 0 <= i < |table| && table[i] == b;
      assert r.1[i] == b;
    }
  }

  /** A deleted book cannot be deleted again: the second call reports False
      and changes nothing. */
  lemma DeleteTwice(table: seq<Book>, id: int, user: int, now: Date, later: Date)
    ensures var once := Delete(table, id, user, now);
      Delete(once.1, id, user, later) == (false, once.1)
  {
    var once := Delete(table, id, user, now);
    assert !HasMatch(once.1, id, user);
    var twice := Delete(once.1, id, user, later);
    assert twice.1 == once.1;
  }

  // ---------------------------------------------------------------------
  // get_stats.
  // ---------------------------------------------------------------------

  /** The five columns the statistics query selects; the SUMs are NULL over
      no rows. */
  datatype RawStats = RawStats(total: Option<int>, completed: Option<int>, currentlyReading: Option<int>,
                               wantToRead: Option<int>, completedThisYear: Option<int>)

  datatype Stats = Stats(total: int, completed: int, currentlyReading: int, wantToRead: int, completedThisYear: int)

  /** `x` is what `v or 0` gives for a counter read back as `v`. */
  predicate NullAsZero(v: Option<int>, x: int) {
    (v.None? ==> x == 0) && (v.Some? ==> x == v.value)
  }

  /** Lines 186-197: a missing row is all zeros, a NULL counter is 0. */
  function NormaliseStats(raw: Option<RawStats>): (r: Stats)
    ensures raw.None? ==> r == Stats(0, 0, 0, 0, 0)
    ensures raw.Some? ==> NullAsZero(raw.value.total, r.total) && NullAsZero(raw.value.completed, r.completed)
    ensures raw.Some? ==> NullAsZero(raw.value.currentlyReading, r.currentlyReading)
    ensures raw.Some? ==> NullAsZero(raw.value.wantToRead, r.wantToRead)
    ensures raw.Some? ==> NullAsZero(raw.value.completedThisYear, r.completedThisYear)
  {
    match raw
    case None => Stats(0, 0, 0, 0, 0)
    case Some(s) => Stats(OrZero(s.total), OrZero(s.completed), OrZero(s.currentlyReading),
                          OrZero(s.wantToRead), OrZero(s.completedThisYear))
  }

  function HasStatus(s: string): Book -> bool {
    (b: Book) => b.status == s
  }

  /** `status = 'completed' AND strftime('%Y', date_completed) = strftime('%Y', 'now')`:
      a NULL completion date never matches. */
  function CompletedInYear(year: int): Book -> bool {
    (b: Book) => b.status == COMPLETED && b.dateCompleted.Some? && b.dateCompleted.value.year == year
  }

  /** `SUM(...)` of a 0/1 column: NULL over no rows. */
  function SqlCount(rows: seq<Book>, p: Book -> bool): Option<int> {
    if rows == [] then None else Some(CountWhere(rows, p))
  }

  /** `get_stats` over the user's live books. */
  function GetStats(table: seq<Book>, user: int, now: Date): (r: Stats)
    ensures r.total == |Visible(table, user)|
    ensures r.completed == CountWhere(Visible(table, user), HasStatus(COMPLETED))
    ensures r.currentlyReading == CountWhere(Visible(table, user), HasStatus(CURRENTLY_READING))
    ensures r.wantToRead == CountWhere(Visible(table, user), HasStatus(WANT_TO_READ))
    ensures r.completedThisYear == CountWhere(Visible(table, user), CompletedInYear(now.year))
    ensures r.completed + r.currentlyReading + r.wantToRead <= r.total
    ensures 0 <= r.completedThisYear <= r.completed
    ensures Visible(table, user) == [] ==> r == Stats(0, 0, 0, 0, 0)
  {
    var live := Visible(table, user);
    StatusCountsDisjoint(live);
    CompletedThisYearBound(live, now.year);
    NormaliseStats(Some(RawStats(Some(|live|), SqlCount(live, HasStatus(COMPLETED)),
                                 SqlCount(live, HasStatus(CURRENTLY_READING)), SqlCount(live, HasStatus(WANT_TO_READ)),
                                 SqlCount(live, CompletedInYear(now.year)))))
  }

  lemma {:induction false} StatusCountsDisjoint(books: seq<Book>)
    ensures CountWhere(books, HasStatus(COMPLETED)) + CountWhere(books, HasStatus(CURRENTLY_READING))
      + CountWhere(books, HasStatus(WANT_TO_READ)) <= |books|
    decreases |books|
  {
    if books != [] {
      StatusCountsDisjoint(books[..|books| - 1]);
    }
  }

  lemma {:induction false} CompletedThisYearBound(books: seq<Book>, year: int)
    ensures CountWhere(books, CompletedInYear(year)) <= CountWhere(books, HasStatus(COMPLETED))
    decreases |books|
  {
    if books != [] {
      CompletedThisYearBound(books[..|books| - 1], year);
    }
  }

  /** The statistics agree with the buckets: each status counter is the size
      of that status's bucket. */
  lemma StatsMatchBuckets(table: seq<Book>, user: int, now: Date)
    ensures var s := GetStats(table, user, now);
      var r := GetBooksByStatus(table, user);
      s.completed == |r.completed| && s.currentlyReading == |r.currentlyReading| && s.wantToRead == |r.wantToRead|
  {
    var live := Visible(table, user);
    CountIsBucket(live, COMPLETED);
    CountIsBucket(live, CURRENTLY_READING);
    CountIsBucket(live, WANT_TO_READ);
    if live == [] {
      assert Annotate(live) == [];
    }
  }

  /** A view of a book completed in `year`. */
  function ViewCompletedIn(year: int): View -> bool {
    (v: View) => v.book.dateCompleted.Some? && v.book.dateCompleted.value.year == year
  }

  /** `completed_this_year` counts the entries of the completed bucket whose
      completion date falls in the current year. */
  lemma CompletedThisYearInBucket(table: seq<Book>, user: int, now: Date)
    ensures GetStats(table, user, now).completedThisYear
      == CountWhere(GetBooksByStatus(table, user).completed, ViewCompletedIn(now.year))
  {
    CountThisYear(Visible(table, user), now.year);
  }

  lemma {:induction false} CountThisYear(books: seq<Book>, year: int)
    ensures CountWhere(books, CompletedInYear(year))
      == CountWhere(Select(Annotate(books), ViewStatus(), COMPLETED), ViewCompletedIn(year))
    decreases |books|
  {
    if books == [] {
      assert Annotate(books) == [];
    } else {
      var init := books[..|books| - 1];
      var b := books[|books| - 1];
      CountThisYear(init, year);
      assert books == init + [b];
      assert Annotate(books) == Annotate(init) + [View(b, Progress(b))];
      CountThisYearStep(init, b, Annotate(init), View(b, Progress(b)), year);
    }
  }

  /** One more book: both counts grow together. */
  lemma CountThisYearStep(init: seq<Book>, b: Book, views: seq<View>, v: View, year: int)
    requires v.book == b
    requires CountWhere(init, CompletedInYear(year)) == CountWhere(Select(views, ViewStatus(), COMPLETED), ViewCompletedIn(year))
    ensures CountWhere(init + [b], CompletedInYear(year))
      == CountWhere(Select(views + [v], ViewStatus(), COMPLETED), ViewCompletedIn(year))
  {
    var before := Select(views, ViewStatus(), COMPLETED);
    CountWhereSnoc(init, b, CompletedInYear(year));
    SelectSnoc(views, v, ViewStatus(), COMPLETED);
    if b.status == COMPLETED {
      CountWhereSnoc(before, v, ViewCompletedIn(year));
    } else {
      assert !CompletedInYear(year)(b);
      assert before + [] == before;
      assert Select(views + [v], ViewStatus(), COMPLETED) == before;
    }
  }

  lemma {:induction false} CountIsBucket(books: seq<Book>, s: string)
    ensures CountWhere(books, HasStatus(s)) == |Select(Annotate(books), ViewStatus(), s)|
    decreases |books|
  {
    if books == [] {
      assert Annotate(books) == [];
    } else {
      var init := books[..|books| - 1];
      var b := books[|books| - 1];
      CountIsBucket(init, s);
      assert Annotate(books) == Annotate(init) + [View(b, Progress(b))];
      SelectSnoc(Annotate(init), View(b, Progress(b)), ViewStatus(), s);
    }
  }
}
