/** The birthday model (`models/birthday.py`): the next-birthday rule, the
    upcoming list (filter by days ahead, sort by days until), and what
    `create_birthday` and `update_birthday` write. `today` is a parameter; a
    stored `birth_date` is the text the row holds, parsed as `strptime`
    parses it. */
module Birthdays {
  import opened Common
  import opened Encryption
  import opened Preferences
  import opened BaseEncrypted
  import opened Dates

  /** `Birthday.ENCRYPTED_FIELDS`. */
  const BIRTHDAY_FIELDS: Mapping := [("name", "name"), ("notes", "notes")]

  lemma BirthdayFieldsIdentity()
    ensures IdentityMapping(BIRTHDAY_FIELDS)
    ensures Names(BIRTHDAY_FIELDS) == {"name", "notes"}
  {
    assert BIRTHDAY_FIELDS[0].0 == "name" && BIRTHDAY_FIELDS[1].0 == "notes";
  }

  // ---------------------------------------------------------------------
  // The next birthday, as written and with a leap-day fallback.
  // ---------------------------------------------------------------------

  predicate IsLeapDay(d: Date) {
    d.month == 2 && d.day == 29
  }

  /** `d.replace(year=y)`: raises ValueError when the day does not exist in
      that year or the year is out of range. */
  function Replace(d: Date, y: int): (r: Result<Date>)
    requires ValidDate(d)
    ensures r.Ok? <==> MIN_YEAR <= y <= MAX_YEAR && !(IsLeapDay(d) && !IsLeap(y))
    ensures r.Ok? ==> ValidDate(r.value) && r.value == Date(y, d.month, d.day)
  {
    var c := Date(y, d.month, d.day);
    if y < MIN_YEAR || y > MAX_YEAR then Err("year is out of range")
    else if !ValidDate(c) then Err("day is out of range for month")
    else Ok(c)
  }

  /** Lines 44-51 and 83-88: this year's anniversary if it is not before
      today, otherwise next year's; either `replace` may raise. */
  function NextBirthday(birth: Date, today: Date): (r: Result<Date>)
    requires ValidDate(birth) && ValidDate(today)
    ensures r.Ok? ==> ValidDate(r.value) && !Before(r.value, today)
    ensures r.Ok? ==> r.value.month == birth.month && r.value.day == birth.day
    ensures r.Ok? ==> r.value.year == today.year || r.value.year == today.year + 1
    ensures r.Ok? && r.value.year == today.year + 1 ==> Before(Date(today.year, birth.month, birth.day), today)
    ensures r.Err? <==>
      (IsLeapDay(birth) && (!IsLeap(today.year) || Before(Date(today.year, 2, 29), today)))
      || (today.year == MAX_YEAR && Before(Date(today.year, birth.month, birth.day), today))
  {
    match Replace(birth, today.year)
    case Err(e) => Err(e)
    case Ok(c) => if !Before(c, today) then Ok(c) else Replace(birth, today.year + 1)
  }

  /** The day a birthday falls on in year `y` when a leap day falls back to
      28 February in common years. */
  function Anniversary(birth: Date, y: int): (r: Date)
    requires ValidDate(birth) && MIN_YEAR <= y <= MAX_YEAR
    ensures ValidDate(r) && r.year == y && r.month == birth.month
    ensures r.day == birth.day || (IsLeapDay(birth) && !IsLeap(y) && r.day == 28)
  {
    if IsLeapDay(birth) && !IsLeap(y) then Date(y, 2, 28) else Date(y, birth.month, birth.day)
  }

  /** The next birthday with the leap-day fallback: it fails only when next
      year would be past year 9999. */
  function NextBirthdayFixed(birth: Date, today: Date): (r: Result<Date>)
    requires ValidDate(birth) && ValidDate(today)
    ensures r.Ok? ==> ValidDate(r.value) && !Before(r.value, today)
    ensures r.Ok? ==> (r.value == Anniversary(birth, today.year)
      || (today.year < MAX_YEAR && r.value == Anniversary(birth, today.year + 1) && Before(Anniversary(birth, today.year), today)))
    ensures r.Err? <==> today.year == MAX_YEAR && Before(Anniversary(birth, today.year), today)
  {
    var c := Anniversary(birth, today.year);
    if !Before(c, today) then Ok(c)
    else if today.year < MAX_YEAR then Ok(Anniversary(birth, today.year + 1))
    else Err("year is out of range")
  }

  lemma BeforeIsTotal(a: Date, b: Date)
    ensures Before(a, b) || a == b || Before(b, a)
  {
  }

  /** The next birthday is the earliest anniversary that is not before today. */
  lemma NextBirthdayIsEarliest(birth: Date, today: Date, a: Date)
    requires ValidDate(birth) && ValidDate(today) && NextBirthday(birth, today).Ok?
    requires ValidDate(a) && a.month == birth.month && a.day == birth.day && !Before(a, today)
    ensures !Before(a, NextBirthday(birth, today).value)
  {
  }

  /** Where the source succeeds, the fallback version agrees with it. */
  lemma FixedAgreesWhereWrittenSucceeds(birth: Date, today: Date)
    requires ValidDate(birth) && ValidDate(today) && NextBirthday(birth, today).Ok?
    ensures NextBirthdayFixed(birth, today) == NextBirthday(birth, today)
  {
  }

  /** Someone born on 29 February 2000, asked about on 1 June 2025: the source
      raises, the fallback answers 28 February 2026. */
  lemma LeapDayBirthdayRaises()
    ensures NextBirthday(Date(2000, 2, 29), Date(2025, 6, 1)).Err?
    ensures NextBirthdayFixed(Date(2000, 2, 29), Date(2025, 6, 1)) == Ok(Date(2026, 2, 28))
  {
  }

  /** Even in a leap year the source raises once the leap day has passed,
      because next year's `replace` fails. */
  lemma LeapDayRaisesAfterItPasses()
    ensures NextBirthday(Date(2000, 2, 29), Date(2024, 3, 1)).Err?
  {
  }

  /** `(next_birthday - today).days`. */
  function DaysUntil(next: Date, today: Date): (n: int)
    requires ValidDate(next) && ValidDate(today) && !Before(next, today)
    ensures n >= 0
    ensures n == 0 <==> next == today
  {
    NotBeforeOrdinal(next, today);
    DaysBetween(next, today)
  }

  // ---------------------------------------------------------------------
  // The per-row loop shared by get_user_birthdays and get_upcoming_birthdays.
  // ---------------------------------------------------------------------

  /** A stored row and the text of its `birth_date` column. */
  datatype BirthdayRecord = BirthdayRecord(data: Row, birthDate: string)

  /** A displayed row with `next_birthday` and `days_until`. Only
      `get_upcoming_birthdays` puts `days_until` into its dicts; the loop
      both listings share computes it for every row, and
      `get_user_birthdays` leaves it unused. */
  datatype Entry = Entry(data: Row, next: Date, daysUntil: int)

  /** Lines 44-51 and 81-88 for one stored text: `strptime` or one of the
      `replace` calls raises. */
  predicate BirthdayRaises(text: string, today: Date, fallback: bool)
    requires ValidDate(today)
  {
    ParseIsoDate(text).Err? || NextFor(ParseIsoDate(text).value, today, fallback).Err?
  }

  /** Which next-birthday rule a listing uses: the source's or the fallback. */
  function NextFor(birth: Date, today: Date, fallback: bool): (r: Result<Date>)
    requires ValidDate(birth) && ValidDate(today)
    ensures r.Ok? ==> ValidDate(r.value) && !Before(r.value, today)
  {
    if fallback then NextBirthdayFixed(birth, today) else NextBirthday(birth, today)
  }

  /** One iteration: display-decrypt the row, parse its birth date,
      compute its next birthday. */
  function EntryFor(f: Fernet, store: Store, s: Session, rec: BirthdayRecord, today: Date, fallback: bool): (r: Result<Entry>)
    requires ValidDate(today)
    ensures r.Err? <==> BirthdayRaises(rec.birthDate, today, fallback)
    ensures r.Ok? ==> (r.value.next == NextFor(ParseIsoDate(rec.birthDate).value, today, fallback).value
      && r.value.daysUntil == DaysUntil(r.value.next, today)
      && r.value.data == ProcessFieldsForDisplay(f, store, s, rec.data, "birthdays", BIRTHDAY_FIELDS))
  {
    match ParseIsoDate(rec.birthDate)
    case Err(e) => Err(e)
    case Ok(birth) =>
      match NextFor(birth, today, fallback)
      case Err(e) => Err(e)
      case Ok(next) =>
        Ok(Entry(ProcessFieldsForDisplay(f, store, s, rec.data, "birthdays", BIRTHDAY_FIELDS), next, DaysUntil(next, today)))
  }

  /** The loop over all rows: a row whose `strptime` or `replace` raises
      aborts the call. */
  function Entries(f: Fernet, store: Store, s: Session, rows: seq<BirthdayRecord>, today: Date, fallback: bool): (r: Result<seq<Entry>>)
    requires ValidDate(today)
    ensures r.Ok? ==> |r.value| == |rows|
  {
    Collect(seq(|rows|, i requires 0 <= i < |rows| => EntryFor(f, store, s, rows[i], today, fallback)))
  }

  /** The loop succeeds exactly when every row does, and then lists each
      row's entry at the row's position. */
  lemma EntriesSpec(f: Fernet, store: Store, s: Session, rows: seq<BirthdayRecord>, today: Date, fallback: bool)
    requires ValidDate(today)
    ensures var r := Entries(f, store, s, rows, today, fallback);
      (r.Ok? ==> forall i :: 0 <= i < |rows| ==> EntryFor(f, store, s, rows[i], today, fallback) == Ok(r.value[i]))
      && (r.Err? <==> exists i :: 0 <= i < |rows| && EntryFor(f, store, s, rows[i], today, fallback).Err?)
  {
    CollectSpec(seq(|rows|, i requires 0 <= i < |rows| => EntryFor(f, store, s, rows[i], today, fallback)));
  }

  /** `get_user_birthdays` after the query: every row in order, or the
      ValueError of the first row whose `strptime` or `replace` raises. */
  function GetUserBirthdays(f: Fernet, store: Store, s: Session, rows: seq<BirthdayRecord>, today: Date): (r: Result<seq<Entry>>)
    requires ValidDate(today)
    ensures r.Ok? ==> |r.value| == |rows|
  {
    Entries(f, store, s, rows, today, false)
  }

  /** Each listed row carries the next birthday of its parsed birth date,
      which is not before today; the listing raises exactly when some row's
      text does not parse or its next birthday raises. */
  lemma GetUserBirthdaysSpec(f: Fernet, store: Store, s: Session, rows: seq<BirthdayRecord>, today: Date)
    requires ValidDate(today)
    ensures var r := GetUserBirthdays(f, store, s, rows, today);
      (r.Ok? ==> forall i :: 0 <= i < |rows| ==>
        && ParseIsoDate(rows[i].birthDate).Ok?
        && NextBirthday(ParseIsoDate(rows[i].birthDate).value, today) == Ok(r.value[i].next)
        && !Before(r.value[i].next, today))
      && (r.Err? <==> exists i :: 0 <= i < |rows| && BirthdayRaises(rows[i].birthDate, today, false))
  {
    EntriesSpec(f, store, s, rows, today, false);
  }

  /** One leap-day birthday in a common year makes the whole listing raise,
      whatever the other rows hold; the fallback answers unless some stored
      text does not parse or next year is past 9999. */
  lemma OneLeapDayBreaksTheList(f: Fernet, store: Store, s: Session, rows: seq<BirthdayRecord>, today: Date, i: nat)
    requires ValidDate(today) && i < |rows|
    requires ParseIsoDate(rows[i].birthDate).Ok? && IsLeapDay(ParseIsoDate(rows[i].birthDate).value) && !IsLeap(today.year)
    ensures GetUserBirthdays(f, store, s, rows, today).Err?
    ensures || Entries(f, store, s, rows, today, true).Ok?
            || today.year == MAX_YEAR
            || exists j :: 0 <= j < |rows| && ParseIsoDate(rows[j].birthDate).Err?
  {
    GetUserBirthdaysSpec(f, store, s, rows, today);
    assert BirthdayRaises(rows[i].birthDate, today, false);
    EntriesSpec(f, store, s, rows, today, true);
    if Entries(f, store, s, rows, today, true).Err? && today.year < MAX_YEAR {
      var j :| 0 <= j < |rows| && EntryFor(f, store, s, rows[j], today, true).Err?;
    }
  }

  /** A stored `birth_date` that `strptime` rejects makes both listings
      raise, with either next-birthday rule. */
  lemma MalformedDateBreaksTheList(f: Fernet, store: Store, s: Session, rows: seq<BirthdayRecord>, today: Date,
                                   daysAhead: int, fallback: bool, i: nat)
    requires ValidDate(today) && i < |rows| && ParseIsoDate(rows[i].birthDate).Err?
    ensures GetUserBirthdays(f, store, s, rows, today).Err?
    ensures GetUpcomingBirthdays(f, store, s, rows, today, daysAhead, fallback).Err?
  {
    EntriesSpec(f, store, s, rows, today, false);
    EntriesSpec(f, store, s, rows, today, fallback);
    assert EntryFor(f, store, s, rows[i], today, false).Err?;
    assert EntryFor(f, store, s, rows[i], today, fallback).Err?;
  }

  // ---------------------------------------------------------------------
  // get_upcoming_birthdays: filter, then sort by days until.
  // ---------------------------------------------------------------------

  /** The filter of line 94 as a key: `days_until <= days_ahead`. */
  function WithinDays(daysAhead: int): Entry -> bool {
    (e: Entry) => e.daysUntil <= daysAhead
  }

  predicate SortedByDays(s: seq<Entry>) {
    forall i, j :: 0 <= i < j < |s| ==> s[i].daysUntil <= s[j].daysUntil
  }

  /** Insert `e` before the first element with at least its key. */
  function Insert(e: Entry, s: seq<Entry>): (r: seq<Entry>)
    ensures multiset(r) == multiset(s) + multiset{e}
    decreases |s|
  {
    if s == [] || e.daysUntil <= s[0].daysUntil then [e] + s
    else
      assert s == [s[0]] + s[1..];
      [s[0]] + Insert(e, s[1..])
  }

  lemma {:induction false} InsertKeepsSorted(e: Entry, s: seq<Entry>)
    requires SortedByDays(s)
    ensures SortedByDays(Insert(e, s))
    decreases |s|
  {
    if s != [] && e.daysUntil > s[0].daysUntil {
      var rest := Insert(e, s[1..]);
      assert SortedByDays(s[1..]);
      InsertKeepsSorted(e, s[1..]);
      assert s == [s[0]] + s[1..];
      forall j | 0 <= j < |rest| ensures s[0].daysUntil <= rest[j].daysUntil {
        assert rest[j] in multiset(rest);
        if rest[j] != e {
          assert rest[j] in multiset(s[1..]);
          var k :| 0 <= k < |s[1..]| && s[1..][k] == rest[j];
          assert s[k + 1] == rest[j];
        }
      }
      assert Insert(e, s) == [s[0]] + rest;
    } else if s != [] {
      assert Insert(e, s) == [e] + s;
    }
  }

  function DaysKey(): Entry -> int {
    (e: Entry) => e.daysUntil
  }

  /** Inserting `e` puts it ahead of the entries with the same days until,
      and moves no other entry past another. */
  lemma {:induction false} InsertSelect(e: Entry, s: seq<Entry>, d: int)
    ensures Select(Insert(e, s), DaysKey(), d) == (if e.daysUntil == d then [e] else []) + Select(s, DaysKey(), d)
    decreases |s|
  {
    if s == [] || e.daysUntil <= s[0].daysUntil {
      assert Insert(e, s) == [e] + s;
      SelectCons(e, s, DaysKey(), d);
    } else {
      InsertSelect(e, s[1..], d);
      assert s == [s[0]] + s[1..];
      assert Insert(e, s) == [s[0]] + Insert(e, s[1..]);
      SelectPast(s[0], e, Insert(e, s[1..]), s[1..], d);
    }
  }

  /** The step of `InsertSelect` where `e` goes past an entry `x` with
      fewer days until. */
  lemma SelectPast(x: Entry, e: Entry, inserted: seq<Entry>, rest: seq<Entry>, d: int)
    requires e.daysUntil > x.daysUntil
    requires Select(inserted, DaysKey(), d) == (if e.daysUntil == d then [e] else []) + Select(rest, DaysKey(), d)
    ensures Select([x] + inserted, DaysKey(), d)
      == (if e.daysUntil == d then [e] else []) + Select([x] + rest, DaysKey(), d)
  {
    var key := DaysKey();
    SelectCons(x, inserted, key, d);
    SelectCons(x, rest, key, d);
    var h0 := if x.daysUntil == d then [x] else [];
    var he := if e.daysUntil == d then [e] else [];
    SwapEmpty(h0, he, Select(rest, key, d));
  }

  lemma SwapEmpty<T>(a: seq<T>, b: seq<T>, c: seq<T>)
    requires a == [] || b == []
    ensures a + (b + c) == b + (a + c)
  {
    if a == [] {
      assert a + (b + c) == b + c == b + (a + c);
    } else {
      assert a + (b + c) == a + c == b + (a + c);
    }
  }

  /** One step of the sort keeps the entries of each days value in input
      order. */
  lemma SortStep(x: Entry, rest: seq<Entry>, sorted: seq<Entry>)
    requires forall d :: Select(sorted, DaysKey(), d) == Select(rest, DaysKey(), d)
    ensures forall d :: Select(Insert(x, sorted), DaysKey(), d) == Select([x] + rest, DaysKey(), d)
  {
    forall d
      ensures Select(Insert(x, sorted), DaysKey(), d) == Select([x] + rest, DaysKey(), d)
    {
      InsertSelect(x, sorted, d);
      SelectCons(x, rest, DaysKey(), d);
    }
  }

  /** `list.sort(key=days_until)` as an insertion sort: a sorted permutation,
      and stable, since entries with equal days until keep their input
      order. */
  function SortByDays(s: seq<Entry>): (r: seq<Entry>)
    ensures multiset(r) == multiset(s)
    ensures SortedByDays(r)
    ensures forall d :: Select(r, DaysKey(), d) == Select(s, DaysKey(), d)
    decreases |s|
  {
    if s == [] then []
    else
      assert s == [s[0]] + s[1..];
      InsertKeepsSorted(s[0], SortByDays(s[1..]));
      SortStep(s[0], s[1..], SortByDays(s[1..]));
      Insert(s[0], SortByDays(s[1..]))
  }

  /** `get_upcoming_birthdays` after the query: the entries within
      `daysAhead` days, sorted; it raises exactly when some row's text does
      not parse or its next birthday raises. */
  function GetUpcomingBirthdays(f: Fernet, store: Store, s: Session, rows: seq<BirthdayRecord>, today: Date, daysAhead: int,
                                fallback: bool): (r: Result<seq<Entry>>)
    requires ValidDate(today)
    ensures r.Err? <==> Entries(f, store, s, rows, today, fallback).Err?
    ensures r.Err? <==> exists i :: 0 <= i < |rows| && BirthdayRaises(rows[i].birthDate, today, fallback)
    ensures r.Ok? ==> SortedByDays(r.value)
  {
    EntriesSpec(f, store, s, rows, today, fallback);
    match Entries(f, store, s, rows, today, fallback)
    case Err(e) => Err(e)
    case Ok(es) => Ok(SortByDays(Select(es, WithinDays(daysAhead), true)))
  }

  /** Every listed birthday is between today and `daysAhead` days away. */
  lemma UpcomingWithinRange(f: Fernet, store: Store, s: Session, rows: seq<BirthdayRecord>, today: Date, daysAhead: int,
                            fallback: bool)
    requires ValidDate(today)
    ensures var r := GetUpcomingBirthdays(f, store, s, rows, today, daysAhead, fallback);
      r.Ok? ==> forall e :: e in r.value ==> 0 <= e.daysUntil <= daysAhead
  {
    EntriesSpec(f, store, s, rows, today, fallback);
    var r := GetUpcomingBirthdays(f, store, s, rows, today, daysAhead, fallback);
    if r.Ok? {
      var es := Entries(f, store, s, rows, today, fallback).value;
      var kept := Select(es, WithinDays(daysAhead), true);
      forall e | e in r.value ensures 0 <= e.daysUntil <= daysAhead {
        assert e in multiset(kept);
        var k :| 0 <= k < |kept| && kept[k] == e;
        assert WithinDays(daysAhead)(kept[k]);
        assert e in es;
        var i :| 0 <= i < |es| && es[i] == e;
        assert EntryFor(f, store, s, rows[i], today, fallback) == Ok(e);
      }
    }
  }

  /** Every row is listed exactly when its birthday is within `daysAhead`
      days, once per row. */
  lemma UpcomingKeepsExactlyTheNearOnes(f: Fernet, store: Store, s: Session, rows: seq<BirthdayRecord>, today: Date,
                                        daysAhead: int, fallback: bool)
    requires ValidDate(today)
    requires Entries(f, store, s, rows, today, fallback).Ok?
    ensures var es := Entries(f, store, s, rows, today, fallback).value;
      multiset(GetUpcomingBirthdays(f, store, s, rows, today, daysAhead, fallback).value)
        == multiset(Select(es, WithinDays(daysAhead), true))
    ensures forall i :: 0 <= i < |rows| ==>
      var e := Entries(f, store, s, rows, today, fallback).value[i];
      (e.daysUntil <= daysAhead <==> e in GetUpcomingBirthdays(f, store, s, rows, today, daysAhead, fallback).value)
  {
    EntriesSpec(f, store, s, rows, today, fallback);
    var es := Entries(f, store, s, rows, today, fallback).value;
    var kept := Select(es, WithinDays(daysAhead), true);
    var r := GetUpcomingBirthdays(f, store, s, rows, today, daysAhead, fallback).value;
    assert r == SortByDays(kept);
    forall i | 0 <= i < |rows|
      ensures es[i].daysUntil <= daysAhead <==> es[i] in r
    {
      var e := es[i];
      if e.daysUntil <= daysAhead {
        assert WithinDays(daysAhead)(e);
        assert e in kept;
        assert e in multiset(r);
      }
    }
  }

  /** With the leap-day fallback the upcoming list answers before year
      9999 exactly when every stored text parses. */
  lemma UpcomingFallbackAnswers(f: Fernet, store: Store, s: Session, rows: seq<BirthdayRecord>, today: Date, daysAhead: int)
    requires ValidDate(today) && today.year < MAX_YEAR
    ensures GetUpcomingBirthdays(f, store, s, rows, today, daysAhead, true).Ok?
      <==> forall i :: 0 <= i < |rows| ==> ParseIsoDate(rows[i].birthDate).Ok?
  {
    EntriesSpec(f, store, s, rows, today, true);
    if forall i :: 0 <= i < |rows| ==> ParseIsoDate(rows[i].birthDate).Ok? {
      forall i | 0 <= i < |rows| ensures EntryFor(f, store, s, rows[i], today, true).Ok? {
        assert NextBirthdayFixed(ParseIsoDate(rows[i].birthDate).value, today).Ok?;
      }
    } else {
      var i :| 0 <= i < |rows| && ParseIsoDate(rows[i].birthDate).Err?;
      assert EntryFor(f, store, s, rows[i], today, true).Err?;
    }
  }

  // ---------------------------------------------------------------------
  // create_birthday and update_birthday.
  // ---------------------------------------------------------------------

  /** The columns `create_birthday` inserts and `update_birthday` sets. */
  datatype BirthdayColumns = BirthdayColumns(name: string, birthDate: string, relationship: Option<string>, notes: Option<string>)

  /** Lines 158-172 (and 183-195): the name is stripped, notes become their
      stripped text or "", both pass through storage, empty notes are stored
      as NULL; the relationship is stripped only when truthy and is not
      encrypted; the birth date is stored as given. */
  function PrepareBirthday(f: Fernet, store: Store, s: Session, name: string, birthDate: string,
                           relationship: Option<string>, notes: Option<string>): (r: BirthdayColumns)
    ensures r.birthDate == birthDate
    ensures r.relationship.None? <==> !Truthy(relationship)
    ensures r.relationship.Some? ==> r.relationship.value == Strip(relationship.value)
    ensures r.name == EncryptFieldIfNeeded(f, store, s, Strip(name), "birthdays", "name")
    ensures r.notes == EmptyToNone(EncryptFieldIfNeeded(f, store, s, if Truthy(notes) then Strip(notes.value) else "", "birthdays", "notes"))
  {
    var data := map["name" := Text(Strip(name)), "notes" := Text(if Truthy(notes) then Strip(notes.value) else "")];
    var stored := ProcessFieldsForStorage(f, store, s, data, "birthdays", BIRTHDAY_FIELDS);
    BirthdayFieldsIdentity();
    StorageByColumn(f, store, s, data, "birthdays", BIRTHDAY_FIELDS);
    BirthdayColumns(stored["name"].s, birthDate, if Truthy(relationship) then Some(Strip(relationship.value)) else None,
                    EmptyToNone(stored["notes"].s))
  }

  /** Reading back what was written gives the stripped inputs; notes are
      NULL exactly when they were falsy or only whitespace. */
  lemma PrepareBirthdayRoundTrip(f: Fernet, store: Store, s: Session, name: string, birthDate: string,
                                 relationship: Option<string>, notes: Option<string>)
    requires Lawful(f) && Active(s) && f.validKey(s.key.value)
    ensures var r := PrepareBirthday(f, store, s, name, birthDate, relationship, notes);
      && DecryptFieldIfNeeded(f, store, s, r.name, "birthdays", "name") == Strip(name)
      && (r.notes.None? <==> !Truthy(notes) || Strip(notes.value) == "")
      && (r.notes.Some? ==> DecryptFieldIfNeeded(f, store, s, r.notes.value, "birthdays", "notes") == Strip(notes.value))
  {
    var n := if Truthy(notes) then Strip(notes.value) else "";
    FieldRoundTrip(f, store, s, Strip(name), "birthdays", "name");
    FieldRoundTrip(f, store, s, n, "birthdays", "notes");
    assert (EncryptFieldIfNeeded(f, store, s, n, "birthdays", "notes") == "") <==> n == "";
  }

  /** A whitespace-only relationship is stored as "" rather than NULL. */
  lemma BlankRelationshipIsNotNull(f: Fernet, store: Store, s: Session, name: string, birthDate: string, notes: Option<string>)
    ensures PrepareBirthday(f, store, s, name, birthDate, Some("  "), notes).relationship == Some("")
  {
    var blank := "  ";
    assert IsSpace(blank[0]) && IsSpace(blank[1]);
    StripAllSpace(blank);
  }

  // ---------------------------------------------------------------------
  // Display.
  // ---------------------------------------------------------------------

  /** Display rewrites `name` and `notes` and no other column. */
  lemma DisplayTouchesOnlyNameAndNotes(f: Fernet, store: Store, s: Session, data: Row)
    ensures var r := ProcessFieldsForDisplay(f, store, s, data, "birthdays", BIRTHDAY_FIELDS);
      r.Keys == data.Keys
      && (forall k :: k in data && k != "name" && k != "notes" ==> r[k] == data[k])
      && (forall k :: k in data && (k == "name" || k == "notes") ==> r[k] == DisplayedValue(f, store, s, data[k], "birthdays", k))
  {
    BirthdayFieldsIdentity();
    DisplayByColumn(f, store, s, data, "birthdays", BIRTHDAY_FIELDS);
  }
}
