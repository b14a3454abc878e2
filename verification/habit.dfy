/** The habit rules (`models/habit.py`): the current streak, toggling
    today's completion and the day's points. Dates are day numbers (the
    ordinal of `datetime.date`), so "yesterday" is `today - 1`; completions
    are the `(habit_id, completion_date)` pairs of `habit_completions`, a set
    because the table holds that pair UNIQUE. */
module Habits {
  import opened Common

  /** A row of `habits`. */
  datatype Habit = Habit(id: int, user: int, name: string, description: Option<string>, points: int)

  /** `(habit_id, completion_date)`. */
  type Completions = set<(int, int)>

  // ---------------------------------------------------------------------
  // calculate_streak: as written and as intended.
  // ---------------------------------------------------------------------

  /** How many of the days `start`, `start - 1`, ... are completed in a row,
      looking at no more than `limit` days. */
  function Run(days: seq<int>, start: int, limit: nat): (n: nat)
    ensures n <= limit
    decreases limit
  {
    if limit == 0 || start !in days then 0 else 1 + Run(days, start - 1, limit - 1)
  }

  /** The run really is a run: its days are all present and it stops at the
      first gap or at the limit. */
  lemma {:induction false} RunIsMaximal(days: seq<int>, start: int, limit: nat)
    ensures var n := Run(days, start, limit);
      (forall d :: start - n < d <= start ==> d in days) && (n == limit || start - n !in days)
    decreases limit
  {
    if limit > 0 && start in days {
      RunIsMaximal(days, start - 1, limit - 1);
    }
  }

  /** `calculate_streak` over the habit's completion dates: 0 with no
      completions, 0 when neither today nor yesterday is completed, else the
      run counted from today, at most one day per completion row. */
  function Streak(days: seq<int>, today: int): (n: nat)
    ensures n <= |days|
    ensures today !in days ==> n == 0
  {
    if |days| == 0 then 0
    else if today !in days && today - 1 !in days then 0
    else Run(days, today, |days|)
  }

  /** The loop of lines 189-194. */
  method CalculateStreak(days: seq<int>, today: int) returns (streak: nat)
    ensures streak <= |days|
    ensures forall d :: today - streak < d <= today ==> d in days
    ensures streak == |days| || today - streak !in days
    ensures streak == Streak(days, today)
  {
    if |days| == 0 {
      return 0;
    }
    if today !in days && today - 1 !in days {
      return 0;
    }
    streak := 0;
    var i := 0;
    while i < |days|
      invariant 0 <= i <= |days| && streak == i
      invariant forall d :: today - i < d <= today ==> d in days
      invariant Run(days, today, |days|) == i + Run(days, today - i, |days| - i)
    {
      var expected := today - i;
      if expected in days {
        streak := streak + 1;
      } else {
        break;
      }
      i := i + 1;
    }
  }

  /** As written, a habit completed yesterday but not yet today has streak 0:
      the yesterday test of line 185 lets the loop start, and the loop stops
      at once on today. */
  lemma YesterdayOnlyGivesZero(today: int)
    ensures Streak([today - 1], today) == 0
    ensures StreakFixed([today - 1], today) == 1
  {
  }

  /** The streak as the yesterday test evidently means it: a streak that
      reaches yesterday is still current until today ends, so counting starts
      from yesterday when today is not completed yet. */
  function StreakFixed(days: seq<int>, today: int): (n: nat)
    ensures n <= |days|
  {
    if |days| == 0 then 0
    else if today in days then Run(days, today, |days|)
    else if today - 1 in days then Run(days, today - 1, |days|)
    else 0
  }

  /** The corrected streak agrees with the source once today is completed,
      counts a run ending yesterday, and is 0 exactly when neither day is
      completed. */
  lemma StreakFixedSpec(days: seq<int>, today: int)
    ensures today in days ==> StreakFixed(days, today) == Streak(days, today)
    ensures today !in days && today - 1 in days ==> StreakFixed(days, today) == Run(days, today - 1, |days|) >= 1
    ensures StreakFixed(days, today) == 0 <==> today !in days && today - 1 !in days
  {
  }

  // ---------------------------------------------------------------------
  // toggle_completion.
  // ---------------------------------------------------------------------

  predicate Owns(habits: seq<Habit>, id: int, user: int) {
    exists i :: 0 <= i < |habits| && habits[i].id == id && habits[i].user == user
  }

  /** `toggle_completion`: None for a habit the user does not own; otherwise
      today's completion is removed if present, added if not, and the new
      state is returned. */
  function ToggleCompletion(habits: seq<Habit>, comps: Completions, id: int, user: int, today: int): (r: (Option<bool>, Completions))
    ensures r.0.None? <==> !Owns(habits, id, user)
    ensures r.0.None? ==> r.1 == comps
    ensures r.0.Some? ==> (r.0.value <==> (id, today) in r.1) && (r.0.value <==> (id, today) !in comps)
    ensures forall p :: p != (id, today) ==> (p in r.1 <==> p in comps)
  {
    if !Owns(habits, id, user) then (None, comps)
    else if (id, today) in comps then (Some(false), comps - {(id, today)})
    else (Some(true), comps + {(id, today)})
  }

  lemma ToggleTwiceRestores(habits: seq<Habit>, comps: Completions, id: int, user: int, today: int)
    ensures var once := ToggleCompletion(habits, comps, id, user, today);
      var twice := ToggleCompletion(habits, once.1, id, user, today);
      twice.1 == comps && (once.0.Some? ==> twice.0 == Some(!once.0.value))
  {
    var once := ToggleCompletion(habits, comps, id, user, today);
    var twice := ToggleCompletion(habits, once.1, id, user, today);
    assert forall p :: p in twice.1 <==> p in comps;
  }

  // ---------------------------------------------------------------------
  // get_daily_points.
  // ---------------------------------------------------------------------

  predicate DoneOn(h: Habit, comps: Completions, user: int, day: int) {
    h.user == user && (h.id, day) in comps
  }

  /** The rows of the join `habits h JOIN habit_completions hc` for this user
      and day; each habit row meets at most one completion. */
  function Joined(habits: seq<Habit>, comps: Completions, user: int, day: int): (r: seq<Habit>)
    ensures |r| <= |habits|
    ensures forall h :: h in r <==> h in habits && DoneOn(h, comps, user, day)
  {
    if habits == [] then []
    else (if DoneOn(habits[0], comps, user, day) then [habits[0]] else []) + Joined(habits[1..], comps, user, day)
  }

  function SumPoints(hs: seq<Habit>): int {
    if hs == [] then 0 else hs[0].points + SumPoints(hs[1..])
  }

  /** `SUM(h.points)`: NULL over no rows. */
  function SqlSum(hs: seq<Habit>): (r: Option<int>)
    ensures r.None? <==> hs == []
  {
    if hs == [] then None else Some(SumPoints(hs))
  }

  /** `get_daily_points`: `total_points or 0`. */
  function GetDailyPoints(habits: seq<Habit>, comps: Completions, user: int, today: int): (r: int)
    ensures (forall h :: h in habits && DoneOn(h, comps, user, today) ==> h.points >= 0) ==> r >= 0
    ensures (forall h :: h in habits ==> !DoneOn(h, comps, user, today)) ==> r == 0
  {
    var joined := Joined(habits, comps, user, today);
    NonNegativeSum(joined);
    assert joined != [] ==> joined[0] in joined;
    OrZero(SqlSum(joined))
  }

  lemma {:induction false} NonNegativeSum(hs: seq<Habit>)
    ensures (forall h :: h in hs ==> h.points >= 0) ==> SumPoints(hs) >= 0
  {
    if hs != [] {
      NonNegativeSum(hs[1..]);
      assert forall h :: h in hs[1..] ==> h in hs;
    }
  }

  /** The points of the user's habit rows with this id (one row, as ids are
      keys). */
  function PointsOfHabit(habits: seq<Habit>, id: int, user: int): int {
    if habits == [] then 0
    else (if habits[0].id == id && habits[0].user == user then habits[0].points else 0) + PointsOfHabit(habits[1..], id, user)
  }

  /** Adding one completion for today raises the join's sum by exactly that
      habit's points. */
  lemma {:induction false} AddCompletionSum(habits: seq<Habit>, comps: Completions, id: int, user: int, today: int)
    requires (id, today) !in comps
    ensures SumPoints(Joined(habits, comps + {(id, today)}, user, today))
      == SumPoints(Joined(habits, comps, user, today)) + PointsOfHabit(habits, id, user)
  {
    if habits != [] {
      AddCompletionSum(habits[1..], comps, id, user, today);
      var h := habits[0];
      var before := Joined(habits[1..], comps, user, today);
      var after := Joined(habits[1..], comps + {(id, today)}, user, today);
      if DoneOn(h, comps, user, today) {
        assert ([h] + before)[1..] == before;
        assert ([h] + after)[1..] == after;
      } else if DoneOn(h, comps + {(id, today)}, user, today) {
        assert ([h] + after)[1..] == after;
        assert Joined(habits, comps, user, today) == [] + before == before;
      } else {
        assert Joined(habits, comps, user, today) == [] + before == before;
        assert Joined(habits, comps + {(id, today)}, user, today) == [] + after == after;
      }
    }
  }

  /** Completing a habit today adds its points to the day's total, and
      un-completing it takes them away again. */
  lemma ToggleMovesDailyPoints(habits: seq<Habit>, comps: Completions, id: int, user: int, today: int)
    ensures var r := ToggleCompletion(habits, comps, id, user, today);
      (r.0 == Some(true) ==>
        GetDailyPoints(habits, r.1, user, today) == GetDailyPoints(habits, comps, user, today) + PointsOfHabit(habits, id, user))
      && (r.0 == Some(false) ==>
        GetDailyPoints(habits, r.1, user, today) == GetDailyPoints(habits, comps, user, today) - PointsOfHabit(habits, id, user))
  {
    var r := ToggleCompletion(habits, comps, id, user, today);
    if r.0 == Some(true) {
      AddCompletionSum(habits, comps, id, user, today);
    } else if r.0 == Some(false) {
      var before := comps - {(id, today)};
      AddCompletionSum(habits, before, id, user, today);
      assert before + {(id, today)} == comps;
    }
  }
}
