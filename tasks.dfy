/** `schedule_daily_reminders`: the daily pass that picks the habits due for
    a reminder and dispatches one reminder job per due habit. The day is a
    parameter, dispatching a job is appending an intent to a sequence, and
    the delivery itself is not part of this model. */
module Tasks {
  import opened Models
  import Serializers

  /** One dispatched reminder job: `send_telegram_reminder.delay(user_id, habit_id)`. */
  datatype Intent = Intent(userId: UserId, habitId: HabitId)

  function IntentFor(h: Habit): Intent {
    Intent(h.owner, h.id)
  }

  /** The rows the pass reads: private habits that are not pleasant. */
  predicate Considered(h: Habit) {
    !h.isPublic && !h.isPleasant
  }

  /** `Habit.objects.filter(is_public=False, is_pleasant=False)`, in table order. */
  function RemindQuery(habits: seq<Habit>): (r: seq<Habit>)
    ensures |r| <= |habits|
    ensures forall h :: h in r <==> h in habits && Considered(h)
  {
    if habits == [] then []
    else (if Considered(habits[0]) then [habits[0]] else []) + RemindQuery(habits[1..])
  }

  /** The due test: the number of days since creation is a multiple of the
      periodicity, so in particular a habit is due on its creation day.
      Python's `%` with a positive divisor is Dafny's
      `%`; with periodicity 0 the source raises, so the test needs at least 1. */
  predicate IsDue(h: Habit, today: int)
    requires h.periodicity >= 1
    ensures IsDue(h, today) <==>
      (today - h.createdDay) / h.periodicity * h.periodicity == today - h.createdDay
    ensures today == h.createdDay ==> IsDue(h, today)
  {
    (today - h.createdDay) % h.periodicity == 0
  }

  /** Every row before index `n` has a periodicity the due test can divide by. */
  predicate PeriodicBefore(s: seq<Habit>, n: nat) {
    forall i | 0 <= i < n && i < |s| :: s[i].periodicity >= 1
  }

  /** The intents a crash-free loop over the first `n` rows of `pending`
      dispatches, in order. */
  function DueIntents(pending: seq<Habit>, n: nat, today: int): seq<Intent>
    requires n <= |pending| && PeriodicBefore(pending, n)
  {
    if n == 0 then []
    else
      var last := pending[n - 1];
      DueIntents(pending, n - 1, today) + (if IsDue(last, today) then [IntentFor(last)] else [])
  }

  /** How far the loop gets from row `k` on: the index of the first row whose
      periodicity is 0 (where `% 0` raises ZeroDivisionError), or `|s|`. */
  function FirstZeroPeriodFrom(s: seq<Habit>, k: nat): (n: nat)
    requires k <= |s| && PeriodicBefore(s, k)
    ensures k <= n <= |s| && PeriodicBefore(s, n)
    ensures n < |s| ==> s[n].periodicity == 0
    decreases |s| - k
  {
    if k == |s| || s[k].periodicity == 0 then k
    else FirstZeroPeriodFrom(s, k + 1)
  }

  function FirstZeroPeriod(s: seq<Habit>): nat {
    FirstZeroPeriodFrom(s, 0)
  }

  /** Whether the pass stops with an exception before reaching the end. */
  predicate PassAborts(habits: seq<Habit>) {
    FirstZeroPeriod(RemindQuery(habits)) < |RemindQuery(habits)|
  }

  /** The intents the pass dispatches: those of the rows before the crash
      point, or of all considered rows. */
  function Scheduled(habits: seq<Habit>, today: int): seq<Intent> {
    var pending := RemindQuery(habits);
    DueIntents(pending, FirstZeroPeriod(pending), today)
  }

  /** `schedule_daily_reminders`: a loop over the considered habits that
      dispatches one intent per due habit. `aborted` is the
      ZeroDivisionError of a zero periodicity; the intents dispatched before
      it stay dispatched. `habits` is a value: the pass changes no row. */
  method ScheduleDailyReminders(habits: seq<Habit>, today: int) returns (intents: seq<Intent>, aborted: bool)
    ensures aborted == PassAborts(habits)
    ensures aborted <==> exists h | h in habits :: Considered(h) && h.periodicity == 0
    ensures intents == Scheduled(habits, today)
  {
    PassAbortsIff(habits);
    var pending := RemindQuery(habits);
    ghost var n := FirstZeroPeriod(pending);
    intents := [];
    aborted := false;
    var i := 0;
    while i < |pending|
      invariant i <= n
      invariant intents == DueIntents(pending, i, today)
    {
      var h := pending[i];
      if h.periodicity == 0 {
        aborted := true;
        return;
      }
      if (today - h.createdDay) % h.periodicity == 0 {
        intents := intents + [IntentFor(h)];
      }
      i := i + 1;
    }
  }

  // ---------------------------------------------------------------------
  // What the pass dispatches
  // ---------------------------------------------------------------------

  /** An intent is dispatched for one of the first `n` rows exactly when
      that row is due. */
  lemma {:induction false} DueIntentsMembers(pending: seq<Habit>, n: nat, today: int, x: Intent)
    requires n <= |pending| && PeriodicBefore(pending, n)
    ensures x in DueIntents(pending, n, today) <==>
      exists i | 0 <= i < n :: IsDue(pending[i], today) && x == IntentFor(pending[i])
  {
    if n > 0 {
      DueIntentsMembers(pending, n - 1, today, x);
    }
  }

  predicate UniqueIds(s: seq<Habit>) {
    forall i, j | 0 <= i < j < |s| :: s[i].id != s[j].id
  }

  predicate NoDuplicates(s: seq<Intent>) {
    forall i, j | 0 <= i < j < |s| :: s[i] != s[j]
  }

  /** Rows with distinct primary keys give distinct intents. */
  lemma {:induction false} DueIntentsNoDuplicates(pending: seq<Habit>, n: nat, today: int)
    requires n <= |pending| && PeriodicBefore(pending, n) && UniqueIds(pending)
    ensures NoDuplicates(DueIntents(pending, n, today))
  {
    if n > 0 {
      DueIntentsNoDuplicates(pending, n - 1, today);
      var last := pending[n - 1];
      if IsDue(last, today) {
        DueIntentsMembers(pending, n - 1, today, IntentFor(last));
      }
    }
  }

  /** The filter keeps distinct primary keys distinct. */
  lemma {:induction false} RemindQueryUniqueIds(habits: seq<Habit>)
    requires UniqueIds(habits)
    ensures UniqueIds(RemindQuery(habits))
  {
    if habits != [] {
      var rest := habits[1..];
      assert UniqueIds(rest) by {
        assert forall i | 0 <= i < |rest| :: rest[i] == habits[i + 1];
      }
      RemindQueryUniqueIds(rest);
      forall j | 0 <= j < |RemindQuery(rest)|
        ensures RemindQuery(rest)[j].id != habits[0].id
      {
        var y := RemindQuery(rest)[j];
        assert y in rest;
        var k :| 0 <= k < |rest| && rest[k] == y;
        assert habits[k + 1] == y;
      }
    }
  }

  /** When the pass runs to the end it dispatches an intent for exactly the
      private, non-pleasant, due habits. */
  lemma ScheduledExactlyDue(habits: seq<Habit>, today: int, x: Intent)
    requires !PassAborts(habits)
    ensures x in Scheduled(habits, today) <==>
      exists h | h in habits :: Considered(h) && h.periodicity >= 1 && IsDue(h, today) && x == IntentFor(h)
  {
    var pending := RemindQuery(habits);
    DueIntentsMembers(pending, |pending|, today, x);
    if x in Scheduled(habits, today) {
      var i :| 0 <= i < |pending| && IsDue(pending[i], today) && x == IntentFor(pending[i]);
      assert pending[i] in pending;
    }
    if exists h | h in habits :: Considered(h) && h.periodicity >= 1 && IsDue(h, today) && x == IntentFor(h) {
      var h :| h in habits && Considered(h) && h.periodicity >= 1 && IsDue(h, today) && x == IntentFor(h);
      assert h in pending;
      var i :| 0 <= i < |pending| && pending[i] == h;
    }
  }

  /** Every dispatched intent, aborted pass or not, is for a private,
      non-pleasant habit that is due. */
  lemma ScheduledOnlyDueConsidered(habits: seq<Habit>, today: int, x: Intent)
    requires x in Scheduled(habits, today)
    ensures exists h | h in habits :: Considered(h) && h.periodicity >= 1 && IsDue(h, today) && x == IntentFor(h)
  {
    var pending := RemindQuery(habits);
    var n := FirstZeroPeriod(pending);
    DueIntentsMembers(pending, n, today, x);
    var i :| 0 <= i < n && IsDue(pending[i], today) && x == IntentFor(pending[i]);
    assert pending[i] in pending;
  }

  /** With distinct primary keys, no intent is dispatched twice. */
  lemma ScheduledNoDuplicates(habits: seq<Habit>, today: int)
    requires UniqueIds(habits)
    ensures NoDuplicates(Scheduled(habits, today))
  {
    var pending := RemindQuery(habits);
    RemindQueryUniqueIds(habits);
    DueIntentsNoDuplicates(pending, FirstZeroPeriod(pending), today);
  }

  /** The pass aborts exactly when some considered row has periodicity 0. */
  lemma PassAbortsIff(habits: seq<Habit>)
    ensures PassAborts(habits) <==> exists h | h in habits :: Considered(h) && h.periodicity == 0
  {
  }

  /** A private, non-pleasant habit with periodicity 0 passes the request
      check, and once stored it makes every later pass abort. */
  lemma ZeroPeriodicityAbortsPass(habits: seq<Habit>, h: Habit)
    requires h in habits && Considered(h) && h.periodicity == 0
    requires h.executionTime <= MaxExecutionTime && !HasText(h.reward) && h.link.None?
    ensures Serializers.Validate(Serializers.RequestOf(h)).Ok?
    ensures PassAborts(habits)
  {
  }

  // ---------------------------------------------------------------------
  // Which days a habit is due on
  // ---------------------------------------------------------------------

  lemma MulAtLeast(p: nat, d: nat)
    requires p >= 1 && d >= 1
    ensures p * d >= p
  {
  }

  /** Euclidean division is unique: quotient and remainder are determined. */
  lemma ModUnique(y: int, p: nat, q: int, r: nat)
    requires p >= 1 && r < p && y == p * q + r
    ensures y % p == r
  {
    var q', r' := y / p, y % p;
    assert p * q + r == p * q' + r';
    assert p * (q - q') == r' - r;
    if q > q' {
      MulAtLeast(p, q - q');
    } else if q < q' {
      MulAtLeast(p, q' - q);
    }
  }

  /** A habit is due on its creation day and every `periodicity` days after. */
  lemma DueEveryPeriod(h: Habit, k: nat)
    requires h.periodicity >= 1
    ensures IsDue(h, h.createdDay + k * h.periodicity)
  {
    ModUnique(k * h.periodicity, h.periodicity, k, 0);
  }

  /** ... and on no day strictly between two such days. */
  lemma NotDueBetween(h: Habit, k: nat, today: int)
    requires h.periodicity >= 1
    requires h.createdDay + k * h.periodicity < today < h.createdDay + (k + 1) * h.periodicity
    ensures !IsDue(h, today)
  {
    var r := today - h.createdDay - k * h.periodicity;
    assert 0 < r < h.periodicity;
    ModUnique(today - h.createdDay, h.periodicity, k, r);
  }

  /** A daily habit is due every day. */
  lemma DailyHabitAlwaysDue(h: Habit, today: int)
    requires h.periodicity == 1
    ensures IsDue(h, today)
  {
  }
}
