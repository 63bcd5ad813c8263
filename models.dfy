/** The `Habit` record of the habit tracker and its model-level rules:
    the validity check `clean`, the display string `__str__`, and what
    deleting a habit does to the habits that link to it. */
module Models {
  import opened Wrappers

  type UserId = nat
  type HabitId = nat

  type Hour = h: nat | h < 24
  type Sixty = m: nat | m < 60

  /** A time of day (a `TimeField`): no date, no time zone. */
  datatype TimeOfDay = TimeOfDay(hour: Hour, minute: Sixty, second: Sixty)

  /** What `clean` and the serializer see of a linked habit: the record it
      points to, by primary key, with that record's flag and owner. */
  datatype LinkInfo = LinkInfo(id: HabitId, isPleasant: bool, owner: UserId)

  /** One stored habit. `createdDay` is the calendar day of `created_at`,
      as a day number. `reward` is `None` for a NULL column. */
  datatype Habit = Habit(
    id: HabitId,
    owner: UserId,
    place: string,
    time: TimeOfDay,
    action: string,
    isPleasant: bool,
    link: Option<LinkInfo>,
    periodicity: nat,
    reward: Option<string>,
    executionTime: nat,
    isPublic: bool,
    createdDay: int
  )

  /** The upper bound on the execution time, in seconds. */
  const MaxExecutionTime: nat := 120
  /** The allowed periodicities, in days. */
  const MinPeriodicity: nat := 1
  const MaxPeriodicity: nat := 7

  // ---------------------------------------------------------------------
  // Rejection reasons and the order in which the guards are tried
  // ---------------------------------------------------------------------

  /** One constructor per `ValidationError` the guards raise. */
  datatype Reason =
    | ExecutionTimeTooLong
    | PeriodicityOutOfRange
    | PleasantHasRewardOrLink
    | RewardAndLinkBoth
    | LinkedNotPleasant

  /** The position of a guard in the source's chain of `if`s. */
  function Rank(rule: Reason): nat {
    match rule
    case ExecutionTimeTooLong => 0
    case PeriodicityOutOfRange => 1
    case PleasantHasRewardOrLink => 2
    case RewardAndLinkBoth => 3
    case LinkedNotPleasant => 4
  }

  /** The message `clean` raises for each reason: a full sentence. */
  function Message(rule: Reason): (m: string)
    ensures |m| > 0 && m[|m| - 1] == '.'
  {
    match rule
    case ExecutionTimeTooLong => "Время выполнения не может превышать 120 секунд."
    case PeriodicityOutOfRange => "Периодичность должна быть от 1 до 7 дней."
    case PleasantHasRewardOrLink => "Приятная привычка не может иметь награду или связанную привычку."
    case RewardAndLinkBoth => "Укажите либо награду, либо связанную привычку, но не оба поля."
    case LinkedNotPleasant => "Связанной может быть только приятная привычка."
  }

  /** Each reason has its own text, so the message names the rule violated. */
  lemma MessageIdentifiesReason(a: Reason, b: Reason)
    requires Message(a) == Message(b)
    ensures a == b
  {
  }

  /** Outcome of `clean`: it returns normally or raises one error. */
  datatype Verdict = Accepted | Rejected(reason: Reason)

  /** Python truthiness of a nullable string: NULL and "" are both false. */
  predicate HasText(s: Option<string>) {
    s.Some? && s.value != ""
  }

  /** Whether the guard for `rule` fires on `h`, as `clean` evaluates it. */
  predicate Fires(h: Habit, rule: Reason) {
    match rule
    case ExecutionTimeTooLong => h.executionTime > MaxExecutionTime
    case PeriodicityOutOfRange => !(MinPeriodicity <= h.periodicity <= MaxPeriodicity)
    case PleasantHasRewardOrLink => h.isPleasant && (HasText(h.reward) || h.link.Some?)
    case RewardAndLinkBoth => !h.isPleasant && HasText(h.reward) && h.link.Some?
    case LinkedNotPleasant => !h.isPleasant && h.link.Some? && !h.link.value.isPleasant
  }

  // ---------------------------------------------------------------------
  // Habit.clean
  // ---------------------------------------------------------------------

  /** `Habit.clean`: accepts exactly when no guard fires, and otherwise
      reports the first guard, in source order, that fires. */
  function Clean(h: Habit): (v: Verdict)
    ensures v.Accepted? ==> forall rule :: !Fires(h, rule)
    ensures v.Rejected? ==>
      Fires(h, v.reason) && forall rule | Rank(rule) < Rank(v.reason) :: !Fires(h, rule)
  {
    if h.executionTime > MaxExecutionTime then Rejected(ExecutionTimeTooLong)
    else if !(MinPeriodicity <= h.periodicity <= MaxPeriodicity) then Rejected(PeriodicityOutOfRange)
    else if h.isPleasant then
      if HasText(h.reward) || h.link.Some? then Rejected(PleasantHasRewardOrLink) else Accepted
    else if HasText(h.reward) && h.link.Some? then Rejected(RewardAndLinkBoth)
    else if h.link.Some? && !h.link.value.isPleasant then Rejected(LinkedNotPleasant)
    else Accepted
  }

  /** The validity rules stated as invariants of an accepted habit, with no
      reference to the order of the checks. */
  predicate WellFormed(h: Habit) {
    && h.executionTime <= MaxExecutionTime
    && MinPeriodicity <= h.periodicity <= MaxPeriodicity
    && (h.isPleasant ==> !HasText(h.reward) && h.link.None?)
    && (!h.isPleasant ==> !(HasText(h.reward) && h.link.Some?))
    && (h.link.Some? ==> h.link.value.isPleasant)
  }

  lemma CleanAcceptsExactlyWellFormed(h: Habit)
    ensures Clean(h) == Accepted <==> WellFormed(h)
  {
  }

  /** Any rejection names a unique reason: the first firing guard. */
  lemma CleanReportsFirstFailingGuard(h: Habit, rule: Reason)
    requires Fires(h, rule)
    requires forall r | Rank(r) < Rank(rule) :: !Fires(h, r)
    ensures Clean(h) == Rejected(rule)
  {
  }

  /** The execution time is checked first, whatever the other fields hold. */
  lemma CleanRejectsLongExecution(h: Habit)
    requires h.executionTime > MaxExecutionTime
    ensures Clean(h) == Rejected(ExecutionTimeTooLong)
  {
  }

  /** With an acceptable execution time, a periodicity outside 1..7 is the error. */
  lemma CleanRejectsPeriodicityOutOfRange(h: Habit)
    requires h.executionTime <= MaxExecutionTime
    requires h.periodicity < MinPeriodicity || h.periodicity > MaxPeriodicity
    ensures Clean(h) == Rejected(PeriodicityOutOfRange)
  {
  }

  /** Every periodicity in 1..7, the bounds included, gives the same verdict. */
  lemma CleanPeriodicityRangeInclusive(h: Habit, p: nat)
    requires MinPeriodicity <= h.periodicity <= MaxPeriodicity
    requires MinPeriodicity <= p <= MaxPeriodicity
    ensures Clean(h.(periodicity := p)) == Clean(h)
  {
  }

  /** A pleasant habit passes the remaining checks exactly when it has neither
      a (non-empty) reward nor a linked habit. */
  lemma CleanPleasantRule(h: Habit)
    requires h.executionTime <= MaxExecutionTime
    requires MinPeriodicity <= h.periodicity <= MaxPeriodicity
    requires h.isPleasant
    ensures Clean(h) == if HasText(h.reward) || h.link.Some? then Rejected(PleasantHasRewardOrLink) else Accepted
  {
  }

  /** A non-pleasant habit with both a reward and a link gets the either/or error. */
  lemma CleanRejectsRewardAndLink(h: Habit)
    requires h.executionTime <= MaxExecutionTime
    requires MinPeriodicity <= h.periodicity <= MaxPeriodicity
    requires !h.isPleasant && HasText(h.reward) && h.link.Some?
    ensures Clean(h) == Rejected(RewardAndLinkBoth)
  {
  }

  /** A non-pleasant habit without a reward and with a link is accepted
      exactly when the linked habit is pleasant. */
  lemma CleanLinkedMustBePleasant(h: Habit)
    requires h.executionTime <= MaxExecutionTime
    requires MinPeriodicity <= h.periodicity <= MaxPeriodicity
    requires !h.isPleasant && !HasText(h.reward) && h.link.Some?
    ensures Clean(h) == if h.link.value.isPleasant then Accepted else Rejected(LinkedNotPleasant)
  {
  }

  /** An empty reward string counts as no reward. */
  lemma CleanEmptyRewardIsAbsent(h: Habit)
    ensures Clean(h.(reward := Some(""))) == Clean(h.(reward := None))
  {
  }

  /** `clean` never looks at the linked habit's owner: re-pointing the link at
      an equally pleasant habit of any other user changes nothing. */
  lemma CleanIgnoresLinkOwner(h: Habit, other: UserId)
    requires h.link.Some?
    ensures Clean(h.(link := Some(h.link.value.(owner := other)))) == Clean(h)
  {
  }

  /** The habit of the same-owner test: a private non-pleasant habit of user 1
      linked to a pleasant habit of user 2. `clean` accepts it. */
  lemma CleanAcceptsCrossUserLink()
    ensures var linked := LinkInfo(7, true, 2);
            var h := Habit(8, 1, "Office", TimeOfDay(15, 0, 0), "Meeting", false,
                           Some(linked), 1, None, 40, false, 0);
            h.owner != linked.owner && Clean(h) == Accepted
  {
  }

  // ---------------------------------------------------------------------
  // Habit.__str__
  // ---------------------------------------------------------------------

  predicate IsDigit(c: char) {
    '0' <= c <= '9'
  }

  function DigitChar(d: nat): (c: char)
    requires d < 10
    ensures IsDigit(c)
  {
    ('0' as int + d) as char
  }

  function DigitValue(c: char): (d: nat)
    requires IsDigit(c)
    ensures d < 10 && DigitChar(d) == c
  {
    c as int - '0' as int
  }

  /** A zero-padded two-digit field. */
  function TwoDigits(n: nat): (s: string)
    requires n < 100
    ensures |s| == 2 && IsDigit(s[0]) && IsDigit(s[1])
    ensures DigitValue(s[0]) * 10 + DigitValue(s[1]) == n
  {
    [DigitChar(n / 10), DigitChar(n % 10)]
  }

  /** `str()` of a time of day, "HH:MM:SS": eight characters, colons at
      positions 2 and 5, and it reads back to the same time. */
  function TimeText(t: TimeOfDay): (s: string)
    ensures |s| == 8 && s[2] == ':' && s[5] == ':'
    ensures ParseTime(s) == Some(t)
  {
    var s := TwoDigits(t.hour) + ":" + TwoDigits(t.minute) + ":" + TwoDigits(t.second);
    assert s[0..2] == TwoDigits(t.hour);
    assert s[3..5] == TwoDigits(t.minute);
    assert s[6..8] == TwoDigits(t.second);
    s
  }

  /** Reads a two-digit field back. */
  function ParseTwoDigits(s: string): Option<nat> {
    if |s| == 2 && IsDigit(s[0]) && IsDigit(s[1]) then Some(DigitValue(s[0]) * 10 + DigitValue(s[1]))
    else None
  }

  /** Reads "HH:MM:SS" back into a time of day. */
  function ParseTime(s: string): Option<TimeOfDay> {
    if |s| != 8 || s[2] != ':' || s[5] != ':' then None
    else
      match (ParseTwoDigits(s[0..2]), ParseTwoDigits(s[3..5]), ParseTwoDigits(s[6..8]))
      case (Some(h), Some(m), Some(sec)) =>
        if h < 24 && m < 60 && sec < 60 then Some(TimeOfDay(h, m, sec)) else None
      case _ => None
  }

  /** `Habit.__str__`: "<action> в <place> (<time>)". The action leads, the
      place follows the separator, and the time can be read back from the
      text between the final parentheses. */
  function Display(h: Habit): (r: string)
    ensures |r| == |h.action| + |h.place| + 14
    ensures r[..|h.action|] == h.action
    ensures r[|h.action|..|h.action| + 3] == " в "
    ensures r[|h.action| + 3..|h.action| + 3 + |h.place|] == h.place
    ensures r[|r| - 11..|r| - 9] == " (" && r[|r| - 1] == ')'
    ensures ParseTime(r[|r| - 9..|r| - 1]) == Some(h.time)
  {
    var r := h.action + " в " + h.place + " (" + TimeText(h.time) + ")";
    assert r[|r| - 9..|r| - 1] == TimeText(h.time);
    r
  }

  // ---------------------------------------------------------------------
  // Deleting a habit: linked_habit is a foreign key with on_delete=SET_NULL
  // ---------------------------------------------------------------------

  /** The habits table, by primary key. */
  type Store = map<HabitId, Habit>

  /** Every row is stored under its own key, and every link points at a row
      of the table whose flag and owner it reflects. */
  predicate LinksResolve(store: Store) {
    forall k | k in store ::
      && store[k].id == k
      && (store[k].link.Some? ==>
            var l := store[k].link.value;
            l.id in store && store[l.id].isPleasant == l.isPleasant && store[l.id].owner == l.owner)
  }

  /** SET_NULL on one row: a link to the deleted habit becomes null. */
  function Unlink(h: Habit, deleted: HabitId): Habit {
    if h.link.Some? && h.link.value.id == deleted then h.(link := None) else h
  }

  /** Deletes habit `id`: the row goes, every link to it is set to null, and
      every other field and link is kept. */
  function DeleteHabit(store: Store, id: HabitId): (r: Store)
    ensures r.Keys == store.Keys - {id}
    ensures forall k | k in r :: r[k].(link := store[k].link) == store[k]
    ensures forall k | k in r :: r[k].link.Some? ==> r[k].link == store[k].link && r[k].link.value.id != id
    ensures forall k | k in r :: store[k].link.Some? && store[k].link.value.id != id ==> r[k].link == store[k].link
  {
    map k | k in store && k != id :: Unlink(store[k], id)
  }

  /** Deletion leaves no dangling link behind. */
  lemma DeletePreservesLinks(store: Store, id: HabitId)
    requires LinksResolve(store)
    ensures LinksResolve(DeleteHabit(store, id))
  {
  }

  /** Dropping a link never makes a valid habit invalid. */
  lemma DropLinkKeepsValid(h: Habit)
    requires Clean(h) == Accepted
    ensures Clean(h.(link := None)) == Accepted
  {
  }

  /** Every habit that was valid before a deletion is still valid after it. */
  lemma DeleteKeepsValid(store: Store, id: HabitId)
    ensures forall k | k in DeleteHabit(store, id) ::
      Clean(store[k]) == Accepted ==> Clean(DeleteHabit(store, id)[k]) == Accepted
  {
  }
}
