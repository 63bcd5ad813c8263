/** `HabitSerializer.validate`: the request-level copy of the habit validity
    rules, run on the dictionary of fields a create or update request
    carries. On an update that dictionary may hold only some of the fields. */
module Serializers {
  import opened Wrappers
  import opened Models

  /** The validated request fields. `None` stands for a key that is absent
      or holds null; both read as `None` through `data.get`. */
  datatype HabitData = HabitData(
    place: Option<string>,
    time: Option<TimeOfDay>,
    action: Option<string>,
    isPleasant: Option<bool>,
    linkedHabit: Option<LinkInfo>,
    periodicity: Option<nat>,
    reward: Option<string>,
    executionTime: Option<nat>,
    isPublic: Option<bool>
  )

  /** The request a client sends for a complete habit (the owner is set by
      the view, not by the request). */
  function RequestOf(h: Habit): HabitData {
    HabitData(Some(h.place), Some(h.time), Some(h.action), Some(h.isPleasant), h.link,
              Some(h.periodicity), h.reward, Some(h.executionTime), Some(h.isPublic))
  }

  /** Python truthiness of an optional integer: absent and 0 are both false. */
  predicate IsNonZero(n: Option<nat>) {
    n.Some? && n.value != 0
  }

  /** The message `validate` raises for each reason: a full sentence. */
  function SerializerMessage(rule: Reason): (m: string)
    ensures |m| > 0 && m[|m| - 1] == '.'
  {
    match rule
    case ExecutionTimeTooLong => "Время выполнения не может превышать 120 секунд."
    case PeriodicityOutOfRange => "Периодичность — от 1 до 7 дней."
    case PleasantHasRewardOrLink => "Приятная привычка не может иметь награду или связанную привычку."
    case RewardAndLinkBoth => "Можно указать либо награду, либо связанную привычку, но не оба."
    case LinkedNotPleasant => "Связанная привычка должна быть приятной."
  }

  /** Each reason has its own text, so the message names the rule violated. */
  lemma SerializerMessageIdentifiesReason(a: Reason, b: Reason)
    requires SerializerMessage(a) == SerializerMessage(b)
    ensures a == b
  {
  }

  /** The two copies raise the same text only for the first and the third rule. */
  lemma MessagesDifferInWording(rule: Reason)
    ensures SerializerMessage(rule) == Message(rule) <==>
              rule == ExecutionTimeTooLong || rule == PleasantHasRewardOrLink
  {
  }

  /** Whether the guard for `rule` fires on `d`, as `validate` evaluates it:
      the numeric checks are skipped for a falsy value, and a missing
      `is_pleasant` reads as false. */
  predicate SerializerFires(d: HabitData, rule: Reason) {
    var isPleasant := d.isPleasant.GetOr(false);
    match rule
    case ExecutionTimeTooLong => IsNonZero(d.executionTime) && d.executionTime.value > MaxExecutionTime
    case PeriodicityOutOfRange =>
      IsNonZero(d.periodicity) && !(MinPeriodicity <= d.periodicity.value <= MaxPeriodicity)
    case PleasantHasRewardOrLink => isPleasant && (HasText(d.reward) || d.linkedHabit.Some?)
    case RewardAndLinkBoth => !isPleasant && HasText(d.reward) && d.linkedHabit.Some?
    case LinkedNotPleasant => !isPleasant && d.linkedHabit.Some? && !d.linkedHabit.value.isPleasant
  }

  /** `HabitSerializer.validate`: returns the dictionary unchanged when no
      guard fires, and otherwise raises for the first firing guard in
      source order. */
  function Validate(d: HabitData): (r: Result<HabitData, Reason>)
    ensures r.Ok? ==> r.value == d && forall rule :: !SerializerFires(d, rule)
    ensures r.Err? ==>
      SerializerFires(d, r.error) && forall rule | Rank(rule) < Rank(r.error) :: !SerializerFires(d, rule)
  {
    if d.executionTime.Some? && d.executionTime.value != 0 && d.executionTime.value > MaxExecutionTime then
      Err(ExecutionTimeTooLong)
    else if d.periodicity.Some? && d.periodicity.value != 0
            && !(MinPeriodicity <= d.periodicity.value <= MaxPeriodicity) then
      Err(PeriodicityOutOfRange)
    else
      var isPleasant := d.isPleasant.GetOr(false);
      if isPleasant then
        if HasText(d.reward) || d.linkedHabit.Some? then Err(PleasantHasRewardOrLink) else Ok(d)
      else if HasText(d.reward) && d.linkedHabit.Some? then Err(RewardAndLinkBoth)
      else if d.linkedHabit.Some? && !d.linkedHabit.value.isPleasant then Err(LinkedNotPleasant)
      else Ok(d)
  }

  /** A present execution time above 120 is rejected first. */
  lemma ValidateRejectsLongExecution(d: HabitData)
    requires d.executionTime.Some? && d.executionTime.value > MaxExecutionTime
    ensures Validate(d) == Err(ExecutionTimeTooLong)
  {
  }

  /** An absent or zero execution time skips the first check entirely: the
      outcome is that of the same request without the key. */
  lemma ValidateSkipsFalsyExecutionTime(d: HabitData)
    requires !IsNonZero(d.executionTime)
    ensures Validate(d) != Err(ExecutionTimeTooLong)
    ensures Validate(d).Ok? == Validate(d.(executionTime := None)).Ok?
    ensures Validate(d).Err? ==> Validate(d) == Validate(d.(executionTime := None))
  {
  }

  /** A present, non-zero periodicity outside 1..7 is rejected when the
      execution time passed. */
  lemma ValidateRejectsPeriodicityOutOfRange(d: HabitData)
    requires !(d.executionTime.Some? && d.executionTime.value > MaxExecutionTime)
    requires d.periodicity.Some? && d.periodicity.value != 0
    requires d.periodicity.value > MaxPeriodicity
    ensures Validate(d) == Err(PeriodicityOutOfRange)
  {
  }

  /** A periodicity of 0 passes `validate`, while `clean` rejects it. */
  lemma ZeroPeriodicityPassesValidateOnly(h: Habit)
    requires h.periodicity == 0 && h.executionTime <= MaxExecutionTime
    requires !h.isPleasant && !HasText(h.reward) && h.link.None?
    ensures Validate(RequestOf(h)) == Ok(RequestOf(h))
    ensures Clean(h) == Rejected(PeriodicityOutOfRange)
  {
  }

  /** A missing `is_pleasant` is read as false: a request holding only a
      reward passes. */
  lemma MissingPleasantFlagReadsFalse(d: HabitData)
    requires d.isPleasant.None?
    ensures Validate(d).Ok? == Validate(d.(isPleasant := Some(false))).Ok?
    ensures Validate(d).Err? ==> Validate(d) == Validate(d.(isPleasant := Some(false)))
  {
  }

  lemma RewardOnlyRequestAccepted(reward: string)
    ensures var d := HabitData(None, None, None, None, None, None, Some(reward), None, None);
            Validate(d) == Ok(d)
  {
  }

  /** The three relationship rules, as `validate` applies them once the
      numeric checks passed. */
  lemma ValidateRelationshipRules(d: HabitData)
    requires !SerializerFires(d, ExecutionTimeTooLong) && !SerializerFires(d, PeriodicityOutOfRange)
    ensures d.isPleasant == Some(true) ==>
      (Validate(d).Ok? <==> !HasText(d.reward) && d.linkedHabit.None?)
    ensures d.isPleasant != Some(true) && HasText(d.reward) && d.linkedHabit.Some? ==>
      Validate(d) == Err(RewardAndLinkBoth)
    ensures d.isPleasant != Some(true) && !HasText(d.reward) && d.linkedHabit.Some? ==>
      Validate(d) == if d.linkedHabit.value.isPleasant then Ok(d) else Err(LinkedNotPleasant)
  {
  }

  /** On a complete habit with a periodicity of at least 1, `validate` and
      `clean` agree: the same acceptance and the same rule on rejection
      (the wording of three messages differs). A zero execution time makes
      no difference, since 0 never exceeds 120. */
  lemma ValidateAgreesWithClean(h: Habit)
    requires h.periodicity >= 1
    ensures Validate(RequestOf(h)) ==
      match Clean(h)
      case Accepted => Ok(RequestOf(h))
      case Rejected(rule) => Err(rule)
  {
  }
}
