# Habit tracker: validity rules and daily reminder selection

A Dafny model of the decision logic of a Django habit tracker. A *habit* is
a recurring action (done at a place and time, every `periodicity` days,
taking `execution_time` seconds). A *pleasant* habit is a reward-type habit:
another habit may link to it instead of naming a reward.

The model covers three source files:

- `backend/habits/models.py` → module `Models` (`models.dfy`). The `Habit`
  record. `Habit.clean` becomes `Clean`, a chain of five guards that
  returns `Accepted` or `Rejected(reason)` for the first guard that fires.
  `Habit.__str__` becomes `Display`. The `on_delete=SET_NULL` of
  `linked_habit` becomes `DeleteHabit` over a table of habits (a map by
  primary key).
- `backend/habits/serializers.py` → module `Serializers`
  (`serializers.dfy`). `HabitSerializer.validate` becomes `Validate` over
  `HabitData`, a record of optional request fields. It returns the record
  unchanged or the first failing rule.
- `backend/habits/tasks.py` → module `Tasks` (`tasks.dfy`).
  `schedule_daily_reminders` becomes the method `ScheduleDailyReminders`.
  It filters the table for private, non-pleasant habits, loops over them,
  and appends one `(user id, habit id)` intent per habit that is due. It is
  proved equal to the pure function `Scheduled`.
- `wrappers.dfy` holds `Option` and `Result`.

Both validators report one `Reason` per rule, in the same order. `Rank`
gives that order. `Message` and `SerializerMessage` give the two copies'
message texts; three of the five differ in wording. Each validator is
specified declaratively: it accepts only when no rule fires, and on
rejection it names a rule that fires while every earlier rule does not.

Where the code and its documented design differ, the model follows the code:

- Neither validator checks that a linked habit belongs to the same user,
  although the test suite expects that rejection (tests.py:204-229).
  `CleanIgnoresLinkOwner` and `CleanAcceptsCrossUserLink` state the code's
  behaviour: such a link is accepted. There are no lower-bound checks on
  `execution_time` or `periodicity` beyond the `1..7` range in `clean`.
- `validate` skips the execution-time and periodicity checks for a falsy
  value, so a periodicity of 0 passes it. `clean` is not called on save, so
  such a habit can be stored. The reminder pass then raises
  `ZeroDivisionError` on `% 0` and stops. The intents dispatched before that
  row stay dispatched. `ScheduleDailyReminders` models this with its
  `aborted` result. `ZeroPeriodicityAbortsPass` ties the two together.
- Python's truthiness makes an empty `reward` string count as no reward
  (`HasText`).
- The pass visits habits in query order, and the intents follow that order.

Dates are integer day numbers: `today` is a parameter and `createdDay` is
the day of `created_at`. Python's `%` with a positive divisor agrees with
Dafny's Euclidean `%`, so the due test is written as is.

## Model

| member | source | states |
|---|---|---|
| Models.Message | backend/habits/models.py:22-35 | The text `clean` raises for each reason (lines 23, 26, 30, 33, 35); each is a full sentence ending in a period. |
| Models.MessageIdentifiesReason | backend/habits/models.py:22-35 | Distinct reasons raise distinct texts, so the message names the rule violated. |
| Models.Clean | backend/habits/models.py:21-35 | Accepts only when none of the five guards fires. On rejection the reported guard fires and every guard before it in source order does not. |
| Models.CleanAcceptsExactlyWellFormed | backend/habits/models.py:21-35 | `clean` accepts iff the habit meets the validity invariants, stated without any check order: execution time ≤ 120, periodicity in 1..7, pleasant ⇒ no reward and no link, non-pleasant ⇒ not both, a link points at a pleasant habit. |
| Models.CleanReportsFirstFailingGuard | backend/habits/models.py:21-35 | If a rule fires and no earlier rule does, `clean` rejects with exactly that rule. |
| Models.CleanRejectsLongExecution | backend/habits/models.py:22-23 | An execution time over 120 is rejected with the execution-time error, whatever the other fields hold. |
| Models.CleanRejectsPeriodicityOutOfRange | backend/habits/models.py:25-26 | With execution time ≤ 120, a periodicity below 1 or above 7 gives the periodicity error. |
| Models.CleanPeriodicityRangeInclusive | backend/habits/models.py:25-26 | Any two periodicities in 1..7, the bounds 1 and 7 included, give the same verdict. |
| Models.CleanPleasantRule | backend/habits/models.py:28-30 | Once the numeric checks pass, a pleasant habit is rejected iff it has a non-empty reward or a link; otherwise it is accepted. |
| Models.CleanRejectsRewardAndLink | backend/habits/models.py:31-33 | A non-pleasant habit with a non-empty reward and a link gets the either/or error. |
| Models.CleanLinkedMustBePleasant | backend/habits/models.py:34-35 | A non-pleasant habit with a link and no reward is accepted iff the linked habit is pleasant; otherwise it gets the linked-not-pleasant error. |
| Models.CleanEmptyRewardIsAbsent | backend/habits/models.py:29-32 | An empty reward string gives the same verdict as no reward. |
| Models.CleanIgnoresLinkOwner | backend/habits/models.py:21-35 | Changing the linked habit's owner never changes the verdict. |
| Models.CleanAcceptsCrossUserLink | backend/habits/tests.py:204-229 | The habit of the same-owner test (linked to another user's pleasant habit) is accepted by `clean`. |
| Models.TimeText | backend/habits/models.py:38 | `str(time)` inside the display string: "HH:MM:SS", eight characters with colons at positions 2 and 5, and it parses back to the same time. |
| Models.Display | backend/habits/models.py:37-38 | The display string is the action, then " в ", then the place, then the time in parentheses. It has length \|action\| + \|place\| + 14, and its parenthesised tail parses back to the habit's time. |
| Models.DeleteHabit | backend/habits/models.py:14 | Deleting a habit removes exactly its key. Every link to it becomes null. Every other link and every other field of every remaining habit is unchanged. |
| Models.DeletePreservesLinks | backend/habits/models.py:14 | If every link in the table resolves to a row with the recorded flag and owner, that still holds after a deletion: no link dangles. |
| Models.DropLinkKeepsValid | backend/habits/models.py:28-35 | Removing a valid habit's link keeps it valid. |
| Models.DeleteKeepsValid | backend/habits/models.py:14 | Every habit that `clean` accepted before a deletion is still accepted after it. |
| Serializers.Validate | backend/habits/serializers.py:13-35 | On acceptance returns the request unchanged and no serializer guard fires. On rejection the reported guard fires and every earlier guard does not. |
| Serializers.SerializerMessage | backend/habits/serializers.py:14-33 | The text `validate` raises for each reason (lines 16, 20, 28, 31, 33); each is a full sentence ending in a period. |
| Serializers.SerializerMessageIdentifiesReason | backend/habits/serializers.py:14-33 | Distinct reasons raise distinct texts in the serializer too. |
| Serializers.MessagesDifferInWording | backend/habits/serializers.py:14-33 | The serializer's message equals the model's message exactly for the execution-time and pleasant-habit rules. |
| Serializers.ValidateRejectsLongExecution | backend/habits/serializers.py:14-16 | A present execution time over 120 is rejected with the execution-time error. |
| Serializers.ValidateSkipsFalsyExecutionTime | backend/habits/serializers.py:14-16 | An absent or zero execution time never gives the execution-time error, and the outcome equals that of the request without the key. |
| Serializers.ValidateRejectsPeriodicityOutOfRange | backend/habits/serializers.py:18-20 | A present, non-zero periodicity above 7 is rejected with the periodicity error once the execution time passed. |
| Serializers.ZeroPeriodicityPassesValidateOnly | backend/habits/serializers.py:18-20 | A complete non-pleasant habit with periodicity 0 and no reward or link is accepted by `validate` but rejected by `clean`. |
| Serializers.MissingPleasantFlagReadsFalse | backend/habits/serializers.py:22 | A missing `is_pleasant` gives the same acceptance, and the same error, as an explicit false. |
| Serializers.RewardOnlyRequestAccepted | backend/habits/serializers.py:22-33 | A request holding only a reward is accepted and returned unchanged. |
| Serializers.ValidateRelationshipRules | backend/habits/serializers.py:26-33 | After the numeric checks: pleasant ⇒ accepted iff neither reward nor link; non-pleasant with both ⇒ either/or error; non-pleasant with a link only ⇒ accepted iff the linked habit is pleasant. |
| Serializers.ValidateAgreesWithClean | backend/habits/serializers.py:13-35 | For a complete habit with periodicity ≥ 1, `validate` accepts iff `clean` accepts, and both name the same rule on rejection. |
| Tasks.RemindQuery | backend/habits/tasks.py:35 | The query returns exactly the rows of the table that are private and not pleasant, and no more rows than the table has. |
| Tasks.IsDue | backend/habits/tasks.py:37-38 | The due test: the day difference since creation divided by the periodicity leaves nothing over (it is an exact multiple), so a habit is due on its creation day. Defined only for periodicity ≥ 1, since `% 0` raises. |
| Tasks.FirstZeroPeriodFrom | backend/habits/tasks.py:36-38 | The loop reaches the first row whose periodicity is 0, or the end; every row before it has periodicity ≥ 1. |
| Tasks.ScheduleDailyReminders | backend/habits/tasks.py:33-39 | The loop's intents equal `Scheduled`: one intent per due row, in query order, up to the crash point. It aborts iff some private non-pleasant habit has periodicity 0. |
| Tasks.DueIntentsMembers | backend/habits/tasks.py:36-39 | An intent is among those for the first n rows iff it is `(user id, habit id)` of one of those rows that is due. |
| Tasks.DueIntentsNoDuplicates | backend/habits/tasks.py:36-39 | Rows with distinct ids give intents with no duplicates. |
| Tasks.RemindQueryUniqueIds | backend/habits/tasks.py:35 | Filtering keeps distinct ids distinct. |
| Tasks.ScheduledExactlyDue | backend/habits/tasks.py:33-39 | When the pass completes, an intent is dispatched iff it belongs to a private, non-pleasant habit that is due today. |
| Tasks.ScheduledOnlyDueConsidered | backend/habits/tasks.py:35-39 | Every dispatched intent, aborted pass or not, belongs to a private, non-pleasant, due habit. |
| Tasks.ScheduledNoDuplicates | backend/habits/tasks.py:36-39 | With distinct primary keys, no intent is dispatched twice in one pass. |
| Tasks.PassAbortsIff | backend/habits/tasks.py:36-38 | The pass stops early iff some private, non-pleasant habit has periodicity 0. |
| Tasks.ZeroPeriodicityAbortsPass | backend/habits/tasks.py:38 | A private, non-pleasant habit with periodicity 0 passes `validate`, and any table holding it makes the pass abort. |
| Tasks.DueEveryPeriod | backend/habits/tasks.py:37-38 | A habit created on day D with periodicity P ≥ 1 is due on D + kP for every k ≥ 0. |
| Tasks.NotDueBetween | backend/habits/tasks.py:37-38 | It is not due on any day strictly between D + kP and D + (k+1)P. |
| Tasks.DailyHabitAlwaysDue | backend/habits/tasks.py:37-38 | A habit with periodicity 1 is due every day. |

## Left out

- `send_telegram_reminder` (tasks.py:17-29): network delivery through the Telegram bot library, the token from the environment, and the catch-all that prints delivery errors. A dispatched reminder is modelled as an appended `Intent`.
- Celery's `@shared_task` and `.delay`: asynchronous job infrastructure. `.delay` is the append.
- `datetime.date.today()` and the time-zone conversion of `created_at`: `today` and `createdDay` are integer day numbers supplied by the caller.
- The request views, pagination, permissions and URL routing (`backend/habits/views.py`, `backend/habits/urls.py`) and everything under `backend/users/`: framework configuration without decision logic.
- Django and DRF field validation (`max_length=255`, the 0..32767 range of `PositiveSmallIntegerField`, resolving a `linked_habit` primary key that does not exist): framework behaviour. Counts are `nat`, strings are unbounded, and a link is modelled as already resolved.
- An absent request key and an explicit null are both `None` in `HabitData`. `validate` reads both through `data.get` and treats them alike.
- Models.Display: a time with non-zero microseconds, which Python prints with a ".ffffff" suffix, is not modelled; times carry hour, minute and second.
- Self-reference and cycles among linked habits are not guarded in the code and are not modelled as errors.
- Deleting a user, which cascades to that user's habits, is not modelled; only the `SET_NULL` deletion of a habit is.
