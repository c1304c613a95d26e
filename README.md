# u-schedule core, modelled in Dafny

This project models the scheduling core of **u-schedule**, a Rust library for
production scheduling. It covers:

- **Domain records:** activities with a three-part duration and resource
  requirements; tasks; resources with skills and an optional calendar;
  calendars of working windows and blocked periods; per-activity time
  constraints; sequence-dependent transition (setup) matrices; and the
  `Schedule` of assignments.
- **Dispatching:** the integer-valued priority rules (SPT, LPT, LWKR, MWKR,
  EDD, MST, FIFO, WINQ, PRIORITY) over a `SchedulingContext`, and the
  Sequential-mode `RuleEngine`. The engine is a lexicographic multi-rule
  comparator followed by a stable sort and a tie-breaker.
- **Two constructive schedulers:**
  - `SimpleScheduler::schedule`: task-by-task greedy list scheduling with
    setup times looked up in the transition matrices.
  - `SchedulingGaProblem::decode`: turns an operation-sequence vector (OSV)
    and a machine-assignment vector (MAV) genotype into a `Schedule`.
- **GA chromosome operators:** OSV decoding, validity, resource lookup and
  update, the shortest-time MAV, and the deterministic child builders of POX,
  LOX and JOX crossover. Also the swap, insert, invert and MAV mutations, with
  their random choices taken as parameters.
- **KPIs:** the integer aggregates of `ScheduleKpi::calculate` and the
  tardiness part of `meets_thresholds`.
- **Input validation:** duplicate ids, empty tasks, dangling resource and
  predecessor references, and depth-first cycle detection over predecessor
  edges.

Each Rust source file has one Dafny module. The form follows the source:

- **Records built by value become datatypes with functions:** `Task`,
  `Activity`, `Resource`, `Calendar`, `SchedulingContext` and `RuleEngine`.
- **Objects mutated through `&mut self` become classes with `modifies`
  frames:** `TransitionMatrix`, `TransitionMatrixCollection`, `Schedule` and
  `ScheduleChromosome`.
- **Loops become methods with invariants, proved against a functional
  reference definition.** Properties of that definition are then proved as
  lemmas. This covers the schedulers, the decoder, the validation passes, the
  KPI accumulation, the child builders and the calendar searches.

Rust `i64` and `usize` values are unbounded `int`/`nat`. Engine scores, which
are `f64` in the source, are integers with an explicit `Top` value standing
for `f64::MAX`. This makes the epsilon comparison of Sequential mode an exact
comparison.

## Model

| member | source | states |
|---|---|---|
| Activities.FixedTotal | src/models/activity.rs:129-137 | a fixed duration has zero setup and teardown, and its total is exactly the given processing time |
| Activities.TotalMsSumsParts | src/models/activity.rs:134-137 | the total is setup + process + teardown: removing the processing part leaves setup plus teardown, and extra setup raises the total by exactly that amount |
| Activities.ResourceRequirement.WithQuantity | src/models/activity.rs:174-178 | sets the quantity and leaves every other field as it was |
| Activities.ResourceRequirement.WithCandidates | src/models/activity.rs:180-184 | replaces the candidate list and leaves every other field as it was |
| Activities.ResourceRequirement.WithSkill | src/models/activity.rs:186-190 | appends exactly one required skill at the end |
| Activities.NewRequirement | src/models/activity.rs:164-172 | a new requirement has quantity 1 and no candidates or skills |
| Activities.FlatCandidates | src/models/activity.rs:93-99 | a resource id is a candidate exactly when some requirement lists it |
| Activities.FlatCandidatesAppend | src/models/activity.rs:93-99 | the candidate list of concatenated requirements is the concatenation of their candidate lists, in order |
| Activities.Activity.WithDuration | src/models/activity.rs:62-66 | replaces the duration only |
| Activities.Activity.WithProcessTime | src/models/activity.rs:68-72 | sets a fixed duration whose total is the given time, and changes nothing else |
| Activities.Activity.WithRequirement | src/models/activity.rs:74-78 | appends exactly one requirement at the end and changes nothing else |
| Activities.Activity.WithPredecessor | src/models/activity.rs:80-84 | appends exactly one predecessor at the end and changes nothing else |
| Activities.Activity.WithSplitting | src/models/activity.rs:86-91 | makes the activity splittable with the given minimum split, and changes nothing else |
| Activities.NewActivity | src/models/activity.rs:47-60 | a new activity has a zero fixed duration, no requirements, no predecessors, is not splittable and has minimum split 0 |
| Activities.CandidatesOfAddedRequirement | src/models/activity.rs:74-99 | adding a requirement appends exactly its candidates to `candidate_resources` |
| Activities.NewActivityHasNoCandidates | src/models/activity.rs:47-60 | a fresh activity has no candidate resources |
| Resources.PrimaryResource | src/models/resource.rs:81-84 | `primary` is a new resource of type primary: capacity 1, no calendar, no skills |
| Resources.HumanResource | src/models/resource.rs:86-89 | `human` is a new resource of type human: capacity 1, no calendar, no skills |
| Resources.SecondaryResource | src/models/resource.rs:91-94 | `secondary` is a new resource of type secondary: capacity 1, no calendar, no skills |
| Resources.Resource.WithName | src/models/resource.rs:96-100 | sets the name and changes no other field |
| Resources.Resource.WithCapacity | src/models/resource.rs:102-106 | sets the capacity and changes no other field |
| Resources.Resource.WithCalendar | src/models/resource.rs:114-118 | attaches the calendar and changes nothing else |
| Resources.Resource.WithSkill | src/models/resource.rs:120-127 | appends one skill with that name, its level clamped into [0, 1] and kept unchanged when already inside; the other fields are unchanged |
| Resources.HasSkillMeaning | src/models/resource.rs:141-144 | `has_skill(n)` holds if and only if some skill is named `n` |
| Resources.AddedSkillIsPresent | src/models/resource.rs:120-144 | a skill added by `with_skill` is reported by `has_skill` |
| Resources.FirstSkillLevel | src/models/resource.rs:146-152 | `skill_level`: 0 when no skill has the name; otherwise the level of the first skill with that name |
| Resources.AddedSkillLevel | src/models/resource.rs:120-152 | a name with no skill reads level 0; after `with_skill` it reads the added level, clamped into [0, 1] |
| Resources.NewResource | src/models/resource.rs:66-79 | a new resource has capacity 1, no calendar and no skills |
| Resources.AvailableWithoutCalendar | src/models/resource.rs:159-164 | a resource without a calendar is available at every instant |
| Resources.AvailabilityFollowsCalendar | src/models/resource.rs:159-164 | with a calendar, availability equals that calendar's working time |
| Resources.NewResourceDefaults | src/models/resource.rs:66-79 | a fresh resource has no skill and is always available |
| Tasks.Task.WithName | src/models/task.rs:57-61 | sets the name and changes no other field |
| Tasks.Task.WithCategory | src/models/task.rs:63-67 | sets the category and changes no other field |
| Tasks.Task.WithPriority | src/models/task.rs:69-73 | sets the priority and changes no other field |
| Tasks.Task.WithDeadline | src/models/task.rs:75-79 | sets the deadline to `Some` of the value and changes no other field |
| Tasks.Task.WithReleaseTime | src/models/task.rs:81-85 | sets the release time to `Some` of the value and changes no other field |
| Tasks.Task.WithActivity | src/models/task.rs:87-91 | appends the activity at the end and changes no other field |
| Tasks.Task.HasActivities | src/models/task.rs:104-107 | holds exactly when the activity count is positive |
| Tasks.Task.ActivityCount | src/models/task.rs:109-112 | is the number of activities |
| Tasks.SumTotalsAppend | src/models/task.rs:99-102 | the total duration of concatenated activity lists is the sum of their totals |
| Tasks.TotalDurationOfAddedActivity | src/models/task.rs:87-102 | adding an activity adds its `total_ms` to the task's total duration |
| Tasks.TotalDurationBoundsEach | src/models/task.rs:99-102 | with non-negative durations, the task total is non-negative and at least each activity's total |
| Tasks.SumTotalsNonNegative | src/models/task.rs:99-102 | the sum of non-negative activity totals is non-negative |
| Tasks.NewTask | src/models/task.rs:43-55 | a new task has priority 0, no deadline, no release time and no activities |
| Tasks.EmptyTaskHasNoDuration | src/models/task.rs:99-112 | a task with no activities has total duration 0, reports no activities and has count 0 |
| SchedulingContexts.AtTime | src/dispatching/context.rs:28-35 | sets the clock to the given time, with every map empty and no average processing time |
| SchedulingContexts.SchedulingContext.WithRemainingWork | src/dispatching/context.rs:36-41 | sets or overwrites one task's remaining work; every other entry and field is unchanged |
| SchedulingContexts.SchedulingContext.WithNextQueue | src/dispatching/context.rs:42-47 | sets or overwrites one task's next-queue length; every other entry and field is unchanged |
| SchedulingContexts.SchedulingContext.WithUtilization | src/dispatching/context.rs:48-53 | sets or overwrites one resource's load; every other resource keeps its load and no other field changes |
| SchedulingContexts.SchedulingContext.WithArrivalTime | src/dispatching/context.rs:54-59 | sets or overwrites one task's arrival time; every other entry and field is unchanged |
| SchedulingContexts.SchedulingContext.WithAverageProcessingTime | src/dispatching/context.rs:60-64 | sets the average processing time only |
| SchedulingContexts.BuildersKeepClock | src/dispatching/context.rs:36-64 | no builder changes the current time |
| Calendars.ContainsHalfOpen | src/models/calendar.rs:40-44 | a non-empty window contains its start but not its end, and contains exactly the instants in [start, end) |
| Calendars.OverlapsSymmetric | src/models/calendar.rs:46-49 | overlap does not depend on the order of the two windows |
| Calendars.TouchingWindowsDoNotOverlap | src/models/calendar.rs:46-49 | windows that only meet at an end point do not overlap, either way round |
| Calendars.OverlapsIffCommonInstant | src/models/calendar.rs:40-49 | non-empty windows overlap if and only if some instant lies in both |
| Calendars.OverlapDuration | src/models/calendar.rs:204-213 | is `Some` exactly when the two windows share an instant, and then its value is positive and at most either window's duration |
| Calendars.SumOverlaps | src/models/calendar.rs:176-200 | the summed overlaps of a range with a list of windows is never negative |
| Calendars.InsertSorted | src/models/calendar.rs:149 | inserting adds exactly one occurrence of the element |
| Calendars.InsertSortedKeepsOrder | src/models/calendar.rs:149 | inserting into an ascending sequence keeps it ascending |
| Calendars.SortAscending | src/models/calendar.rs:149 | sorting the candidates permutes them |
| Calendars.SortAscendingIsSorted | src/models/calendar.rs:149 | the sorted candidates are ascending |
| Calendars.WindowCandidates | src/models/calendar.rs:142-148 | every candidate is at or after `from`, and every window ending after `from` contributes the later of its start and `from` |
| Calendars.Calendar.WithWindow | src/models/calendar.rs:83-87 | appends one availability window and keeps the blocked periods and id |
| Calendars.Calendar.WithBlocked | src/models/calendar.rs:89-94 | appends one blocked period and keeps the windows and id |
| Calendars.Calendar.NextAvailableTime | src/models/calendar.rs:115-165 | returns `Some(from)` when `from` is working time; any returned instant is at or after `from` and is working time; otherwise, with no windows it is the end of a blocked period holding `from`, and with windows it is a window start clipped to `from` or the end, below `i64::MAX`, of a blocked period holding one, and no clipped window start below it is working time, as the ascending scan guarantees; a `None` means that no instant the search tries is working time: with no windows, no end of a blocked period holding `from`; with windows, no clipped window start and no end below `i64::MAX` of a blocked period holding one |
| Calendars.Calendar.EndOfBlockedPeriod | src/models/calendar.rs:126-138 | with no windows: a returned instant is working time after `from` and is the end of the first blocked period holding `from` whose end is working time; a `None` means no blocked period holding `from` ends at a working instant |
| Calendars.Calendar.NextWindowStart | src/models/calendar.rs:140-164 | a returned instant is working time at or after `from`, and is either a window start clipped to `from` or the end, below `i64::MAX`, of a blocked period holding one; no clipped window start below the returned instant is working time, because the candidates are tried in ascending order; a `None` means no clipped window start is working time and no blocked period holding one ends, below `i64::MAX`, at a working instant |
| Calendars.Calendar.EndOfBlockingPeriod | src/models/calendar.rs:155-162 | a returned instant is working time strictly after the candidate and below `i64::MAX`, and is the end of the first blocked period holding the candidate with such an end; a `None` means no blocked period holding the candidate ends, below `i64::MAX`, at a working instant |
| Calendars.Calendar.AvailableTimeInRange | src/models/calendar.rs:167-201 | is 0 for an empty or reversed range; with no windows it is the range length minus the summed blocked overlaps; with windows it is the summed window overlaps minus the blocked overlaps, floored at 0, and so never negative |
| Calendars.NewCalendar | src/models/calendar.rs:69-81 | a new calendar has no windows and no blocked periods |
| Calendars.WorkingTimeMeaning | src/models/calendar.rs:96-113 | an instant is working time if and only if no blocked period contains it and either there are no windows or some window contains it |
| Calendars.NewCalendarAlwaysWorking | src/models/calendar.rs:100-113 | an empty calendar is working at every instant |
| Calendars.BlockedOverridesWindows | src/models/calendar.rs:89-104 | adding a blocked period makes every instant in it non-working, whatever the windows |
| Calendars.CoveringWindowGivesFullRange | src/models/calendar.rs:185-191 | a window covering the whole range contributes the full range length |
| Constraints.NewPrecedence | src/models/constraint.rs:64-71 | builds a `Precedence` constraint between the two activities with minimum delay 0 |
| Constraints.NewPrecedenceWithDelay | src/models/constraint.rs:73-85 | builds a `Precedence` constraint carrying the given delay |
| Constraints.NewCapacity | src/models/constraint.rs:86-92 | builds a `Capacity` constraint on that resource with that maximum |
| Constraints.NewTimeWindow | src/models/constraint.rs:94-101 | builds a `TimeWindow` constraint on that activity with those bounds |
| Constraints.NewNoOverlap | src/models/constraint.rs:103-109 | builds a `NoOverlap` constraint on that resource over those activities |
| Constraints.NewSynchronize | src/models/constraint.rs:111-114 | builds a `Synchronize` constraint over those activities |
| Constraints.PrecedenceIsZeroDelay | src/models/constraint.rs:64-85 | `precedence(a, b)` is `precedence_with_delay(a, b, 0)` |
| Constraints.TransitionLookup | src/models/constraint.rs:160-175 | an explicit entry always wins; without one, a category followed by itself costs 0 and two distinct categories cost the default |
| Constraints.TableTime | src/models/constraint.rs:209-217 | a resource without a matrix has setup 0; otherwise the lookup is delegated to that resource's matrix |
| Constraints.TransitionMatrix.constructor | src/models/constraint.rs:139-147 | a new matrix has no entries and default 0 |
| Constraints.TransitionMatrix.WithDefault | src/models/constraint.rs:149-153 | sets the default and changes nothing else |
| Constraints.TransitionMatrix.SetTransition | src/models/constraint.rs:155-158 | inserts or overwrites exactly one entry, so that pair then looks up the new time; the count of entries grows by one exactly when the pair is new |
| Constraints.TransitionMatrix.GetTransition | src/models/constraint.rs:160-175 | returns the explicit entry when there is one; otherwise 0 for the same category and the default for distinct categories |
| Constraints.TransitionMatrix.TransitionCount | src/models/constraint.rs:177-180 | the number of pairs with an explicit entry; `SetTransition` states how it grows |
| Constraints.SameCategoryIgnoresDefault | src/models/constraint.rs:164-170 | a same-category lookup never falls back to the default |
| Constraints.TransitionMatrixCollection.constructor | src/models/constraint.rs:193-196 | a new collection holds no matrices |
| Constraints.TransitionMatrixCollection.Add | src/models/constraint.rs:198-201 | stores the matrix under its resource id, replacing any matrix already stored there |
| Constraints.TransitionMatrixCollection.Tables | src/models/constraint.rs:186-190 | the collection's contents, with one table per stored matrix under the same key |
| Constraints.TransitionMatrixCollection.GetTransitionTime | src/models/constraint.rs:208-217 | 0 when the resource has no matrix; otherwise the lookup in that matrix, equal to the value-level lookup over the collection's contents |
| Constraints.TransitionMatrixCollection.Len | src/models/constraint.rs:219-222 | the number of resources holding a matrix, 0 exactly when none does |
| Constraints.TransitionMatrixCollection.IsEmpty | src/models/constraint.rs:219-227 | holds exactly when the collection holds no matrices |
| Constraints.EmptyMatrixLooksUpZero | src/models/constraint.rs:139-175 | a fresh matrix gives setup 0 for every pair |
| Constraints.CollectionDelegates | src/models/constraint.rs:198-217 | after a matrix is stored for its resource, collection lookups for that resource are that matrix's lookups |
| Schedules.Assignment.WithSetup | src/models/schedule.rs:93-97 | records the setup time and changes nothing else |
| Schedules.NewAssignment | src/models/schedule.rs:75-91 | a new assignment holds the given ids and interval and records no setup |
| Schedules.DurationSplits | src/models/schedule.rs:99-109 | duration is end − start, start + setup + process = end, and with no setup the processing time is the whole duration |
| Schedules.MaxEnd | src/models/schedule.rs:168-171 | `None` exactly for no assignments; otherwise an upper bound of every end that is attained by some assignment |
| Schedules.ForTask | src/models/schedule.rs:180-186 | keeps exactly the assignments of that task and never grows the list |
| Schedules.ForResource | src/models/schedule.rs:188-194 | keeps exactly the assignments on that resource and never grows the list |
| Schedules.ForTaskAppend | src/models/schedule.rs:180-186 | filtering a concatenation filters each part in turn, so schedule order is kept |
| Schedules.ForResourceAppend | src/models/schedule.rs:188-194 | filtering a concatenation filters each part in turn, so schedule order is kept |
| Schedules.FindActivity | src/models/schedule.rs:173-178 | `None` exactly when no assignment has that activity id; otherwise the first assignment that does |
| Schedules.Schedule.constructor | src/models/schedule.rs:148-151 | a new schedule has no assignments and no violations |
| Schedules.Schedule.AddAssignment | src/models/schedule.rs:153-156 | appends the assignment, raises the assignment count by one and leaves the violations unchanged |
| Schedules.Schedule.AddViolation | src/models/schedule.rs:158-166 | appends the violation, leaves the assignments unchanged, and the schedule is then not valid |
| Schedules.Schedule.MakespanMs | src/models/schedule.rs:168-171 | 0 with no assignments; otherwise the largest end time: no assignment ends later and some assignment ends there |
| Schedules.Schedule.TaskCompletionTime | src/models/schedule.rs:231-237 | `None` exactly when the task has no assignment; otherwise the largest end among that task's assignments, attained by one of them |
| Schedules.Schedule.IsValid | src/models/schedule.rs:163-166 | valid exactly when no violation is recorded; `AddViolation` makes it invalid |
| Schedules.Schedule.AssignmentForActivity | src/models/schedule.rs:173-178 | `None` exactly when no assignment has that activity id; otherwise an assignment of the schedule with that id, the first one by `Schedules.AssignmentForActivityIsFirst` |
| Schedules.Schedule.AssignmentsForTask | src/models/schedule.rs:180-186 | holds exactly the schedule's assignments of that task, in schedule order by `Schedules.ForTaskAppend` |
| Schedules.Schedule.AssignmentsForResource | src/models/schedule.rs:188-194 | holds exactly the schedule's assignments on that resource, in schedule order by `Schedules.ForResourceAppend` |
| Schedules.Schedule.AssignmentCount | src/models/schedule.rs:239-242 | the number of assignments; `AddAssignment` raises it by one |
| Schedules.Schedule.ResourceUtilization | src/models/schedule.rs:196-210 | is `None` exactly when the horizon is not positive; otherwise the ratio times the horizon is the summed duration of the resource's assignments |
| Schedules.AssignmentForActivityIsFirst | src/models/schedule.rs:173-178 | returns the first assignment carrying the activity id |
| Schedules.FiltersAfterAppend | src/models/schedule.rs:180-194 | appending an assignment extends the task filter and the resource filter by it exactly when it matches |
| TimeConstraints.SeverityOrder | src/models/time_constraints.rs:197-208 | severities compare as Info < Minor < Major < Critical, and two severities compare equal only when they are the same |
| TimeConstraints.ActivityTimeConstraint.AsHard | src/models/time_constraints.rs:110-115 | makes the constraint hard with penalty 0 and keeps every bound |
| TimeConstraints.ActivityTimeConstraint.AsSoft | src/models/time_constraints.rs:117-122 | makes the constraint soft with the given penalty and keeps every bound |
| TimeConstraints.ActivityTimeConstraint.WithEarliestStart | src/models/time_constraints.rs:124-128 | sets the earliest start and changes nothing else |
| TimeConstraints.ActivityTimeConstraint.WithLatestStart | src/models/time_constraints.rs:130-134 | sets the latest start and changes nothing else |
| TimeConstraints.ActivityTimeConstraint.WithDueDate | src/models/time_constraints.rs:136-140 | sets the latest end and changes nothing else |
| TimeConstraints.ActivityTimeConstraint.CheckViolation | src/models/time_constraints.rs:142-184 | returns `None` exactly when the early and the late amounts are both 0; otherwise it reports those two amounts, severity Critical for a hard constraint and Minor for a soft one, and the penalty (early + late) × penalty per ms |
| TimeConstraints.Shortfall | src/models/time_constraints.rs:149-163 | how far a value falls below an optional lower bound: never negative, and 0 exactly when the bound is absent or met |
| TimeConstraints.Excess | src/models/time_constraints.rs:154-168 | how far a value exceeds an optional upper bound: never negative, and 0 exactly when the bound is absent or met |
| TimeConstraints.ViolationIffOutOfBounds | src/models/time_constraints.rs:145-172 | both amounts are non-negative, and both are 0 exactly when the interval respects every bound that is set |
| TimeConstraints.NewTimeConstraint | src/models/time_constraints.rs:69-79 | a new constraint has no bounds, is soft and has penalty 1 per ms |
| TimeConstraints.Bounded | src/models/time_constraints.rs:81-88 | `bounded(s, e)` sets only the earliest start `s` and the latest end `e`, and stays soft with penalty 1 |
| TimeConstraints.Deadline | src/models/time_constraints.rs:90-98 | `deadline(d)` is hard with penalty 0 and sets only the latest end `d` |
| TimeConstraints.Release | src/models/time_constraints.rs:100-108 | `release(r)` is hard with penalty 0 and sets only the earliest start `r` |
| TimeConstraints.DeadlineViolation | src/models/time_constraints.rs:90-98 | a deadline is never early and is late by exactly the amount the end passes it |
| TimeConstraints.ReleaseViolation | src/models/time_constraints.rs:100-108 | a release is never late and is early by exactly the amount the start falls short of it |
| TimeConstraints.TimeWindowViolation.TotalViolationMs | src/models/time_constraints.rs:224-227 | the total is never negative and is early + late when both are non-negative |
| TimeConstraints.ReportedViolationIsEarlyOrTardy | src/models/time_constraints.rs:170-184 | a reported violation is early or tardy, and its total violation is positive |
| TimeConstraints.Symmetric | src/models/time_constraints.rs:366-373 | the most likely value is kept, optimistic and pessimistic sit exactly the spread below and above it, and the three are ordered when the spread is non-negative |
| Rules.CompareScoreReverse | src/dispatching/engine.rs:167-176 | swapping the two scores reverses their comparison, and scores compare equal only when they are the same |
| Rules.CompareScoreTransitive | src/dispatching/engine.rs:167-176 | the score comparison is transitive, and strictly so when either step is strict |
| Rules.Evaluate | src/dispatching/rules/mod.rs:30-448 | a rule's score is the `f64::MAX` sentinel exactly for EDD and MST on a task without a deadline; the per-rule lemmas below state each score |
| Rules.SptOrdersByDuration | src/dispatching/rules/mod.rs:37-39 | the SPT score is the task's total duration, so a shorter task scores strictly lower |
| Rules.LptNegatesSpt | src/dispatching/rules/mod.rs:58-60 | the LPT score is the SPT score negated, so LPT orders every pair the other way round |
| Rules.LwkrUsesRemainingWork | src/dispatching/rules/mod.rs:79-85 | LWKR uses the context's remaining-work entry when present, and otherwise agrees with SPT |
| Rules.MwkrNegatesLwkr | src/dispatching/rules/mod.rs:104-111 | the MWKR score is the LWKR value negated, so MWKR orders every pair the other way round |
| Rules.EddRanksByDeadline | src/dispatching/rules/mod.rs:164-166 | every task with a deadline ranks before every task without one; deadlines are ordered by date; two tasks without deadlines tie |
| Rules.MstIsSlack | src/dispatching/rules/mod.rs:187-201 | without a deadline the score is the maximal sentinel; otherwise score + current time + remaining work = deadline, so the score falls as the clock advances |
| Rules.FifoUsesArrival | src/dispatching/rules/mod.rs:361-367 | FIFO uses the context arrival time when present, else the release time, else 0 |
| Rules.WinqUsesQueueLength | src/dispatching/rules/mod.rs:386-392 | WINQ uses the next-queue length, and 0 when the context has none |
| Rules.PriorityRanksHigherFirst | src/dispatching/rules/mod.rs:446-448 | a higher priority scores strictly lower, so it ranks first |
| Rules.OnlyDeadlineRulesUseSentinel | src/dispatching/rules/mod.rs:164-191 | only EDD and MST yield the maximal sentinel, and only for a task without a deadline |
| Engine.Scale | src/dispatching/engine.rs:154-159 | weight 1 keeps a score and weight 0 turns any score, the sentinel included, into 0 |
| Engine.RuleEngine.WithRule | src/dispatching/engine.rs:73-80 | appends the rule with weight 1 at the end of the chain and keeps the tie-breaker |
| Engine.RuleEngine.WithTieBreaker | src/dispatching/engine.rs:95-102 | appends the rule with weight 0 at the end of the chain and keeps the tie-breaker |
| Engine.RuleEngine.WithFinalTieBreaker | src/dispatching/engine.rs:110-114 | replaces the final tie-breaker and keeps the rules |
| Engine.RuleEngine.Scores | src/dispatching/engine.rs:167-171 | definition: one unweighted score per rule, in chain order; its meaning comes from `Engine.SortOrderIsStableSort` and `Engine.CompareSequential`, which order tasks by these scores |
| Engine.RuleEngine.Evaluate | src/dispatching/engine.rs:153-159 | definition: one score per configured rule, in insertion order, each multiplied by its weight; its meaning comes from `Engine.EvaluateAfterWithRule` |
| Engine.RuleEngine.Keys | src/dispatching/engine.rs:127-131 | definition: one sort key per task, holding that task's rule scores, all of one length; its meaning comes from `Engine.SortOrderIsStableSort` |
| Engine.RuleEngine.CompareSequential | src/dispatching/engine.rs:161-183 | the loop with early return computes the lexicographic order: the first rule whose scores differ decides, and when all rules tie the final tie-breaker decides |
| Engine.RuleEngine.SortIndices | src/dispatching/engine.rs:116-146 | returns the stable sort of the task indices under `compare_sequential`; empty input gives empty output |
| Engine.RuleEngine.SelectBest | src/dispatching/engine.rs:148-151 | `None` exactly for no tasks; otherwise an index of a task that no other task precedes, and the smallest such index among its ties |
| Engine.NewEngine | src/dispatching/engine.rs:63-71 | a new engine has no rules and the `NextRule` tie-breaker |
| Engine.SortOrderIsStableSort | src/dispatching/engine.rs:116-146 | the sorted indices are a permutation of 0 … n − 1; every pair of positions is in `compare_sequential` order; tied tasks keep their input order |
| Engine.SortedOrderFirstIsBest | src/dispatching/engine.rs:148-151 | the first sorted index is not after any task, and is the earliest among the tasks it ties with |
| Engine.SingleRuleOrdersByScore | src/dispatching/engine.rs:167-176 | with one rule, two tasks with different scores are ordered by that rule's scores |
| Engine.TieBreakerDecidesTies | src/dispatching/engine.rs:167-176 | when the primary rule ties, a weight-0 tie-breaking rule decides the order |
| Engine.EvaluateAfterWithRule | src/dispatching/engine.rs:153-159 | `with_rule` appends the new rule's score to `evaluate`; `with_tie_breaker` appends a 0 |
| Engine.AllTiedUsesFinalTieBreaker | src/dispatching/engine.rs:178-182 | when every rule ties, `ById` orders by task id and `NextRule` gives `Equal` |
| Sorting.CompareScoresFromFirstDifference | src/dispatching/engine.rs:167-176 | the rule comparison is `Equal` exactly when all remaining scores agree; otherwise the first differing rule gives the result |
| Sorting.CompareScoresFromReverse | src/dispatching/engine.rs:167-176 | swapping the two tasks reverses the rule comparison |
| Sorting.CompareScoresFromTransitive | src/dispatching/engine.rs:167-176 | the rule comparison is transitive, and strictly so when either step is strict |
| Sorting.CompareKeysReverse | src/dispatching/engine.rs:161-183 | swapping the two tasks reverses the full comparison, tie-breaker included |
| Sorting.CompareKeysTransitive | src/dispatching/engine.rs:161-183 | "not after" is transitive, so the comparison is a total preorder that a stable sort can use |
| Sorting.ByIdIsStrict | src/dispatching/engine.rs:178-182 | with `ById`, two tasks with different ids never tie |
| Sorting.Iota | src/dispatching/engine.rs:125 | `0..n` holds each index at its own position |
| Sorting.InsertIndex | src/dispatching/engine.rs:127-131 | one stable insertion step adds exactly one in-range index |
| Sorting.StableSortIndices | src/dispatching/engine.rs:125-131 | the specified order has n entries, all below n |
| Sorting.InsertIndexPermutes | src/dispatching/engine.rs:127-131 | one insertion adds exactly the inserted index |
| Sorting.StableSortPermutes | src/dispatching/engine.rs:125-131 | the sorted order holds exactly the indices 0 … n − 1 |
| Sorting.InsertKeepsOrder | src/dispatching/engine.rs:127-131 | inserting a new largest index into a sorted, stable order keeps it sorted and stable |
| Sorting.StableSortIsSorted | src/dispatching/engine.rs:127-131 | every pair of positions is in key order, and tied indices keep their original order |
| Sorting.StableSortIsSortedPermutation | src/dispatching/engine.rs:125-131 | the sort is a permutation of 0 … n − 1 that is sorted and stable |
| Sorting.EachIndexOnce | src/dispatching/engine.rs:125-131 | each index below n occurs exactly once in the sorted order |
| Sorting.IotaCount | src/dispatching/engine.rs:125 | `0..n` holds each index below n once and nothing else |
| Sorting.InsertionPoint | src/dispatching/engine.rs:127-131 | walking back past the strictly greater keys finds the position at which the stable insertion places the index |
| Sorting.SortByKeys | src/dispatching/engine.rs:125-131 | the loop of insertions computes exactly the specified stable order |
| Kpi.CompletionIsMaxEnd | src/models/schedule.rs:231-237 | the completion the KPI loop uses is the schedule's `task_completion_time`: the latest end among the task's assignments |
| Kpi.TaskTardiness | src/scheduler/kpi.rs:67-73 | never negative; positive exactly when the task has a completion and a deadline and finishes after it, and then it is completion − deadline |
| Kpi.Accumulate | src/scheduler/kpi.rs:59-81 | after the pass, on-time tasks ≤ counted tasks ≤ all tasks, and 0 ≤ maximum tardiness ≤ total tardiness |
| Kpi.Calculate | src/scheduler/kpi.rs:51-112 | the loop with five accumulators computes exactly the indicators of the reference pass: the makespan, the tardiness sums, the on-time rate (1 when nothing is counted) and the flow average (0 when nothing is counted) |
| Kpi.AccumulateStep | src/scheduler/kpi.rs:59-81 | one loop iteration, field by field: a task without completion changes nothing; a counted task adds its flow time and either its tardiness or one on-time count |
| Kpi.KpiMakespanIsScheduleMakespan | src/scheduler/kpi.rs:52-105 | the KPI makespan is the schedule's makespan: 0 with no assignments, otherwise the latest end |
| Kpi.TotalTardinessIsSum | src/scheduler/kpi.rs:60-73 | the total tardiness is the sum over tasks of max(0, completion − deadline), counting only tasks that have a completion and a deadline |
| Kpi.MaxTardinessIsLargest | src/scheduler/kpi.rs:67-73 | the maximum tardiness bounds every task's tardiness and, when positive, is attained by some task |
| Kpi.NoTardinessIffAllOnTime | src/scheduler/kpi.rs:60-79 | the total tardiness is 0 exactly when no task is late |
| Kpi.UnscheduledTaskIsIgnored | src/scheduler/kpi.rs:60 | a task without assignments changes no accumulator |
| Kpi.NoAssignmentNoCompletion | src/scheduler/kpi.rs:60 | a task without assignments has no completion time |
| Kpi.NoDeadlineCountsOnTime | src/scheduler/kpi.rs:76-79 | a scheduled task without a deadline counts once, as on time, adds its flow time and no tardiness |
| Kpi.CountedAreScheduled | src/scheduler/kpi.rs:60-79 | exactly the tasks with assignments are counted, and the counted tasks that are not on time are exactly the late ones |
| Kpi.RatesOfKpi | src/scheduler/kpi.rs:92-102 | the on-time rate lies in [0, 1], is 1 exactly when every counted task is on time, and with no counted task the rate is 1 and the flow average 0 |
| Kpi.RatioIsFraction | src/scheduler/kpi.rs:92-96 | a count over a larger positive count is a fraction in [0, 1], equal to 1 exactly when the two are equal |
| Kpi.TardyKpiFailsThresholds | src/scheduler/kpi.rs:115-118 | `meets_thresholds(m, u)` is false whenever the maximum tardiness exceeds `m` |
| Kpi.MeetsThresholdsBoundsEveryTask | src/scheduler/kpi.rs:115-118 | for a non-negative bound, the thresholds hold exactly when every task's tardiness is within the bound and the utilisation is high enough |
| Chromosomes.CountsAppend | src/ga/chromosome.rs:161-168 | counting one more id increments exactly that id's entry |
| Chromosomes.CountsAreOccurrences | src/ga/chromosome.rs:161-168 | an id's count is its number of occurrences, and only ids that occur have an entry |
| Chromosomes.CountsEqualIffPermutation | src/ga/chromosome.rs:161-171 | the two count maps are equal exactly when the OSV is a permutation of the activities' task ids |
| Chromosomes.CountIds | src/ga/chromosome.rs:161-168 | the counting loop builds exactly the occurrence counts |
| Chromosomes.OccurrencePairs | src/ga/chromosome.rs:123-133 | one (task id, sequence) pair per OSV position |
| Chromosomes.OccurrencePairAt | src/ga/chromosome.rs:123-133 | position i holds its task id and the number of that id's occurrences up to and including i |
| Chromosomes.DecodeStep | src/ga/chromosome.rs:126-130 | one step of `decode_osv`: the task's counter goes up by one and numbers that occurrence |
| Chromosomes.TaskIds | src/ga/chromosome.rs:165-167 | definition: the task id of every activity, in activity order; its meaning comes from `Chromosomes.CountsEqualIffPermutation` and `Chromosomes.ScheduleChromosome.IsValid` |
| Chromosomes.Lookup | src/ga/chromosome.rs:135-141 | `Some` exactly when the key is in the activity index and its position is inside the MAV, and then it is that MAV entry |
| Chromosomes.AssignedReadsBack | src/ga/chromosome.rs:135-152 | after `set_resource`, `resource_for` on the same key returns the new resource; an unknown or out-of-range key changes nothing; keys at other positions keep their entries |
| Chromosomes.IndexOf | src/ga/chromosome.rs:191-195 | every activity's (task id, sequence) is a key, and every key maps to a position holding an activity with that key |
| Chromosomes.Fastest | src/ga/chromosome.rs:222-231 | the chosen resource is one of the candidates |
| Chromosomes.FastestIsMinimum | src/ga/chromosome.rs:222-231 | no candidate has a shorter processing time than the chosen one; a missing table entry falls back to the activity's own time |
| Chromosomes.FastestIsFirst | src/ga/chromosome.rs:222-231 | every candidate listed before the chosen one is strictly slower, so ties go to the first candidate |
| Chromosomes.ShortestTimeMav | src/ga/chromosome.rs:213-235 | one entry per activity: `""` for an activity without candidates, otherwise its fastest candidate |
| Chromosomes.ShortestTimeChromosomeIsValid | src/ga/chromosome.rs:154-181 | a shortest-time MAV next to any permutation of the activities' task ids passes `is_valid` |
| Chromosomes.ScheduleChromosome.constructor | src/ga/chromosome.rs:113-118 | a chromosome holds the given OSV, MAV and index, with infinite fitness |
| Chromosomes.ScheduleChromosome.DecodeOsv | src/ga/chromosome.rs:122-133 | the counter loop returns exactly the occurrence pairs, one per OSV entry, numbering the k-th occurrence of each task k |
| Chromosomes.ScheduleChromosome.ResourceFor | src/ga/chromosome.rs:135-141 | is the MAV lookup of the key, `None` for an unknown key or a position past the end |
| Chromosomes.ScheduleChromosome.SetResource | src/ga/chromosome.rs:143-152 | overwrites the key's MAV entry when the key is known and in range, and otherwise changes nothing; the OSV, index and fitness never change |
| Chromosomes.ScheduleChromosome.IsValid | src/ga/chromosome.rs:154-181 | true exactly when both vectors have one entry per activity, the OSV is a permutation of the activities' task ids, and each MAV entry is a candidate of its activity whenever that activity has candidates |
| Chromosomes.OccurrencePairsNumberOccurrences | src/ga/chromosome.rs:123-133 | sequence numbers start at 1, never exceed the task's number of occurrences, and no pair repeats |
| Chromosomes.OccurrenceBound | src/ga/chromosome.rs:123-133 | an occurrence's number lies between 1 and the task's total count |
| Chromosomes.LaterOccurrenceCountsMore | src/ga/chromosome.rs:123-133 | a later occurrence of the same task gets a larger number |
| Chromosomes.Swapped | src/ga/chromosome.rs:484-492 | exchanges the two positions and keeps every other entry |
| Chromosomes.Moved | src/ga/chromosome.rs:494-504 | keeps the length and puts the removed entry at the target position |
| Chromosomes.Reversed | src/ga/chromosome.rs:506-518 | position k holds the entry mirrored from the end |
| Chromosomes.ReversedPermutes | src/ga/chromosome.rs:506-518 | reversing keeps the multiset |
| Chromosomes.SwapPermutes | src/ga/chromosome.rs:484-492 | swapping keeps the multiset |
| Chromosomes.MovePermutes | src/ga/chromosome.rs:494-504 | remove-and-reinsert keeps the multiset |
| Chromosomes.InvertPermutes | src/ga/chromosome.rs:506-518 | inverting keeps the length and multiset, reverses exactly positions i..=j and leaves every other position unchanged |
| Chromosomes.SwapMutation | src/ga/chromosome.rs:483-492 | an OSV shorter than 2 is left unchanged, otherwise the two positions are exchanged; the MAV, index and fitness are unchanged |
| Chromosomes.InsertMutation | src/ga/chromosome.rs:494-504 | an OSV shorter than 2 is left unchanged, otherwise the entry moves from `from` to `to`; nothing else changes |
| Chromosomes.InvertMutation | src/ga/chromosome.rs:506-518 | an OSV shorter than 2 is left unchanged, otherwise the segment between the two ordered indices is reversed; nothing else changes |
| Chromosomes.MavMutationKeepsValidity | src/ga/chromosome.rs:520-533 | at most one MAV entry changes, always to a candidate of its activity, so a valid chromosome stays valid |
| Chromosomes.MavMutation | src/ga/chromosome.rs:520-533 | leaves everything unchanged for an empty MAV, no activities or an activity without candidates; otherwise writes the drawn candidate at the drawn position; the OSV is unchanged |
| Chromosomes.Unselected | src/ga/chromosome.rs:295 | the donor iterator yields only entries whose task is not selected |
| Chromosomes.SplitBySelection | src/ga/chromosome.rs:295 | a sequence splits into its selected and unselected entries, and the unselected part counts each unselected id as often as the sequence does |
| Chromosomes.UnselectedOfPermutation | src/ga/chromosome.rs:295 | parents that are permutations of each other have permuted unselected parts of equal length |
| Chromosomes.PoxFill | src/ga/chromosome.rs:289-305 | the child has the template's length |
| Chromosomes.PoxKeepsSelectedPositions | src/ga/chromosome.rs:297-300 | every position whose template task is selected keeps the template's entry |
| Chromosomes.PoxFillSplits | src/ga/chromosome.rs:289-305 | the child's selected entries are the template's, and its unselected entries are the donor's unselected entries, both in order |
| Chromosomes.PoxChildPermutes | src/ga/chromosome.rs:289-305 | for parents with equal multisets the child has the same multiset, the template's selected entries and the donor's unselected entries in donor order |
| Chromosomes.UnselectedStep | src/ga/chromosome.rs:295-301 | the donor iterator advances one donor position at a time |
| Chromosomes.NextUnselected | src/ga/chromosome.rs:295-301 | the iterator's `next()` yields the first remaining unselected donor entry, or `None` when there is none |
| Chromosomes.PoxFillStep | src/ga/chromosome.rs:297-303 | one loop iteration of `pox_build_child` |
| Chromosomes.PoxBuildChild | src/ga/chromosome.rs:289-305 | the buffer-filling loop builds exactly the POX child |
| Chromosomes.JoxPlaced | src/ga/chromosome.rs:461-467 | the first phase keeps each selected entry in place and leaves `""` elsewhere |
| Chromosomes.JoxFill | src/ga/chromosome.rs:469-476 | the second phase keeps the length |
| Chromosomes.JoxFillIsPoxFill | src/ga/chromosome.rs:454-479 | unless the empty id is itself selected, JOX builds the same child as POX |
| Chromosomes.JoxChildPermutes | src/ga/chromosome.rs:454-479 | for permuted parents and no empty id selected, the child keeps the multiset and every selected position of the primary |
| Chromosomes.JoxFillStep | src/ga/chromosome.rs:470-476 | one slot of the second phase |
| Chromosomes.JoxPlace | src/ga/chromosome.rs:459-467 | the first loop builds a fresh buffer holding exactly the placed entries |
| Chromosomes.JoxBuildChild | src/ga/chromosome.rs:454-479 | the two loops build exactly the JOX child |
| Chromosomes.JoxFillSlot | src/ga/chromosome.rs:470-476 | an empty slot takes the donor's next unselected entry, a filled slot is kept, and no other slot changes |
| Chromosomes.Rotated | src/ga/chromosome.rs:379-381 | a rotation keeps the length |
| Chromosomes.RotatedAt | src/ga/chromosome.rs:379-381 | position i of the rotation is `p2[(end + 1 + i) % len]`, the entry the loop reads |
| Chromosomes.WrapIndex | src/ga/chromosome.rs:380-397 | an index below twice the length wraps at most once |
| Chromosomes.SkipFirstRemovesBudget | src/ga/chromosome.rs:363-390 | skipping removes exactly the segment's occurrences, as far as p2 holds them |
| Chromosomes.SkipCountedIsSkipFirst | src/ga/chromosome.rs:363-390 | the `skip_counts`/`seg_counts` counters skip exactly the first occurrences the segment holds |
| Chromosomes.SkipCountedStep | src/ga/chromosome.rs:383-390 | one entry of the walk: skipped while the segment still has copies of it, kept otherwise |
| Chromosomes.LoxLayout | src/ga/chromosome.rs:353-401 | a buffer of the child's length |
| Chromosomes.LoxKeepsSegment | src/ga/chromosome.rs:357-361 | the child has p1's length and holds `p1[start..=end]` at the same positions |
| Chromosomes.LoxChildOutsideSegment | src/ga/chromosome.rs:375-398 | read circularly from just after the segment, the free slots hold p2's kept entries in p2's circular order, then `""` |
| Chromosomes.RotatedPermutes | src/ga/chromosome.rs:379-381 | a rotation keeps the multiset |
| Chromosomes.SegmentSplit | src/ga/chromosome.rs:357-361 | a sequence splits into its segment and the entries around it |
| Chromosomes.AroundSegment | src/ga/chromosome.rs:375-398 | splitting the fill around the segment keeps every entry |
| Chromosomes.LoxKeptIsOutside | src/ga/chromosome.rs:363-390 | for permuted parents, the kept entries are exactly p1 outside the segment, one per free slot |
| Chromosomes.LoxLayoutFull | src/ga/chromosome.rs:375-398 | with one kept entry per free slot, the child is the kept entries split around the segment |
| Chromosomes.LoxChildPermutes | src/ga/chromosome.rs:353-401 | for parents with equal multisets, every free slot is filled and the child has p1's multiset |
| Chromosomes.NextSlotReachesStart | src/ga/chromosome.rs:392-394 | the slot walk reaches `start` exactly when every free slot has been written |
| Chromosomes.LoxLayoutStep | src/ga/chromosome.rs:396-397 | writing one more entry changes only the next free slot |
| Chromosomes.LoxCopySegment | src/ga/chromosome.rs:355-361 | the first loop builds a fresh buffer with the segment in place and `""` elsewhere |
| Chromosomes.LoxScanDone | src/ga/chromosome.rs:379-398 | when the walk ends, or stops with every free slot full, what was written is the child's fill |
| Chromosomes.LoxKeptCounted | src/ga/chromosome.rs:363-390 | starting from no skips, the counters keep exactly the entries the specification keeps |
| Chromosomes.LoxWalkAt | src/ga/chromosome.rs:380-381 | reads the i-th entry of p2 walked circularly from just after the segment |
| Chromosomes.LoxWriteSlot | src/ga/chromosome.rs:396-397 | writes the next free slot and advances `child_idx` circularly |
| Chromosomes.LoxVisit | src/ga/chromosome.rs:379-398 | one iteration of the fill loop: skip, stop when back at `start`, or write |
| Chromosomes.LoxFillSlots | src/ga/chromosome.rs:363-398 | the counting walk fills the free slots with p2's entries, circularly and minus the segment's occurrences, up to the number of free slots |
| Chromosomes.LoxBuildChild | src/ga/chromosome.rs:353-401 | the two loops build exactly the LOX child |
| ActivityInfos.InfosUpTo | src/ga/problem.rs:41-49 | one descriptor for each of the first n activities |
| ActivityInfos.TaskInfos | src/ga/problem.rs:41-49 | one descriptor per activity of the task |
| ActivityInfos.InfosUpToAt | src/ga/problem.rs:41-49 | descriptor i carries the task id, sequence i + 1, the activity's processing time and its candidates |
| ActivityInfos.FromTasks | src/ga/problem.rs:38-51 | the nested loop pushes exactly the task-then-activity descriptors |
| ActivityInfos.InfosCount | src/ga/problem.rs:38-51 | there is one descriptor per activity of all tasks together |
| ActivityInfos.InfoPosition | src/ga/problem.rs:38-51 | activity i of task ti is described right after all activities of earlier tasks |
| ActivityInfos.InfosSplit | src/ga/problem.rs:40-50 | the descriptors are those of the earlier tasks, then of task ti, then of the later tasks |
| ActivityInfos.InfosDropLast | src/ga/problem.rs:40-50 | the descriptors after task ti end with those of the last task |
| GaProblems.TaskMapsHoldLastTask | src/ga/problem.rs:95-103 | a task that no later task repeats has its own category, deadline and release time in the maps |
| GaProblems.CategoryKeysAreTaskIds | src/ga/problem.rs:95-96 | an id has a category exactly when some task has that id |
| GaProblems.FindInfo | src/ga/problem.rs:145-152 | `None` exactly when no descriptor has the task id and sequence, otherwise the first one that does |
| GaProblems.EarliestStart | src/ga/problem.rs:162-165 | the start is the largest of the resource's ready time, the task's ready time and its release |
| GaProblems.SchedulingGaProblem.WithTransitionMatrices | src/ga/problem.rs:117-120 | replaces the transition matrices and nothing else |
| GaProblems.SchedulingGaProblem.WithTardinessWeight | src/ga/problem.rs:123-126 | the weight is clamped into [0, 1]: kept inside, 0 below, 1 above; nothing else changes |
| GaProblems.SchedulingGaProblem.DecodeOperation | src/ga/problem.rs:143-194 | one iteration of the decoding loop advances the ready times, the last categories and the assignments exactly as `DecodeOne` says, and adds no violation |
| GaProblems.SchedulingGaProblem.PlaceOperation | src/ga/problem.rs:161-193 | placing one found operation advances the state exactly as `DecodePlace` says |
| GaProblems.SchedulingGaProblem.Decode | src/ga/problem.rs:129-197 | a fresh schedule without violations whose assignments are those of decoding every OSV operation in order from all resources ready at 0 |
| GaProblems.NewProblem | src/ga/problem.rs:89-114 | the descriptors of all tasks, the given resources, the last category, deadline and release time per task id, an empty matrix collection and weight 0.5 |
| GaProblems.DecodeOneEffect | src/ga/problem.rs:143-194 | an operation without a descriptor or without a non-empty MAV resource changes nothing; a placed one appends one assignment on its MAV resource, starting at the latest ready time, with setup from the resource's last category (0 on a first use) and the first matching descriptor's processing time, and the resource and task are then ready at its end |
| GaProblems.DecodeFoldAppends | src/ga/problem.rs:143-194 | decoding only appends, at most one assignment per operation |
| GaProblems.DecodeOkExtend | src/ga/problem.rs:180-193 | appending an assignment that starts after its resource, task and release are ready keeps the decoding invariant |
| GaProblems.BoundedExtend | src/ga/problem.rs:180-193 | the new ready times are not earlier than any assignment's end on that resource or task |
| GaProblems.ResourceOrderedExtend | src/ga/problem.rs:162-189 | an assignment starting at its resource's ready time overlaps no earlier one on that resource |
| GaProblems.TaskOrderedExtend | src/ga/problem.rs:163-190 | an assignment starting at its task's ready time overlaps no earlier one of that task |
| GaProblems.DecodeOneOk | src/ga/problem.rs:143-194 | with no negative processing or setup time, one operation keeps the decoding invariant |
| GaProblems.DecodeFoldOk | src/ga/problem.rs:143-194 | with no negative processing or setup time, every prefix of the loop keeps the invariant |
| GaProblems.DecodedIsFeasible | src/ga/problem.rs:129-197 | a decoded schedule has at most one assignment per OSV entry, each with the task id as activity id, starting no earlier than 0 and its release and ending no earlier than it starts; each ends at its start plus its non-negative setup plus the processing time of a descriptor of its task; no two on one resource or of one task overlap |
| GaProblems.DecodeFoldTimed | src/ga/problem.rs:175-186 | every decoded assignment ends at its start plus its setup plus the processing time of a descriptor of its task |
| GaProblems.DecodeOneTracksCategories | src/ga/problem.rs:168-193 | a resource gets a last category only once an assignment lies on it |
| GaProblems.DecodeFoldTracksCategories | src/ga/problem.rs:168-193 | the same over every prefix of the loop |
| GaProblems.FirstUseHasNoSetup | src/ga/problem.rs:168-178 | the first assignment on a resource has no setup time |
| GaProblems.Tardiness | src/ga/problem.rs:203-210 | the tardiness sum is never negative |
| GaProblems.TardinessZeroIffOnTime | src/ga/problem.rs:203-210 | the tardiness is 0 exactly when every task with a deadline completes by it, a task without assignments completing at 0 |
| GaProblems.TardinessAppend | src/ga/problem.rs:203-210 | the sum over two lists is the sum of their sums |
| GaProblems.TardinessRemove | src/ga/problem.rs:203-210 | removing one entry subtracts exactly its own term |
| GaProblems.TardinessIgnoresOrder | src/ga/problem.rs:203-210 | the sum does not depend on the order of the entries |
| GaProblems.DistinctKeysOccurOnce | src/ga/problem.rs:203-206 | a listing with distinct keys holds each entry once |
| GaProblems.EnumerationsPermute | src/ga/problem.rs:203-206 | two listings of the same map are permutations of each other |
| GaProblems.TardinessOfDeadlines | src/ga/problem.rs:203-210 | the tardiness of the deadlines map is the same whichever order the map is iterated in |
| Scheduler.ScheduleRequest.WithStartTime | src/scheduler/simple.rs:46-49 | replaces the start time and nothing else |
| Scheduler.ScheduleRequest.WithTransitionMatrices | src/scheduler/simple.rs:52-55 | replaces the transition matrices and nothing else |
| Scheduler.NewRequest | src/scheduler/simple.rs:36-43 | the given tasks and resources, start time 0 and a fresh empty matrix collection |
| Scheduler.EarliestCandidate | src/scheduler/simple.rs:151-162 | the chosen start never exceeds the i64::MAX sentinel |
| Scheduler.EarliestCandidateIsEarliest | src/scheduler/simple.rs:151-162 | no resource is chosen exactly when no known candidate starts below the sentinel; a chosen one is a known candidate starting no later than any other, and every known candidate before it starts strictly later, so ties go to the first |
| Scheduler.PlaceActivityEffect | src/scheduler/simple.rs:144-189 | an activity without a usable candidate changes nothing; otherwise one assignment is appended on the earliest candidate, with setup from the resource's last category, the task's category and the activity's processing time, and the resource becomes free, the category is recorded and the task proceeds at its end |
| Scheduler.TaskStart | src/scheduler/simple.rs:139-142 | a task starts no earlier than the schedule start and its release time |
| Scheduler.InitialAvailabilityListsResources | src/scheduler/simple.rs:129-131 | exactly the listed resources are available, each from the schedule start |
| Scheduler.InitAvailability | src/scheduler/simple.rs:129-131 | the initialisation loop builds exactly that map |
| Scheduler.PriorityKeys | src/scheduler/simple.rs:210-215 | definition: one key per task, the negated priority with no tie-breaker; its meaning comes from `Scheduler.PriorityOrderIsDescending` |
| Scheduler.SimpleScheduler.WithTransitionMatrices | src/scheduler/simple.rs:103-106 | replaces the transition matrices and keeps the rule engine |
| Scheduler.SimpleScheduler.WithRuleEngine | src/scheduler/simple.rs:111-114 | installs the engine and keeps the transition matrices |
| Scheduler.SimpleScheduler.TaskOrder | src/scheduler/simple.rs:206-216 | one index per task, each a valid task index |
| Scheduler.SimpleScheduler.SortTasks | src/scheduler/simple.rs:206-216 | returns the engine's order at the start time when an engine is set, and the stable descending-priority order otherwise |
| Scheduler.SimpleScheduler.PlaceActivityStep | src/scheduler/simple.rs:144-189 | one activity iteration changes the loop state exactly as `PlaceActivity` says and adds no violation |
| Scheduler.SimpleScheduler.PlaceTask | src/scheduler/simple.rs:137-191 | one task iteration places its activities in order from the task's start |
| Scheduler.SimpleScheduler.PlaceAll | src/scheduler/simple.rs:137-191 | the outer loop places the tasks in the given order |
| Scheduler.SimpleScheduler.ScheduleTasks | src/scheduler/simple.rs:123-194 | a fresh schedule without violations holding the assignments of the whole simulation |
| Scheduler.SimpleScheduler.ScheduleFromRequest | src/scheduler/simple.rs:197-203 | schedules the request's tasks and resources from its start time with its matrices and this scheduler's engine |
| Scheduler.ChainStep | src/scheduler/simple.rs:176-188 | one more activity adds nothing, or one assignment of the task starting after the previous end |
| Scheduler.PlaceActivitiesChainsTask | src/scheduler/simple.rs:139-190 | a task's assignments are appended in activity order, each starting no earlier than the previous one ends, the first no earlier than the task start |
| Scheduler.PlaceActivityChains | src/scheduler/simple.rs:164-189 | one activity adds no assignment, or one of its task starting no earlier than the task may start, and the task then proceeds from its end |
| Scheduler.PlaceActivityTracksCategories | src/scheduler/simple.rs:166-187 | a resource has a last category only once an assignment lies on it |
| Scheduler.FirstUseHasNoSetup | src/scheduler/simple.rs:166-174 | the first assignment on a resource has no setup, a later one the transition from the resource's last category to the task's |
| Scheduler.FeasibleExtend | src/scheduler/simple.rs:176-187 | appending an assignment that starts once its resource is free keeps the loop state feasible |
| Scheduler.PlaceActivityFeasible | src/scheduler/simple.rs:144-189 | with no negative durations one activity keeps the state feasible, the task start no earlier than the schedule start, and the same resources |
| Scheduler.PlaceActivitiesFeasible | src/scheduler/simple.rs:144-190 | the same over a whole task |
| Scheduler.PlaceTasksFeasible | src/scheduler/simple.rs:137-191 | the same over every task in order |
| Scheduler.RunIsFeasible | src/scheduler/simple.rs:123-194 | with no negative durations every assignment starts no earlier than the schedule start and ends no earlier than it starts, lies on a listed resource, ends at its start plus its non-negative setup plus the processing time of an activity with its id in a task with its id, and no two on one resource overlap; each assignment belongs to a task it starts no earlier than the start of, that is its release time and the schedule start |
| Scheduler.RunTimesActivities | src/scheduler/simple.rs:163-181 | every assignment of a run ends at its start plus its setup plus the processing time of an activity with its id in a task with its id |
| Scheduler.RunRespectsTaskStart | src/scheduler/simple.rs:136-189 | when every assignment ends no earlier than it starts, each starts no earlier than the start of a task it belongs to: its release time and the schedule start |
| Scheduler.RunChainsTasks | src/scheduler/simple.rs:134-189 | the schedule is one block per task in `sort_tasks` order; a task's block holds at most one assignment per activity, all of that task, the first no earlier than the task's start and each next one no earlier than the previous one ends; so there are at most as many assignments as activities |
| Scheduler.PlaceTasksBlocks | src/scheduler/simple.rs:134-189 | placing the first k tasks appends exactly their blocks, in order, each chained from its task's start and no longer than its activity list |
| Scheduler.PlaceTasksStep | src/scheduler/simple.rs:134-189 | one more task appends one more such block |
| Scheduler.ChainStartsAfter | src/scheduler/simple.rs:139-188 | in a task's block of well-formed assignments none starts before the task's start |
| Scheduler.TaskOrderPermutes | src/scheduler/simple.rs:205-215 | both ways `sort_tasks` lists every task index exactly once |
| Scheduler.OrderedCountPermutes | src/scheduler/simple.rs:134-137 | the activity count over the tasks an order lists does not depend on that order |
| Scheduler.PriorityKeyOrder | src/scheduler/simple.rs:213 | the default comparison is descending priority |
| Scheduler.PriorityOrderIsDescending | src/scheduler/simple.rs:210-215 | without an engine every task comes exactly once, by descending priority, and equal priorities keep their input order |
| Scheduler.PrioritySortedPair | src/scheduler/simple.rs:210-215 | two task indices the key order puts in sequence have non-increasing priority, and input order on ties |
| Scheduler.NewScheduler | src/scheduler/simple.rs:95-100 | an empty matrix collection and no rule engine |
| Validation.ToSet | src/validation.rs:69-71 | the set holds exactly the sequence's entries |
| Validation.ActivityIds | src/validation.rs:98-99 | the ids of the activities, in order |
| Validation.TaskIdsOf | src/validation.rs:83-84 | the ids of the tasks, in order |
| Validation.ResourceIds | src/validation.rs:70-71 | the ids of the resources, in order |
| Validation.ActivityIdsAppend | src/validation.rs:98-99 | the ids of two activity lists are the ids of each, concatenated |
| Validation.RepeatsAre | src/validation.rs:98-104 | an id is rejected by `HashSet::insert` exactly when it occurs at a position where it was already seen, before or earlier in the list |
| Validation.RepeatsAppend | src/validation.rs:98-105 | the rejected ids of two lists are those of the first followed by those of the second, seeing the first |
| Validation.DuplicateErrors | src/validation.rs:69-77 | one duplicate-id error per rejected id, in order |
| Validation.DuplicateErrorsAppend | src/validation.rs:98-105 | the errors of two id lists are those of each, concatenated |
| Validation.UnknownAppend | src/validation.rs:112-121 | the unknown-reference errors of two reference lists are those of each, concatenated |
| Validation.UnknownRefsAppend | src/validation.rs:109-142 | the same over two activity lists |
| Validation.UnknownRefsDropLast | src/validation.rs:109-142 | the errors of an activity list end with those of its last activity |
| Validation.UnknownAre | src/validation.rs:112-121 | an error is listed for an activity exactly when it names one of its references that is unknown |
| Validation.UnknownRefsSound | src/validation.rs:109-142 | every listed reference error names an activity and a reference of it that is unknown |
| Validation.UnknownRefsComplete | src/validation.rs:109-142 | every unknown reference of an activity is listed |
| Validation.UnknownRefsAre | src/validation.rs:109-142 | both directions together |
| Validation.RejectedIffRepeated | src/validation.rs:69-77 | an id is rejected exactly when it occurs twice |
| Validation.DuplicateErrorsAre | src/validation.rs:69-77 | a duplicate error of an entity is listed exactly for a rejected id |
| Validation.TaskIdRepeatsStep | src/validation.rs:83-89 | the last task adds a duplicate error exactly when its id was seen before |
| Validation.ActivityIdRepeatsStep | src/validation.rs:98-105 | the last task's activities are checked against all activities seen before |
| Validation.TaskPhaseTaskDuplicates | src/validation.rs:83-89 | the task pass reports a task duplicate exactly for a repeated task id |
| Validation.TaskPhaseActivityDuplicates | src/validation.rs:98-105 | the task pass reports an activity duplicate exactly for a repeated activity id, across all tasks |
| Validation.TaskErrorsEmpty | src/validation.rs:91-96 | one task's errors hold an empty-task error exactly when it has no activities |
| Validation.TaskPhaseEmptyTasks | src/validation.rs:91-96 | the task pass reports an empty task exactly for a task without activities |
| Validation.TaskPhaseEmptySound | src/validation.rs:91-96 | every reported empty task is a task without activities |
| Validation.TaskPhaseEmptyComplete | src/validation.rs:91-96 | every task without activities is reported |
| Validation.TaskPhaseKinds | src/validation.rs:83-106 | the task pass reports only task or activity duplicates and empty tasks |
| Validation.UnknownRefsKinds | src/validation.rs:109-142 | a reference pass reports only its own kind, about activities |
| Validation.ListedKinds | src/validation.rs:65-142 | every error before the cycle check is a duplicate, an empty task or an unknown reference |
| Validation.ListsDuplicates | src/validation.rs:68-106 | a duplicate error of an entity is listed exactly when that id occurs twice among the entity's ids |
| Validation.ListsEmptyTasks | src/validation.rs:91-96 | an empty-task error is listed exactly for a task without activities |
| Validation.ListsUnknownResources | src/validation.rs:109-125 | an unknown-resource error is listed exactly for a candidate that is no resource's id |
| Validation.ListsUnknownPredecessors | src/validation.rs:128-142 | an unknown-predecessor error is listed exactly for a predecessor that is no activity's id |
| Validation.RepeatedIffNotDistinct | src/validation.rs:69-77 | ids are not distinct exactly when some id occurs twice |
| Validation.ListedDuplicateBreaksChecks | src/validation.rs:68-106 | a listed duplicate error means the entity's ids are not distinct |
| Validation.ListedReferenceBreaksChecks | src/validation.rs:109-142 | a listed reference error means some reference is unknown |
| Validation.ListedErrorBreaksChecks | src/validation.rs:65-142 | any listed error means some documented check fails |
| Validation.NothingListedDistinct | src/validation.rs:68-106 | without listed errors all ids of each entity are distinct |
| Validation.NothingListedResources | src/validation.rs:109-125 | without listed errors every candidate is a resource id |
| Validation.NothingListedPredecessors | src/validation.rs:128-142 | without listed errors every predecessor is an activity id |
| Validation.NothingListedNonEmpty | src/validation.rs:91-96 | without listed errors every task has an activity |
| Validation.NoListedErrorsIffChecksPass | src/validation.rs:52-142 | no error is listed exactly when checks 1 to 6 of the documentation hold: distinct ids, no empty task, known candidates, known predecessors |
| Validation.AddEdgesAre | src/validation.rs:172-174 | adding an activity's predecessors adds exactly the edges from each predecessor to it |
| Validation.EdgesAre | src/validation.rs:169-176 | an edge a to b exists exactly when a is a predecessor of activity b |
| Validation.BackEdgeCycle | src/validation.rs:205-207 | an edge back into the DFS path closes a cycle |
| Validation.FirstIndex | src/validation.rs:194-216 | the first position holding the entry |
| Validation.FinishedEdgeGoesDown | src/validation.rs:214-215 | successors of a finished node finished earlier |
| Validation.WalkGoesDown | src/validation.rs:194-216 | a walk from a finished node only reaches nodes that finished earlier |
| Validation.AllFinishedIsAcyclic | src/validation.rs:182-191 | a graph whose nodes all finished has no cycle |
| Validation.UnvisitedShrinks | src/validation.rs:200 | entering an unvisited node shrinks the unvisited set |
| Validation.UnvisitedMonotone | src/validation.rs:200 | the unvisited set never grows |
| Validation.NeighborsFinish | src/validation.rs:204-211 | after each neighbour, all neighbours so far are visited and off the stack |
| Validation.EnterNode | src/validation.rs:200-201 | entering a node keeps the DFS invariant with the node on the path |
| Validation.LeaveNode | src/validation.rs:214-215 | leaving a node whose successors all finished keeps the invariant and finishes it |
| Validation.HasCycleDfs | src/validation.rs:194-216 | `true` only when the graph has a cycle; `false` leaves the node visited and finished, the stack as before, and the DFS invariant kept |
| Validation.VisitNeighbors | src/validation.rs:203-212 | the loop over a node's successors reports a cycle only when there is one, and otherwise leaves every successor visited and off the stack |
| Validation.VisitNeighbor | src/validation.rs:205-210 | one successor: a back edge or a cycle below shows a cycle, otherwise the successor ends visited and finished |
| Validation.CollectResourceIds | src/validation.rs:68-77 | the set of resource ids and one duplicate error per repeated resource id |
| Validation.IdStep | src/validation.rs:69-77 | one `insert` extends the seen set and adds a rejection when the id was seen |
| Validation.DuplicateErrorsSnoc | src/validation.rs:69-77 | one more rejected id adds its error at the end |
| Validation.CollectActivityIds | src/validation.rs:98-105 | the inner loop adds the activity ids to the seen set and reports the repeated ones |
| Validation.AllActivitiesStep | src/validation.rs:83-106 | one more task appends its activities |
| Validation.CollectTask | src/validation.rs:83-105 | one task iteration adds its id and activity ids and reports exactly that task's errors |
| Validation.CollectTaskIds | src/validation.rs:79-106 | the task loop reports exactly the task pass's errors and collects all activity ids |
| Validation.CandidateListErrors | src/validation.rs:112-121 | the errors of one requirement's candidates |
| Validation.FlatCandidatesStep | src/validation.rs:111-123 | one more requirement appends its candidates |
| Validation.CandidateErrors | src/validation.rs:111-123 | the errors of all candidates of one activity, in requirement order |
| Validation.PredecessorErrors | src/validation.rs:130-140 | the errors of one activity's predecessors |
| Validation.ActivityReferences | src/validation.rs:110-124 | the errors of a task's activities, in order |
| Validation.CheckReferences | src/validation.rs:109-142 | the errors of all activities of all tasks, in order |
| Validation.AddActivityEdges | src/validation.rs:172-174 | pushes the activity onto each predecessor's successor list |
| Validation.AddTaskEdges | src/validation.rs:170-175 | adds the ids and edges of a task's activities |
| Validation.GraphStep | src/validation.rs:170-175 | one more activity adds its edges and its id |
| Validation.SnocSlice | src/validation.rs:170-175 | one more activity of the slice |
| Validation.AdjOfSnoc | src/validation.rs:172-174 | the graph with one more activity |
| Validation.IdsOfSnoc | src/validation.rs:171 | the ids with one more activity |
| Validation.ToSetAppend | src/validation.rs:171 | the set with one more entry |
| Validation.BuildGraph | src/validation.rs:166-176 | the adjacency map of all activities' precedences and the set of all activity ids |
| Validation.GraphClosed | src/validation.rs:169-176 | every edge leads to a known activity id |
| Validation.DetectCycles | src/validation.rs:164-192 | an error exactly when the precedence graph has a cycle, of kind cyclic dependency naming some activity |
| Validation.ValidateInput | src/validation.rs:65-153 | `Ok` exactly when checks 1 to 6 hold and the precedence graph is acyclic; otherwise `Err` with the listed errors in pass order, followed by the cycle error when there is a cycle |

## Left out

- `src/cp/mod.rs` is not part of this model: it builds and solves a model through an external constraint solver.
- `src/ga/operators.rs` is not part of this model: it only dispatches to the chromosome operators with a random generator.
- Randomness: `ScheduleChromosome::random`, `with_load_balancing`, `with_shortest_time`, `create_random_osv` and `create_random_mav` are left out because they draw from a random generator. Only the deterministic index part of `create_random_osv` (`IndexOf`) and the shortest-time MAV are modelled.
- Random choices: `pox_crossover`, `lox_crossover` and `jox_crossover` are left out as wrappers, including their `len < 2` and empty-task clone paths. The child builders are modelled, with the selected task set and the segment bounds as parameters.
- Mutations: the mutations take their random indices and candidate choice as parameters.
- GA glue: the `GaProblem` trait methods (`create_individual`, `evaluate`, `crossover`, `mutate`) and the GA runner are left out because they are glue around a random generator.
- `GaProblems.Tardiness`: only the integer tardiness sum of `compute_fitness` is modelled. Its `f64` weighted combination with the makespan is floating point.
- Floating point: `f64` values are `real`. Affected are the tardiness weight, penalties, skill levels, the on-time rate and the average flow time. `WithTardinessWeight` does not model the NaN case of `f64::clamp`.
- Utilisation: `all_utilizations` and `avg_utilization` are left out (a floating-point average over a map). `Kpi.Calculate` takes the average utilisation as a parameter.
- `Schedules.Schedule.ResourceUtilization`: the ratio busy time / horizon is an exact `real` quotient. The rounding of the `f64` division is not modelled.
- Rules: WSPT, CR, S/RO, ATC and LPUL are left out because their scores are floating-point ratios or exponentials.
- Engine modes: the engine's Weighted mode and `with_weighted_rule` are left out, because their scores are floating-point weighted sums. Engine weights are 1 (`with_rule`) or 0 (`with_tie_breaker`).
- Epsilon: because integer scores are exact, Sequential mode's epsilon test is an exact comparison.
- `Rules.EddRanksByDeadline`: the `f64::MAX` sentinel is the value `Top`, above every finite score. The `f64` rounding of large `i64` deadlines is not modelled.
- `Calendars.Calendar.NextAvailableTime`: the contract states that a returned time is working time no earlier than the query, that working time is returned unchanged, and what a `None` implies. It does not state that the returned time is the earliest such instant, and the source does not guarantee it: a blocked end that is itself blocked is not followed further. With the window [0, 100), the blocked periods [10, 20) and [15, 30), and a query at 12, the search tries 12 and then 20, and returns `None` although 30 is working time.
- Integer width: `i64` overflow is not modelled. `start + setup + process` and the `i64::MAX` start sentinel of the greedy scheduler become unbounded arithmetic.
- Non-negative durations: the feasibility lemmas of both schedulers (`Scheduler.RunIsFeasible`, `GaProblems.DecodedIsFeasible`) require non-negative processing and setup times. The source does not reject negative ones.
- Matrix ownership: `TransitionMatrixCollection` holds references to `TransitionMatrix` objects. The Rust move of a matrix into the collection and the clone made by `schedule_request` are not modelled as copies.
- `with_matrix` is not modelled separately: it is `Add` on a collection taken by value.
- Validation messages: error messages become the entity kind, its id and the offending reference. The message text is left out.
- Cycle node: `detect_cycles` iterates a `HashSet` in unspecified order, so the model picks the next node with `:|`. The cycle error names some activity, not a particular one.
- POX and JOX task selection: task ids drawn from `HashMap` keys in unspecified order are the selected set parameter.
- `Chromosomes.LoxBuildChild` (and `Chromosomes.LoxChild`): requires `start <= end < |p1| <= |p2|`. `lox_build_child` reads `p2[(end + 1 + i) % p1.len()]`, which panics when `p2` is shorter than `p1`, and `lox_crossover` calls it both ways, so parents of unequal length panic in the source. Those inputs are excluded.
- Unused LOX count: the `p2_counts` map of `lox_build_child` is computed but never read, so the model leaves it out.
- Attributes: activity, task and resource attribute maps, skills' levels and resource types are carried only where an operation reads them.
- PERT and duration distributions: the PERT mean, standard deviation and confidence functions and `DurationDistribution` are left out because they call normal-distribution routines in floating point. Only `PertEstimate::symmetric` is modelled.
- Violation factories: the `Violation` and `ConstraintViolation` factory constants and message strings are left out.
- Resource efficiency and cost: the `efficiency` and `cost_per_hour` fields and their builders `with_efficiency` and `with_cost` are left out, because no modelled operation reads them.
- Calendars in scheduling: neither scheduler reads resource calendars. The model states no calendar property of them.
- Sort model: Rust's stable `sort_by` is modelled as an insertion sort over a total preorder on keys. Any stable sort gives the same result under such an order.
