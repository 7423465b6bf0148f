# A verified model of the priority-based daily task scheduler

`scheduler_script.py` schedules a day of tasks. Each task has a duration, a list of
dependency ids, an importance level and, for fixed tasks, a start time. The script has
three parts, and each has its own module here:

- **`Heap`** (`heap.dfy`) models the `MaxHeap` class. It is a binary heap over a
  Python list, with `heappush`, `heappop`, `_bubble_up`, `_heapify`, `__len__` and
  `reset_heap`.
  - The class `Heap.MaxHeap` keeps the list as a `seq` field that its methods update.
  - The element comparison `a > b` is a constructor parameter `gt`, so the heap is
    generic.
  - `Valid()` states heap order: no element beats its parent under `gt`. It also
    requires `gt` to be a strict weak order.
- **`Tasks`** (`tasks.dfy`) models the task record, `Task.calculate_priority` and
  `Task.__lt__`.
  - `Task` defines no `__gt__`. So the heap's `a > b` is Python's reflected call
    `b.__lt__(a)`, which is `b.priority > a.priority`.
  - `Tasks.Gt` is that comparison. Instantiated with it, the "max" heap pops a task of
    the **lowest** priority. Ties are not broken.
- **`SchedulerSteps`** (`steps.dfy`) and **`Scheduler`** (`scheduler.dfy`) model the
  `TaskScheduler` class.
  - `SchedulerSteps` holds value-level definitions with their lemmas: what
    `remove_dependency`, `get_tasks_ready` and `update_priorities` do to one task, the
    list of status-I tasks, and the invariant of the run loop.
  - `Scheduler.TaskScheduler` holds the task list as an array of records, updated in
    place, plus the heap. Its methods are the source's methods, with loops and
    invariants, proved against those definitions.

The heap holds `TaskRef(slot, priority)` values: the array slot of a task and its
priority. The source heap holds the task objects and reads `priority` at each
comparison. The two agree because a task in the heap has status `'I'`, and
`update_priorities` only rescores status-`'N'` tasks.

The run loop `run_task_scheduler` stops as soon as no task has status `'N'`. At that
point tasks may still sit in the heap with status `'I'`, never popped. For example,
take two flexible tasks without dependencies: both are admitted together, one is
completed, and the loop exits. The model follows the code. `RunTaskScheduler` ensures
that `finished` holds exactly when no task is unstarted. It also ensures that the heap
then holds exactly the status-`'I'` tasks whenever it did so when the run began, as it
does for a scheduler fresh from its constructor whose tasks are all unstarted. The
program's own closing message at scheduler_script.py:221 nevertheless reports that all
planned tasks were completed.

## Model

| member | source | states |
|---|---|---|
| Heap.MaxHeap.constructor | scheduler_script.py:9-10 | a new heap is empty and ordered |
| Heap.MaxHeap.Len | scheduler_script.py:64-65 | the length is the number of elements held, counting repeats |
| Heap.MaxHeap.HeapPush | scheduler_script.py:12-19 | heap order is kept; the contents grow by exactly the pushed element, and the length by one |
| Heap.MaxHeap.HeapPop | scheduler_script.py:21-40 | an empty heap gives `IndexError` and stays empty; otherwise the old root is returned, the contents shrink by exactly it, heap order holds, and no remaining element compares `>` the returned one |
| Heap.MaxHeap.BubbleUp | scheduler_script.py:42-49 | from a list ordered except at `index`, the loop restores heap order and permutes only |
| Heap.MaxHeap.Heapify | scheduler_script.py:51-62 | from a list ordered except below `i`, the recursive sift-down restores heap order and permutes only |
| Heap.MaxHeap.ResetHeap | scheduler_script.py:67-71 | afterwards the heap holds exactly the given elements as a multiset, its length is their count, and it is ordered |
| Heap.Parent | scheduler_script.py:44 | `(index - 1) // 2`: the index whose left or right child is the given index |
| Heap.RootNotBeaten | scheduler_script.py:22-30 | in a heap-ordered list, no element compares `>` the root |
| Heap.Swap | scheduler_script.py:46 | swapping two entries keeps the length and the multiset, and exchanges the two entries |
| Tasks.DependencyPenalty | scheduler_script.py:105 | 10 points per listed dependency: never negative, and at least 10 when any is listed |
| Tasks.DurationPenalty | scheduler_script.py:108 | 40 below 30 minutes, 0 from 120 minutes, never negative, and at most 40 for non-negative durations |
| Tasks.ImportanceBonus | scheduler_script.py:111 | the bonus for each level lies in [0, 30] |
| Tasks.Clamp | scheduler_script.py:117 | the result lies in [0, 100]; it is the input inside that range, 0 below it and 100 above it |
| Tasks.CalculatePriority | scheduler_script.py:85-117 | the score lies in [0, 100], and a fixed task scores 100 |
| Tasks.PriorityIgnoresCurrentTime | scheduler_script.py:94-95 | the clock argument never changes the score |
| Tasks.FlexibleScoreByTable | scheduler_script.py:100-117 | for a flexible task of non-negative duration, the score is `100 − 10·deps − penalty + bonus` clamped to [0, 100], with the penalty read from the table 40/30/20/10/0 for durations below 30/60/90/120 and from 120 on, and the bonus 30/15/0 for high/medium/low |
| Tasks.MoreDependenciesNeverRaisePriority | scheduler_script.py:104-105 | listing more dependencies never raises the score |
| Tasks.LongerDurationNeverLowersPriority | scheduler_script.py:107-108 | a longer task never scores lower |
| Tasks.HigherImportanceNeverLowersPriority | scheduler_script.py:110-111 | a higher importance level never scores lower |
| Tasks.SampleDayScores | scheduler_script.py:226-235 | concrete scores of tasks from the first sample list, before and after their dependencies are resolved |
| Tasks.Lt | scheduler_script.py:120-121 | `Task.__lt__`: `self` has the higher priority |
| Tasks.Gt | scheduler_script.py:45 | the heap's `a > b` at lines 45, 56 and 58: the reflected `b.__lt__(a)` |
| Tasks.TiesAreNotBroken | scheduler_script.py:120-121 | two references of equal priority compare neither way, whatever their slots, so the heap breaks no ties; of two different priorities, exactly the lower one is `>` the other |
| Tasks.GtIsStrictWeakOrder | scheduler_script.py:120-121 | that comparison is irreflexive and transitive, and its incomparability is transitive |
| Tasks.RootHasLowestPriority | scheduler_script.py:21-40 | the root of a heap ordered by that comparison has the lowest priority of all its elements |
| SchedulerSteps.IndexOf | scheduler_script.py:136 | the position found holds `x`, and no earlier position does |
| SchedulerSteps.RemoveFirst | scheduler_script.py:136 | `list.remove` drops exactly one occurrence (the first) and shortens the list by one; the multiset loses one `x` |
| SchedulerSteps.RemoveFirstClears | scheduler_script.py:136 | in a list without duplicates, one removal leaves no occurrence and no duplicate |
| SchedulerSteps.Resolve | scheduler_script.py:133-136 | only the dependency list changes; the task named `id`, and a task not listing `id`, are unchanged |
| SchedulerSteps.ResolveClears | scheduler_script.py:133-136 | with a duplicate-free list, a task other than `id` no longer lists `id` |
| SchedulerSteps.ResolveDropsOneOccurrence | scheduler_script.py:133-136 | every task except the one named `id` loses exactly one occurrence of `id` |
| SchedulerSteps.ResolveKeepsOthers | scheduler_script.py:133-136 | every dependency other than `id` is kept |
| SchedulerSteps.ResolveIdempotent | scheduler_script.py:133-136 | with a duplicate-free list, resolving the same id a second time changes nothing |
| SchedulerSteps.DueFixed | scheduler_script.py:141-144 | the first pass's test: unstarted, fixed, starting exactly now, and with an empty dependency list |
| SchedulerSteps.Eligible | scheduler_script.py:152-154 | the second pass's test: unstarted, with an empty dependency list, and either flexible or fixed with its start time reached |
| SchedulerSteps.SecondPassRuns | scheduler_script.py:150 | the second pass runs exactly when the heap was empty and no fixed task was due, so the first pass pushed nothing |
| SchedulerSteps.Admits | scheduler_script.py:140-157 | a task is admitted by a call if the first pass accepts it, or if the second pass runs and accepts it |
| SchedulerSteps.AdmitIfReady | scheduler_script.py:140-157 | a task after the call: `Admit` of itself if admitted, otherwise unchanged |
| SchedulerSteps.Admit | scheduler_script.py:145-146 | an admitted task gets status 'I' and its freshly computed score, and nothing else changes |
| SchedulerSteps.AdmissionRespectsStartTime | scheduler_script.py:138-157 | only unstarted tasks with no dependencies are admitted; a fixed task never before its start time, and in the first pass exactly at it |
| SchedulerSteps.Rescore | scheduler_script.py:170-172 | only the priority changes, only for an unstarted task, and it becomes that task's score |
| SchedulerSteps.QueuedIn | scheduler_script.py:174 | the list of status-I references is no longer than the task list |
| SchedulerSteps.QueuedInMember | scheduler_script.py:174 | a reference is in that list exactly when it names a status-I slot with its current priority |
| SchedulerSteps.QueuedInEmpty | scheduler_script.py:174 | that list is empty exactly when no task has status 'I' |
| SchedulerSteps.SecondPassAfterRescore | scheduler_script.py:169-174 | right after `update_priorities`, the second pass of `get_tasks_ready` (line 150 tests the heap) runs exactly when no task was queued and no fixed task is due now |
| SchedulerSteps.AdmissionQueuesOne | scheduler_script.py:145-147 | admitting one task adds exactly its reference to the status-I tasks |
| SchedulerSteps.PoppedHasLowestPriority | scheduler_script.py:194-195 | what `heappop` returns from a heap holding the status-I tasks has the lowest priority among them |
| SchedulerSteps.FixedAhead | scheduler_script.py:162-164 | the candidates of the scan: unstarted fixed tasks starting strictly after now |
| SchedulerSteps.SumPriorities | scheduler_script.py:201 | `total_utils`: the priorities of the completed slots in completion order, summed; with priorities in [0, 100] it lies between 0 and 100 per completed task |
| SchedulerSteps.CheckUnscheduledTasks | scheduler_script.py:176-177 | true exactly when some task has status 'N' |
| SchedulerSteps.LostOccurrenceNeedsCompletion | scheduler_script.py:136 | occurrences are counted by the run invariant: losing one of two listed 3s while nothing has completed breaks it |
| SchedulerSteps.RunInvariantInitially | scheduler_script.py:183-184 | the run invariant holds at the start, with nothing completed and `total_utils` 0 |
| SchedulerSteps.InvariantAfterNotStartedAdvance | scheduler_script.py:190-192 | rescoring and admission keep the run invariant |
| SchedulerSteps.RescoreAdvances | scheduler_script.py:169-172 | `update_priorities` only touches unstarted tasks, and only their scores |
| SchedulerSteps.AdmissionAdvances | scheduler_script.py:138-157 | `get_tasks_ready` only moves unstarted tasks with no dependencies to 'I' |
| SchedulerSteps.InvariantAfterCompletion | scheduler_script.py:200-203 | completing the popped task keeps the run invariant, extended by its id, its slot and its priority |
| SchedulerSteps.CompletedIdsDistinct | scheduler_script.py:206-207 | with unique task ids, no id is appended to the completed order twice |
| Scheduler.TaskScheduler.constructor | scheduler_script.py:129-131 | the scheduler keeps the given task list, and its heap is newly allocated, empty and ordered by `Tasks.Gt` |
| Scheduler.TaskScheduler.RemoveDependency | scheduler_script.py:133-136 | every task becomes `Resolve` of itself, so only the tasks listing `id`, other than the task `id`, lose one occurrence of it |
| Scheduler.TaskScheduler.UpdatePriorities | scheduler_script.py:169-174 | exactly the unstarted tasks are rescored, and the heap is rebuilt in order holding exactly the status-I tasks |
| Scheduler.TaskScheduler.GetTasksReady | scheduler_script.py:138-157 | the first pass admits the fixed tasks due now; the second pass runs exactly when the heap is still empty and admits every eligible task; the heap gains exactly the admitted tasks |
| Scheduler.TaskScheduler.AdmitSlot | scheduler_script.py:141-147 | one slot of a pass: the task is admitted exactly when the pass's test accepts it, the heap gains exactly its reference, and the heap is empty afterwards exactly when it was before and nothing was admitted |
| Scheduler.TaskScheduler.AdmitPass | scheduler_script.py:140-157 | one pass over the list admits exactly the tasks its test accepts, and pushes each once |
| Scheduler.TaskScheduler.GetNextFixedTaskTime | scheduler_script.py:159-167 | None exactly when no unstarted fixed task starts after now; otherwise the least such start time, which lies after now |
| Scheduler.TaskScheduler.AdvanceIdleClock | scheduler_script.py:210-217 | the clock jumps to the least upcoming fixed start time, or moves on by one minute when there is none; either way it moves forward |
| Scheduler.TaskScheduler.PopLowest | scheduler_script.py:194-195 | the popped reference names a status-I task of lowest priority, and the heap loses exactly it |
| Scheduler.TaskScheduler.PrepareStep | scheduler_script.py:191-192 | every task becomes `AdmitIfReady` of its rescored self, with the second pass deciding on the list as it was; the heap holds exactly the status-I tasks; the run invariant is kept |
| Scheduler.TaskScheduler.Refresh | scheduler_script.py:191 | the call of `update_priorities` at the head of the loop and again after a completion (line 205): every task becomes `Rescore` of itself, the heap holds exactly the status-I tasks, and the run invariant is kept |
| Scheduler.TaskScheduler.CompleteTask | scheduler_script.py:202-203 | the popped task becomes 'C' and changes nothing else; every other task becomes `Resolve` of itself for the popped id; the run invariant grows by that id, slot and priority |
| Scheduler.TaskScheduler.FinishTask | scheduler_script.py:201-207 | after the pop, `total_utils` grows by the task's priority and its id is appended to the completed order; the task becomes 'C', every other task loses one occurrence of its id and is then rescored; the heap holds exactly the status-I tasks, and the run invariant holds |
| Scheduler.TaskScheduler.RunNextTask | scheduler_script.py:194-207 | a lowest-priority queued task runs: the clock advances by its duration, `total_utils` by its priority, its id is appended; it becomes 'C', every other task loses one occurrence of its id and is then rescored; the heap holds exactly the status-I tasks, and the run invariant holds |
| Scheduler.TaskScheduler.RunTaskScheduler | scheduler_script.py:182-219 | statuses only move N → I → C; other attributes never change; a dependency list loses an occurrence of an id only once a task with that id has completed; with unique ids, each id completed appears once; each appears after all its dependencies; `total_utils` is the sum of the popped priorities; with non-negative durations the clock never goes back; the loop ends exactly when no task is unstarted; when the heap held exactly the status-I tasks at the start, it still does at the end, so those tasks are left in it |

## Left out

- Console output: the `print` calls, the `suppress_output` flag, `format_time` and the closing `total_time` report are presentation only.
- The sample task lists and the driver code at the end of the file are left out. The only exception is the concrete scores in `Tasks.SampleDayScores`. The order-invariance assertions hold only for that data, because equal priorities are ordered by heap position.
- Scheduler.TaskScheduler.RunTaskScheduler: the source loop has no bound. A dependency cycle, a dependency id naming no task, or an id listed twice in one dependency list (line 136 removes one occurrence per completion, so with unique ids the second occurrence never clears) makes it advance the clock one minute at a time forever. The model runs at most `fuel` iterations and reports in `finished` whether the loop ended by its own test.
- Scheduler.TaskScheduler.RunTaskScheduler: `completed_task_order` is an optional list the caller passes in and the loop appends to. The model always returns the completed ids as a new sequence, so the `None` case and any aliasing of the caller's list are not modelled.
- Tasks.Task: `description` is only printed and is not part of the record. `start_time` is an integer. A fixed task whose `start_time` is `None` raises a `TypeError` in the source, and the model does not cover that case.
- Tasks.ImportanceBonus: importance is an enumeration, so the `KeyError` for an unknown level cannot arise.
- Heap.MaxHeap: the heap holds slot-and-priority references instead of the task objects. The model does not capture object identity, or changes to a queued task's priority made from outside the scheduler.
- Scheduler.TaskScheduler.RemoveDependency: its postcondition states the effect per task through `SchedulerSteps.Resolve`. "No task other than `id` still lists `id`" is stated separately, by `SchedulerSteps.ResolveClears`, for duplicate-free lists, because `list.remove` drops only one occurrence.
- Scheduler.TaskScheduler.RunTaskScheduler: termination for acyclic inputs is not proved.
