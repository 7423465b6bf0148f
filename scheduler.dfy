/**
  The TaskScheduler class of scheduler_script.py: a task list updated in
  place and a MaxHeap of references into it, ordered by `Tasks.Gt`.
 */
module Scheduler {
  import opened Tasks
  import opened SchedulerSteps
  import Heap

  class TaskScheduler {
    /** `self.tasks`: the task records, updated in place. */
    const tasks: array<Task>
    /** `self.priority_queue`. */
    const priorityQueue: Heap.MaxHeap<TaskRef>

    ghost predicate Valid()
      reads this, priorityQueue
    {
      priorityQueue.Valid() && priorityQueue.gt == Gt
    }

    /** The heap holds exactly the status-I tasks, as references with their priorities. */
    ghost predicate QueueHoldsInQueue()
      reads this, tasks, priorityQueue
    {
      multiset(priorityQueue.heap) == multiset(QueuedIn(tasks[..]))
    }

    constructor (tasks: array<Task>)
      ensures Valid() && this.tasks == tasks && priorityQueue.heap == []
      ensures fresh(priorityQueue)
    {
      this.tasks := tasks;
      GtIsStrictWeakOrder();
      priorityQueue := new Heap.MaxHeap(Gt);
    }

    /** `remove_dependency(id)`. */
    method RemoveDependency(id: int)
      modifies tasks
      ensures forall j :: 0 <= j < tasks.Length ==> tasks[j] == Resolve(old(tasks[j]), id)
    {
      ghost var orig := tasks[..];
      for j := 0 to tasks.Length
        invariant forall k :: 0 <= k < tasks.Length ==> tasks[k] == if k < j then Resolve(orig[k], id) else orig[k]
      {
        var t := tasks[j];
        if t.id != id && id in t.dependencies {
          tasks[j] := t.(dependencies := RemoveFirst(t.dependencies, id));
        }
      }
    }

    /** `update_priorities`: rescore the unstarted tasks, then rebuild the
        heap from the status-I tasks. */
    method UpdatePriorities()
      requires Valid()
      modifies tasks, priorityQueue
      ensures Valid()
      ensures forall j :: 0 <= j < tasks.Length ==> tasks[j] == Rescore(old(tasks[j]))
      ensures QueueHoldsInQueue() && priorityQueue.Len() == |QueuedIn(tasks[..])|
    {
      for j := 0 to tasks.Length
        modifies tasks
        invariant forall k :: 0 <= k < j ==> tasks[k] == Rescore(old(tasks[k]))
        invariant forall k :: j <= k < tasks.Length ==> tasks[k] == old(tasks[k])
      {
        if tasks[j].status == NotStarted {
          tasks[j] := tasks[j].(priority := CalculatePriority(tasks[j], None));
        }
      }
      priorityQueue.ResetHeap(QueuedIn(tasks[..]));
    }

    /** `get_tasks_ready(current_time)`: first the fixed tasks due now; then,
        only if the heap is still empty, every eligible task. */
    method GetTasksReady(currentTime: int)
      requires Valid()
      modifies tasks, priorityQueue
      ensures Valid()
      ensures var second := SecondPassRuns(old(tasks[..]), old(priorityQueue.Len()), currentTime);
              forall j :: 0 <= j < tasks.Length ==> tasks[j] == AdmitIfReady(old(tasks[j]), currentTime, second)
      ensures multiset(priorityQueue.heap) + multiset(QueuedIn(old(tasks[..])))
              == old(multiset(priorityQueue.heap)) + multiset(QueuedIn(tasks[..]))
      ensures old(QueueHoldsInQueue()) ==> QueueHoldsInQueue()
    {
      ghost var orig := tasks[..];
      ghost var h0 := multiset(priorityQueue.heap);
      AdmitPass(currentTime, false);
      ghost var second := SecondPassRuns(orig, old(priorityQueue.Len()), currentTime);
      if priorityQueue.Len() == 0 {
        ghost var mid := tasks[..];
        ghost var h1 := multiset(priorityQueue.heap);
        assert second;
        assert mid == orig;
        AdmitPass(currentTime, true);
        SecondPassComposes(orig, mid, tasks[..], currentTime, h0, h1, multiset(priorityQueue.heap));
      } else {
        assert !second;
      }
      if old(QueueHoldsInQueue()) {
        AddCancel(multiset(priorityQueue.heap), multiset(QueuedIn(orig)), multiset(QueuedIn(tasks[..])));
      }
    }

    /** The loop body of one pass of `get_tasks_ready` at slot j: when the
        pass's test holds, score the task, mark it 'I' and push it. */
    method AdmitSlot(j: nat, currentTime: int, secondPass: bool)
      requires Valid() && j < tasks.Length
      modifies tasks, priorityQueue
      ensures Valid()
      ensures tasks[..] == old(tasks[..])[j := AdmitIfReady(old(tasks[j]), currentTime, secondPass)]
      ensures multiset(priorityQueue.heap) + multiset(QueuedIn(old(tasks[..])))
              == old(multiset(priorityQueue.heap)) + multiset(QueuedIn(tasks[..]))
      ensures |multiset(priorityQueue.heap)| == 0 <==>
              old(|multiset(priorityQueue.heap)|) == 0 && !Admits(old(tasks[j]), currentTime, secondPass)
    {
      var task := tasks[j];
      var due := task.status == NotStarted && task.isFixed && task.startTime == currentTime && task.dependencies == [];
      var eligible := task.status == NotStarted && task.dependencies == []
                      && (!task.isFixed || currentTime >= task.startTime);
      if (!secondPass && due) || (secondPass && eligible) {
        ghost var before := tasks[..];
        ghost var h := multiset(priorityQueue.heap);
        var t := Admit(task);
        tasks[j] := t;
        priorityQueue.HeapPush(TaskRef(j, t.priority));
        assert tasks[..] == before[j := t];
        AdmissionQueuesOne(before, j, t);
        MultisetSwap(h, multiset{TaskRef(j, t.priority)}, multiset(QueuedIn(before)));
      } else {
        assert tasks[..] == old(tasks[..])[j := task];
      }
    }

    /** One pass of `get_tasks_ready` over the list: the first pass
        (`secondPass` false) or the second. */
    method AdmitPass(currentTime: int, secondPass: bool)
      requires Valid()
      modifies tasks, priorityQueue
      ensures Valid()
      ensures PassState(old(tasks[..]), tasks[..], tasks.Length, currentTime, secondPass,
                        old(multiset(priorityQueue.heap)), multiset(priorityQueue.heap))
    {
      ghost var orig := tasks[..];
      PassStateInitially(orig, currentTime, secondPass, multiset(priorityQueue.heap));
      for j := 0 to tasks.Length
        invariant Valid()
        invariant PassState(orig, tasks[..], j, currentTime, secondPass,
                            old(multiset(priorityQueue.heap)), multiset(priorityQueue.heap))
      {
        ghost var cur := tasks[..];
        ghost var h := multiset(priorityQueue.heap);
        AdmitSlot(j, currentTime, secondPass);
        PassStep(orig, cur, tasks[..], j, currentTime, secondPass, old(multiset(priorityQueue.heap)), h,
                 multiset(priorityQueue.heap));
      }
    }

    /** `get_next_fixed_task_time(current_time)`: the earliest start time after
        now among the unstarted fixed tasks, if there is one. */
    method GetNextFixedTaskTime(currentTime: int) returns (nextTime: Option<int>)
      ensures nextTime == None <==> forall j :: 0 <= j < tasks.Length ==> !FixedAhead(tasks[j], currentTime)
      ensures nextTime.Some? ==>
                && nextTime.value > currentTime
                && (exists j :: 0 <= j < tasks.Length && FixedAhead(tasks[j], currentTime) && tasks[j].startTime == nextTime.value)
                && forall j :: 0 <= j < tasks.Length && FixedAhead(tasks[j], currentTime) ==> nextTime.value <= tasks[j].startTime
    {
      nextTime := None;
      for j := 0 to tasks.Length
        invariant nextTime == None <==> forall k :: 0 <= k < j ==> !FixedAhead(tasks[k], currentTime)
        invariant nextTime.Some? ==>
                    && (exists k :: 0 <= k < j && FixedAhead(tasks[k], currentTime) && tasks[k].startTime == nextTime.value)
                    && forall k :: 0 <= k < j && FixedAhead(tasks[k], currentTime) ==> nextTime.value <= tasks[k].startTime
      {
        var task := tasks[j];
        if task.status == NotStarted && task.isFixed && task.startTime > currentTime {
          if nextTime == None || task.startTime < nextTime.value {
            nextTime := Some(task.startTime);
          }
        }
      }
    }

    /** The branch of the run loop that finds nothing to run: jump to the next
        fixed start time, or wait one minute when there is none. */
    method AdvanceIdleClock(currentTime: int) returns (next: int)
      ensures next > currentTime
      ensures (forall j :: 0 <= j < tasks.Length ==> !FixedAhead(tasks[j], currentTime)) ==> next == currentTime + 1
      ensures (exists j :: 0 <= j < tasks.Length && FixedAhead(tasks[j], currentTime)) ==>
                && (exists j :: 0 <= j < tasks.Length && FixedAhead(tasks[j], currentTime) && tasks[j].startTime == next)
                && forall j :: 0 <= j < tasks.Length && FixedAhead(tasks[j], currentTime) ==> next <= tasks[j].startTime
    {
      var nextTime := GetNextFixedTaskTime(currentTime);
      if nextTime.Some? {
        next := nextTime.value;
      } else {
        next := currentTime + 1;
      }
    }

    /** `run_task_scheduler(starting_time)` without its console output: the
        ids in completion order, `total_utils`, and the final clock. The
        source loop has no bound; `fuel` caps the number of iterations and
        `finished` tells whether the loop ended by its own test. */
    method RunTaskScheduler(startingTime: int, fuel: nat)
      returns (completedTaskOrder: seq<int>, totalUtils: int, currentTime: int, finished: bool,
               ghost completedSlots: seq<nat>)
      requires Valid()
      modifies tasks, priorityQueue
      ensures Valid()
      ensures RunInvariant(old(tasks[..]), tasks[..], completedTaskOrder, completedSlots, totalUtils)
      ensures finished <==> !CheckUnscheduledTasks(tasks[..])
      ensures NonNegativeDurations(old(tasks[..])) ==> currentTime >= startingTime
      ensures UniqueIds(old(tasks[..])) ==> NoDuplicates(completedTaskOrder)
      ensures old(QueueHoldsInQueue()) ==> QueueHoldsInQueue()
    {
      ghost var orig := tasks[..];
      ghost var held := QueueHoldsInQueue();
      currentTime := startingTime;
      totalUtils := 0;
      completedTaskOrder := [];
      completedSlots := [];
      RunInvariantInitially(orig);
      var steps := 0;
      while steps < fuel && CheckUnscheduledTasks(tasks[..])
        invariant Valid()
        invariant RunInvariant(orig, tasks[..], completedTaskOrder, completedSlots, totalUtils)
        invariant NonNegativeDurations(orig) ==> currentTime >= startingTime
        invariant held ==> QueueHoldsInQueue()
        decreases fuel - steps
      {
        steps := steps + 1;
        PrepareStep(orig, completedTaskOrder, completedSlots, totalUtils, currentTime);
        if priorityQueue.Len() > 0 {
          var slot;
          currentTime, totalUtils, completedTaskOrder, completedSlots, slot :=
            RunNextTask(orig, currentTime, totalUtils, completedTaskOrder, completedSlots);
        } else {
          currentTime := AdvanceIdleClock(currentTime);
        }
      }
      finished := !CheckUnscheduledTasks(tasks[..]);
      if UniqueIds(orig) {
        CompletedIdsDistinct(orig, tasks[..], completedTaskOrder, completedSlots, totalUtils);
      }
    }

    /** The branch of the run loop that pops a task: advance the clock by its
        duration, add its priority to `total_utils`, resolve its id, mark it
        'C', rescore, and append its id. */
    method RunNextTask(ghost orig: seq<Task>, currentTime: int, totalUtils: int, completedTaskOrder: seq<int>,
                       ghost completedSlots: seq<nat>)
      returns (currentTime': int, totalUtils': int, completedTaskOrder': seq<int>, ghost completedSlots': seq<nat>,
               slot: nat)
      requires Valid() && QueueHoldsInQueue() && priorityQueue.Len() > 0
      requires RunInvariant(orig, tasks[..], completedTaskOrder, completedSlots, totalUtils)
      modifies tasks, priorityQueue
      ensures Valid() && RunInvariant(orig, tasks[..], completedTaskOrder', completedSlots', totalUtils')
      ensures QueueHoldsInQueue()
      ensures LowestQueued(old(tasks[..]), slot)
      ensures currentTime' == currentTime + old(tasks[..])[slot].duration
      ensures totalUtils' == totalUtils + old(tasks[..])[slot].priority
      ensures completedTaskOrder' == completedTaskOrder + [old(tasks[..])[slot].id]
      ensures NonNegativeDurations(orig) ==> currentTime' >= currentTime
      ensures forall j :: 0 <= j < tasks.Length ==>
                tasks[j] == if j == slot then old(tasks[..])[j].(status := Completed)
                            else Rescore(Resolve(old(tasks[..])[j], old(tasks[..])[slot].id))
    {
      ghost var ts := tasks[..];
      slot := PopLowest();
      assert SameAttributes(orig[slot], ts[slot]);
      currentTime' := currentTime + tasks[slot].duration;
      totalUtils', completedTaskOrder', completedSlots' := FinishTask(orig, ts, totalUtils, completedTaskOrder, completedSlots, slot);
    }

    /** The head of the run-loop body, `update_priorities` then
        `get_tasks_ready(current_time)`, keeps the run invariant. */
    method PrepareStep(ghost orig: seq<Task>, ghost order: seq<int>, ghost slots: seq<nat>, ghost utils: int,
                       currentTime: int)
      requires Valid() && RunInvariant(orig, tasks[..], order, slots, utils)
      modifies tasks, priorityQueue
      ensures Valid() && RunInvariant(orig, tasks[..], order, slots, utils)
      ensures QueueHoldsInQueue()
      ensures var second := SecondPassAfterRebuild(old(tasks[..]), currentTime);
              forall j :: 0 <= j < tasks.Length ==> tasks[j] == AdmitIfReady(Rescore(old(tasks[j])), currentTime, second)
    {
      ghost var before := tasks[..];
      Refresh(orig, order, slots, utils);
      ghost var ts := tasks[..];
      ghost var queued := priorityQueue.Len();
      assert queued == |multiset(QueuedIn(ts))|;
      SecondPassAfterRescore(before, ts, currentTime);
      GetTasksReady(currentTime);
      AdmissionAdvances(ts, tasks[..], currentTime, SecondPassRuns(ts, queued, currentTime));
      InvariantAfterNotStartedAdvance(orig, ts, tasks[..], order, slots, utils);
    }

    /** What follows the pop in the run loop: complete the task, then
        `update_priorities`. */
    method FinishTask(ghost orig: seq<Task>, ghost ts: seq<Task>, totalUtils: int, completedTaskOrder: seq<int>,
                      ghost completedSlots: seq<nat>, slot: nat)
      returns (totalUtils': int, completedTaskOrder': seq<int>, ghost completedSlots': seq<nat>)
      requires Valid() && tasks[..] == ts && slot < |ts| && ts[slot].status == InPriorityQueue
      requires RunInvariant(orig, ts, completedTaskOrder, completedSlots, totalUtils)
      modifies tasks, priorityQueue
      ensures totalUtils' == totalUtils + ts[slot].priority
      ensures completedTaskOrder' == completedTaskOrder + [ts[slot].id]
      ensures completedSlots' == completedSlots + [slot]
      ensures Valid() && QueueHoldsInQueue()
      ensures RunInvariant(orig, tasks[..], completedTaskOrder', completedSlots', totalUtils')
      ensures forall j :: 0 <= j < |ts| ==>
                tasks[j] == if j == slot then ts[j].(status := Completed) else Rescore(Resolve(ts[j], ts[slot].id))
    {
      totalUtils' := totalUtils + tasks[slot].priority;
      completedTaskOrder' := completedTaskOrder + [tasks[slot].id];
      completedSlots' := completedSlots + [slot];
      CompleteTask(orig, completedTaskOrder, completedSlots, totalUtils, slot);
      ghost var cs := tasks[..];
      Refresh(orig, completedTaskOrder', completedSlots', totalUtils');
      forall j | 0 <= j < |ts|
        ensures tasks[j] == if j == slot then ts[j].(status := Completed) else Rescore(Resolve(ts[j], ts[slot].id))
      {
        assert tasks[j] == Rescore(cs[j]);
      }
    }

    /** `remove_dependency(task.id)` then status 'C' for the popped task. */
    method CompleteTask(ghost orig: seq<Task>, ghost order: seq<int>, ghost slots: seq<nat>, ghost utils: int,
                        slot: nat)
      requires slot < tasks.Length && tasks[slot].status == InPriorityQueue
      requires RunInvariant(orig, tasks[..], order, slots, utils)
      modifies tasks
      ensures RunInvariant(orig, tasks[..], order + [old(tasks[slot]).id], slots + [slot],
                           utils + old(tasks[slot]).priority)
      ensures forall j :: 0 <= j < tasks.Length ==>
                tasks[j] == if j == slot then old(tasks[j]).(status := Completed) else Resolve(old(tasks[j]), old(tasks[slot]).id)
    {
      ghost var ts := tasks[..];
      RemoveDependency(tasks[slot].id);
      ghost var us := tasks[..];
      tasks[slot] := tasks[slot].(status := Completed);
      assert tasks[..] == us[slot := us[slot].(status := Completed)];
      InvariantAfterCompletion(orig, ts, us, slot, order, slots, utils);
    }

    /** `heappop` in the run loop: the popped reference names a queued task
        of the lowest priority. */
    method PopLowest() returns (slot: nat)
      requires Valid() && QueueHoldsInQueue() && priorityQueue.Len() > 0
      modifies priorityQueue
      ensures Valid() && LowestQueued(tasks[..], slot)
      ensures multiset(priorityQueue.heap) == old(multiset(priorityQueue.heap)) - multiset{TaskRef(slot, tasks[slot].priority)}
    {
      ghost var before := priorityQueue.heap;
      var popped := priorityQueue.HeapPop();
      var task := popped.value;
      assert task in multiset(QueuedIn(tasks[..]));
      QueuedInMember(tasks[..], task);
      PoppedHasLowestPriority(tasks[..], before, priorityQueue.heap, task);
      slot := task.slot;
    }

    /** `update_priorities` inside the run loop keeps the run invariant. */
    method Refresh(ghost orig: seq<Task>, ghost order: seq<int>, ghost slots: seq<nat>, ghost utils: int)
      requires Valid() && RunInvariant(orig, tasks[..], order, slots, utils)
      modifies tasks, priorityQueue
      ensures Valid() && RunInvariant(orig, tasks[..], order, slots, utils)
      ensures QueueHoldsInQueue()
      ensures forall j :: 0 <= j < tasks.Length ==> tasks[j] == Rescore(old(tasks[j]))
    {
      ghost var ts := tasks[..];
      UpdatePriorities();
      RescoreAdvances(ts, tasks[..]);
      InvariantAfterNotStartedAdvance(orig, ts, tasks[..], order, slots, utils);
    }
  }
}
