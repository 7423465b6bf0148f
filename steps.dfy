/**
  What the TaskScheduler methods of scheduler_script.py do to one task, or
  to the whole task list, stated on values: the dependency removal of
  `remove_dependency`, the admission tests of `get_tasks_ready`, the
  rescoring of `update_priorities`, the queue contents that
  `update_priorities` rebuilds the heap from, and the invariant the run
  loop keeps.
 */
module SchedulerSteps {
  import opened Tasks

  // ---------------------------------------------------------------------
  // remove_dependency

  /** `list.index(x)`: the position of the first occurrence of x. */
  function IndexOf(s: seq<int>, x: int): (i: nat)
    requires x in s
    ensures i < |s| && s[i] == x && x !in s[..i]
  {
    if s[0] == x then 0
    else
      var i := IndexOf(s[1..], x) + 1;
      assert s[..i] == [s[0]] + s[1..][..i - 1];
      i
  }

  /** `list.remove(x)`: drop the first occurrence of x; the source only
      calls it when x is present, and the list is unchanged otherwise. */
  function RemoveFirst(s: seq<int>, x: int): (r: seq<int>)
    ensures x !in s ==> r == s
    ensures x in s ==> |r| == |s| - 1 && r == s[..IndexOf(s, x)] + s[IndexOf(s, x) + 1..]
    ensures multiset(r) == multiset(s) - multiset{x}
  {
    if x in s then
      var i := IndexOf(s, x);
      assert s == s[..i] + [s[i]] + s[i + 1..];
      s[..i] + s[i + 1..]
    else
      s
  }

  ghost predicate NoDuplicates(s: seq<int>) {
    forall i, j :: 0 <= i < j < |s| ==> s[i] != s[j]
  }

  /** Without duplicates one removal leaves no occurrence, and no duplicate. */
  lemma RemoveFirstClears(s: seq<int>, x: int)
    requires NoDuplicates(s)
    ensures x !in RemoveFirst(s, x) && NoDuplicates(RemoveFirst(s, x))
  {
    if x in s {
      var i := IndexOf(s, x);
      var r := RemoveFirst(s, x);
      forall k | 0 <= k < |r| ensures r[k] == if k < i then s[k] else s[k + 1] {
      }
      forall k, l | 0 <= k < l < |r| ensures r[k] != r[l] {
      }
    }
  }

  /** What `remove_dependency(id)` does to one task: a task other than `id`
      that lists `id` loses one occurrence of it. */
  function Resolve(t: Task, id: int): (r: Task)
    ensures r.(dependencies := t.dependencies) == t
    ensures t.id == id || id !in t.dependencies ==> r == t
  {
    if t.id != id && id in t.dependencies then t.(dependencies := RemoveFirst(t.dependencies, id)) else t
  }

  /** With a duplicate-free list, a task other than `id` no longer lists `id`. */
  lemma ResolveClears(t: Task, id: int)
    requires NoDuplicates(t.dependencies) && t.id != id
    ensures id !in Resolve(t, id).dependencies && NoDuplicates(Resolve(t, id).dependencies)
  {
    if id in t.dependencies {
      RemoveFirstClears(t.dependencies, id);
    }
  }

  /** Resolve drops one occurrence of `id` from every task but the one named `id`. */
  lemma ResolveDropsOneOccurrence(t: Task, id: int)
    ensures multiset(Resolve(t, id).dependencies)
            == if t.id == id then multiset(t.dependencies) else multiset(t.dependencies) - multiset{id}
  {
  }

  /** Resolve keeps every dependency other than `id`. */
  lemma ResolveKeepsOthers(t: Task, id: int, d: int)
    ensures d in t.dependencies && d != id ==> d in Resolve(t, id).dependencies
  {
    if d in t.dependencies && d != id {
      ResolveDropsOneOccurrence(t, id);
      assert multiset(Resolve(t, id).dependencies)[d] == multiset(t.dependencies)[d];
    }
  }

  /** With a duplicate-free list, resolving the same id twice changes nothing more. */
  lemma ResolveIdempotent(t: Task, id: int)
    requires NoDuplicates(t.dependencies)
    ensures Resolve(Resolve(t, id), id) == Resolve(t, id)
  {
    if t.id != id {
      ResolveClears(t, id);
    }
  }

  // ---------------------------------------------------------------------
  // get_tasks_ready

  /** The first pass: a fixed task due exactly now with nothing left to wait for. */
  predicate DueFixed(t: Task, now: int) {
    t.status == NotStarted && t.isFixed && t.startTime == now && t.dependencies == []
  }

  /** The second pass: any unstarted task with nothing left to wait for,
      a fixed one only once its start time has come. */
  predicate Eligible(t: Task, now: int) {
    t.status == NotStarted && t.dependencies == [] && (!t.isFixed || now >= t.startTime)
  }

  /** The second pass runs when the queue is still empty after the first:
      it was empty and no fixed task was due. */
  ghost predicate SecondPassRuns(ts: seq<Task>, queued: nat, now: int) {
    queued == 0 && forall j :: 0 <= j < |ts| ==> !DueFixed(ts[j], now)
  }

  /** The second pass runs right after `update_priorities` rebuilt the heap
      when no task was queued and no fixed task is due. */
  ghost predicate SecondPassAfterRebuild(ts: seq<Task>, now: int) {
    && (forall j :: 0 <= j < |ts| ==> ts[j].status != InPriorityQueue)
    && (forall j :: 0 <= j < |ts| ==> !DueFixed(ts[j], now))
  }

  predicate Admits(t: Task, now: int, secondPass: bool) {
    DueFixed(t, now) || (secondPass && Eligible(t, now))
  }

  /** A task after `get_tasks_ready`: admitted, or left as it was. */
  function AdmitIfReady(t: Task, now: int, secondPass: bool): Task {
    if Admits(t, now, secondPass) then Admit(t) else t
  }

  /** `calculate_priority()` then status 'I'. */
  function Admit(t: Task): (r: Task)
    ensures r.status == InPriorityQueue && r.priority == CalculatePriority(t, None)
    ensures r.(priority := t.priority, status := t.status) == t
  {
    t.(priority := CalculatePriority(t, None), status := InPriorityQueue)
  }

  /** Only unstarted tasks with an empty dependency list are admitted, a fixed
      one never before its start time, and exactly at it in the first pass. */
  lemma AdmissionRespectsStartTime(t: Task, now: int, secondPass: bool)
    requires Admits(t, now, secondPass)
    ensures t.status == NotStarted && t.dependencies == []
    ensures t.isFixed ==> t.startTime <= now
    ensures !secondPass ==> t.isFixed && t.startTime == now
  {
  }

  /** After rescoring and rebuilding the heap from the status-I tasks, the
      second-pass test depends only on the list before rescoring. */
  lemma SecondPassAfterRescore(ts: seq<Task>, us: seq<Task>, now: int)
    requires |us| == |ts| && forall j :: 0 <= j < |ts| ==> us[j] == Rescore(ts[j])
    ensures SecondPassRuns(us, |QueuedIn(us)|, now) <==> SecondPassAfterRebuild(ts, now)
  {
    QueuedInEmpty(us);
  }

  // ---------------------------------------------------------------------
  // update_priorities, get_next_fixed_task_time, check_unscheduled_tasks

  /** What `update_priorities` does to one task: only unstarted tasks are rescored. */
  function Rescore(t: Task): (r: Task)
    ensures r.(priority := t.priority) == t
    ensures t.status == NotStarted ==> r.priority == CalculatePriority(t, None)
    ensures t.status != NotStarted ==> r == t
  {
    if t.status == NotStarted then t.(priority := CalculatePriority(t, None)) else t
  }

  /** `[t for t in tasks if t.status == 'I']`, as references to their slots,
      in list order. */
  function QueuedIn(ts: seq<Task>): (q: seq<TaskRef>)
    ensures |q| <= |ts|
  {
    QueuedBetween(ts, 0, |ts|)
  }

  /** The references contributed by the slots lo up to hi. */
  function QueuedBetween(ts: seq<Task>, lo: nat, hi: nat): (q: seq<TaskRef>)
    requires lo <= hi <= |ts|
    ensures |q| <= hi - lo
    decreases hi
  {
    if hi == lo then [] else QueuedBetween(ts, lo, hi - 1) + EntryAt(hi - 1, ts[hi - 1])
  }

  /** The reference a task in slot i contributes to that list. */
  function EntryAt(i: nat, t: Task): (e: seq<TaskRef>)
    ensures |e| <= 1
  {
    if t.status == InPriorityQueue then [TaskRef(i, t.priority)] else []
  }

  /** A reference is in the list exactly when it names a status-I slot with its priority. */
  lemma QueuedInMember(ts: seq<Task>, e: TaskRef)
    ensures e in QueuedIn(ts)
            <==> e.slot < |ts| && ts[e.slot].status == InPriorityQueue && e.priority == ts[e.slot].priority
  {
    QueuedBetweenMember(ts, 0, |ts|, e);
  }

  /** The list is empty exactly when no task has status 'I'. */
  lemma QueuedInEmpty(ts: seq<Task>)
    ensures |QueuedIn(ts)| == 0 <==> forall j :: 0 <= j < |ts| ==> ts[j].status != InPriorityQueue
  {
    if |QueuedIn(ts)| > 0 {
      QueuedInMember(ts, QueuedIn(ts)[0]);
    }
    forall j | 0 <= j < |ts| && ts[j].status == InPriorityQueue ensures |QueuedIn(ts)| > 0 {
      QueuedInMember(ts, TaskRef(j, ts[j].priority));
    }
  }

  lemma {:induction false} QueuedBetweenMember(ts: seq<Task>, lo: nat, hi: nat, e: TaskRef)
    requires lo <= hi <= |ts|
    ensures e in QueuedBetween(ts, lo, hi)
            <==> lo <= e.slot < hi && ts[e.slot].status == InPriorityQueue && e.priority == ts[e.slot].priority
    decreases hi
  {
    if hi > lo {
      QueuedBetweenMember(ts, lo, hi - 1, e);
      var a, b := QueuedBetween(ts, lo, hi - 1), EntryAt(hi - 1, ts[hi - 1]);
      assert QueuedBetween(ts, lo, hi) == a + b;
      assert e in a + b <==> e in a || e in b;
    }
  }

  /** The slots lo up to hi alone decide their references. */
  lemma {:induction false} QueuedBetweenFrame(ts: seq<Task>, us: seq<Task>, lo: nat, hi: nat)
    requires lo <= hi <= |ts| && hi <= |us| && forall j :: lo <= j < hi ==> us[j] == ts[j]
    ensures QueuedBetween(us, lo, hi) == QueuedBetween(ts, lo, hi)
    decreases hi
  {
    if hi > lo {
      QueuedBetweenFrame(ts, us, lo, hi - 1);
    }
  }

  /** The references of adjacent ranges concatenate. */
  lemma {:induction false} QueuedBetweenSplit(ts: seq<Task>, lo: nat, mid: nat, hi: nat)
    requires lo <= mid <= hi <= |ts|
    ensures QueuedBetween(ts, lo, hi) == QueuedBetween(ts, lo, mid) + QueuedBetween(ts, mid, hi)
    decreases hi
  {
    if hi > mid {
      QueuedBetweenSplit(ts, lo, mid, hi - 1);
    }
  }

  /** The queued list, cut around slot i. */
  lemma QueuedInAround(ts: seq<Task>, i: nat)
    requires i < |ts|
    ensures QueuedIn(ts) == QueuedBetween(ts, 0, i) + EntryAt(i, ts[i]) + QueuedBetween(ts, i + 1, |ts|)
  {
    QueuedBetweenSplit(ts, 0, i, |ts|);
    QueuedBetweenSplit(ts, i, i + 1, |ts|);
    assert QueuedBetween(ts, i, i + 1) == QueuedBetween(ts, i, i) + EntryAt(i, ts[i]);
  }

  /** Admitting the task in slot i adds exactly its reference to the queued list. */
  lemma AdmissionQueuesOne(ts: seq<Task>, i: nat, t: Task)
    requires i < |ts| && ts[i].status != InPriorityQueue && t.status == InPriorityQueue
    ensures multiset(QueuedIn(ts[i := t])) == multiset(QueuedIn(ts)) + multiset{TaskRef(i, t.priority)}
  {
    var us := ts[i := t];
    QueuedInAround(ts, i);
    QueuedInAround(us, i);
    QueuedBetweenFrame(ts, us, 0, i);
    QueuedBetweenFrame(ts, us, i + 1, |ts|);
    var a, b := QueuedBetween(ts, 0, i), QueuedBetween(ts, i + 1, |ts|);
    var e := TaskRef(i, t.priority);
    assert EntryAt(i, ts[i]) == [] && EntryAt(i, us[i]) == [e];
    InsertedOnce(a, e, b);
  }

  lemma InsertedOnce<X>(a: seq<X>, e: X, b: seq<X>)
    ensures multiset(a + [e] + b) == multiset(a + [] + b) + multiset{e}
  {
    assert a + [] + b == a + b;
    MultisetSwap(multiset(a), multiset{e}, multiset(b));
  }

  /** The element `heappop` returns from a heap holding the status-I tasks
      has the lowest priority among them. */
  lemma PoppedHasLowestPriority(ts: seq<Task>, before: seq<TaskRef>, after: seq<TaskRef>, r: TaskRef)
    requires multiset(before) == multiset(QueuedIn(ts))
    requires multiset(after) == multiset(before) - multiset{r}
    requires forall x :: x in after ==> !Gt(x, r)
    ensures forall j :: 0 <= j < |ts| && ts[j].status == InPriorityQueue ==> r.priority <= ts[j].priority
  {
    forall j | 0 <= j < |ts| && ts[j].status == InPriorityQueue ensures r.priority <= ts[j].priority {
      var e := TaskRef(j, ts[j].priority);
      QueuedInMember(ts, e);
      assert e in multiset(before);
      if e != r {
        assert e in multiset(after);
        assert e in after;
      }
    }
  }

  /** The task in `slot` is queued and no queued task has a lower priority. */
  ghost predicate LowestQueued(ts: seq<Task>, slot: nat) {
    slot < |ts| && ts[slot].status == InPriorityQueue
    && forall j :: 0 <= j < |ts| && ts[j].status == InPriorityQueue ==> ts[slot].priority <= ts[j].priority
  }

  /** The state of one pass of `get_tasks_ready` after its first j slots,
      with `h0` the heap contents before the pass and `h` after j slots. */
  ghost predicate PassState(orig: seq<Task>, cur: seq<Task>, j: nat, now: int, secondPass: bool,
                            h0: multiset<TaskRef>, h: multiset<TaskRef>)
  {
    && j <= |orig| && |cur| == |orig|
    && (forall k :: 0 <= k < |cur| ==> cur[k] == if k < j then AdmitIfReady(orig[k], now, secondPass) else orig[k])
    && h + multiset(QueuedIn(orig)) == h0 + multiset(QueuedIn(cur))
    && (|h| == 0 <==> |h0| == 0 && forall k :: 0 <= k < j ==> !Admits(orig[k], now, secondPass))
  }

  lemma PassStateInitially(orig: seq<Task>, now: int, secondPass: bool, h0: multiset<TaskRef>)
    ensures PassState(orig, orig, 0, now, secondPass, h0, h0)
  {
  }

  /** Slot j of a pass keeps the pass state. */
  lemma PassStep(orig: seq<Task>, cur: seq<Task>, next: seq<Task>, j: nat, now: int, secondPass: bool,
                 h0: multiset<TaskRef>, h: multiset<TaskRef>, h': multiset<TaskRef>)
    requires PassState(orig, cur, j, now, secondPass, h0, h) && j < |orig|
    requires next == cur[j := AdmitIfReady(cur[j], now, secondPass)]
    requires h' + multiset(QueuedIn(cur)) == h + multiset(QueuedIn(next))
    requires |h'| == 0 <==> |h| == 0 && !Admits(cur[j], now, secondPass)
    ensures PassState(orig, next, j + 1, now, secondPass, h0, h')
  {
    AddSwap(h', h, multiset(QueuedIn(orig)), h0, multiset(QueuedIn(cur)), multiset(QueuedIn(next)));
  }

  /** A first pass that admitted nothing followed by a second pass. */
  lemma SecondPassComposes(orig: seq<Task>, mid: seq<Task>, fin: seq<Task>, now: int,
                           h0: multiset<TaskRef>, h1: multiset<TaskRef>, h2: multiset<TaskRef>)
    requires PassState(orig, mid, |orig|, now, false, h0, h1) && mid == orig
    requires PassState(mid, fin, |mid|, now, true, h1, h2)
    ensures forall j :: 0 <= j < |fin| ==> fin[j] == AdmitIfReady(orig[j], now, true)
    ensures h2 + multiset(QueuedIn(orig)) == h0 + multiset(QueuedIn(fin))
  {
    AddSwap(h2, h1, multiset(QueuedIn(orig)), h0, multiset(QueuedIn(mid)), multiset(QueuedIn(fin)));
  }

  /** Moving one addend across an equation of multiset sums. */
  lemma AddSwap<X>(h2: multiset<X>, h1: multiset<X>, q0: multiset<X>, h0: multiset<X>, q1: multiset<X>, q2: multiset<X>)
    requires h1 + q0 == h0 + q1
    requires h2 + q1 == h1 + q2
    ensures h2 + q0 == h0 + q2
  {
    forall x ensures (h2 + q0)[x] == (h0 + q2)[x] {
      assert (h1 + q0)[x] == (h0 + q1)[x];
      assert (h2 + q1)[x] == (h1 + q2)[x];
    }
  }

  lemma AddCancel<X>(a: multiset<X>, b: multiset<X>, c: multiset<X>)
    requires a + b == b + c
    ensures a == c
  {
    forall x ensures a[x] == c[x] {
      assert (a + b)[x] == (b + c)[x];
    }
  }

  lemma MultisetSwap<X>(a: multiset<X>, b: multiset<X>, c: multiset<X>)
    ensures a + b + c == (a + c) + b
  {
  }

  /** `get_next_fixed_task_time` looks at unstarted fixed tasks starting after now. */
  predicate FixedAhead(t: Task, now: int) {
    t.status == NotStarted && t.isFixed && t.startTime > now
  }

  /** `check_unscheduled_tasks`: some task still has status 'N'. */
  function CheckUnscheduledTasks(ts: seq<Task>): (b: bool)
    ensures b <==> exists j :: 0 <= j < |ts| && ts[j].status == NotStarted
  {
    if ts == [] then false
    else
      assert forall j :: 0 < j < |ts| ==> ts[j] == ts[1..][j - 1];
      ts[0].status == NotStarted || CheckUnscheduledTasks(ts[1..])
  }

  // ---------------------------------------------------------------------
  // run_task_scheduler

  /** Statuses only move forward: N, then I, then C. */
  function Rank(s: Status): nat {
    match s
    case NotStarted => 0
    case InPriorityQueue => 1
    case Completed => 2
  }

  /** The attributes no scheduler step writes. */
  predicate SameAttributes(a: Task, b: Task) {
    a.id == b.id && a.duration == b.duration && a.isFixed == b.isFixed
    && a.startTime == b.startTime && a.importance == b.importance
  }

  /** How a task may have changed since the run began. */
  ghost predicate Evolved(o: Task, t: Task) {
    SameAttributes(o, t) && Rank(o.status) <= Rank(t.status)
    && multiset(t.dependencies) <= multiset(o.dependencies)
  }

  ghost predicate SlotsIn(slots: seq<nat>, n: nat) {
    forall k :: 0 <= k < |slots| ==> slots[k] < n
  }

  /** `total_utils`: the priorities of the tasks in the given slots, summed. */
  function SumPriorities(ts: seq<Task>, slots: seq<nat>): (sum: int)
    requires SlotsIn(slots, |ts|)
    ensures (forall k :: 0 <= k < |slots| ==> 0 <= ts[slots[k]].priority <= Base) ==> 0 <= sum <= Base * |slots|
    decreases |slots|
  {
    if slots == [] then 0
    else SumPriorities(ts, slots[..|slots| - 1]) + ts[slots[|slots| - 1]].priority
  }

  /** The sum only reads the priorities in the given slots. */
  lemma {:induction false} SumPrioritiesFrame(ts: seq<Task>, us: seq<Task>, slots: seq<nat>)
    requires SlotsIn(slots, |ts|) && |us| == |ts|
    requires forall k :: 0 <= k < |slots| ==> us[slots[k]].priority == ts[slots[k]].priority
    ensures SumPriorities(us, slots) == SumPriorities(ts, slots)
    decreases |slots|
  {
    if slots != [] {
      SumPrioritiesFrame(ts, us, slots[..|slots| - 1]);
    }
  }

  /** Every task has only evolved since the run began. */
  ghost predicate EvolvedFrom(orig: seq<Task>, ts: seq<Task>) {
    |ts| == |orig| && forall j :: 0 <= j < |ts| ==> Evolved(orig[j], ts[j])
  }

  /** An occurrence of a dependency is only lost once a task with that id
      has completed. */
  ghost predicate RemovedDepsCompleted(orig: seq<Task>, ts: seq<Task>, order: seq<int>)
    requires |ts| == |orig|
  {
    forall j, d :: 0 <= j < |ts| && multiset(ts[j].dependencies)[d] < multiset(orig[j].dependencies)[d] ==> d in order
  }

  /** A task that left status N did so after all its dependencies completed. */
  ghost predicate StartedAfterDeps(orig: seq<Task>, ts: seq<Task>, order: seq<int>)
    requires |ts| == |orig|
  {
    forall j :: 0 <= j < |ts| && orig[j].status == NotStarted && ts[j].status != NotStarted ==>
      forall d :: d in orig[j].dependencies ==> d in order
  }

  /** `order[k]` is the id of the task in `slots[k]`, which the run completed;
      no slot is completed twice, and every completed task was completed by
      the run or before it. */
  ghost predicate SlotsRecord(orig: seq<Task>, ts: seq<Task>, order: seq<int>, slots: seq<nat>)
    requires |ts| == |orig|
  {
    && |slots| == |order| && SlotsIn(slots, |ts|)
    && (forall k :: 0 <= k < |slots| ==>
          ts[slots[k]].status == Completed && orig[slots[k]].status != Completed && order[k] == ts[slots[k]].id)
    && (forall k, l :: 0 <= k < l < |slots| ==> slots[k] != slots[l])
    && (forall j :: 0 <= j < |ts| && ts[j].status == Completed ==> orig[j].status == Completed || j in slots)
  }

  /** Dependency soundness: every dependency of a task the run completed
      from status N completed before it. */
  ghost predicate DepsCompletedBefore(orig: seq<Task>, order: seq<int>, slots: seq<nat>)
    requires |slots| == |order| && SlotsIn(slots, |orig|)
  {
    forall k :: 0 <= k < |slots| && orig[slots[k]].status == NotStarted ==>
      forall d :: d in orig[slots[k]].dependencies ==> d in order[..k]
  }

  /** What holds of the task list `ts`, the completed ids `order`, the slots
      they were completed from and `total_utils`, relative to the list
      `orig` the run started from. */
  ghost predicate RunInvariant(orig: seq<Task>, ts: seq<Task>, order: seq<int>, slots: seq<nat>, utils: int) {
    && EvolvedFrom(orig, ts)
    && RemovedDepsCompleted(orig, ts, order)
    && StartedAfterDeps(orig, ts, order)
    && SlotsRecord(orig, ts, order, slots)
    && DepsCompletedBefore(orig, order, slots)
    && utils == SumPriorities(ts, slots)
  }

  /** Occurrences are counted: a task listing 3 twice that has lost one of them
      while nothing has completed does not satisfy the run invariant. */
  lemma LostOccurrenceNeedsCompletion(o: Task)
    requires o.dependencies == [3, 3]
    ensures !RunInvariant([o], [o.(dependencies := [3])], [], [], 0)
  {
    var orig, ts := [o], [o.(dependencies := [3])];
    var order: seq<int> := [];
    assert multiset(ts[0].dependencies)[3] == 1 && multiset(orig[0].dependencies)[3] == 2 && 3 !in order;
    if RemovedDepsCompleted(orig, ts, order) {
      assert false;
    }
  }

  lemma RunInvariantInitially(orig: seq<Task>)
    ensures RunInvariant(orig, orig, [], [], 0)
  {
  }

  /** A step that touches only unstarted tasks and keeps their dependency
      lists: rescoring, or admission to the queue with an empty list. */
  ghost predicate NotStartedAdvance(ts: seq<Task>, us: seq<Task>) {
    |us| == |ts|
    && forall j :: 0 <= j < |ts| ==>
         us[j] == ts[j]
         || (&& ts[j].status == NotStarted && SameAttributes(ts[j], us[j])
             && us[j].dependencies == ts[j].dependencies
             && (us[j].status == NotStarted || (us[j].status == InPriorityQueue && us[j].dependencies == [])))
  }

  lemma InvariantAfterNotStartedAdvance(
    orig: seq<Task>, ts: seq<Task>, us: seq<Task>, order: seq<int>, slots: seq<nat>, utils: int)
    requires RunInvariant(orig, ts, order, slots, utils) && NotStartedAdvance(ts, us)
    ensures RunInvariant(orig, us, order, slots, utils)
  {
    assert EvolvedFrom(orig, us);
    forall k | 0 <= k < |slots| ensures us[slots[k]] == ts[slots[k]] {
    }
    assert SlotsRecord(orig, us, order, slots);
    SumPrioritiesFrame(ts, us, slots);
    assert RemovedDepsCompleted(orig, us, order);
    forall j | 0 <= j < |us| && orig[j].status == NotStarted && us[j].status != NotStarted
      ensures forall d :: d in orig[j].dependencies ==> d in order
    {
      if ts[j].status == NotStarted {
        forall d | d in orig[j].dependencies ensures d in order {
          assert d !in us[j].dependencies;
        }
      }
    }
  }

  /** `update_priorities` only touches unstarted tasks' scores. */
  lemma RescoreAdvances(ts: seq<Task>, us: seq<Task>)
    requires |us| == |ts| && forall j :: 0 <= j < |ts| ==> us[j] == Rescore(ts[j])
    ensures NotStartedAdvance(ts, us)
  {
  }

  /** `get_tasks_ready` only moves unstarted tasks with no dependencies to 'I'. */
  lemma AdmissionAdvances(ts: seq<Task>, us: seq<Task>, now: int, secondPass: bool)
    requires |us| == |ts| && forall j :: 0 <= j < |ts| ==> us[j] == AdmitIfReady(ts[j], now, secondPass)
    ensures NotStartedAdvance(ts, us)
  {
  }

  /** The popped task in slot s completes: each other task loses one
      occurrence of its id (per `Resolve`), then its status becomes 'C'. */
  lemma InvariantAfterCompletion(
    orig: seq<Task>, ts: seq<Task>, us: seq<Task>, s: nat, order: seq<int>, slots: seq<nat>, utils: int)
    requires RunInvariant(orig, ts, order, slots, utils)
    requires s < |ts| && ts[s].status == InPriorityQueue
    requires |us| == |ts| && forall j :: 0 <= j < |ts| ==> us[j] == Resolve(ts[j], ts[s].id)
    ensures RunInvariant(orig, us[s := us[s].(status := Completed)], order + [ts[s].id], slots + [s],
                         utils + ts[s].priority)
  {
    var id := ts[s].id;
    var vs := us[s := us[s].(status := Completed)];
    assert vs[s] == ts[s].(status := Completed);
    CompletionEvolves(orig, ts, us, s, vs);
    CompletionRemovesOnlyId(orig, ts, us, s, order, vs);
    assert StartedAfterDeps(orig, vs, order + [id]);
    CompletionRecordsSlot(orig, ts, s, order, slots, vs);
    CompletionDepsBefore(orig, ts, s, order, slots);
    forall k | 0 <= k < |slots| ensures vs[slots[k]].priority == ts[slots[k]].priority {
    }
    SumPrioritiesFrame(ts, vs, slots);
    assert (slots + [s])[..|slots|] == slots;
  }

  lemma CompletionEvolves(orig: seq<Task>, ts: seq<Task>, us: seq<Task>, s: nat, vs: seq<Task>)
    requires EvolvedFrom(orig, ts) && s < |ts| && ts[s].status == InPriorityQueue
    requires |us| == |ts| && forall j :: 0 <= j < |ts| ==> us[j] == Resolve(ts[j], ts[s].id)
    requires vs == us[s := us[s].(status := Completed)]
    ensures EvolvedFrom(orig, vs)
  {
    forall j | 0 <= j < |vs| ensures Evolved(orig[j], vs[j]) {
      assert Evolved(orig[j], ts[j]);
      ResolveDropsOneOccurrence(ts[j], ts[s].id);
      assert vs[j].dependencies == us[j].dependencies;
    }
  }

  lemma CompletionRemovesOnlyId(orig: seq<Task>, ts: seq<Task>, us: seq<Task>, s: nat, order: seq<int>, vs: seq<Task>)
    requires |ts| == |orig| && RemovedDepsCompleted(orig, ts, order) && s < |ts|
    requires |us| == |ts| && forall j :: 0 <= j < |ts| ==> us[j] == Resolve(ts[j], ts[s].id)
    requires vs == us[s := us[s].(status := Completed)]
    ensures RemovedDepsCompleted(orig, vs, order + [ts[s].id])
  {
    var id := ts[s].id;
    forall j, d | 0 <= j < |vs| && d in orig[j].dependencies && d !in vs[j].dependencies
      ensures d in order + [id]
    {
      assert vs[j].dependencies == us[j].dependencies;
      ResolveKeepsOthers(ts[j], id, d);
    }
  }

  lemma CompletionRecordsSlot(orig: seq<Task>, ts: seq<Task>, s: nat, order: seq<int>, slots: seq<nat>, vs: seq<Task>)
    requires |ts| == |orig| && SlotsRecord(orig, ts, order, slots) && EvolvedFrom(orig, ts)
    requires s < |ts| && ts[s].status == InPriorityQueue
    requires |vs| == |ts| && vs[s] == ts[s].(status := Completed) && vs[s].status == Completed
    requires forall j :: 0 <= j < |ts| && j != s ==> vs[j].status == ts[j].status && vs[j].id == ts[j].id
    ensures SlotsRecord(orig, vs, order + [ts[s].id], slots + [s])
  {
    assert s !in slots;
    assert orig[s].status != Completed by {
      assert Evolved(orig[s], ts[s]);
    }
  }

  lemma CompletionDepsBefore(orig: seq<Task>, ts: seq<Task>, s: nat, order: seq<int>, slots: seq<nat>)
    requires |ts| == |orig| && |slots| == |order| && SlotsIn(slots, |orig|)
    requires DepsCompletedBefore(orig, order, slots) && StartedAfterDeps(orig, ts, order)
    requires s < |ts| && ts[s].status == InPriorityQueue
    ensures DepsCompletedBefore(orig, order + [ts[s].id], slots + [s])
  {
    var order', slots' := order + [ts[s].id], slots + [s];
    assert order'[..|order|] == order;
    forall k | 0 <= k < |slots'| && orig[slots'[k]].status == NotStarted
      ensures forall d :: d in orig[slots'[k]].dependencies ==> d in order'[..k]
    {
      if k < |slots| {
        assert slots'[k] == slots[k];
        assert order'[..k] == order[..k];
      }
    }
  }

  ghost predicate UniqueIds(ts: seq<Task>) {
    forall i, j :: 0 <= i < |ts| && 0 <= j < |ts| && i != j ==> ts[i].id != ts[j].id
  }

  /** With unique ids, no id is appended to the completed order twice. */
  lemma CompletedIdsDistinct(orig: seq<Task>, ts: seq<Task>, order: seq<int>, slots: seq<nat>, utils: int)
    requires RunInvariant(orig, ts, order, slots, utils) && UniqueIds(orig)
    ensures NoDuplicates(order)
  {
    forall k, l | 0 <= k < l < |order| ensures order[k] != order[l] {
      assert SameAttributes(orig[slots[k]], ts[slots[k]]);
      assert SameAttributes(orig[slots[l]], ts[slots[l]]);
    }
  }

  ghost predicate NonNegativeDurations(ts: seq<Task>) {
    forall j :: 0 <= j < |ts| ==> ts[j].duration >= 0
  }
}
