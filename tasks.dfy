/**
  The Task record of scheduler_script.py, its priority score
  (`Task.calculate_priority`) and its ordering hook (`Task.__lt__`).
 */
module Tasks {
  import Heap

  datatype Option<T> = None | Some(value: T)

  /** The three importance levels; an unknown level (a KeyError in the source) cannot be written. */
  datatype Importance = High | Medium | Low

  /** The scheduler's status letters 'N', 'I' and 'C'. */
  datatype Status = NotStarted | InPriorityQueue | Completed

  /** A task as the scheduler sees it. `startTime` is only read when `isFixed` holds. */
  datatype Task = Task(
    id: int,
    duration: int,
    dependencies: seq<int>,
    isFixed: bool,
    startTime: int,
    importance: Importance,
    priority: int,
    status: Status)

  /** The score every task starts from, and the ceiling of the clamp. */
  const Base: int := 100

  /** 10 points per dependency still listed. */
  function DependencyPenalty(dependencies: seq<int>): (p: int)
    ensures p >= 0
    ensures dependencies != [] ==> p >= 10
  {
    |dependencies| * 10
  }

  /** 40 points, less 10 per complete 30 minutes of duration, never negative.
      Python's `//` floors; for the positive divisor 30 Dafny's `/` agrees. */
  function DurationPenalty(duration: int): (p: int)
    ensures p >= 0
    ensures duration >= 0 ==> p <= 40
    ensures duration >= 120 ==> p == 0
    ensures 0 <= duration < 30 ==> p == 40
  {
    var q := 40 - (duration / 30) * 10;
    if q > 0 then q else 0
  }

  function ImportanceBonus(importance: Importance): (b: int)
    ensures 0 <= b <= 30
  {
    match importance
    case High => 30
    case Medium => 15
    case Low => 0
  }

  /** `max(0, min(100, x))`; `round` of an int is that int. */
  function Clamp(x: int): (r: int)
    ensures 0 <= r <= Base
    ensures 0 <= x <= Base ==> r == x
    ensures x < 0 ==> r == 0
    ensures x > Base ==> r == Base
  {
    if x < 0 then 0 else if x > Base then Base else x
  }

  /** `calculate_priority(current_time)`: the value written to `priority`.
      The clock argument is accepted and never used. */
  function CalculatePriority(t: Task, currentTime: Option<int>): (r: int)
    ensures 0 <= r <= Base
    ensures t.isFixed ==> r == Base
  {
    if t.isFixed then Base
    else Clamp(Base - DependencyPenalty(t.dependencies) - DurationPenalty(t.duration) + ImportanceBonus(t.importance))
  }

  /** The clock argument never changes the score. */
  lemma PriorityIgnoresCurrentTime(t: Task, a: Option<int>, b: Option<int>)
    ensures CalculatePriority(t, a) == CalculatePriority(t, b)
  {
  }

  /** Listing more dependencies never raises a score. */
  lemma MoreDependenciesNeverRaisePriority(t: Task, deps: seq<int>)
    requires |deps| >= |t.dependencies|
    ensures CalculatePriority(t.(dependencies := deps), None) <= CalculatePriority(t, None)
  {
  }

  /** A longer task never scores lower. */
  lemma LongerDurationNeverLowersPriority(t: Task, duration: int)
    requires duration >= t.duration
    ensures CalculatePriority(t.(duration := duration), None) >= CalculatePriority(t, None)
  {
  }

  /** A higher importance level never scores lower. */
  lemma HigherImportanceNeverLowersPriority(t: Task, importance: Importance)
    requires ImportanceBonus(importance) >= ImportanceBonus(t.importance)
    ensures CalculatePriority(t.(importance := importance), None) >= CalculatePriority(t, None)
  {
  }

  /** The duration penalty as a table: 10 points less for each complete
      30-minute block, from 40 down to 0. */
  function PenaltyTable(duration: nat): int {
    if duration < 30 then 40
    else if duration < 60 then 30
    else if duration < 90 then 20
    else if duration < 120 then 10
    else 0
  }

  /** The score of a flexible task with a non-negative duration, written with
      the penalty table and the bonus values, is the formula clamped to [0, 100]. */
  lemma FlexibleScoreByTable(t: Task)
    requires !t.isFixed && t.duration >= 0
    ensures var raw := 100 - 10 * |t.dependencies| - PenaltyTable(t.duration)
                       + (match t.importance case High => 30 case Medium => 15 case Low => 0);
            && (0 <= raw <= 100 ==> CalculatePriority(t, None) == raw)
            && (raw < 0 ==> CalculatePriority(t, None) == 0)
            && (raw > 100 ==> CalculatePriority(t, None) == 100)
  {
  }

  /** A reference in the priority queue to the task in array slot `slot`;
      `priority` is that task's priority, read by the comparison. */
  datatype TaskRef = TaskRef(slot: nat, priority: int)

  /** `Task.__lt__`: `self.priority > other.priority`. */
  function Lt(a: TaskRef, b: TaskRef): bool {
    a.priority > b.priority
  }

  /** Python's `a > b` on tasks. Task defines no `__gt__`, so Python calls the
      reflected `b.__lt__(a)`. */
  function Gt(a: TaskRef, b: TaskRef): bool {
    Lt(b, a)
  }

  /** Ties are not broken: two references with equal priority compare
      neither way, whatever their slots; otherwise exactly one of them is
      `>` the other, the one with the lower priority. */
  lemma TiesAreNotBroken(a: TaskRef, b: TaskRef)
    ensures a.priority == b.priority <==> !Gt(a, b) && !Gt(b, a)
    ensures a.priority < b.priority <==> Gt(a, b) && !Gt(b, a)
  {
  }

  lemma GtIsStrictWeakOrder()
    ensures Heap.StrictWeakOrder(Gt)
  {
  }

  /** The root of a heap ordered by `Gt` carries the lowest priority. */
  lemma RootHasLowestPriority(s: seq<TaskRef>)
    requires Heap.HeapOrdered(s, Gt) && s != []
    ensures forall x :: x in s ==> s[0].priority <= x.priority
  {
    GtIsStrictWeakOrder();
    Heap.RootNotBeaten(s, Gt);
  }

  /** The scores of the sample day (the first task list, scheduler_script.py:226-235). */
  lemma SampleDayScores()
    ensures CalculatePriority(Task(2, 10, [1], false, 0, High, 0, NotStarted), None) == 80
    ensures CalculatePriority(Task(3, 20, [1, 2], false, 0, Low, 0, NotStarted), None) == 40
    ensures CalculatePriority(Task(4, 15, [3], false, 0, Medium, 0, NotStarted), None) == 65
    ensures CalculatePriority(Task(6, 30, [3, 4, 5], false, 0, Low, 0, NotStarted), None) == 40
    ensures CalculatePriority(Task(6, 30, [], false, 0, Low, 0, NotStarted), None) == 70
    ensures CalculatePriority(Task(10, 10, [1, 2, 3, 4, 5, 6, 7, 8, 9], true, 22 * 60, High, 0, NotStarted), None) == 100
  {
  }
}
