/**
 The cooperative scheduler of chapter 8: a round-robin scan over ten task slots, driven by a
 32-bit tick counter that the timer interrupt may advance between any two steps.
 */
module Scheduler {
  import opened Machine

  const MAX_NUM_TASKS: nat := 10

  /** `present` stands for a non-NULL entry point. */
  datatype Task = Task(present: bool, period: u32, lastRun: u32)

  const EMPTY := Task(false, 0, 0)

  /** `systime_tick`: the counter wraps. */
  function NextTick(systime: u32): u32 {
    (systime + 1) % TWO_32
  }

  /** `systime_get() - task->last_run >= task->period`, in 32-bit arithmetic. */
  predicate Due(task: Task, systime: u32) {
    (systime - task.lastRun) % TWO_32 >= task.period
  }

  predicate Runs(task: Task, systime: u32) {
    task.present && Due(task, systime)
  }

  /** The table after one turn of the loop, by what the two reads of the clock return. */
  function Visited(tasks: seq<Task>, i: nat, first: u32, second: u32): seq<Task>
    requires i < |tasks|
  {
    if Runs(tasks[i], first) then tasks[i := tasks[i].(lastRun := second)] else tasks
  }

  // ----- the code

  datatype SchedError = SchedOk | TooManyTasks

  class TaskTable {
    const table: array<Task>
    var tableIdx: nat

    ghost predicate Valid()
      reads this, table
    {
      && table.Length == MAX_NUM_TASKS && tableIdx <= MAX_NUM_TASKS
      && forall i :: tableIdx <= i < MAX_NUM_TASKS ==> table[i] == EMPTY
    }

    constructor ()
      ensures Valid() && fresh(table) && tableIdx == 0
    {
      table := new Task[10](_ => EMPTY);
      tableIdx := 0;
    }

    method AddTask(present: bool, period: u32) returns (r: SchedError)
      requires Valid()
      modifies this`tableIdx, table
      ensures Valid()
      ensures r == TooManyTasks <==> old(tableIdx) == MAX_NUM_TASKS
      ensures table[..tableIdx] ==
              old(table[..tableIdx]) + (if r.SchedOk? then [Task(present, period, 0)] else [])
    {
      if tableIdx >= MAX_NUM_TASKS { return TooManyTasks; }
      table[tableIdx] := Task(present, period, 0);
      tableIdx := tableIdx + 1;
      r := SchedOk;
    }

    /**
     One turn of the loop in `sched_run`.  `first` and `second` are what the two reads of the
     volatile counter return; ticks may have passed in between.
     */
    method VisitSlot(i: nat, first: u32, second: u32) returns (run: bool)
      requires Valid() && i < MAX_NUM_TASKS
      modifies table
      ensures Valid()
      ensures run == Runs(old(table[i]), first)
      ensures table[..] == Visited(old(table[..]), i, first, second)
    {
      var task := table[i];
      if !task.present { return false; }
      run := false;
      if (first - task.lastRun) % TWO_32 >= task.period {
        table[i] := task.(lastRun := second);
        run := true;
      }
    }
  }

  // ----- the scan and the timer interrupt as one step system

  /** About to test slot `slot`; about to record its run; or inside its task. */
  datatype Phase = Testing | Recording | InTask

  /**
   `now` counts ticks without bound; `systime` is what the program sees of it.  `runs[j]` lists
   the true times recorded for slot `j`; `tested` is the time of the latest slot test.
   */
  datatype State = State(
    tasks: seq<Task>, slot: nat, phase: Phase, systime: u32,
    now: nat, runs: seq<seq<nat>>, tested: nat)

  datatype Step = Tick | Test | Record | Return

  ghost predicate WellFormed(s: State) {
    |s.tasks| == MAX_NUM_TASKS && |s.runs| == MAX_NUM_TASKS && s.slot < MAX_NUM_TASKS
  }

  function NextSlot(i: nat): nat {
    if i + 1 < MAX_NUM_TASKS then i + 1 else 0
  }

  ghost predicate Enabled(s: State, step: Step) {
    match step
    case Tick => true
    case Test => s.phase == Testing
    case Record => s.phase == Recording
    case Return => s.phase == InTask
  }

  ghost function Apply(s: State, step: Step): State
    requires WellFormed(s) && Enabled(s, step)
  {
    var task := s.tasks[s.slot];
    match step
    case Tick => s.(now := s.now + 1, systime := NextTick(s.systime))
    case Test =>
      if Runs(task, s.systime) then s.(phase := Recording, tested := s.now)
      else s.(slot := NextSlot(s.slot), tested := s.now)
    case Record =>
      s.(tasks := s.tasks[s.slot := task.(lastRun := s.systime)],
         runs := s.runs[s.slot := s.runs[s.slot] + [s.now]],
         phase := InTask)
    case Return => s.(slot := NextSlot(s.slot), phase := Testing)
  }

  /** The scan begins at true time `start`; nothing has run, so every `last_run` is zero. */
  ghost predicate Starts(s: State, start: nat) {
    && WellFormed(s) && s.slot == 0 && s.phase == Testing
    && s.now == s.tested == start && s.systime == start % TWO_32
    && forall j :: 0 <= j < MAX_NUM_TASKS ==> s.tasks[j].lastRun == 0 && s.runs[j] == []
  }

  /** The true time of the latest recorded run, zero before the first. */
  ghost function Last(s: State, j: nat): nat
    requires j < |s.runs|
  {
    if s.runs[j] == [] then 0 else s.runs[j][|s.runs[j]| - 1]
  }

  // ----- never too early

  ghost predicate Spaced(times: seq<nat>, period: nat) {
    && (times != [] ==> times[0] >= period)
    && forall k :: 0 < k < |times| ==> times[k] - times[k - 1] >= period
  }

  ghost predicate Safe(s: State) {
    && WellFormed(s)
    && s.systime == s.now % TWO_32
    && (forall j :: 0 <= j < MAX_NUM_TASKS ==>
          && Last(s, j) <= s.now && s.tasks[j].lastRun == Last(s, j) % TWO_32
          && Spaced(s.runs[j], s.tasks[j].period))
    && (s.phase == Recording ==> s.now - Last(s, s.slot) >= s.tasks[s.slot].period)
  }

  /** The wrapped difference never exceeds the true one, and equals it while that is below 2^32. */
  lemma WrappedDifference(last: nat, now: nat)
    requires last <= now
    ensures (now % TWO_32 - last % TWO_32) % TWO_32 <= now - last
    ensures now - last < TWO_32 ==> (now % TWO_32 - last % TWO_32) % TWO_32 == now - last
  {
    var d := now % TWO_32 - last % TWO_32;
    var q := now / TWO_32 - last / TWO_32;
    assert now - last == d + TWO_32 * q;
    assert d % TWO_32 == if d >= 0 then d else d + TWO_32;
  }

  lemma TickWraps(now: nat)
    ensures NextTick(now % TWO_32) == (now + 1) % TWO_32
  {
  }

  lemma SafeStep(s: State, step: Step)
    requires Safe(s) && Enabled(s, step)
    ensures Safe(Apply(s, step))
  {
    hide NextTick, Spaced;
    var t := Apply(s, step);
    match step {
      case Tick => TickWraps(s.now);
      case Test => WrappedDifference(Last(s, s.slot), s.now);
      case Record =>
        forall j | 0 <= j < MAX_NUM_TASKS
          ensures Last(t, j) <= t.now && t.tasks[j].lastRun == Last(t, j) % TWO_32
                  && Spaced(t.runs[j], t.tasks[j].period)
        {
          if j == s.slot { SpacedSnoc(s.runs[j], s.tasks[j].period, s.now); }
        }
      case Return =>
    }
  }

  lemma SpacedSnoc(times: seq<nat>, period: nat, now: nat)
    requires Spaced(times, period)
    requires now >= period + (if times == [] then 0 else times[|times| - 1])
    ensures Spaced(times + [now], period)
  {
  }

  // ----- never too late

  /** Ticks are only possible while the current slot visit is within its `budget`. */
  ghost predicate Timely(s: State, step: Step, budget: nat) {
    step == Tick ==> s.now + 1 - s.tested <= budget
  }

  /** When slot `j` becomes due: its period after its last run, but not before the scan begins. */
  ghost function DueTime(s: State, j: nat, start: nat): nat
    requires WellFormed(s) && j < MAX_NUM_TASKS
  {
    var due := Last(s, j) + s.tasks[j].period;
    if due < start then start else due
  }

  /** How many slots have been tested after slot `j` was. */
  ghost function Age(s: State, j: nat): nat
    requires WellFormed(s) && j < MAX_NUM_TASKS
  {
    var next := if s.phase == Testing then s.slot else NextSlot(s.slot);
    if j < next then next - 1 - j else next + MAX_NUM_TASKS - 1 - j
  }

  /** `count` slot visits of `budget` ticks each. */
  ghost function Visits(count: nat, budget: nat): nat {
    if count == 0 then 0 else Visits(count - 1, budget) + budget
  }

  /** The latest test cannot have come long after slot `j` was due. */
  ghost predicate OnTimeAt(s: State, j: nat, start: nat, budget: nat)
    requires WellFormed(s) && j < MAX_NUM_TASKS
  {
    s.tested <= DueTime(s, j, start)
                + Visits(if s.phase == Recording && j == s.slot then MAX_NUM_TASKS else Age(s, j), budget)
  }

  /** A slot that has run, or that begins to be tested before the first gap, from tick zero, reaches 2^32. */
  ghost predicate Watched(s: State, j: nat, start: nat, budget: nat)
    requires WellFormed(s) && j < MAX_NUM_TASKS
  {
    s.tasks[j].present && (s.runs[j] != [] || start + 10 * budget < TWO_32)
  }

  ghost predicate OnTime(s: State, start: nat, budget: nat) {
    && Safe(s) && start <= s.tested <= s.now <= s.tested + budget
    && (forall j :: 0 <= j < MAX_NUM_TASKS && s.runs[j] != [] ==> start <= Last(s, j))
    && forall j :: 0 <= j < MAX_NUM_TASKS && Watched(s, j, start, budget) ==> OnTimeAt(s, j, start, budget)
  }

  /** No gap between two runs that the counter has to measure reaches 2^32. */
  ghost predicate Measurable(s: State, budget: nat) {
    forall j :: 0 <= j < |s.tasks| ==> s.tasks[j].period + 10 * budget < TWO_32
  }

  lemma {:induction false} VisitsIsProduct(count: nat, budget: nat)
    ensures Visits(count, budget) == count * budget
  {
    if count > 0 {
      VisitsIsProduct(count - 1, budget);
      assert count * budget == (count - 1) * budget + budget;
    }
  }

  /** At its test a slot is at most ten visits past due, so the counter measures the true gap. */
  lemma TestedSlotOnTime(s: State, start: nat, budget: nat)
    requires OnTime(s, start, budget) && Measurable(s, budget) && s.phase == Testing
    requires Watched(s, s.slot, start, budget)
    ensures OnTimeAt(Apply(s, Test), s.slot, start, budget)
  {
    var i := s.slot;
    assert OnTimeAt(s, i, start, budget) && Age(s, i) == 9;
    assert s.now <= DueTime(s, i, start) + Visits(10, budget);
    VisitsIsProduct(10, budget);
    assert s.now - Last(s, i) < TWO_32;
    WrappedDifference(Last(s, i), s.now);
  }

  lemma OtherSlotOnTime(s: State, j: nat, start: nat, budget: nat)
    requires OnTime(s, start, budget) && s.phase == Testing
    requires j < MAX_NUM_TASKS && j != s.slot && Watched(s, j, start, budget)
    ensures OnTimeAt(Apply(s, Test), j, start, budget)
  {
    assert OnTimeAt(s, j, start, budget);
    assert Age(Apply(s, Test), j) == Age(s, j) + 1;
  }

  lemma OnTimeStep(s: State, step: Step, start: nat, budget: nat)
    requires OnTime(s, start, budget) && Measurable(s, budget)
    requires Enabled(s, step) && Timely(s, step, budget)
    ensures OnTime(Apply(s, step), start, budget) && Measurable(Apply(s, step), budget)
  {
    hide Spaced, Due, Visits;
    var t := Apply(s, step);
    SafeStep(s, step);
    forall j | 0 <= j < MAX_NUM_TASKS && Watched(t, j, start, budget) ensures OnTimeAt(t, j, start, budget) {
      if step == Test {
        if j == s.slot { TestedSlotOnTime(s, start, budget); } else { OtherSlotOnTime(s, j, start, budget); }
      } else if step != Record || j != s.slot {
        assert OnTimeAt(s, j, start, budget);
      }
    }
  }

  // ----- whole runs

  ghost predicate ValidRun(s: State, steps: seq<Step>)
    requires WellFormed(s)
    decreases |steps|
  {
    steps != [] ==> Enabled(s, steps[0]) && ValidRun(Apply(s, steps[0]), steps[1..])
  }

  ghost function Reach(s: State, steps: seq<Step>): State
    requires WellFormed(s) && ValidRun(s, steps)
    decreases |steps|
  {
    if steps == [] then s else Reach(Apply(s, steps[0]), steps[1..])
  }

  ghost predicate TimelyRun(s: State, steps: seq<Step>, budget: nat)
    requires WellFormed(s) && ValidRun(s, steps)
    decreases |steps|
  {
    steps != [] ==> Timely(s, steps[0], budget) && TimelyRun(Apply(s, steps[0]), steps[1..], budget)
  }

  lemma {:induction false} SafeRun(s: State, steps: seq<Step>)
    requires Safe(s) && ValidRun(s, steps)
    ensures Safe(Reach(s, steps)) && |Reach(s, steps).tasks| == |s.tasks|
    ensures forall j :: 0 <= j < MAX_NUM_TASKS ==> Reach(s, steps).tasks[j].period == s.tasks[j].period
    decreases |steps|
  {
    if steps != [] {
      SafeStep(s, steps[0]);
      SafeRun(Apply(s, steps[0]), steps[1..]);
    }
  }

  /**
   In every run, with ticks between any two steps and however often the counter wraps, two
   successive runs of a task are at least its period of true ticks apart.
   */
  lemma NeverEarly(s: State, start: nat, steps: seq<Step>)
    requires Starts(s, start) && ValidRun(s, steps)
    ensures |Reach(s, steps).runs| == MAX_NUM_TASKS
    ensures forall j :: 0 <= j < MAX_NUM_TASKS ==> Spaced(Reach(s, steps).runs[j], s.tasks[j].period)
  {
    SafeRun(s, steps);
  }

  lemma {:induction false} OnTimeRun(s: State, steps: seq<Step>, start: nat, budget: nat)
    requires OnTime(s, start, budget) && Measurable(s, budget)
    requires ValidRun(s, steps) && TimelyRun(s, steps, budget)
    ensures OnTime(Reach(s, steps), start, budget)
    decreases |steps|
  {
    if steps != [] {
      OnTimeStep(s, steps[0], start, budget);
      OnTimeRun(Apply(s, steps[0]), steps[1..], start, budget);
    }
  }

  /**
   If every slot visit takes at most `budget` ticks and no period comes within ten visits of
   2^32, the clock never gets eleven visits past the time a task is due again without it having
   run again; nor, if the scan begins ten visits before tick 2^32, past the time of its first run.
   */
  lemma NeverLate(s: State, start: nat, steps: seq<Step>, budget: nat)
    requires Starts(s, start) && ValidRun(s, steps) && TimelyRun(s, steps, budget)
    requires Measurable(s, budget)
    ensures WellFormed(Reach(s, steps))
    ensures forall j :: 0 <= j < MAX_NUM_TASKS && s.tasks[j].present
                        && (Reach(s, steps).runs[j] != [] || start + 10 * budget < TWO_32) ==>
              Reach(s, steps).now <= DueTime(Reach(s, steps), j, start) + 11 * budget
  {
    OnTimeRun(s, steps, start, budget);
    PresenceKept(s, steps);
    var t := Reach(s, steps);
    forall j | 0 <= j < MAX_NUM_TASKS && Watched(t, j, start, budget)
      ensures t.now <= DueTime(t, j, start) + 11 * budget
    {
      assert OnTimeAt(t, j, start, budget);
      VisitsAtMost(if t.phase == Recording && j == t.slot then MAX_NUM_TASKS else Age(t, j), budget);
    }
  }

  /** A first run is decided by the wrapped clock alone: at its test it is passed over exactly while that is below the period. */
  lemma FirstRunByWrappedClock(s: State)
    requires Safe(s) && s.phase == Testing && s.tasks[s.slot].present && s.runs[s.slot] == []
    ensures Apply(s, Test).phase == Recording <==> s.now % TWO_32 >= s.tasks[s.slot].period
  {
    assert s.tasks[s.slot].lastRun == 0;
  }

  /** So a scan that begins at tick 2^32 passes over a task that has been due for a long time. */
  lemma LateFirstRun(s: State)
    requires Starts(s, TWO_32) && s.tasks[0].present && s.tasks[0].period == 5000
    ensures DueTime(s, 0, TWO_32) == s.now && Apply(s, Test).phase == Testing
  {
    FirstRunByWrappedClock(s);
  }

  lemma VisitsAtMost(count: nat, budget: nat)
    requires count <= 10
    ensures Visits(count, budget) <= 10 * budget
  {
    VisitsIsProduct(count, budget);
    assert count * budget <= 10 * budget;
  }

  lemma {:induction false} PresenceKept(s: State, steps: seq<Step>)
    requires WellFormed(s) && ValidRun(s, steps)
    ensures WellFormed(Reach(s, steps))
    ensures forall j :: 0 <= j < MAX_NUM_TASKS ==> Reach(s, steps).tasks[j].present == s.tasks[j].present
    decreases |steps|
  {
    if steps != [] { PresenceKept(Apply(s, steps[0]), steps[1..]); }
  }

  // ----- the code takes these steps

  function Ticks(count: nat): seq<Step> {
    if count == 0 then [] else [Tick] + Ticks(count - 1)
  }

  lemma {:induction false} RunConcat(s: State, a: seq<Step>, b: seq<Step>)
    requires WellFormed(s) && ValidRun(s, a) && WellFormed(Reach(s, a)) && ValidRun(Reach(s, a), b)
    ensures ValidRun(s, a + b) && Reach(s, a + b) == Reach(Reach(s, a), b)
    decreases |a|
  {
    if a == [] {
      assert a + b == b;
    } else {
      assert (a + b)[0] == a[0] && (a + b)[1..] == a[1..] + b;
      RunConcat(Apply(s, a[0]), a[1..], b);
    }
  }

  lemma {:induction false} TicksPass(s: State, count: nat)
    requires WellFormed(s)
    ensures ValidRun(s, Ticks(count))
    ensures var t := Reach(s, Ticks(count)); t == s.(now := s.now + count, systime := t.systime)
    ensures s.systime == s.now % TWO_32 ==> Reach(s, Ticks(count)).systime == (s.now + count) % TWO_32
    decreases count
  {
    hide Runs, NextTick;
    if count > 0 {
      var t := Apply(s, Tick);
      if s.systime == s.now % TWO_32 { TickWraps(s.now); }
      assert Ticks(count)[0] == Tick && Ticks(count)[1..] == Ticks(count - 1);
      TicksPass(t, count - 1);
    }
  }

  /** The steps of one slot visit with `count` ticks between the two reads of the clock. */
  function VisitSteps(task: Task, systime: u32, count: nat): seq<Step> {
    if Runs(task, systime) then [Test] + (Ticks(count) + [Record]) else [Test]
  }

  /** A turn of the loop in `sched_run` is a test and, if the task runs, a record after any number of ticks. */
  lemma VisitIsSteps(s: State, count: nat)
    requires Safe(s) && s.phase == Testing
    ensures var steps := VisitSteps(s.tasks[s.slot], s.systime, count);
            && ValidRun(s, steps)
            && var t := Reach(s, steps);
               && t.tasks == Visited(s.tasks, s.slot, s.systime, (s.now + count) % TWO_32)
               && (if Runs(s.tasks[s.slot], s.systime) then t.phase == InTask && t.slot == s.slot
                   else t.phase == Testing && t.slot == NextSlot(s.slot))
  {
    var tested := Apply(s, Test);
    assert [Test][1..] == [];
    assert Reach(s, [Test]) == tested;
    if Runs(s.tasks[s.slot], s.systime) {
      TicksPass(tested, count);
      var ticked := Reach(tested, Ticks(count));
      assert [Record][1..] == [];
      assert ValidRun(ticked, [Record]) && Reach(ticked, [Record]) == Apply(ticked, Record);
      RunConcat(tested, Ticks(count), [Record]);
      RunConcat(s, [Test], Ticks(count) + [Record]);
    }
  }
}
