/** The multilevel feedback queue as a step machine over values, and its response-time bounds. */
module Mlfq {
  import opened Common

  const NUM_QUEUES: nat := 8
  const BOOST_PERIOD: nat := 100
  const U32: nat := 0x1_0000_0000

  datatype TaskState = Running | Ready | Blocked | Zombie

  datatype Task = Task(priority: nat, state: TaskState)

  datatype Sched = Sched(queues: seq<seq<nat>>, current: Option<nat>, ticksRemaining: nat, totalTicks: nat,
                         needsReschedule: bool, tasks: map<nat, Task>)

  function TimeSlice(priority: nat): nat { (priority + 1) * (priority + 1) }

  // ---------------------------------------------------------------- operations

  function PushTo(queues: seq<seq<nat>>, i: nat, t: nat): seq<seq<nat>>
    requires i < |queues|
  {
    queues[i := queues[i] + [t]]
  }

  function Push(s: Sched, t: nat): Sched
    requires |s.queues| == NUM_QUEUES && t in s.tasks
  {
    s.(queues := PushTo(s.queues, Min(s.tasks[t].priority, NUM_QUEUES - 1), t))
  }

  /** The first queue from `i` on that holds `t`. */
  function QueueOf(queues: seq<seq<nat>>, t: nat, i: nat): (r: nat)
    ensures r >= i
    decreases |queues| - i
  {
    if i >= |queues| || t in queues[i] then i else QueueOf(queues, t, i + 1)
  }

  /** Every queue below the top moves up by one; queue 0 keeps its tasks in front. */
  function BoostedQueues(q: seq<seq<nat>>): (r: seq<seq<nat>>)
    requires |q| == NUM_QUEUES
    ensures |r| == NUM_QUEUES
  {
    [q[0] + q[1], q[2], q[3], q[4], q[5], q[6], q[7], []]
  }

  function BoostedTask(q: seq<seq<nat>>, t: nat, task: Task): Task
  {
    var i := QueueOf(q, t, 1);
    if 1 <= i < |q| then task.(priority := i - 1) else task
  }

  function Boost(s: Sched): Sched
    requires |s.queues| == NUM_QUEUES
  {
    s.(queues := BoostedQueues(s.queues), tasks := map t | t in s.tasks :: BoostedTask(s.queues, t, s.tasks[t]))
  }

  function Tick(s: Sched): Sched
    requires |s.queues| == NUM_QUEUES
  {
    var s1 := s.(totalTicks := (s.totalTicks + 1) % U32);
    var s2 := if s1.totalTicks % BOOST_PERIOD == 0 then Boost(s1) else s1;
    if s2.current.None? then s2
    else
      var r := if s2.ticksRemaining > 0 then s2.ticksRemaining - 1 else 0;
      s2.(ticksRemaining := r, needsReschedule := s2.needsReschedule || r == 0)
  }

  /** Index of the first non-empty queue from `i` on. */
  function FirstQueue(queues: seq<seq<nat>>, i: nat): (r: nat)
    ensures r >= i && (r < |queues| ==> queues[r] != []) && forall j :: i <= j < r && j < |queues| ==> queues[j] == []
    decreases |queues| - i
  {
    if i >= |queues| || queues[i] != [] then i else FirstQueue(queues, i + 1)
  }

  /** The outgoing task goes back as ready, one level down, whatever its state was. */
  function Requeue(s: Sched): Sched
    requires |s.queues| == NUM_QUEUES && (s.current.Some? ==> s.current.value in s.tasks)
  {
    if s.current.None? then s
    else
      var t := s.current.value;
      var p := Min(s.tasks[t].priority + 1, NUM_QUEUES - 1);
      s.(queues := PushTo(s.queues, p, t), tasks := s.tasks[t := Task(p, Ready)], current := None)
  }

  function Dispatch(s: Sched, t: nat): Sched
    requires t in s.tasks
  {
    s.(tasks := s.tasks[t := s.tasks[t].(state := Running)], current := Some(t),
       ticksRemaining := TimeSlice(s.tasks[t].priority), needsReschedule := false)
  }

  ghost predicate Known(s: Sched) {
    && |s.queues| == NUM_QUEUES && (s.current.Some? ==> s.current.value in s.tasks)
    && forall i :: 0 <= i < NUM_QUEUES ==> forall t :: t in s.queues[i] ==> t in s.tasks
  }

  function PrepareSwitch(s: Sched): Sched
    requires Known(s)
  {
    if !s.needsReschedule then s
    else
      var i := FirstQueue(s.queues, 0);
      if i >= NUM_QUEUES then s.(needsReschedule := false)
      else
        var t := s.queues[i][0];
        var s1 := Requeue(s.(queues := s.queues[i := s.queues[i][1..]]));
        Dispatch(s1, t)
  }

  function ShouldReschedule(s: Sched): Sched
    requires Known(s)
  {
    if s.current.Some? && (s.tasks[s.current.value].state.Blocked? || s.tasks[s.current.value].state.Zombie?)
    then s.(needsReschedule := true) else s
  }

  /** `schedule()`: nothing happens while preemption is disabled. */
  function Schedule(s: Sched, preemptible: bool): Sched
    requires Known(s)
  {
    if preemptible then PrepareSwitch(ShouldReschedule(s)) else s
  }

  function RemoveCurrent(s: Sched): Sched {
    if s.current.None? then s else s.(current := None, ticksRemaining := 0, needsReschedule := true)
  }

  function SetState(s: Sched, state: TaskState): Sched
    requires s.current.Some? && s.current.value in s.tasks
  {
    s.(tasks := s.tasks[s.current.value := s.tasks[s.current.value].(state := state)])
  }

  // ---------------------------------------------------------------- steps

  /** `Timer` is the interrupt handler. A task ends by marking itself and being removed, and waits by marking
      itself and calling `schedule`, which is `Yield`; ticks may come in between. */
  datatype Step =
    | Timer(preemptible: bool)
    | Spawn(tid: nat, priority: nat)
    | Mark(state: TaskState)
    | Remove
    | Yield(preemptible: bool)
    | Unblock(tid: nat)

  /** Spawned tasks are new and have a level of their own; the idle task neither ends nor waits; a task that
      marked itself blocked goes on to call `schedule` and does not unblock itself, see `UnblockKeepsIff`. */
  ghost predicate Enabled(s: Sched, step: Step, idle: nat) {
    match step
    case Spawn(t, p) => t !in s.tasks && p < NUM_QUEUES
    case Mark(state) => s.current.Some? && s.current.value != idle && (state.Blocked? || state.Zombie?)
    case Remove => s.current.Some? ==> s.current.value != idle && !IsBlocked(s)
    case Unblock(t) => !(s.current == Some(t) && IsBlocked(s))
    case _ => true
  }

  ghost predicate IsBlocked(s: Sched) {
    s.current.Some? && s.current.value in s.tasks && s.tasks[s.current.value].state.Blocked?
  }

  function Apply(s: Sched, step: Step): Sched
    requires Known(s)
    requires step.Mark? ==> s.current.Some?
  {
    match step
    case Timer(b) => TickKnown(s); Schedule(Tick(s), b)
    case Spawn(t, p) => Push(s.(tasks := s.tasks[t := Task(p, Ready)]), t)
    case Mark(state) => SetState(s, state)
    case Remove => RemoveCurrent(s)
    case Yield(b) => Schedule(s, b)
    case Unblock(t) =>
      if t in s.tasks && s.tasks[t].state.Blocked?
      then Push(s.(tasks := s.tasks[t := s.tasks[t].(state := Ready)]), t) else s
  }

  lemma TickKnown(s: Sched)
    requires Known(s)
    ensures Known(Tick(s))
  {
  }

  // ---------------------------------------------------------------- invariant

  /** `t` sits at position `k` of queue `i`. */
  ghost predicate At(q: seq<seq<nat>>, t: nat, i: nat, k: nat) {
    i < |q| && k < |q[i]| && q[i][k] == t
  }

  ghost predicate Queued(q: seq<seq<nat>>, t: nat) { exists i: nat, k: nat :: At(q, t, i, k) }

  /** Queued tasks are ready, in the queue of their priority, and in one place only. */
  ghost predicate QueuesOk(q: seq<seq<nat>>, tasks: map<nat, Task>) {
    && |q| == NUM_QUEUES
    && (forall t: nat, i: nat, k: nat :: At(q, t, i, k) ==> t in tasks && tasks[t] == Task(i, Ready))
    && (forall t: nat, i: nat, k: nat, j: nat, l: nat :: At(q, t, i, k) && At(q, t, j, l) ==> i == j && k == l)
  }

  /** No task but the current one is blocked, the current one is not queued, and the idle task is never lost. */
  ghost predicate Loose(s: Sched, idle: nat) {
    && QueuesOk(s.queues, s.tasks) && s.totalTicks < U32 && s.ticksRemaining <= 64
    && (forall t :: t in s.tasks && s.current != Some(t) ==> !s.tasks[t].state.Blocked?)
    && (s.current.Some? ==>
          && s.current.value in s.tasks && s.tasks[s.current.value].priority < NUM_QUEUES
          && !Queued(s.queues, s.current.value))
    && (if s.current == Some(idle) then s.tasks[idle].state.Running? else Queued(s.queues, idle))
  }

  /** In addition, at the end of every step: an empty processor asks for a switch. */
  ghost predicate Inv(s: Sched, idle: nat) {
    Loose(s, idle) && (s.current.None? ==> s.needsReschedule && s.ticksRemaining == 0)
  }

  lemma KnownFromQueues(s: Sched)
    requires QueuesOk(s.queues, s.tasks) && (s.current.Some? ==> s.current.value in s.tasks)
    ensures Known(s)
  {
    forall i, t | 0 <= i < NUM_QUEUES && t in s.queues[i]
      ensures t in s.tasks
    {
      var k :| 0 <= k < |s.queues[i]| && s.queues[i][k] == t;
      assert At(s.queues, t, i, k);
    }
  }

  lemma PushKeeps(q: seq<seq<nat>>, tasks: map<nat, Task>, i: nat, t: nat)
    requires QueuesOk(q, tasks) && i < NUM_QUEUES && !Queued(q, t)
    ensures QueuesOk(PushTo(q, i, t), tasks[t := Task(i, Ready)])
    ensures forall x: nat, j: nat, k: nat ::
              At(PushTo(q, i, t), x, j, k) <==> At(q, x, j, k) || (x == t && j == i && k == |q[i]|)
  {
    var q' := PushTo(q, i, t);
    forall x: nat, j: nat, k: nat
      ensures At(q', x, j, k) <==> At(q, x, j, k) || (x == t && j == i && k == |q[i]|)
    {
    }
  }

  lemma PopKeeps(q: seq<seq<nat>>, tasks: map<nat, Task>, i: nat)
    requires QueuesOk(q, tasks) && i < NUM_QUEUES && q[i] != []
    ensures var q' := q[i := q[i][1..]];
            && QueuesOk(q', tasks) && !Queued(q', q[i][0])
            && forall x: nat, j: nat, k: nat :: At(q', x, j, k) <==> At(q, x, j, if j == i then k + 1 else k)
  {
    var q' := q[i := q[i][1..]];
    forall x: nat, j: nat, k: nat
      ensures At(q', x, j, k) <==> At(q, x, j, if j == i then k + 1 else k)
    {
    }
    assert At(q, q[i][0], i, 0);
  }

  lemma SetKeeps(q: seq<seq<nat>>, tasks: map<nat, Task>, t: nat, task: Task)
    requires QueuesOk(q, tasks) && !Queued(q, t)
    ensures QueuesOk(q, tasks[t := task])
  {
  }

  /** Where a task of the boosted queues came from. */
  function Before(q: seq<seq<nat>>, j: nat, k: nat): (nat, nat)
    requires |q| == NUM_QUEUES
  {
    if j == 0 && k < |q[0]| then (0, k) else if j == 0 then (1, k - |q[0]|) else (j + 1, k)
  }

  lemma BoostKeeps(q: seq<seq<nat>>, tasks: map<nat, Task>)
    requires QueuesOk(q, tasks)
    ensures var tasks' := map t | t in tasks :: BoostedTask(q, t, tasks[t]); QueuesOk(BoostedQueues(q), tasks')
    ensures forall x: nat, j: nat, k: nat ::
              At(BoostedQueues(q), x, j, k) <==> j < NUM_QUEUES && At(q, x, Before(q, j, k).0, Before(q, j, k).1)
  {
    var q' := BoostedQueues(q);
    forall x: nat, j: nat, k: nat
      ensures At(q', x, j, k) <==> j < NUM_QUEUES && At(q, x, Before(q, j, k).0, Before(q, j, k).1)
    {
    }
    forall x: nat, i: nat, k: nat | At(q, x, i, k)
      ensures BoostedTask(q, x, tasks[x]) == Task(if i == 0 then 0 else i - 1, Ready)
    {
      FoundIn(q, tasks, x, i, k, 1);
    }
  }

  /** The search for a task's queue finds the queue it is in. */
  lemma {:induction false} FoundIn(q: seq<seq<nat>>, tasks: map<nat, Task>, x: nat, i: nat, k: nat, from: nat)
    requires QueuesOk(q, tasks) && At(q, x, i, k) && from <= NUM_QUEUES
    ensures from <= i ==> QueueOf(q, x, from) == i
    ensures i < from ==> QueueOf(q, x, from) == NUM_QUEUES
    decreases NUM_QUEUES - from
  {
    if from < NUM_QUEUES {
      if x in q[from] {
        var l :| 0 <= l < |q[from]| && q[from][l] == x;
        assert At(q, x, from, l);
      } else {
        FoundIn(q, tasks, x, i, k, from + 1);
      }
    }
  }

  lemma {:induction false} NotFound(q: seq<seq<nat>>, x: nat, from: nat)
    requires !Queued(q, x) && from <= |q|
    ensures QueueOf(q, x, from) == |q|
    decreases |q| - from
  {
    if from < |q| {
      if x in q[from] {
        var l :| 0 <= l < |q[from]| && q[from][l] == x;
        assert At(q, x, from, l);
      }
      NotFound(q, x, from + 1);
    }
  }

  lemma SliceBound(i: nat)
    requires i < NUM_QUEUES
    ensures 1 <= TimeSlice(i) <= 64
  {
  }

  // ---------------------------------------------------------------- parts of a step

  lemma BoostInv(s: Sched, idle: nat)
    requires Inv(s, idle)
    ensures Inv(Boost(s), idle)
  {
    var s' := Boost(s);
    BoostKeeps(s.queues, s.tasks);
    if s.current.Some? {
      NotFound(s.queues, s.current.value, 1);
      assert !Queued(s'.queues, s.current.value);
    }
    if s.current != Some(idle) {
      var i: nat, k: nat :| At(s.queues, idle, i, k);
      BoostMoves(s.queues, s.tasks, idle, i, k);
    }
  }

  /** Boosting moves a task up one level; in queue 0 it keeps its place. */
  lemma BoostMoves(q: seq<seq<nat>>, tasks: map<nat, Task>, x: nat, i: nat, k: nat)
    requires QueuesOk(q, tasks) && At(q, x, i, k)
    ensures i == 0 ==> At(BoostedQueues(q), x, 0, k)
    ensures i == 1 ==> At(BoostedQueues(q), x, 0, |q[0]| + k)
    ensures i > 1 ==> At(BoostedQueues(q), x, i - 1, k)
  {
  }

  lemma TickInv(s: Sched, idle: nat)
    requires Inv(s, idle)
    ensures Inv(Tick(s), idle)
  {
    var s1 := s.(totalTicks := (s.totalTicks + 1) % U32);
    assert Inv(s1, idle);
    if s1.totalTicks % BOOST_PERIOD == 0 { BoostInv(s1, idle); }
  }

  /** The switch itself: what is popped, what goes back, and where everyone else stands. */
  lemma SwitchPlaces(s: Sched, idle: nat)
    requires Loose(s, idle) && s.needsReschedule && FirstQueue(s.queues, 0) < NUM_QUEUES
    ensures Known(s)
    ensures var s' := PrepareSwitch(s);
            var i := FirstQueue(s.queues, 0);
            && s'.current == Some(s.queues[i][0]) && s'.ticksRemaining == (i + 1) * (i + 1) && !s'.needsReschedule
            && Inv(s', idle)
            && forall x: nat, j: nat, k: nat :: At(s.queues, x, j, k) && (j != i || k > 0) ==>
                 At(s'.queues, x, j, if j == i then k - 1 else k)
  {
    KnownFromQueues(s);
    var i := FirstQueue(s.queues, 0);
    var t := s.queues[i][0];
    assert At(s.queues, t, i, 0);
    var q1 := s.queues[i := s.queues[i][1..]];
    PopKeeps(s.queues, s.tasks, i);
    SliceBound(i);
    var s' := PrepareSwitch(s);
    forall x: nat, j: nat, k: nat | At(s.queues, x, j, k) && (j != i || k > 0)
      ensures At(q1, x, j, if j == i then k - 1 else k)
    {
    }
    if s.current.Some? {
      var c := s.current.value;
      var p := Min(s.tasks[c].priority + 1, NUM_QUEUES - 1);
      assert !Queued(q1, c);
      PushKeeps(q1, s.tasks, p, c);
      assert At(PushTo(q1, p, c), c, p, |q1[p]|);
      assert !Queued(PushTo(q1, p, c), t);
      SetKeeps(PushTo(q1, p, c), s.tasks[c := Task(p, Ready)], t, Task(i, Running));
    } else {
      SetKeeps(q1, s.tasks, t, Task(i, Running));
    }
  }

  lemma NothingQueued(s: Sched, idle: nat)
    requires Loose(s, idle) && FirstQueue(s.queues, 0) >= NUM_QUEUES
    ensures s.current == Some(idle) && forall t: nat, i: nat, k: nat :: !At(s.queues, t, i, k)
  {
  }

  lemma SwitchInv(s: Sched, idle: nat)
    requires Loose(s, idle) && Known(s)
    requires !s.needsReschedule ==> Inv(s, idle)
    ensures Inv(PrepareSwitch(s), idle)
  {
    if s.needsReschedule {
      if FirstQueue(s.queues, 0) < NUM_QUEUES { SwitchPlaces(s, idle); } else { NothingQueued(s, idle); }
    }
  }

  lemma ShouldKeeps(s: Sched, idle: nat)
    requires Loose(s, idle) && Known(s)
    ensures Loose(ShouldReschedule(s), idle) && Known(ShouldReschedule(s))
  {
  }

  lemma ScheduleInv(s: Sched, idle: nat, b: bool)
    requires Inv(s, idle) && Known(s)
    ensures Inv(Schedule(s, b), idle)
  {
    if b {
      ShouldKeeps(s, idle);
      SwitchInv(ShouldReschedule(s), idle);
    }
  }

  lemma StepInv(s: Sched, step: Step, idle: nat)
    requires Inv(s, idle) && Enabled(s, step, idle)
    ensures Known(s) && Inv(Apply(s, step), idle)
  {
    KnownFromQueues(s);
    match step
    case Timer(b) =>
      TickInv(s, idle);
      TickKnown(s);
      ScheduleInv(Tick(s), idle, b);
    case Spawn(t, p) =>
      assert !Queued(s.queues, t);
      PushKeeps(s.queues, s.tasks, p, t);
      assert forall i: nat, k: nat :: At(s.queues, idle, i, k) ==> At(PushTo(s.queues, p, t), idle, i, k);
    case Mark(state) => SetKeeps(s.queues, s.tasks, s.current.value, s.tasks[s.current.value].(state := state));
    case Remove =>
    case Yield(b) => ScheduleInv(s, idle, b);
    case Unblock(t) =>
  }

  /** Unblocking keeps the invariant exactly when it is not the current task, marked blocked and not yet switched
      away from: that one would be current and queued at once. */
  lemma UnblockKeepsIff(s: Sched, t: nat, idle: nat)
    requires Inv(s, idle)
    ensures Known(s) && (Inv(Apply(s, Unblock(t)), idle) <==> !(s.current == Some(t) && IsBlocked(s)))
  {
    KnownFromQueues(s);
    if s.current == Some(t) && IsBlocked(s) {
      var i := s.tasks[t].priority;
      assert At(Apply(s, Unblock(t)).queues, t, i, |s.queues[i]|);
    }
  }

  // ---------------------------------------------------------------- progress of a queued task

  /** Timer ticks until the next boost; the 32-bit counter wraps at `2^32`, itself a boost. */
  function ToBoost(total: nat): int {
    if total >= 4294967200 then U32 - total else BOOST_PERIOD - total % BOOST_PERIOD
  }

  lemma BoostClock(total: nat)
    requires total < U32
    ensures 1 <= ToBoost(total) <= BOOST_PERIOD
    ensures var t := (total + 1) % U32;
            if t % BOOST_PERIOD == 0 then ToBoost(total) == 1 else ToBoost(t) == ToBoost(total) - 1
  {
  }

  /** Bound on the preemptible ticks before a task at position `k` of queue `i` is dispatched, when
      queue 0 never holds more than `n` tasks. */
  function Rank(s: Sched, i: nat, k: nat, n: nat): int {
    if i == 0 then Max(s.ticksRemaining, 1) + k
    else BOOST_PERIOD * (i - 1) + ToBoost(s.totalTicks) + 64 + n
  }

  /** `x` is running, or queued with a rank of at most `r`. */
  ghost predicate Within(s: Sched, x: nat, n: nat, r: int) {
    s.current == Some(x) || exists i: nat, k: nat :: At(s.queues, x, i, k) && Rank(s, i, k, n) <= r
  }

  lemma ScheduleRank(s: Sched, idle: nat, b: bool, x: nat, i: nat, k: nat, n: nat)
    requires Loose(s, idle) && Known(s) && At(s.queues, x, i, k)
    ensures Within(Schedule(s, b), x, n, Rank(s, i, k, n))
    ensures b && ShouldReschedule(s).needsReschedule && i == 0 ==> Within(Schedule(s, b), x, n, k)
  {
    var u := ShouldReschedule(s);
    var s' := Schedule(s, b);
    if b && u.needsReschedule {
      ShouldKeeps(s, idle);
      assert FirstQueue(u.queues, 0) < NUM_QUEUES;
      SwitchPlaces(u, idle);
      var f := FirstQueue(u.queues, 0);
      if i != f || k > 0 {
        assert At(s'.queues, x, i, if i == f then k - 1 else k);
      }
    } else {
      assert At(s'.queues, x, i, k) && Rank(s', i, k, n) == Rank(s, i, k, n);
    }
  }

  lemma TickRank(s: Sched, idle: nat, x: nat, i: nat, k: nat, n: nat) returns (j: nat, l: nat)
    requires Inv(s, idle) && At(s.queues, x, i, k) && |Tick(s).queues[0]| <= n
    ensures At(Tick(s).queues, x, j, l) && Rank(Tick(s), j, l, n) <= Rank(s, i, k, n)
    ensures i > 0 ==> Rank(Tick(s), j, l, n) < Rank(s, i, k, n)
    ensures i == 0 ==> j == 0 && l == k
    ensures i == 0 ==> Rank(Tick(s), j, l, n) < Rank(s, i, k, n) || Tick(s).needsReschedule
  {
    BoostClock(s.totalTicks);
    var s' := Tick(s);
    BoostMoves(s.queues, s.tasks, x, i, k);
    if s'.totalTicks % BOOST_PERIOD == 0 && i > 0 {
      j, l := i - 1, if i == 1 then |s.queues[0]| + k else k;
      BoostClock(s'.totalTicks);
    } else {
      j, l := i, k;
    }
    assert At(s'.queues, x, j, l);
  }

  /** Number of queued tasks. */
  function Load(q: seq<seq<nat>>): nat
    requires |q| == NUM_QUEUES
  {
    |q[0]| + |q[1]| + |q[2]| + |q[3]| + |q[4]| + |q[5]| + |q[6]| + |q[7]|
  }

  lemma TimerRank(s: Sched, b: bool, idle: nat, x: nat, i: nat, k: nat, n: nat)
    requires Inv(s, idle) && At(s.queues, x, i, k) && Load(s.queues) <= n
    ensures Known(s)
    ensures Within(Apply(s, Timer(b)), x, n, if b || i > 0 then Rank(s, i, k, n) - 1 else Rank(s, i, k, n))
  {
    KnownFromQueues(s);
    TickKnown(s);
    TickInv(s, idle);
    var j, l := TickRank(s, idle, x, i, k, n);
    ScheduleRank(Tick(s), idle, b, x, j, l, n);
  }

  lemma StepRank(s: Sched, step: Step, idle: nat, x: nat, i: nat, k: nat, n: nat)
    requires Inv(s, idle) && Enabled(s, step, idle) && At(s.queues, x, i, k) && Load(s.queues) <= n
    ensures Known(s)
    ensures Within(Apply(s, step), x, n, Rank(s, i, k, n) - if step == Timer(true) then 1 else 0)
  {
    KnownFromQueues(s);
    match step
    case Timer(b) => TimerRank(s, b, idle, x, i, k, n);
    case Spawn(t, p) =>
      var s' := Apply(s, step);
      assert At(s'.queues, x, i, k) && Rank(s', i, k, n) == Rank(s, i, k, n);
    case Mark(_) =>
      var s' := Apply(s, step);
      assert At(s'.queues, x, i, k) && Rank(s', i, k, n) == Rank(s, i, k, n);
    case Remove =>
      var s' := Apply(s, step);
      assert At(s'.queues, x, i, k) && Rank(s', i, k, n) <= Rank(s, i, k, n);
    case Yield(b) => ScheduleRank(s, idle, b, x, i, k, n);
    case Unblock(t) =>
      assert At(s.queues, x, i, k) && Rank(s, i, k, n) <= Rank(s, i, k, n);
  }

  // ---------------------------------------------------------------- whole runs

  /** The scheduler after `init`: the boot task runs, the idle task waits at the lowest level. */
  function Booted(boot: nat, idle: nat): Sched
    requires boot != idle
  {
    var empty := Sched([[], [], [], [], [], [], [], []], None, TimeSlice(0), 0, false, map[]);
    var running := Dispatch(empty.(tasks := map[boot := Task(0, Ready)]), boot);
    Push(running.(tasks := running.tasks[idle := Task(NUM_QUEUES - 1, Ready)]), idle)
  }

  lemma BootedInv(boot: nat, idle: nat)
    requires boot != idle
    ensures Inv(Booted(boot, idle), idle)
    ensures Booted(boot, idle) == Sched([[], [], [], [], [], [], [], [idle]], Some(boot), 1, 0, false,
                                        map[boot := Task(0, Running), idle := Task(7, Ready)])
  {
    var s := Booted(boot, idle);
    assert s.queues[7] == [] + [idle] == [idle];
    assert s.queues == [[], [], [], [], [], [], [], [idle]];
    assert s.tasks == map[boot := Task(0, Running), idle := Task(7, Ready)];
    assert At(s.queues, idle, 7, 0);
  }

  ghost predicate RunOk(s: Sched, steps: seq<Step>, idle: nat)
    decreases |steps|
  {
    steps == [] || (Known(s) && Enabled(s, steps[0], idle) && RunOk(Apply(s, steps[0]), steps[1..], idle))
  }

  ghost function Final(s: Sched, steps: seq<Step>, idle: nat): Sched
    requires RunOk(s, steps, idle)
    decreases |steps|
  {
    if steps == [] then s else Final(Apply(s, steps[0]), steps[1..], idle)
  }

  /** The invariant holds at the end of every run; `unblock_tid` queues nothing but a current task
      that marked itself blocked. */
  lemma {:induction false} RunInv(s: Sched, steps: seq<Step>, idle: nat)
    requires Inv(s, idle) && RunOk(s, steps, idle)
    ensures Inv(Final(s, steps, idle), idle) && Known(Final(s, steps, idle))
    ensures var e := Final(s, steps, idle);
            forall t: nat :: Apply(e, Unblock(t)) == e <==> !(e.current == Some(t) && IsBlocked(e))
    decreases |steps|
  {
    if steps == [] {
      KnownFromQueues(s);
    } else {
      StepInv(s, steps[0], idle);
      RunInv(Apply(s, steps[0]), steps[1..], idle);
    }
  }

  function Ticks(steps: seq<Step>, all: bool): nat {
    if steps == [] then 0
    else (if steps[0] == Timer(true) || (all && steps[0].Timer?) then 1 else 0) + Ticks(steps[1..], all)
  }

  /** The largest number of queued tasks along a run. */
  ghost function MaxLoad(s: Sched, steps: seq<Step>, idle: nat): nat
    requires RunOk(s, steps, idle)
    decreases |steps|
  {
    var here := if |s.queues| == NUM_QUEUES then Load(s.queues) else 0;
    if steps == [] then here else Max(here, MaxLoad(Apply(s, steps[0]), steps[1..], idle))
  }

  /** `x` becomes the current task during the run. */
  ghost predicate Dispatched(s: Sched, steps: seq<Step>, idle: nat, x: nat)
    requires RunOk(s, steps, idle)
    decreases |steps|
  {
    steps != [] && (Apply(s, steps[0]).current == Some(x) || Dispatched(Apply(s, steps[0]), steps[1..], idle, x))
  }

  lemma {:induction false} DispatchedWithin(s: Sched, steps: seq<Step>, idle: nat, x: nat, i: nat, k: nat, n: nat)
    requires Inv(s, idle) && RunOk(s, steps, idle) && At(s.queues, x, i, k)
    requires MaxLoad(s, steps, idle) <= n && Ticks(steps, false) >= Rank(s, i, k, n)
    ensures Dispatched(s, steps, idle, x)
    decreases |steps|
  {
    if s.totalTicks < U32 { BoostClock(s.totalTicks); }
    if steps != [] {
      var s' := Apply(s, steps[0]);
      StepInv(s, steps[0], idle);
      StepRank(s, steps[0], idle, x, i, k, n);
      if s'.current != Some(x) {
        var tick := if steps[0] == Timer(true) then 1 else 0;
        var j: nat, l: nat :| At(s'.queues, x, j, l) && Rank(s', j, l, n) <= Rank(s, i, k, n) - tick;
        DispatchedWithin(s', steps[1..], idle, x, j, l, n);
      }
    }
  }

  /** BOUNDED RESPONSE: whatever is spawned, exits, waits or yields in between, a task at position
      `k` of queue 0 runs within `max(r, 1) + k` preemptible ticks, and a task at level `i` within
      `100 * i + 64 + n`, where `n` is the largest number of tasks ever queued during the run. */
  lemma BoundedResponse(s: Sched, steps: seq<Step>, idle: nat, x: nat, i: nat, k: nat)
    requires Inv(s, idle) && RunOk(s, steps, idle) && At(s.queues, x, i, k)
    requires Ticks(steps, false) >=
             if i == 0 then Max(s.ticksRemaining, 1) + k else BOOST_PERIOD * i + 64 + MaxLoad(s, steps, idle)
    ensures Dispatched(s, steps, idle, x)
  {
    BoostClock(s.totalTicks);
    DispatchedWithin(s, steps, idle, x, i, k, MaxLoad(s, steps, idle));
  }

  // ---------------------------------------------------------------- rising to the top queue

  ghost predicate InTop(s: Sched, x: nat) { s.current == Some(x) || exists k: nat :: At(s.queues, x, 0, k) }

  /** At some point of the run `x` is running or in queue 0. */
  ghost predicate ReachesTop(s: Sched, steps: seq<Step>, idle: nat, x: nat)
    requires RunOk(s, steps, idle)
    decreases |steps|
  {
    InTop(s, x) || (steps != [] && ReachesTop(Apply(s, steps[0]), steps[1..], idle, x))
  }

  /** NO STARVATION: a task at level `i` is dispatched or in queue 0 within `100 * i` timer ticks,
      preemptible or not. */
  lemma {:induction false} RisesWithin(s: Sched, steps: seq<Step>, idle: nat, x: nat, i: nat, k: nat)
    requires Inv(s, idle) && RunOk(s, steps, idle) && At(s.queues, x, i, k)
    requires Ticks(steps, true) >= if i == 0 then 0 else BOOST_PERIOD * (i - 1) + ToBoost(s.totalTicks)
    ensures ReachesTop(s, steps, idle, x)
    ensures i > 0 ==> BOOST_PERIOD * (i - 1) + ToBoost(s.totalTicks) <= BOOST_PERIOD * i
    decreases |steps|
  {
    BoostClock(s.totalTicks);
    if i > 0 && steps != [] {
      var s' := Apply(s, steps[0]);
      var n := Load(s.queues);
      StepInv(s, steps[0], idle);
      var delta := if steps[0].Timer? then 1 else 0;
      if steps[0].Timer? {
        TimerRank(s, steps[0].preemptible, idle, x, i, k, n);
      } else {
        StepRank(s, steps[0], idle, x, i, k, n);
      }
      if !InTop(s', x) {
        var j: nat, l: nat :| At(s'.queues, x, j, l) && Rank(s', j, l, n) <= Rank(s, i, k, n) - delta;
        RisesWithin(s', steps[1..], idle, x, j, l);
      }
    }
  }

  // ---------------------------------------------------------------- slices and demotion

  /** The task that loses the processor goes to the back of the next level down, or of the last. */
  lemma SwitchDemotes(s: Sched, idle: nat)
    requires Loose(s, idle) && s.needsReschedule && FirstQueue(s.queues, 0) < NUM_QUEUES && s.current.Some?
    ensures Known(s)
    ensures var s', t := PrepareSwitch(s), s.current.value;
            var p := Min(s.tasks[t].priority + 1, NUM_QUEUES - 1);
            && s'.tasks[t] == Task(p, Ready) && s'.queues[p] != [] && s'.queues[p][|s'.queues[p]| - 1] == t
            && s'.current != Some(t)
  {
    KnownFromQueues(s);
    var i, t := FirstQueue(s.queues, 0), s.current.value;
    assert At(s.queues, s.queues[i][0], i, 0);
    assert !At(s.queues, t, i, 0);
  }

  /** Task `t` of some level has given up the processor: another one runs, and `t` is ready at the back of the
      queue one level down, or of the last. */
  ghost predicate GaveUp(s': Sched, t: nat, level: nat) {
    var p := if level >= 7 then 7 else level + 1;
    && s'.current.Some? && s'.current != Some(t)
    && |s'.queues| == 8 && s'.queues[p] != [] && s'.queues[p][|s'.queues[p]| - 1] == t
    && t in s'.tasks && s'.tasks[t] == Task(p, Ready)
  }

  /** A task that has marked itself is not the idle one, so something is queued. */
  lemma MarkedLeaves(s: Sched, idle: nat, t: nat)
    requires Inv(s, idle) && s.current == Some(t) && (s.tasks[t].state.Blocked? || s.tasks[t].state.Zombie?)
    ensures Known(s) && GaveUp(Schedule(s, true), t, s.tasks[t].priority)
  {
    KnownFromQueues(s);
    var s1 := ShouldReschedule(s);
    assert Loose(s1, idle);
    if FirstQueue(s.queues, 0) >= NUM_QUEUES { NothingQueued(s1, idle); }
    SwitchPlaces(s1, idle);
    SwitchDemotes(s1, idle);
  }

  lemma TickLeavesCurrent(s: Sched, idle: nat, t: nat)
    requires Inv(s, idle) && s.current == Some(t)
    ensures Known(s) && Inv(Tick(s), idle) && Known(Tick(s))
    ensures Tick(s).current == Some(t) && Tick(s).tasks[t] == s.tasks[t]
  {
    KnownFromQueues(s);
    TickInv(s, idle);
    TickKnown(s);
    NotFound(s.queues, t, 1);
  }

  lemma TimerLeaves(s: Sched, idle: nat, t: nat)
    requires Inv(s, idle) && s.current == Some(t) && (s.tasks[t].state.Blocked? || s.tasks[t].state.Zombie?)
    ensures Known(s) && GaveUp(Apply(s, Timer(true)), t, s.tasks[t].priority)
  {
    TickLeavesCurrent(s, idle, t);
    var s1 := Tick(s);
    assert s1.tasks[t].priority == s.tasks[t].priority;
    assert Apply(s, Timer(true)) == Schedule(s1, true);
    MarkedLeaves(s1, idle, t);
  }

  /** With nothing queued the idle task goes on, and the request for a switch is dropped. */
  lemma IdleGoesOn(s: Sched, idle: nat)
    requires Inv(s, idle) && s.queues == [[], [], [], [], [], [], [], []]
    ensures Known(s) && s.current == Some(idle) && Apply(s, Yield(true)) == s.(needsReschedule := false)
  {
    KnownFromQueues(s);
    assert forall i: nat, k: nat :: !At(s.queues, idle, i, k);
  }

  /** WAITING GIVES UP THE PROCESSOR: a current task that is blocked or a zombie leaves at its call of the
      scheduler and at any preemptible tick. */
  lemma WaitSwitches(s: Sched, idle: nat, t: nat)
    requires Inv(s, idle) && s.current == Some(t) && (s.tasks[t].state.Blocked? || s.tasks[t].state.Zombie?)
    ensures Known(s) && GaveUp(Apply(s, Yield(true)), t, s.tasks[t].priority)
    ensures GaveUp(Apply(s, Timer(true)), t, s.tasks[t].priority)
  {
    MarkedLeaves(s, idle, t);
    TimerLeaves(s, idle, t);
  }

  /** The current task does not end or wait. */
  predicate Steady(steps: seq<Step>) { forall i :: 0 <= i < |steps| ==> !steps[i].Mark? && !steps[i].Remove? }

  ghost predicate Runs(s: Sched, x: nat) { s.current == Some(x) && x in s.tasks && s.tasks[x].state.Running? }

  /** NO EARLY SWITCH: a task that neither ends nor waits keeps the processor for its whole slice, whatever
      is spawned or yields meanwhile, and uses it up tick by tick. */
  lemma {:induction false} FullSlice(s: Sched, steps: seq<Step>, idle: nat, x: nat)
    requires Inv(s, idle) && RunOk(s, steps, idle) && Steady(steps)
    requires Runs(s, x) && !s.needsReschedule && Ticks(steps, true) < s.ticksRemaining
    ensures var e := Final(s, steps, idle);
            Runs(e, x) && !e.needsReschedule && e.ticksRemaining == s.ticksRemaining - Ticks(steps, true)
    decreases |steps|
  {
    if steps != [] {
      StepInv(s, steps[0], idle);
      StepSteady(s, steps[0], idle, x);
      FullSlice(Apply(s, steps[0]), steps[1..], idle, x);
    }
  }

  lemma StepSteady(s: Sched, step: Step, idle: nat, x: nat)
    requires Inv(s, idle) && Enabled(s, step, idle) && !step.Mark? && !step.Remove?
    requires Runs(s, x) && !s.needsReschedule && s.ticksRemaining > if step.Timer? then 1 else 0
    ensures Known(s)
    ensures var e := Apply(s, step);
            && Runs(e, x) && !e.needsReschedule
            && e.ticksRemaining == s.ticksRemaining - if step.Timer? then 1 else 0
  {
    KnownFromQueues(s);
    match step
    case Timer(b) =>
      TickInv(s, idle);
      KnownFromQueues(Tick(s));
    case Spawn(_, _) =>
    case Yield(_) =>
    case Unblock(_) =>
  }

  // ---------------------------------------------------------------- how a task ends

  predicate Preempts(step: Step) { step == Timer(true) || step == Yield(true) }

  /** No step of the run is a chance to switch. */
  predicate Undisturbed(steps: seq<Step>) { steps == [] || (!Preempts(steps[0]) && Undisturbed(steps[1..])) }

  lemma {:induction false} UndisturbedIff(steps: seq<Step>)
    ensures Undisturbed(steps) <==> forall i :: 0 <= i < |steps| ==> !Preempts(steps[i])
  {
    if steps != [] {
      UndisturbedIff(steps[1..]);
      assert forall i :: 0 < i < |steps| ==> steps[i] == steps[1..][i - 1];
      assert forall i :: 0 <= i < |steps| - 1 ==> steps[1..][i] == steps[i + 1];
    }
  }

  /** Task `x` neither marks itself nor is removed in the run, though others may be. */
  ghost predicate OthersOnly(s: Sched, steps: seq<Step>, idle: nat, x: nat)
    requires RunOk(s, steps, idle)
    decreases |steps|
  {
    steps == [] || (&& ((steps[0].Mark? || steps[0].Remove?) ==> s.current != Some(x))
                    && OthersOnly(Apply(s, steps[0]), steps[1..], idle, x))
  }

  ghost predicate InState(s: Sched, x: nat, state: TaskState) { x in s.tasks && s.tasks[x].state == state }

  /** Between its mark and its removal: still a zombie on the processor, or switched away and back in the game. */
  ghost predicate Ending(s: Sched, x: nat, undisturbed: bool) {
    if undisturbed then s.current == Some(x) && InState(s, x, Zombie)
    else (s.current == Some(x) && InState(s, x, Running)) || Queued(s.queues, x)
  }

  lemma StepEnding(s: Sched, step: Step, idle: nat, x: nat, undisturbed: bool)
    requires Inv(s, idle) && Enabled(s, step, idle) && x != idle && Ending(s, x, undisturbed)
    requires step.Mark? || step.Remove? ==> s.current != Some(x)
    ensures Known(s) && Ending(Apply(s, step), x, undisturbed && !Preempts(step))
  {
    KnownFromQueues(s);
    match step
    case Timer(b) =>
      TickInv(s, idle);
      TickKnown(s);
      TickEnding(s, idle, x, undisturbed);
      ScheduleEnding(Tick(s), idle, b, x, undisturbed);
    case Yield(b) => ScheduleEnding(s, idle, b, x, undisturbed);
    case Spawn(t, p) =>
      if !undisturbed && Queued(s.queues, x) {
        var i: nat, k: nat :| At(s.queues, x, i, k);
        assert At(PushTo(s.queues, p, t), x, i, k);
      }
    case Mark(_) =>
    case Remove =>
    case Unblock(_) =>
  }

  lemma TickEnding(s: Sched, idle: nat, x: nat, undisturbed: bool)
    requires Inv(s, idle) && x != idle && Ending(s, x, undisturbed)
    ensures Ending(Tick(s), x, undisturbed)
  {
    if !undisturbed && Queued(s.queues, x) {
      var i: nat, k: nat :| At(s.queues, x, i, k);
      BoostMoves(s.queues, s.tasks, x, i, k);
      assert At(Tick(s).queues, x, i, k) || Queued(BoostedQueues(s.queues), x);
    }
  }

  lemma ScheduleEnding(s: Sched, idle: nat, b: bool, x: nat, undisturbed: bool)
    requires Inv(s, idle) && Known(s) && x != idle && Ending(s, x, undisturbed)
    ensures Ending(Schedule(s, b), x, undisturbed && !b)
  {
    var u := ShouldReschedule(s);
    ShouldKeeps(s, idle);
    if b && u.needsReschedule && FirstQueue(u.queues, 0) < NUM_QUEUES {
      SwitchPlaces(u, idle);
      if s.current == Some(x) {
        SwitchDemotes(u, idle);
        var p := Min(s.tasks[x].priority + 1, NUM_QUEUES - 1);
        assert At(PrepareSwitch(u).queues, x, p, |PrepareSwitch(u).queues[p]| - 1);
      } else {
        var i: nat, k: nat :| At(u.queues, x, i, k);
        var f := FirstQueue(u.queues, 0);
        if i != f || k > 0 { assert At(PrepareSwitch(u).queues, x, i, if i == f then k - 1 else k); }
      }
    } else if b && u.needsReschedule {
      NothingQueued(u, idle);
    }
  }

  lemma {:induction false} RunEnding(s: Sched, steps: seq<Step>, idle: nat, x: nat, undisturbed: bool)
    requires Inv(s, idle) && RunOk(s, steps, idle) && OthersOnly(s, steps, idle, x)
    requires x != idle && Ending(s, x, undisturbed)
    ensures Inv(Final(s, steps, idle), idle)
    ensures Ending(Final(s, steps, idle), x, undisturbed && Undisturbed(steps))
    decreases |steps|
  {
    if steps != [] {
      StepInv(s, steps[0], idle);
      StepEnding(s, steps[0], idle, x, undisturbed);
      RunEnding(Apply(s, steps[0]), steps[1..], idle, x, undisturbed && !Preempts(steps[0]));
    }
  }

  /** The state right after the current task has marked itself. */
  ghost function Marked(s: Sched, idle: nat): Sched
    requires Inv(s, idle) && s.current.Some?
  {
    KnownFromQueues(s);
    Apply(s, Mark(Zombie))
  }

  /** EXITS SEEN: a task that marks itself a zombie, and is removed when it has the processor, is left a zombie
      exactly when no step in between was a chance to preempt it; otherwise it is left as running. */
  lemma ExitSeenIff(s: Sched, steps: seq<Step>, idle: nat, x: nat)
    requires Inv(s, idle) && s.current == Some(x) && x != idle
    requires RunOk(Marked(s, idle), steps, idle) && OthersOnly(Marked(s, idle), steps, idle, x)
    requires Final(Marked(s, idle), steps, idle).current == Some(x)
    ensures var e := Final(Marked(s, idle), steps, idle);
            && Inv(e, idle) && Known(e)
            && Gone(Apply(e, Remove), x, if Undisturbed(steps) then Zombie else Running)
  {
    StepInv(s, Mark(Zombie), idle);
    var e := Final(Marked(s, idle), steps, idle);
    RunEnding(Marked(s, idle), steps, idle, x, true);
    KnownFromQueues(e);
    assert !Queued(e.queues, x);
  }

  /** Neither current nor queued, and left in a state. */
  ghost predicate Gone(s: Sched, x: nat, state: TaskState) {
    s.current != Some(x) && !Queued(s.queues, x) && InState(s, x, state)
  }

  lemma StepGone(s: Sched, step: Step, idle: nat, x: nat, state: TaskState)
    requires Inv(s, idle) && Enabled(s, step, idle) && x != idle && Gone(s, x, state)
    ensures Known(s) && Gone(Apply(s, step), x, state)
  {
    KnownFromQueues(s);
    match step
    case Timer(b) =>
      TickInv(s, idle);
      TickKnown(s);
      TickGone(s, idle, x, state);
      ScheduleGone(Tick(s), idle, b, x, state);
    case Yield(b) => ScheduleGone(s, idle, b, x, state);
    case Spawn(t, p) => PushKeeps(s.queues, s.tasks, p, t);
    case Mark(_) =>
    case Remove =>
    case Unblock(_) =>
  }

  lemma TickGone(s: Sched, idle: nat, x: nat, state: TaskState)
    requires Inv(s, idle) && Gone(s, x, state)
    ensures Gone(Tick(s), x, state)
  {
    BoostKeeps(s.queues, s.tasks);
    NotFound(s.queues, x, 1);
  }

  lemma ScheduleGone(s: Sched, idle: nat, b: bool, x: nat, state: TaskState)
    requires Inv(s, idle) && Known(s) && Gone(s, x, state)
    ensures Gone(Schedule(s, b), x, state)
  {
    var u := ShouldReschedule(s);
    var i := FirstQueue(u.queues, 0);
    if b && u.needsReschedule && i < NUM_QUEUES {
      assert At(u.queues, u.queues[i][0], i, 0);
      PopKeeps(u.queues, u.tasks, i);
      var q := u.queues[i := u.queues[i][1..]];
      assert !Queued(q, x);
      if u.current.Some? {
        var c := u.current.value;
        var p := Min(u.tasks[c].priority + 1, NUM_QUEUES - 1);
        assert !Queued(q, c);
        PushKeeps(q, u.tasks, p, c);
      }
    }
  }

  /** And so it is for ever after. */
  lemma {:induction false} GoneForever(s: Sched, steps: seq<Step>, idle: nat, x: nat, state: TaskState)
    requires Inv(s, idle) && RunOk(s, steps, idle) && x != idle && Gone(s, x, state)
    ensures Gone(Final(s, steps, idle), x, state)
    decreases |steps|
  {
    if steps != [] {
      StepInv(s, steps[0], idle);
      StepGone(s, steps[0], idle, x, state);
      GoneForever(Apply(s, steps[0]), steps[1..], idle, x, state);
    }
  }

  // ---------------------------------------------------------------- priorities out of range

  /** Pushing a task keeps every queue in step with its tasks' priorities exactly when the task's
      priority is one of the eight levels. */
  lemma PushInStepIff(s: Sched, t: nat, p: nat)
    requires QueuesOk(s.queues, s.tasks) && t !in s.tasks
    ensures var s' := Push(s.(tasks := s.tasks[t := Task(p, Ready)]), t);
            QueuesOk(s'.queues, s'.tasks) <==> p < NUM_QUEUES
  {
    var s' := Push(s.(tasks := s.tasks[t := Task(p, Ready)]), t);
    assert !Queued(s.queues, t);
    if p < NUM_QUEUES {
      PushKeeps(s.queues, s.tasks, p, t);
    } else {
      assert At(s'.queues, t, NUM_QUEUES - 1, |s.queues[NUM_QUEUES - 1]|);
    }
  }
}
