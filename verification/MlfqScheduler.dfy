/** The scheduler object: queues, current task and counters updated in place. */
module MlfqScheduler {
  import opened Common
  import opened Mlfq

  /** Tasks the boost has handled so far: levels 1 to `i - 1`, and the first `k` of level `i`. */
  ghost predicate Moved(q: seq<seq<nat>>, i: nat, k: nat, t: nat) {
    exists j: nat, l: nat :: At(q, t, j, l) && 1 <= j && (j < i || (j == i && l < k))
  }

  ghost predicate Promoted(q: seq<seq<nat>>, before: map<nat, Task>, i: nat, k: nat, now: map<nat, Task>) {
    && now.Keys == before.Keys
    && forall t :: t in before ==>
         now[t] == if Moved(q, i, k, t) then before[t].(priority := QueueOf(q, t, 1) - 1) else before[t]
  }

  lemma PromoteOne(q: seq<seq<nat>>, before: map<nat, Task>, i: nat, k: nat, now: map<nat, Task>)
    requires QueuesOk(q, before) && 1 <= i < NUM_QUEUES && k < |q[i]| && Promoted(q, before, i, k, now)
    ensures q[i][k] in now
    ensures Promoted(q, before, i, k + 1, now[q[i][k] := now[q[i][k]].(priority := i - 1)])
  {
    var t := q[i][k];
    assert At(q, t, i, k);
    FoundIn(q, before, t, i, k, 1);
    assert !Moved(q, i, k, t);
    assert Moved(q, i, k + 1, t);
    forall x: nat | x != t
      ensures Moved(q, i, k + 1, x) <==> Moved(q, i, k, x)
    {
      if j: nat, l: nat :| At(q, x, j, l) && 1 <= j && (j < i || (j == i && l < k + 1)) { assert l != k || j != i; }
    }
  }

  lemma PromoteLevel(q: seq<seq<nat>>, before: map<nat, Task>, i: nat, now: map<nat, Task>)
    requires QueuesOk(q, before) && 1 <= i < NUM_QUEUES && Promoted(q, before, i, |q[i]|, now)
    ensures Promoted(q, before, i + 1, 0, now)
  {
    forall x: nat
      ensures Moved(q, i + 1, 0, x) <==> Moved(q, i, |q[i]|, x)
    {
      if j: nat, l: nat :| At(q, x, j, l) && 1 <= j && (j < i + 1 || (j == i + 1 && l < 0)) {
        assert At(q, x, j, l) && (j < i || (j == i && l < |q[i]|));
      }
    }
  }

  lemma PromotedAll(q: seq<seq<nat>>, before: map<nat, Task>, now: map<nat, Task>)
    requires QueuesOk(q, before) && Promoted(q, before, NUM_QUEUES, 0, now)
    ensures now == map t | t in before :: BoostedTask(q, t, before[t])
  {
    forall t | t in before
      ensures now[t] == BoostedTask(q, t, before[t])
    {
      if Queued(q, t) {
        var i: nat, k: nat :| At(q, t, i, k);
        FoundIn(q, before, t, i, k, 1);
        assert i >= 1 ==> Moved(q, NUM_QUEUES, 0, t);
        if Moved(q, NUM_QUEUES, 0, t) {
          var j: nat, l: nat :| At(q, t, j, l) && 1 <= j;
          assert j == i;
        }
      } else {
        NotFound(q, t, 1);
        assert !Moved(q, NUM_QUEUES, 0, t);
      }
    }
  }

  class MlfqScheduler {
    var queues: seq<seq<nat>>
    var current: Option<nat>
    var ticksRemaining: nat
    var totalTicks: nat
    var needsReschedule: bool
    /** The shared task objects, by thread id. */
    var tasks: map<nat, Task>

    ghost function Value(): Sched
      reads this
    {
      Sched(queues, current, ticksRemaining, totalTicks, needsReschedule, tasks)
    }

    constructor ()
      ensures queues == [[], [], [], [], [], [], [], []] && current == None && ticksRemaining == 1
      ensures totalTicks == 0 && !needsReschedule && tasks == map[]
    {
      queues := [[], [], [], [], [], [], [], []];
      current := None;
      ticksRemaining := TimeSlice(0);
      totalTicks := 0;
      needsReschedule := false;
      tasks := map[];
    }

    method SetCurrent(t: nat)
      requires t in tasks
      modifies this
      ensures Value() == Dispatch(old(Value()), t).(needsReschedule := old(needsReschedule))
    {
      tasks := tasks[t := tasks[t].(state := Running)];
      current := Some(t);
      ticksRemaining := TimeSlice(tasks[t].priority);
    }

    method RemoveCurrent() returns (t: Option<nat>)
      modifies this
      ensures t == old(current) && Value() == Mlfq.RemoveCurrent(old(Value()))
    {
      if current.Some? {
        ticksRemaining := 0;
        needsReschedule := true;
      }
      t := current;
      current := None;
    }

    method Push(t: nat)
      requires |queues| == NUM_QUEUES && t in tasks
      modifies this`queues
      ensures Value() == Mlfq.Push(old(Value()), t)
    {
      var priority := tasks[t].priority;
      if priority < NUM_QUEUES {
        queues := queues[priority := queues[priority] + [t]];
      } else {
        queues := queues[NUM_QUEUES - 1 := queues[NUM_QUEUES - 1] + [t]];
      }
    }

    method Tick()
      requires QueuesOk(queues, tasks)
      modifies this
      ensures Value() == Mlfq.Tick(old(Value()))
    {
      totalTicks := (totalTicks + 1) % U32;
      if totalTicks % BOOST_PERIOD == 0 { BoostPriorities(); }
      if current.Some? {
        if ticksRemaining > 0 { ticksRemaining := ticksRemaining - 1; }
        if ticksRemaining == 0 { needsReschedule := true; }
      }
    }

    method ShouldReschedule()
      requires Known(Value())
      modifies this`needsReschedule
      ensures Value() == Mlfq.ShouldReschedule(old(Value()))
    {
      if current.Some? {
        var state := tasks[current.value].state;
        if state.Blocked? || state.Zombie? { needsReschedule := true; }
      }
    }

    /** Takes the first task of the first non-empty queue. */
    method PickNext() returns (t: Option<nat>)
      requires |queues| == NUM_QUEUES
      modifies this`queues
      ensures var i := FirstQueue(old(queues), 0);
              if i < NUM_QUEUES then t == Some(old(queues)[i][0]) && queues == old(queues)[i := old(queues)[i][1..]]
              else t == None && queues == old(queues)
    {
      var i := 0;
      while i < NUM_QUEUES
        invariant 0 <= i <= NUM_QUEUES && queues == old(queues)
        invariant FirstQueue(queues, i) == FirstQueue(queues, 0)
      {
        if queues[i] != [] {
          t := Some(queues[i][0]);
          queues := queues[i := queues[i][1..]];
          return;
        }
        i := i + 1;
      }
      return None;
    }

    method PrepareSwitch() returns (switched: bool)
      requires Known(Value())
      modifies this
      ensures Value() == Mlfq.PrepareSwitch(old(Value()))
      ensures switched <==> old(needsReschedule) && FirstQueue(old(queues), 0) < NUM_QUEUES
    {
      if !needsReschedule { return false; }
      var next := PickNext();
      if next.None? {
        needsReschedule := false;
        return false;
      }
      if current.Some? {
        var out := current.value;
        var p := Min(tasks[out].priority + 1, NUM_QUEUES - 1);
        tasks := tasks[out := Task(p, Ready)];
        queues := queues[p := queues[p] + [out]];
        current := None;
      }
      tasks := tasks[next.value := tasks[next.value].(state := Running)];
      current := next;
      ticksRemaining := TimeSlice(tasks[next.value].priority);
      needsReschedule := false;
      return true;
    }

    method BoostPriorities()
      requires QueuesOk(queues, tasks)
      modifies this`queues, this`tasks
      ensures Value() == Boost(old(Value()))
    {
      ghost var q, before := queues, tasks;
      var promoted := TakeAll(q, before);
      PromotedAll(q, before, tasks);
      AppendAll(promoted, q);
    }

    /** First loop: empties the levels below the top into `promoted`. */
    method TakeAll(ghost q: seq<seq<nat>>, ghost before: map<nat, Task>) returns (promoted: seq<seq<nat>>)
      requires QueuesOk(queues, tasks) && q == queues && before == tasks
      modifies this`queues, this`tasks
      ensures |promoted| == NUM_QUEUES && forall j :: 0 <= j < NUM_QUEUES - 1 ==> promoted[j] == q[j + 1]
      ensures queues == [q[0], [], [], [], [], [], [], []]
      ensures Promoted(q, before, NUM_QUEUES, 0, tasks)
    {
      promoted := [[], [], [], [], [], [], [], []];
      assert forall t: nat :: !Moved(q, 1, 0, t);
      var i := 1;
      while i < NUM_QUEUES
        invariant 1 <= i <= NUM_QUEUES && |queues| == |promoted| == NUM_QUEUES
        invariant forall j :: 0 <= j < NUM_QUEUES ==> queues[j] == if 1 <= j < i then [] else q[j]
        invariant forall j :: 0 <= j < i - 1 ==> promoted[j] == q[j + 1]
        invariant Promoted(q, before, i, 0, tasks)
      {
        var taken := queues[i];
        queues := queues[i := []];
        var up := PromoteQueue(taken, i, q, before);
        promoted := promoted[i - 1 := up];
        PromoteLevel(q, before, i, tasks);
        i := i + 1;
      }
    }

    /** Second loop: appends each promoted queue to its new level. */
    method AppendAll(promoted: seq<seq<nat>>, ghost q: seq<seq<nat>>)
      requires |q| == |promoted| == NUM_QUEUES && forall j :: 0 <= j < NUM_QUEUES - 1 ==> promoted[j] == q[j + 1]
      requires queues == [q[0], [], [], [], [], [], [], []]
      modifies this`queues
      ensures queues == BoostedQueues(q)
    {
      var i := 0;
      while i < NUM_QUEUES - 1
        invariant 0 <= i <= NUM_QUEUES - 1 && |queues| == NUM_QUEUES
        invariant forall j :: 0 <= j < i ==> queues[j] == BoostedQueues(q)[j]
        invariant forall j :: i <= j < NUM_QUEUES ==> queues[j] == if j == 0 then q[0] else []
      {
        queues := queues[i := queues[i] + promoted[i]];
        assert queues[i] == BoostedQueues(q)[i];
        i := i + 1;
      }
    }

    /** Moves one level up: every task of the taken queue gets the priority above. */
    method PromoteQueue(taken: seq<nat>, i: nat, ghost q: seq<seq<nat>>, ghost before: map<nat, Task>)
      returns (up: seq<nat>)
      requires QueuesOk(q, before) && 1 <= i < NUM_QUEUES && taken == q[i] && Promoted(q, before, i, 0, tasks)
      modifies this`tasks
      ensures up == taken && Promoted(q, before, i, |taken|, tasks)
    {
      up := [];
      while |up| < |taken|
        invariant |up| <= |taken| && up == taken[..|up|] && Promoted(q, before, i, |up|, tasks)
      {
        var t := taken[|up|];
        PromoteOne(q, before, i, |up|, tasks);
        tasks := tasks[t := tasks[t].(priority := i - 1)];
        up := up + [t];
      }
    }
  }
}
