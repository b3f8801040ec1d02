/** The scheduler as a state machine over sequences: kernel/sched/core.c, fair.c, rt.c, idle.c,
kernel/fork.c and the task changes of fs/exec.c. */
module SchedSpec {
  datatype Class = Rt | Fair | Idle
  datatype RunState = Running | Interruptible | Zombie
  datatype Policy = Normal | Fifo | RoundRobin

  datatype Task = Task(pid: nat, ppid: nat, state: RunState, policy: Policy, cls: Class, cr3: nat, weight: nat,
                       runtime: nat, vruntime: nat, resched: bool)

  // `tasks` is indexed by creation order; a queue holds indices into it.
  datatype State = State(tasks: seq<Task>, cfs: seq<nat>, rt: seq<nat>, running: nat, current: nat, cr3: nat,
                         nextPid: nat, clock: nat)

  // sched_init: the boot context becomes the idle task.
  function Init(cr3: nat): State {
    State([Task(0, 0, Running, Normal, Idle, cr3, 0, 0, 0, false)], [], [], 0, 0, cr3, 1, 0)
  }

  // next_pid is a 32-bit counter.
  function NextPid(s: State): nat { (s.nextPid + 1) % 0x1_0000_0000 }

  // ---- queues

  function Enqueue(s: State, t: nat, cls: Class): State {
    match cls
    case Fair => s.(cfs := s.cfs + [t], running := s.running + 1)
    case Rt => s.(rt := [t] + s.rt, running := s.running + 1)
    case Idle => s
  }

  function Rotate(q: seq<nat>): seq<nat>
    requires q != []
  {
    q[1..] + [q[0]]
  }

  // rt first, then fair with rotation, then whatever is running.
  function PickNext(s: State): (State, nat) {
    if s.rt != [] then (s, s.rt[0])
    else if s.cfs != [] then (s.(cfs := Rotate(s.cfs)), s.cfs[0])
    else (s, s.current)
  }

  // ---- operations

  predicate CurrentOk(s: State) { s.current < |s.tasks| }

  function KernelThread(s: State, policy: Policy): State {
    var cls := if policy.Normal? then Fair else Rt;
    var t := Task(s.nextPid, 0, Running, policy, cls, s.cr3, if policy.Normal? then 1024 else 0, 0, 0, false);
    Enqueue(s.(tasks := s.tasks + [t], nextPid := NextPid(s)), |s.tasks|, cls)
  }

  // The child is a copy of the parent with its own pid and address space.
  function Fork(s: State, cr3: nat): State
    requires CurrentOk(s)
  {
    var parent := s.tasks[s.current];
    var child := parent.(pid := s.nextPid, ppid := parent.pid, state := Running, cr3 := cr3);
    Enqueue(s.(tasks := s.tasks + [child], nextPid := NextPid(s)), |s.tasks|, child.cls)
  }

  // switch_address_space and the update of current_task->cr3.
  function Exec(s: State, cr3: nat): State
    requires CurrentOk(s)
  {
    s.(cr3 := cr3, tasks := s.tasks[s.current := s.tasks[s.current].(cr3 := cr3)])
  }

  function Exit(s: State): State
    requires CurrentOk(s)
  {
    s.(tasks := s.tasks[s.current := s.tasks[s.current].(state := Zombie)])
  }

  function Wake(s: State, t: nat): State
    requires t < |s.tasks|
  {
    if s.tasks[t].state.Interruptible? then
      Enqueue(s.(tasks := s.tasks[t := s.tasks[t].(state := Running)]), t, s.tasks[t].cls)
    else s
  }

  function Tick(s: State): State
    requires CurrentOk(s) && (s.tasks[s.current].cls.Fair? ==> s.tasks[s.current].weight != 0)
  {
    var c := s.tasks[s.current];
    var c' :=
      match c.cls
      case Fair => c.(runtime := c.runtime + 1, vruntime := c.vruntime + 1024 / c.weight, resched := true)
      case Rt => if c.policy.RoundRobin? then c.(resched := true) else c
      case Idle => c.(resched := true);
    s.(clock := s.clock + 1, tasks := s.tasks[s.current := c'])
  }

  function Schedule(s: State): State
    requires CurrentOk(s) && PickNext(s).1 < |s.tasks|
  {
    var (s', next) := PickNext(s);
    if next == s.current then s'.(tasks := s'.tasks[next := s'.tasks[next].(resched := false)])
    else s'.(current := next, cr3 := s'.tasks[next].cr3)
  }

  // ---- what every operation keeps

  predicate Distinct(q: seq<nat>) { forall i, j :: 0 <= i < j < |q| ==> q[i] != q[j] }

  ghost predicate Inv(s: State) {
    && CurrentOk(s) && s.cr3 == s.tasks[s.current].cr3
    && Distinct(s.cfs) && Distinct(s.rt)
    && s.running == |s.cfs| + |s.rt|
    && (forall t :: t in s.cfs <==> 0 <= t < |s.tasks| && s.tasks[t].cls.Fair?)
    && (forall t :: t in s.rt <==> 0 <= t < |s.tasks| && s.tasks[t].cls.Rt?)
    && s.nextPid == |s.tasks| % 0x1_0000_0000
    && (forall t :: 0 <= t < |s.tasks| ==> s.tasks[t].pid == t % 0x1_0000_0000 && !s.tasks[t].state.Interruptible?)
    && (forall t :: 0 <= t < |s.tasks| && s.tasks[t].cls.Fair? ==> s.tasks[t].weight == 1024)
  }

  datatype Op =
    | KernelThreadOp(policy: Policy) | ForkOp(cr3: nat) | ExecOp(cr3: nat) | ExitOp
    | WakeOp(t: nat) | TickOp | ScheduleOp

  function Step(s: State, op: Op): State {
    if !CurrentOk(s) then s
    else
      match op
      case KernelThreadOp(policy) => KernelThread(s, policy)
      case ForkOp(cr3) => Fork(s, cr3)
      case ExecOp(cr3) => Exec(s, cr3)
      case ExitOp => Exit(s)
      case WakeOp(t) => if t < |s.tasks| then Wake(s, t) else s
      case TickOp => if s.tasks[s.current].cls.Fair? && s.tasks[s.current].weight == 0 then s else Tick(s)
      case ScheduleOp => if PickNext(s).1 < |s.tasks| then Schedule(s) else s
  }

  // A task number not yet given out is on no queue.
  lemma EnqueueKeeps(s: State, task: Task)
    requires Inv(s) && task.pid == s.nextPid && !task.state.Interruptible? && (task.cls.Fair? ==> task.weight == 1024)
    ensures Inv(Enqueue(s.(tasks := s.tasks + [task], nextPid := NextPid(s)), |s.tasks|, task.cls))
  {
    assert |s.tasks| !in s.cfs && |s.tasks| !in s.rt;
    match task.cls
    case Fair => AddKeeps(s, task, s.cfs + [|s.tasks|], s.rt);
    case Rt => AddKeeps(s, task, s.cfs, [|s.tasks|] + s.rt);
    case Idle => AddKeeps(s, task, s.cfs, s.rt);
  }

  lemma AddKeeps(s: State, task: Task, cfs: seq<nat>, rt: seq<nat>)
    requires Inv(s) && task.pid == s.nextPid && !task.state.Interruptible? && (task.cls.Fair? ==> task.weight == 1024)
    requires Distinct(cfs) && forall t :: t in cfs <==> t in s.cfs || (t == |s.tasks| && task.cls.Fair?)
    requires Distinct(rt) && forall t :: t in rt <==> t in s.rt || (t == |s.tasks| && task.cls.Rt?)
    ensures Inv(s.(tasks := s.tasks + [task], nextPid := NextPid(s), cfs := cfs, rt := rt, running := |cfs| + |rt|))
  {
    assert forall t :: 0 <= t < |s.tasks| ==> (s.tasks + [task])[t] == s.tasks[t];
  }

  // Changing a task without touching pid, class, weight or making it interruptible keeps the queues right.
  lemma UpdateKeeps(s: State, t: nat, task: Task, cr3: nat, clock: nat)
    requires Inv(s) && t < |s.tasks| && task.pid == s.tasks[t].pid && task.cls == s.tasks[t].cls
    requires task.weight == s.tasks[t].weight
    requires !task.state.Interruptible? && cr3 == (if t == s.current then task.cr3 else s.cr3)
    ensures Inv(s.(tasks := s.tasks[t := task], cr3 := cr3, clock := clock))
  {
  }

  lemma RotateKeeps(q: seq<nat>)
    requires q != [] && Distinct(q)
    ensures Distinct(Rotate(q)) && |Rotate(q)| == |q|
    ensures forall t :: t in Rotate(q) <==> t in q
  {
    assert q == [q[0]] + q[1..];
  }

  lemma StepKeeps(s: State, op: Op)
    requires Inv(s)
    ensures Inv(Step(s, op))
  {
    var c := s.tasks[s.current];
    match op
    case KernelThreadOp(policy) =>
      var cls, weight := if policy.Normal? then Fair else Rt, if policy.Normal? then 1024 else 0;
      EnqueueKeeps(s, Task(s.nextPid, 0, Running, policy, cls, s.cr3, weight, 0, 0, false));
    case ForkOp(cr3) => EnqueueKeeps(s, c.(pid := s.nextPid, ppid := c.pid, state := Running, cr3 := cr3));
    case ExecOp(cr3) => UpdateKeeps(s, s.current, c.(cr3 := cr3), cr3, s.clock);
    case ExitOp => UpdateKeeps(s, s.current, c.(state := Zombie), s.cr3, s.clock);
    case WakeOp(_) =>
    case TickOp => UpdateKeeps(s, s.current, Tick(s).tasks[s.current], s.cr3, s.clock + 1);
    case ScheduleOp => ScheduleKeeps(s);
  }

  lemma PickIsTask(s: State)
    requires Inv(s)
    ensures PickNext(s).1 < |s.tasks|
  {
    if s.rt != [] { assert s.rt[0] in s.rt; } else if s.cfs != [] { assert s.cfs[0] in s.cfs; }
  }

  lemma ScheduleKeeps(s: State)
    requires Inv(s)
    ensures PickNext(s).1 < |s.tasks| && Inv(Schedule(s))
  {
    var (s', next) := PickNext(s);
    PickIsTask(s);
    if s.rt == [] && s.cfs != [] { RotateKeeps(s.cfs); }
    if next == s.current { UpdateKeeps(s', next, s'.tasks[next].(resched := false), s.cr3, s.clock); }
  }

  // ---- runs

  function Run(s: State, ops: seq<Op>): State
    decreases |ops|
  {
    if ops == [] then s else Run(Step(s, ops[0]), ops[1..])
  }

  lemma {:induction false} RunKeeps(s: State, ops: seq<Op>)
    requires Inv(s)
    ensures Inv(Run(s, ops))
    decreases |ops|
  {
    if ops != [] {
      StepKeeps(s, ops[0]);
      RunKeeps(Step(s, ops[0]), ops[1..]);
    }
  }

  // Over every run of the scheduler from boot.
  lemma BootRunKeeps(cr3: nat, ops: seq<Op>)
    ensures Inv(Run(Init(cr3), ops))
  {
    RunKeeps(Init(cr3), ops);
  }

  // Process ids are distinct exactly until the 32-bit counter has been used up.
  lemma PidsDistinctIff(s: State)
    requires Inv(s)
    ensures (forall t, u :: 0 <= t < u < |s.tasks| ==> s.tasks[t].pid != s.tasks[u].pid) <==> |s.tasks| <= 0x1_0000_0000
  {
    if |s.tasks| > 0x1_0000_0000 {
      assert s.tasks[0].pid == s.tasks[0x1_0000_0000].pid;
    }
  }

  // ---- who runs when

  // The tasks that run after the scheduling steps of a run, in order.
  function Picks(s: State, ops: seq<Op>): seq<nat>
    decreases |ops|
  {
    if ops == [] then []
    else (if ops[0].ScheduleOp? then [Step(s, ops[0]).current] else []) + Picks(Step(s, ops[0]), ops[1..])
  }

  predicate NoRealtime(ops: seq<Op>) {
    forall i :: 0 <= i < |ops| && ops[i].KernelThreadOp? ==> ops[i].policy.Normal?
  }

  // Without realtime tasks, the task at position i of the fair queue is the one that the
  // (i+1)-th scheduling step chooses, and no earlier step does, whatever is created in between.
  lemma {:induction false} FairOrder(s: State, ops: seq<Op>, i: nat)
    requires Inv(s) && s.rt == [] && NoRealtime(ops) && i < |s.cfs| && i < |Picks(s, ops)|
    ensures Picks(s, ops)[i] == s.cfs[i]
    ensures forall j :: 0 <= j < i ==> Picks(s, ops)[j] != s.cfs[i]
    decreases |ops|
  {
    var s' := Step(s, ops[0]);
    StepKeeps(s, ops[0]);
    FairStep(s, ops[0]);
    if ops[0].ScheduleOp? {
      if i > 0 {
        FairOrder(s', ops[1..], i - 1);
        assert s'.cfs[i - 1] == s.cfs[i];
      }
    } else {
      FairOrder(s', ops[1..], i);
    }
  }

  // One operation extends the fair queue at its tail or rotates it.
  lemma FairStep(s: State, op: Op)
    requires Inv(s) && s.rt == [] && (op.KernelThreadOp? ==> op.policy.Normal?)
    ensures Step(s, op).rt == []
    ensures if op.ScheduleOp? && s.cfs != [] then Step(s, op).cfs == Rotate(s.cfs) && Step(s, op).current == s.cfs[0]
      else s.cfs <= Step(s, op).cfs
  {
    assert s.current !in s.rt;
    if op.ScheduleOp? && s.cfs != [] { assert s.cfs[0] in s.cfs; }
  }

  // While nobody waits, the running task goes on.
  lemma NobodyWaits(s: State)
    requires Inv(s) && s.rt == [] && s.cfs == []
    ensures Step(s, ScheduleOp).current == s.current && s.tasks[s.current].cls.Idle?
  {
    assert s.current !in s.rt && s.current !in s.cfs;
  }

  // A task chosen while n tasks are queued is chosen again exactly n scheduling steps later.
  lemma RoundRobin(s: State, ops: seq<Op>)
    requires Inv(s) && s.rt == [] && s.cfs != [] && NoRealtime(ops) && |Picks(Step(s, ScheduleOp), ops)| >= |s.cfs|
    ensures Picks(Step(s, ScheduleOp), ops)[|s.cfs| - 1] == Step(s, ScheduleOp).current
    ensures forall j :: 0 <= j < |s.cfs| - 1 ==> Picks(Step(s, ScheduleOp), ops)[j] != Step(s, ScheduleOp).current
  {
    StepKeeps(s, ScheduleOp);
    FairStep(s, ScheduleOp);
    FairOrder(Step(s, ScheduleOp), ops, |s.cfs| - 1);
  }

  // Nothing leaves the realtime queue, so once it is not empty only realtime tasks are chosen.
  lemma {:induction false} RealtimeMonopoly(s: State, ops: seq<Op>, j: nat)
    requires Inv(s) && s.rt != [] && j < |Picks(s, ops)|
    ensures var t := Picks(s, ops)[j]; t < |Run(s, ops).tasks| && Run(s, ops).tasks[t].cls.Rt?
    decreases |ops|
  {
    var s' := Step(s, ops[0]);
    StepKeeps(s, ops[0]);
    RtStays(s, ops[0]);
    if ops[0].ScheduleOp? && j == 0 {
      assert s.rt[0] in s.rt;
      ClassStays(s', ops[1..], s.rt[0]);
    } else {
      RealtimeMonopoly(s', ops[1..], if ops[0].ScheduleOp? then j - 1 else j);
    }
  }

  // How many scheduling steps a run has, and where the (i+1)-th is.
  function Turns(ops: seq<Op>): nat {
    if ops == [] then 0 else (if ops[0].ScheduleOp? then 1 else 0) + Turns(ops[1..])
  }

  function TurnAt(ops: seq<Op>, i: nat): (n: nat)
    requires i < Turns(ops)
    ensures n < |ops| && ops[n].ScheduleOp?
    decreases |ops|
  {
    if !ops[0].ScheduleOp? then 1 + TurnAt(ops[1..], i)
    else if i == 0 then 0
    else 1 + TurnAt(ops[1..], i - 1)
  }

  // The task at position i of the fair queue gets the (i+1)-th turn exactly when no realtime
  // task exists at the start and none is created before that turn.
  lemma {:induction false} FairTurnIff(s: State, ops: seq<Op>, i: nat)
    requires Inv(s) && i < |s.cfs| && i < Turns(ops)
    ensures |Picks(s, ops)| == Turns(ops)
    ensures Picks(s, ops)[i] == s.cfs[i] <==> s.rt == [] && NoRealtime(ops[..TurnAt(ops, i)])
    decreases |ops|, 1
  {
    PicksCount(s, ops);
    if s.rt != [] {
      assert s.cfs[i] in s.cfs;
      RealtimeMonopoly(s, ops, i);
      ClassStays(s, ops, s.cfs[i]);
    } else if ops[0].ScheduleOp? && i == 0 {
      FairStep(s, ops[0]);
    } else {
      FairTurnLater(s, ops, i);
    }
  }

  // The cases that look past the first operation.
  lemma {:induction false} FairTurnLater(s: State, ops: seq<Op>, i: nat)
    requires Inv(s) && i < |s.cfs| && i < Turns(ops) && s.rt == [] && (i > 0 || !ops[0].ScheduleOp?)
    ensures |Picks(s, ops)| == Turns(ops)
    ensures Picks(s, ops)[i] == s.cfs[i] <==> NoRealtime(ops[..TurnAt(ops, i)])
    decreases |ops|, 0
  {
    var s', rest := Step(s, ops[0]), ops[1..];
    var j := PicksShift(s, ops, i, s', rest);
    NoRealtimeSplit(ops, rest, TurnAt(rest, j));
    StepKeeps(s, ops[0]);
    if ops[0].KernelThreadOp? && !ops[0].policy.Normal? {
      FairTurnIff(s', rest, j);
    } else {
      FairStep(s, ops[0]);
      assert s'.cfs[j] == s.cfs[i];
      FairTurnIff(s', rest, j);
    }
  }

  lemma PicksShift(s: State, ops: seq<Op>, i: nat, s': State, rest: seq<Op>) returns (j: nat)
    requires i < Turns(ops) && (i > 0 || !ops[0].ScheduleOp?) && s' == Step(s, ops[0]) && rest == ops[1..]
    ensures j == if ops[0].ScheduleOp? then i - 1 else i
    ensures j < Turns(rest) && TurnAt(ops, i) == TurnAt(rest, j) + 1
    ensures |Picks(s, ops)| == Turns(ops) && |Picks(s', rest)| == Turns(rest) && Picks(s, ops)[i] == Picks(s', rest)[j]
  {
    PicksCount(s, ops);
    PicksCount(s', rest);
    j := if ops[0].ScheduleOp? then i - 1 else i;
  }

  lemma NoRealtimeSplit(ops: seq<Op>, rest: seq<Op>, n: nat)
    requires ops != [] && rest == ops[1..] && n < |rest|
    ensures NoRealtime(ops[..n + 1]) <==>
      (ops[0].KernelThreadOp? ==> ops[0].policy.Normal?) && NoRealtime(rest[..n])
  {
    var a, b := ops[..n + 1], rest[..n];
    assert a == [ops[0]] + b;
    if NoRealtime(a) {
      assert forall i :: 0 <= i < |b| ==> b[i] == a[i + 1];
    }
  }

  lemma {:induction false} PicksCount(s: State, ops: seq<Op>)
    ensures |Picks(s, ops)| == Turns(ops)
    decreases |ops|
  {
    if ops != [] { PicksCount(Step(s, ops[0]), ops[1..]); }
  }

  lemma RtStays(s: State, op: Op)
    requires Inv(s)
    ensures |s.rt| <= |Step(s, op).rt|
    ensures |s.tasks| <= |Step(s, op).tasks|
    ensures forall t :: 0 <= t < |s.tasks| ==> Step(s, op).tasks[t].cls == s.tasks[t].cls
  {
  }

  lemma {:induction false} ClassStays(s: State, ops: seq<Op>, t: nat)
    requires Inv(s) && t < |s.tasks|
    ensures t < |Run(s, ops).tasks| && Run(s, ops).tasks[t].cls == s.tasks[t].cls
    decreases |ops|
  {
    if ops != [] {
      StepKeeps(s, ops[0]);
      RtStays(s, ops[0]);
      ClassStays(Step(s, ops[0]), ops[1..], t);
    }
  }

  // ---- what a run makes of a task

  // The state before step i of a run from boot.
  function StateAt(cr3: nat, ops: seq<Op>, i: nat): State
    requires i <= |ops|
  {
    Run(Init(cr3), ops[..i])
  }

  lemma {:induction false} RunLast(s: State, ops: seq<Op>, op: Op)
    ensures Run(s, ops + [op]) == Step(Run(s, ops), op)
    decreases |ops|
  {
    if ops == [] {
      assert (ops + [op])[1..] == [];
    } else {
      RunLast(Step(s, ops[0]), ops[1..], op);
      assert (ops + [op])[1..] == ops[1..] + [op];
    }
  }

  lemma AtNext(cr3: nat, ops: seq<Op>, i: nat)
    requires i < |ops|
    ensures Inv(StateAt(cr3, ops, i)) && StateAt(cr3, ops, i + 1) == Step(StateAt(cr3, ops, i), ops[i])
  {
    BootRunKeeps(cr3, ops[..i]);
    RunLast(Init(cr3), ops[..i], ops[i]);
    assert ops[..i + 1] == ops[..i] + [ops[i]];
  }

  // Step i creates task t; task t is the one that executes, exits or is charged for step i.
  ghost predicate Creates(cr3: nat, ops: seq<Op>, i: nat, t: nat) {
    i < |ops| && (ops[i].KernelThreadOp? || ops[i].ForkOp?) && |StateAt(cr3, ops, i).tasks| == t
  }

  ghost predicate Execs(cr3: nat, ops: seq<Op>, i: nat, t: nat) {
    i < |ops| && ops[i].ExecOp? && StateAt(cr3, ops, i).current == t
  }

  ghost predicate Exits(cr3: nat, ops: seq<Op>, i: nat, t: nat) {
    i < |ops| && ops[i].ExitOp? && StateAt(cr3, ops, i).current == t
  }

  // What one operation does to a task that exists.
  lemma StepTask(s: State, op: Op, t: nat)
    requires Inv(s) && t < |s.tasks|
    ensures |s.tasks| <= |Step(s, op).tasks|
    ensures var a, b := s.tasks[t], Step(s, op).tasks[t];
      && b.pid == a.pid && b.ppid == a.ppid && b.policy == a.policy && b.cls == a.cls && b.weight == a.weight
      && b.cr3 == (if op.ExecOp? && t == s.current then op.cr3 else a.cr3)
      && b.state == (if op.ExitOp? && t == s.current then Zombie else a.state)
      && b.runtime == a.runtime + (if Charged(s, op, t) then 1 else 0)
      && b.vruntime == a.vruntime + (if Charged(s, op, t) then 1 else 0)
  {
    PickIsTask(s);
  }

  // The step charges task t a tick.
  predicate Charged(s: State, op: Op, t: nat) {
    op.TickOp? && t == s.current < |s.tasks| && s.tasks[t].cls.Fair?
  }

  // What the operation gives the task that it creates.
  ghost predicate StartsAs(s: State, op: Op, task: Task)
    requires CurrentOk(s)
  {
    && task.state.Running? && task.pid == s.nextPid
    && match op
       case KernelThreadOp(policy) =>
         && task.ppid == 0 && task.policy == policy && task.cr3 == s.cr3 && task.runtime == 0 && task.vruntime == 0
         && (if policy.Fifo? || policy.RoundRobin? then task.cls.Rt? else task.cls.Fair?)
       case ForkOp(cr3) =>
         var parent := s.tasks[s.current];
         && task.ppid == parent.pid && task.cr3 == cr3 && task.policy == parent.policy && task.cls == parent.cls
         && task.runtime == parent.runtime && task.vruntime == parent.vruntime
       case _ => true
  }

  // A task is created where it is new, and nowhere else.
  lemma StepCreates(s: State, op: Op)
    requires Inv(s)
    ensures var s' := Step(s, op);
      if op.KernelThreadOp? || op.ForkOp? then |s'.tasks| == |s.tasks| + 1 && StartsAs(s, op, s'.tasks[|s.tasks|])
      else |s'.tasks| == |s.tasks|
  {
    PickIsTask(s);
  }

  // Every task but the first has a step that created it.
  lemma {:induction false} Created(cr3: nat, ops: seq<Op>, n: nat, t: nat) returns (i: nat)
    requires n <= |ops| && 0 < t < |StateAt(cr3, ops, n).tasks|
    ensures i < n && Creates(cr3, ops, i, t)
  {
    AtNext(cr3, ops, n - 1);
    StepCreates(StateAt(cr3, ops, n - 1), ops[n - 1]);
    if t < |StateAt(cr3, ops, n - 1).tasks| { i := Created(cr3, ops, n - 1, t); } else { i := n - 1; }
  }

  // Parent, policy and class are those of the creation, for good.
  lemma {:induction false} KeepsOrigin(cr3: nat, ops: seq<Op>, i: nat, n: nat, t: nat)
    requires Creates(cr3, ops, i, t) && i < n <= |ops|
    ensures Inv(StateAt(cr3, ops, i)) && t < |StateAt(cr3, ops, n).tasks|
    ensures var s, task := StateAt(cr3, ops, i), StateAt(cr3, ops, n).tasks[t];
      match ops[i]
      case KernelThreadOp(policy) =>
        task.ppid == 0 && task.policy == policy && task.cls == if policy.Normal? then Fair else Rt
      case _ =>
        var parent := s.tasks[s.current];
        task.ppid == parent.pid && task.policy == parent.policy && task.cls == parent.cls
    decreases n
  {
    var k := n - 1;
    AtNext(cr3, ops, i);
    AtNext(cr3, ops, k);
    if i == k {
      StepCreates(StateAt(cr3, ops, i), ops[i]);
    } else {
      KeepsOrigin(cr3, ops, i, k, t);
      StepTask(StateAt(cr3, ops, k), ops[k], t);
    }
  }

  // The address space that the creation gives.
  ghost predicate Given(cr3: nat, ops: seq<Op>, i: nat, t: nat, c: nat) {
    Creates(cr3, ops, i, t) && c == if ops[i].ForkOp? then ops[i].cr3 else StateAt(cr3, ops, i).cr3
  }

  // Before step n, task t lives in space c: that of its last exec, or else the one it was given.
  ghost predicate LivesIn(cr3: nat, ops: seq<Op>, n: nat, t: nat, c: nat) {
    || (exists i :: 0 <= i < n && LastExec(cr3, ops, i, n, t) && c == ops[i].cr3)
    || (&& (forall i :: 0 <= i < n ==> !Execs(cr3, ops, i, t))
        && ((t == 0 && c == cr3) || exists i :: 0 <= i < n && Given(cr3, ops, i, t, c)))
  }

  ghost predicate LastExec(cr3: nat, ops: seq<Op>, i: nat, n: nat, t: nat) {
    Execs(cr3, ops, i, t) && forall j :: i < j < n ==> !Execs(cr3, ops, j, t)
  }

  // In every state of every run from boot, every task has the address space that it was given or
  // that it last executed in.
  lemma {:induction false} OwnSpace(cr3: nat, ops: seq<Op>, n: nat, t: nat)
    requires n <= |ops| && t < |StateAt(cr3, ops, n).tasks|
    ensures LivesIn(cr3, ops, n, t, StateAt(cr3, ops, n).tasks[t].cr3)
    decreases n
  {
    if n > 0 {
      var k := n - 1;
      var s, op := StateAt(cr3, ops, k), ops[k];
      AtNext(cr3, ops, k);
      StepCreates(s, op);
      if t < |s.tasks| {
        OwnSpace(cr3, ops, k, t);
        StepTask(s, op, t);
        LivesOn(cr3, ops, k, n, t, s.tasks[t].cr3, StateAt(cr3, ops, n).tasks[t].cr3);
      } else {
        NotYet(cr3, ops, k, t);
        assert Given(cr3, ops, k, t, StateAt(cr3, ops, n).tasks[t].cr3);
      }
    }
  }

  lemma LivesOn(cr3: nat, ops: seq<Op>, k: nat, n: nat, t: nat, c: nat, c': nat)
    requires n == k + 1 <= |ops| && LivesIn(cr3, ops, k, t, c)
    requires c' == if Execs(cr3, ops, k, t) then ops[k].cr3 else c
    ensures LivesIn(cr3, ops, n, t, c')
  {
    if Execs(cr3, ops, k, t) {
      assert LastExec(cr3, ops, k, n, t);
    } else if i :| 0 <= i < k && LastExec(cr3, ops, i, k, t) && c == ops[i].cr3 {
      assert LastExec(cr3, ops, i, n, t);
    }
  }

  // A task that is created at step n has done nothing before.
  lemma {:induction false} NotYet(cr3: nat, ops: seq<Op>, n: nat, t: nat)
    requires n < |ops| && |StateAt(cr3, ops, n).tasks| <= t
    ensures forall i :: 0 <= i <= n ==> |StateAt(cr3, ops, i).tasks| <= t && StateAt(cr3, ops, i).current < t
    ensures forall i :: 0 <= i <= n ==> !Execs(cr3, ops, i, t) && !Exits(cr3, ops, i, t)
  {
    AtNext(cr3, ops, n);
    if n > 0 {
      AtNext(cr3, ops, n - 1);
      StepCreates(StateAt(cr3, ops, n - 1), ops[n - 1]);
      NotYet(cr3, ops, n - 1, t);
    }
  }

  // So the space that is loaded is always the running task's own: a turn loads it.
  lemma TurnLoadsOwnSpace(cr3: nat, ops: seq<Op>, n: nat)
    requires n <= |ops|
    ensures LivesIn(cr3, ops, n, StateAt(cr3, ops, n).current, StateAt(cr3, ops, n).cr3)
  {
    BootRunKeeps(cr3, ops[..n]);
    OwnSpace(cr3, ops, n, StateAt(cr3, ops, n).current);
  }

  // A task is a zombie exactly when it has exited.
  lemma {:induction false} ZombieIff(cr3: nat, ops: seq<Op>, n: nat, t: nat)
    requires n <= |ops| && t < |StateAt(cr3, ops, n).tasks|
    ensures StateAt(cr3, ops, n).tasks[t].state.Zombie? <==> exists i :: 0 <= i < n && Exits(cr3, ops, i, t)
    decreases n
  {
    if n > 0 {
      var k := n - 1;
      AtNext(cr3, ops, k);
      StepCreates(StateAt(cr3, ops, k), ops[k]);
      if t < |StateAt(cr3, ops, k).tasks| {
        ZombieIff(cr3, ops, k, t);
        StepTask(StateAt(cr3, ops, k), ops[k], t);
        assert Exits(cr3, ops, k, t) ==> exists i :: 0 <= i < n && Exits(cr3, ops, i, t);
      } else {
        NotYet(cr3, ops, k, t);
      }
    }
  }

  // ---- the newest realtime task

  predicate NewestFirst(q: seq<nat>) { forall i, j :: 0 <= i < j < |q| ==> q[i] > q[j] }

  lemma StepKeepsNewest(s: State, op: Op)
    requires Inv(s) && NewestFirst(s.rt)
    ensures NewestFirst(Step(s, op).rt)
  {
    assert forall i :: 0 <= i < |s.rt| ==> s.rt[i] in s.rt;
  }

  lemma {:induction false} NewestInRuns(cr3: nat, ops: seq<Op>, n: nat)
    requires n <= |ops|
    ensures NewestFirst(StateAt(cr3, ops, n).rt)
  {
    if n > 0 {
      NewestInRuns(cr3, ops, n - 1);
      AtNext(cr3, ops, n - 1);
      StepKeepsNewest(StateAt(cr3, ops, n - 1), ops[n - 1]);
    }
  }

  // Every turn after the first realtime task goes to the realtime task that was created last.
  lemma NewestRuns(cr3: nat, ops: seq<Op>, n: nat, t: nat)
    requires n < |ops| && ops[n].ScheduleOp? && t < |StateAt(cr3, ops, n).tasks|
    requires StateAt(cr3, ops, n).tasks[t].cls.Rt?
    ensures var s := StateAt(cr3, ops, n + 1); t <= s.current < |s.tasks| && s.tasks[s.current].cls.Rt?
  {
    AtNext(cr3, ops, n);
    NewestInRuns(cr3, ops, n);
    var s := StateAt(cr3, ops, n);
    PickIsTask(s);
    assert t in s.rt && s.rt[0] in s.rt;
  }

  // ---- time

  // The ticks of a run, and those that hit task t while it belongs to the fair class.
  function Ticks(ops: seq<Op>): nat {
    if ops == [] then 0 else (if ops[0].TickOp? then 1 else 0) + Ticks(ops[1..])
  }

  function TicksOf(s: State, ops: seq<Op>, t: nat): nat
    decreases |ops|
  {
    if ops == [] then 0 else (if Charged(s, ops[0], t) then 1 else 0) + TicksOf(Step(s, ops[0]), ops[1..], t)
  }

  // The clock counts the ticks, and a task's runtime those that hit it: at weight 1024 its virtual
  // runtime runs at the same speed.
  lemma {:induction false} TimeIsCharged(s: State, ops: seq<Op>, t: nat)
    requires Inv(s) && t < |s.tasks|
    ensures t < |Run(s, ops).tasks| && Run(s, ops).clock == s.clock + Ticks(ops)
    ensures Run(s, ops).tasks[t].runtime == s.tasks[t].runtime + TicksOf(s, ops, t)
    ensures Run(s, ops).tasks[t].vruntime == s.tasks[t].vruntime + TicksOf(s, ops, t)
    decreases |ops|
  {
    if ops != [] {
      StepKeeps(s, ops[0]);
      StepTask(s, ops[0], t);
      PickIsTask(s);
      assert Step(s, ops[0]).clock == s.clock + if ops[0].TickOp? then 1 else 0;
      TimeIsCharged(Step(s, ops[0]), ops[1..], t);
    }
  }

  // A tick asks the running task to give way, unless it is a realtime task that is not round-robin.
  predicate Asks(s: State, op: Op, t: nat) {
    op.TickOp? && t == s.current < |s.tasks| && (s.tasks[t].cls.Rt? ==> s.tasks[t].policy.RoundRobin?)
  }

  // The request ends when the task is chosen again at once.
  predicate Answers(s: State, op: Op, t: nat) { op.ScheduleOp? && t == s.current == Step(s, op).current }

  function Requested(s: State, ops: seq<Op>, t: nat, was: bool): bool
    decreases |ops|
  {
    if ops == [] then was
    else
      var now := Asks(s, ops[0], t) || (was && !Answers(s, ops[0], t));
      Requested(Step(s, ops[0]), ops[1..], t, now)
  }

  // A request stands from a tick until the next turn that chooses the same task again.
  lemma {:induction false} RequestStands(s: State, ops: seq<Op>, t: nat)
    requires Inv(s) && t < |s.tasks|
    ensures t < |Run(s, ops).tasks| && Run(s, ops).tasks[t].resched == Requested(s, ops, t, s.tasks[t].resched)
    decreases |ops|
  {
    if ops != [] {
      StepKeeps(s, ops[0]);
      RequestStep(s, ops[0], t);
      RequestStands(Step(s, ops[0]), ops[1..], t);
    }
  }

  lemma RequestStep(s: State, op: Op, t: nat)
    requires Inv(s) && t < |s.tasks|
    ensures t < |Step(s, op).tasks|
    ensures Step(s, op).tasks[t].resched == (Asks(s, op, t) || (s.tasks[t].resched && !Answers(s, op, t)))
  {
    PickIsTask(s);
  }

  // ---- waking

  // Every task is in its queue but t, which sleeps.
  ghost predicate Asleep(s: State, t: nat) {
    && CurrentOk(s) && s.cr3 == s.tasks[s.current].cr3 && t < |s.tasks| && s.tasks[t].state.Interruptible?
    && Distinct(s.cfs) && Distinct(s.rt) && s.running == |s.cfs| + |s.rt|
    && (forall u :: u in s.cfs <==> 0 <= u < |s.tasks| && s.tasks[u].cls.Fair? && u != t)
    && (forall u :: u in s.rt <==> 0 <= u < |s.tasks| && s.tasks[u].cls.Rt? && u != t)
    && s.nextPid == |s.tasks| % 0x1_0000_0000
    && (forall u :: 0 <= u < |s.tasks| ==> s.tasks[u].pid == u % 0x1_0000_0000)
    && (forall u :: 0 <= u < |s.tasks| && u != t ==> !s.tasks[u].state.Interruptible?)
    && (forall u :: 0 <= u < |s.tasks| && s.tasks[u].cls.Fair? ==> s.tasks[u].weight == 1024)
  }

  // Waking the sleeper brings the queues back in order: it waits behind all fair tasks, or before
  // all realtime tasks.
  lemma WakeRestores(s: State, t: nat)
    requires Asleep(s, t)
    ensures Inv(Wake(s, t)) && Wake(s, t).tasks[t].state.Running?
    ensures s.tasks[t].cls.Fair? ==> Wake(s, t).cfs == s.cfs + [t]
    ensures s.tasks[t].cls.Rt? ==> Wake(s, t).rt == [t] + s.rt
  {
    var s' := Wake(s, t);
    assert forall u :: 0 <= u < |s.tasks| && u != t ==> s'.tasks[u] == s.tasks[u];
    assert forall u :: u in s'.cfs <==> u in s.cfs || (u == t && s.tasks[t].cls.Fair?);
    assert forall u :: u in s'.rt <==> u in s.rt || (u == t && s.tasks[t].cls.Rt?);
  }
}
