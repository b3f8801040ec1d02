/** The scheduler over its linked run queues: kernel/sched/core.c, fair.c, rt.c, idle.c.

The queues are the intrusive lists of the module Lists. Each method is proved against the
function of SchedSpec that models it, so everything proved there holds of the linked form. */
module Scheduler {
  import opened Lists
  import opened SchedSpec

  ghost function Ids(s: seq<ListHead>): (q: seq<nat>)
    ensures |q| == |s| && forall i :: 0 <= i < |s| ==> q[i] == s[i].task
  {
    seq(|s|, i requires 0 <= i < |s| => s[i].task)
  }

  class RunQueue {
    const cfs: ListHead
    const rt: ListHead
    var nrRunning: nat
    ghost var cfsNodes: seq<ListHead>
    ghost var rtNodes: seq<ListHead>

    ghost predicate Valid()
      reads this, cfs, rt, cfsNodes, rtNodes
    {
      && Ring(cfs, cfsNodes) && Ring(rt, rtNodes)
      && cfs != rt && cfs !in rtNodes && rt !in cfsNodes
      && (forall i, j :: 0 <= i < |cfsNodes| && 0 <= j < |rtNodes| ==> cfsNodes[i] != rtNodes[j])
      && nrRunning == |cfsNodes| + |rtNodes|
    }

    ghost predicate Unlinked(node: ListHead)
      reads this
    {
      node != cfs && node != rt && node !in cfsNodes && node !in rtNodes
    }

    constructor ()
      ensures Valid() && cfsNodes == [] && rtNodes == [] && fresh(cfs) && fresh(rt)
    {
      cfs := new ListHead(0);
      rt := new ListHead(0);
      nrRunning := 0;
      cfsNodes, rtNodes := [], [];
      new;
      InitListHead(cfs);
      InitListHead(rt);
    }

    method EnqueueTaskFair(node: ListHead)
      requires Valid() && Unlinked(node)
      modifies this, node, cfs, cfsNodes
      ensures Valid() && cfsNodes == old(cfsNodes) + [node] && rtNodes == old(rtNodes)
    {
      ListAddTail(node, cfs, cfsNodes);
      cfsNodes := cfsNodes + [node];
      nrRunning := nrRunning + 1;
    }

    method EnqueueTaskRt(node: ListHead)
      requires Valid() && Unlinked(node)
      modifies this, node, rt, rtNodes
      ensures Valid() && rtNodes == [node] + old(rtNodes) && cfsNodes == old(cfsNodes)
    {
      ListAdd(node, rt, rtNodes);
      rtNodes := [node] + rtNodes;
      nrRunning := nrRunning + 1;
    }

    // The head moves to the tail: list_del, then list_add_tail.
    method PickNextTaskFair() returns (r: ListHead?)
      requires Valid()
      modifies this, cfs, cfsNodes
      ensures Valid() && rtNodes == old(rtNodes) && nrRunning == old(nrRunning)
      ensures old(cfsNodes) == [] ==> r == null && cfsNodes == []
      ensures old(cfsNodes) != [] ==> r == old(cfsNodes)[0] && cfsNodes == old(cfsNodes)[1..] + [r]
    {
      var empty := ListEmpty(cfs, cfsNodes);
      if empty { return null; }
      ghost var s := cfsNodes;
      r := RotateFirst(cfs, cfsNodes);
      cfsNodes := s[1..] + [r];
    }

    // The head stays where it is.
    method PickNextTaskRt() returns (r: ListHead?)
      requires Valid()
      ensures rtNodes == [] ==> r == null
      ensures rtNodes != [] ==> r == rtNodes[0]
    {
      var empty := ListEmpty(rt, rtNodes);
      if empty { return null; }
      assert rt == At(rt, rtNodes, 0) && rt.next == At(rt, rtNodes, 1);
      r := rt.next;
    }
  }

  class Sched {
    const rq: RunQueue
    var tasks: seq<Task>
    var nodes: seq<ListHead>  // the run_node of each task
    var current: nat
    var cr3: nat
    var nextPid: nat
    var clock: nat

    ghost predicate Valid()
      reads this, rq, rq.cfs, rq.rt, rq.cfsNodes, rq.rtNodes
    {
      && rq.Valid() && |nodes| == |tasks| && current < |tasks|
      && rq.cfs !in nodes && rq.rt !in nodes
      && (forall t :: 0 <= t < |nodes| ==> nodes[t].task == t)
      && (forall i :: 0 <= i < |rq.cfsNodes| ==> rq.cfsNodes[i] in nodes)
      && (forall i :: 0 <= i < |rq.rtNodes| ==> rq.rtNodes[i] in nodes)
    }

    ghost function View(): State
      reads this, rq
    {
      State(tasks, Ids(rq.cfsNodes), Ids(rq.rtNodes), rq.nrRunning, current, cr3, nextPid, clock)
    }

    // sched_init
    constructor (cr3: nat)
      ensures Valid() && View() == Init(cr3) && fresh(rq) && fresh(rq.cfs) && fresh(rq.rt)
    {
      rq := new RunQueue();
      tasks := [Task(0, 0, Running, Normal, Idle, cr3, 0, 0, 0, false)];
      var node := new ListHead(0);
      nodes := [node];
      current, nextPid, clock := 0, 1, 0;
      this.cr3 := cr3;
    }

    // sched_class->enqueue_task, when the class has one.
    method EnqueueTask(t: nat)
      requires Valid() && t < |tasks| && (!tasks[t].cls.Idle? ==> rq.Unlinked(nodes[t]))
      modifies rq, rq.cfs, rq.rt, rq.cfsNodes, rq.rtNodes, nodes[t]
      ensures Valid() && View() == Enqueue(old(View()), t, tasks[t].cls)
    {
      match tasks[t].cls
      case Fair => rq.EnqueueTaskFair(nodes[t]);
      case Rt => rq.EnqueueTaskRt(nodes[t]);
      case Idle =>
    }
  
    // A new task_struct, appended and enqueued.
    method AddTask(task: Task)
      requires Valid()
      modifies this`tasks, this`nodes, this`nextPid, rq, rq.cfs, rq.rt, rq.cfsNodes, rq.rtNodes
      ensures Valid()
      ensures var s := old(View());
        View() == Enqueue(s.(tasks := s.tasks + [task], nextPid := NextPid(s)), |s.tasks|, task.cls)
    {
      var node := new ListHead(|tasks|);
      tasks := tasks + [task];
      nodes := nodes + [node];
      nextPid := (nextPid + 1) % 0x1_0000_0000;
      EnqueueTask(|tasks| - 1);
    }

    // kernel_thread; `memory` says whether kmalloc succeeded. Returns the pid, or -1.
    method KernelThread(policy: Policy, memory: bool) returns (pid: int)
      requires Valid()
      modifies this`tasks, this`nodes, this`nextPid, rq, rq.cfs, rq.rt, rq.cfsNodes, rq.rtNodes
      ensures Valid() && pid == if memory then old(nextPid) else -1
      ensures View() == if memory then SchedSpec.KernelThread(old(View()), policy) else old(View())
    {
      if !memory { return -1; }
      pid := nextPid;
      if policy == Fifo || policy == RoundRobin {
        AddTask(Task(nextPid, 0, Running, policy, Rt, cr3, 0, 0, 0, false));
      } else {
        AddTask(Task(nextPid, 0, Running, policy, Fair, cr3, 1024, 0, 0, false));
      }
    }

    // sys_fork; childCr3 is what clone_address_space returned.
    method Fork(childCr3: nat, memory: bool) returns (pid: int)
      requires Valid()
      modifies this`tasks, this`nodes, this`nextPid, rq, rq.cfs, rq.rt, rq.cfsNodes, rq.rtNodes
      ensures Valid() && pid == if memory then old(nextPid) else -1
      ensures View() == if memory then SchedSpec.Fork(old(View()), childCr3) else old(View())
    {
      if !memory { return -1; }
      pid := nextPid;
      var parent := tasks[current];
      AddTask(parent.(pid := nextPid, ppid := parent.pid, state := Running, cr3 := childCr3));
    }

    // sys_execve once the new address space is built.
    method Exec(newCr3: nat)
      requires Valid()
      modifies this`cr3, this`tasks
      ensures Valid() && View() == SchedSpec.Exec(old(View()), newCr3)
    {
      cr3 := newCr3;
      tasks := tasks[current := tasks[current].(cr3 := newCr3)];
    }

    method WakeUpProcess(t: nat)
      requires Valid() && t < |tasks|
      requires tasks[t].state.Interruptible? && !tasks[t].cls.Idle? ==> rq.Unlinked(nodes[t])
      modifies this`tasks, rq, rq.cfs, rq.rt, rq.cfsNodes, rq.rtNodes, nodes[t]
      ensures Valid() && View() == Wake(old(View()), t)
    {
      if tasks[t].state == Interruptible {
        tasks := tasks[t := tasks[t].(state := Running)];
        EnqueueTask(t);
      }
    }

    method SchedulerTick()
      requires Valid() && (tasks[current].cls.Fair? ==> tasks[current].weight != 0)
      modifies this`clock, this`tasks
      ensures Valid() && View() == Tick(old(View()))
    {
      clock := clock + 1;
      var c := tasks[current];
      match c.cls {
        case Fair =>
          c := c.(runtime := c.runtime + 1);
          c := c.(vruntime := c.vruntime + 1024 / c.weight);
          c := c.(resched := true);
        case Rt => if c.policy == RoundRobin { c := c.(resched := true); }
        case Idle => c := c.(resched := true);
      }
      tasks := tasks[current := c];
    }

    // The pick_next_task functions of the three classes, in order.
    method PickNextTask() returns (next: nat)
      requires Valid()
      modifies rq, rq.cfs, rq.cfsNodes
      ensures Valid() && next < |tasks|
      ensures (View(), next) == PickNext(old(View()))
    {
      ghost var rtNodes, cfsNodes := rq.rtNodes, rq.cfsNodes;
      var node := rq.PickNextTaskRt();
      if node == null { node := rq.PickNextTaskFair(); }
      if node == null { return current; }
      assert node in nodes;
      next := node.task;
      assert rtNodes == [] ==> Ids(rq.cfsNodes) == Rotate(Ids(cfsNodes));
    }

    // __schedule up to switch_to.
    method Schedule()
      requires Valid()
      modifies this`current, this`cr3, this`tasks, rq, rq.cfs, rq.cfsNodes
      ensures Valid()
      ensures PickNext(old(View())).1 < |old(tasks)| && View() == SchedSpec.Schedule(old(View()))
    {
      var prev := current;
      var next := PickNextTask();
      if next == prev {
        tasks := tasks[current := tasks[current].(resched := false)];
        return;
      }
      current := next;
      if tasks[next].cr3 != cr3 { cr3 := tasks[next].cr3; }
    }
  }
}
