/** Kernel stacks: kernel/sched/switch.asm, arch/isr_stubs.asm, and the stacks that
kernel/fork.c and kernel_thread build by hand.

The assembly is kept as lists of instructions with an interpreter. Memory is an array of
64-bit words and addresses count words, so a push moves the stack pointer by one. */
module ContextSwitch {
  datatype Reg = Rax | Rbx | Rcx | Rdx | Rsi | Rdi | Rbp | R8 | R9 | R10 | R11 | R12 | R13 | R14 | R15

  // SaveRsp is `mov [rdi], rsp`; LoadRsp is `mov rsp, [rsi]`.
  datatype Instr = Push(r: Reg) | Pop(r: Reg) | SaveRsp | LoadRsp | Ret | AddRsp(words: nat)

  datatype Cpu = Cpu(regs: Reg -> int, rsp: int, rip: int, mem: int -> int)

  function Store(mem: int -> int, a: int, v: int): int -> int { x => if x == a then v else mem(x) }

  function SetReg(regs: Reg -> int, r: Reg, v: int): Reg -> int { q => if q == r then v else regs(q) }

  function Step(c: Cpu, i: Instr): Cpu {
    match i
    case Push(r) => c.(rsp := c.rsp - 1, mem := Store(c.mem, c.rsp - 1, c.regs(r)))
    case Pop(r) => c.(rsp := c.rsp + 1, regs := SetReg(c.regs, r, c.mem(c.rsp)))
    case SaveRsp => c.(mem := Store(c.mem, c.regs(Rdi), c.rsp))
    case LoadRsp => c.(rsp := c.mem(c.regs(Rsi)))
    case Ret => c.(rip := c.mem(c.rsp), rsp := c.rsp + 1)
    case AddRsp(n) => c.(rsp := c.rsp + n)
  }

  function Exec(c: Cpu, prog: seq<Instr>): Cpu
    decreases |prog|
  {
    if prog == [] then c else Exec(Step(c, prog[0]), prog[1..])
  }

  lemma {:induction false} ExecAppend(c: Cpu, a: seq<Instr>, b: seq<Instr>)
    ensures Exec(c, a + b) == Exec(Exec(c, a), b)
    decreases |a|
  {
    if a == [] {
      assert a + b == b;
    } else {
      assert (a + b)[1..] == a[1..] + b;
      ExecAppend(Step(c, a[0]), a[1..], b);
    }
  }

  function Pushes(rs: seq<Reg>): seq<Instr> { seq(|rs|, i requires 0 <= i < |rs| => Push(rs[i])) }

  function Pops(rs: seq<Reg>): seq<Instr> { seq(|rs|, i requires 0 <= i < |rs| => Pop(rs[i])) }

  // The last register pushed ends up lowest.
  lemma {:induction false} ExecPushes(c: Cpu, rs: seq<Reg>)
    ensures var d := Exec(c, Pushes(rs));
      && d.regs == c.regs && d.rip == c.rip && d.rsp == c.rsp - |rs|
      && (forall i :: 0 <= i < |rs| ==> d.mem(c.rsp - 1 - i) == c.regs(rs[i]))
      && (forall a :: a < c.rsp - |rs| || c.rsp <= a ==> d.mem(a) == c.mem(a))
    decreases |rs|
  {
    if rs != [] {
      assert Pushes(rs)[1..] == Pushes(rs[1..]);
      ExecPushes(Step(c, Push(rs[0])), rs[1..]);
      var d := Exec(c, Pushes(rs));
      forall i | 0 <= i < |rs|
        ensures d.mem(c.rsp - 1 - i) == c.regs(rs[i])
      {
        if i > 0 { assert rs[i] == rs[1..][i - 1]; }
      }
    }
  }

  // Popping distinct registers loads them from consecutive words.
  lemma {:induction false} ExecPops(c: Cpu, rs: seq<Reg>)
    requires forall i, j :: 0 <= i < j < |rs| ==> rs[i] != rs[j]
    ensures var d := Exec(c, Pops(rs));
      && d.mem == c.mem && d.rip == c.rip && d.rsp == c.rsp + |rs|
      && (forall i :: 0 <= i < |rs| ==> d.regs(rs[i]) == c.mem(c.rsp + i))
      && (forall r :: r !in rs ==> d.regs(r) == c.regs(r))
    decreases |rs|
  {
    if rs != [] {
      assert Pops(rs)[1..] == Pops(rs[1..]);
      ExecPops(Step(c, Pop(rs[0])), rs[1..]);
      var d := Exec(c, Pops(rs));
      forall i | 0 <= i < |rs|
        ensures d.regs(rs[i]) == c.mem(c.rsp + i)
      {
        if i > 0 { assert rs[i] == rs[1..][i - 1]; } else { assert rs[0] !in rs[1..]; }
      }
    }
  }

  // ---- switch_to

  const SAVED: seq<Reg> := [Rbp, Rbx, R12, R13, R14, R15]
  const RESTORED: seq<Reg> := [R15, R14, R13, R12, Rbx, Rbp]

  function SwitchTo(): seq<Instr> { Pushes(SAVED) + [SaveRsp, LoadRsp] + Pops(RESTORED) + [Ret] }

  // What switch_to does, word by word: d is the processor at its return in the next task.
  ghost predicate Swapped(c: Cpu, d: Cpu) {
    var prev, next := c.regs(Rdi), d.mem(c.regs(Rsi));
    && d.mem(prev) == c.rsp - 6
    && (forall i :: 0 <= i < 6 ==> d.mem(c.rsp - 6 + i) == c.regs(RESTORED[i]))
    && (forall a :: a != prev && !(c.rsp - 6 <= a < c.rsp) ==> d.mem(a) == c.mem(a))
    && (forall i :: 0 <= i < 6 ==> d.regs(RESTORED[i]) == d.mem(next + i))
    && d.rip == d.mem(next + 6) && d.rsp == next + 7
  }

  // Lines 6-15: six pushes, then the exchange of stack pointers.
  lemma SwitchFront(c: Cpu) returns (c2: Cpu)
    requires !(c.rsp - 6 <= c.regs(Rdi) < c.rsp)
    ensures c2 == Exec(c, Pushes(SAVED) + [SaveRsp, LoadRsp])
    ensures c2.rsp == c2.mem(c.regs(Rsi)) && c2.mem(c.regs(Rdi)) == c.rsp - 6
    ensures forall i :: 0 <= i < 6 ==> c2.mem(c.rsp - 6 + i) == c.regs(RESTORED[i])
    ensures forall a :: a != c.regs(Rdi) && !(c.rsp - 6 <= a < c.rsp) ==> c2.mem(a) == c.mem(a)
  {
    ExecPushes(c, SAVED);
    var c1 := Exec(c, Pushes(SAVED));
    c2 := Step(Step(c1, SaveRsp), LoadRsp);
    ExecTwo(c1, SaveRsp, LoadRsp);
    ExecAppend(c, Pushes(SAVED), [SaveRsp, LoadRsp]);
    forall i | 0 <= i < 6
      ensures c2.mem(c.rsp - 6 + i) == c.regs(RESTORED[i])
    {
      assert RESTORED[i] == SAVED[5 - i];
      assert c1.mem(c.rsp - 1 - (5 - i)) == c.regs(SAVED[5 - i]);
    }
  }

  // Lines 17-23: six pops and the return.
  lemma SwitchBack(c: Cpu)
    ensures var d := Exec(c, Pops(RESTORED) + [Ret]);
      && d.mem == c.mem && d.rip == c.mem(c.rsp + 6) && d.rsp == c.rsp + 7
      && (forall i :: 0 <= i < 6 ==> d.regs(RESTORED[i]) == c.mem(c.rsp + i))
  {
    ExecPops(c, RESTORED);
    ExecAppend(c, Pops(RESTORED), [Ret]);
    ExecOne(Exec(c, Pops(RESTORED)), Ret);
  }

  lemma SwitchToSwaps(c: Cpu)
    requires !(c.rsp - 6 <= c.regs(Rdi) < c.rsp)
    ensures Swapped(c, Exec(c, SwitchTo()))
  {
    var c2 := SwitchFront(c);
    SwitchSplit(c);
    SwappedFrom(c, c2, Exec(c2, Pops(RESTORED) + [Ret])) by { SwitchBack(c2); }
  }

  lemma SwitchSplit(c: Cpu)
    ensures Exec(c, SwitchTo()) == Exec(Exec(c, Pushes(SAVED) + [SaveRsp, LoadRsp]), Pops(RESTORED) + [Ret])
  {
    ExecAppend(c, Pushes(SAVED) + [SaveRsp, LoadRsp], Pops(RESTORED) + [Ret]);
    assert SwitchTo() == Pushes(SAVED) + [SaveRsp, LoadRsp] + (Pops(RESTORED) + [Ret]);
  }

  lemma SwappedFrom(c: Cpu, c2: Cpu, d: Cpu)
    requires c2.rsp == c2.mem(c.regs(Rsi)) && c2.mem(c.regs(Rdi)) == c.rsp - 6
    requires forall i :: 0 <= i < 6 ==> c2.mem(c.rsp - 6 + i) == c.regs(RESTORED[i])
    requires forall a :: a != c.regs(Rdi) && !(c.rsp - 6 <= a < c.rsp) ==> c2.mem(a) == c.mem(a)
    requires d.mem == c2.mem && d.rip == c2.mem(c2.rsp + 6) && d.rsp == c2.rsp + 7
    requires forall i :: 0 <= i < 6 ==> d.regs(RESTORED[i]) == c2.mem(c2.rsp + i)
    ensures Swapped(c, d)
  {
  }

  lemma ExecOne(c: Cpu, i: Instr)
    ensures Exec(c, [i]) == Step(c, i)
  {
    assert [i][1..] == [];
  }

  lemma ExecTwo(c: Cpu, i: Instr, j: Instr)
    ensures Exec(c, [i, j]) == Step(Step(c, i), j)
  {
    assert [i, j][1..] == [j];
    ExecOne(Step(c, i), j);
  }

  // ---- tasks on disjoint stacks

  // A task is known by the address of its rsp field; its stack is the words lo..hi.
  datatype Stack = Stack(lo: int, hi: int)
  type Layout = map<int, Stack>

  predicate On(st: Stack, a: int) { st.lo <= a < st.hi }

  ghost predicate Apart(l: Layout) {
    && (forall t, u, a :: t in l && u in l && t != u && On(l[t], a) ==> !On(l[u], a))
    && (forall t, u :: t in l && u in l ==> !On(l[t], u))
  }

  // `born` holds the tasks that have been created.
  datatype Sys = Sys(cpu: Cpu, cur: int, born: set<int>)

  // The registers that a function keeps for its caller: figure 3.4 of the System V ABI for AMD64.
  predicate CalleeSaved(r: Reg) { r.Rbx? || r.Rbp? || r.R12? || r.R13? || r.R14? || r.R15? }

  // Where switch_to keeps a callee-saved register.
  function Slot(r: Reg): (i: nat)
    requires CalleeSaved(r)
    ensures i < 6 && RESTORED[i] == r
  {
    if r == R15 then 0 else if r == R14 then 1 else if r == R13 then 2
    else if r == R12 then 3 else if r == Rbx then 4 else 5
  }

  // What a task that called switch_to from c expects to find when it runs again.
  ghost predicate Resumed(l: Layout, t: int, c: Cpu, d: Cpu)
    requires t in l
  {
    && (forall r :: CalleeSaved(r) ==> d.regs(r) == c.regs(r))
    && d.rip == c.mem(c.rsp) && d.rsp == c.rsp + 1
    && (forall a :: On(l[t], a) && c.rsp <= a ==> d.mem(a) == c.mem(a))
  }

  // Task t is off the processor since it called switch_to from c, and its stack says so.
  ghost predicate Parked(l: Layout, mem: int -> int, t: int, c: Cpu)
    requires t in l
  {
    && l[t].lo <= c.rsp - 6 && c.rsp < l[t].hi
    && mem(t) == c.rsp - 6
    && (forall i :: 0 <= i < 6 ==> mem(c.rsp - 6 + i) == c.regs(RESTORED[i]))
    && (forall a :: On(l[t], a) && c.rsp <= a ==> mem(a) == c.mem(a))
  }

  // The running task computes: it may change its registers, its own stack and anything that is
  // neither the stack nor the rsp field of a task.
  ghost predicate Compute(l: Layout, s: Sys, s': Sys) {
    && s'.cur == s.cur && s'.born == s.born
    && (forall t :: t in l && t in s.born ==> s'.cpu.mem(t) == s.cpu.mem(t))
    && (forall t, a :: t in l && t in s.born && t != s.cur && On(l[t], a) ==> s'.cpu.mem(a) == s.cpu.mem(a))
  }

  // The running task builds the stack of a new task by hand, as kernel_thread and sys_fork do.
  ghost predicate Create(l: Layout, s: Sys, s': Sys, t: int) {
    && t in l && t !in s.born && s'.born == s.born + {t} && s'.cur == s.cur
    && (forall a :: !On(l[t], a) && a != t ==> s'.cpu.mem(a) == s.cpu.mem(a))
  }

  // The running task calls switch_to(current, next); SwitchToSwaps says that the assembly does this.
  ghost predicate Switch(l: Layout, s: Sys, s': Sys)
    requires s.cur in l
  {
    && s'.cur in l && s'.cur in s.born && s'.cur != s.cur && s'.born == s.born
    && s.cpu.regs(Rdi) == s.cur && s.cpu.regs(Rsi) == s'.cur
    && l[s.cur].lo <= s.cpu.rsp - 6 && s.cpu.rsp < l[s.cur].hi
    && Swapped(s.cpu, s'.cpu)
  }

  // Switching away parks the task.
  lemma SwitchParks(l: Layout, s: Sys, s': Sys)
    requires Apart(l) && s.cur in l && Switch(l, s, s')
    ensures Parked(l, s'.cpu.mem, s.cur, s.cpu)
  {
    assert !On(l[s.cur], s.cur);
    forall a | On(l[s.cur], a) && s.cpu.rsp <= a
      ensures s'.cpu.mem(a) == s.cpu.mem(a)
    {
    }
  }

  ghost predicate Moves(l: Layout, s: Sys, s': Sys)
    requires s.cur in l
  {
    Compute(l, s, s') || Switch(l, s, s') || exists t :: Create(l, s, s', t)
  }

  // What a step of another task leaves alone of a task.
  lemma OthersLeaveAlone(l: Layout, s: Sys, s': Sys, t: int, a: int)
    requires Apart(l) && s.cur in l && t in l && t in s.born && t != s.cur && Moves(l, s, s') && (On(l[t], a) || a == t)
    ensures t in s'.born && s'.cpu.mem(a) == s.cpu.mem(a)
  {
    if Switch(l, s, s') {
      assert !On(l[s.cur], s.cur) && !On(l[s.cur], t) && !On(l[t], s.cur);
    } else if !Compute(l, s, s') {
      var u :| Create(l, s, s', u);
      assert !On(l[u], t) && !On(l[t], u);
    }
  }

  // A parked task stays parked whatever the others do.
  lemma OthersKeepParked(l: Layout, s: Sys, s': Sys, t: int, c: Cpu)
    requires Apart(l) && s.cur in l && t in l && t in s.born && t != s.cur && Moves(l, s, s')
    requires Parked(l, s.cpu.mem, t, c)
    ensures t in s'.born && Parked(l, s'.cpu.mem, t, c)
  {
    forall a | On(l[t], a) || a == t
      ensures t in s'.born && s'.cpu.mem(a) == s.cpu.mem(a)
    {
      OthersLeaveAlone(l, s, s', t, a);
    }
    assert t in s'.born && s'.cpu.mem(t) == s.cpu.mem(t);
    forall i | 0 <= i < 6
      ensures s'.cpu.mem(c.rsp - 6 + i) == c.regs(RESTORED[i])
    {
      assert On(l[t], c.rsp - 6 + i);
    }
  }

  // Switching to a parked task restores it.
  lemma SwitchResumes(l: Layout, s: Sys, s': Sys, c: Cpu)
    requires Apart(l) && s.cur in l && Switch(l, s, s') && Parked(l, s.cpu.mem, s'.cur, c)
    ensures Resumed(l, s'.cur, c, s'.cpu)
  {
    OthersKeepParked(l, s, s', s'.cur, c);
    var d := s'.cpu;
    assert On(l[s'.cur], c.rsp);
    forall r | CalleeSaved(r)
      ensures d.regs(r) == c.regs(r)
    {
      var i := Slot(r);
      assert d.mem(c.rsp - 6 + i) == c.regs(RESTORED[i]);
    }
  }

  // ---- runs

  ghost predicate Run(l: Layout, states: seq<Sys>) {
    && |states| > 0
    && (forall i :: 0 <= i < |states| ==> states[i].cur in l && states[i].cur in states[i].born)
    && forall i, j :: 0 <= i && j == i + 1 < |states| ==> Moves(l, states[i], states[j])
  }

  // Whenever a task is resumed, it finds the callee-saved registers, return address, stack
  // pointer and stack that it left with, whatever ran in between.
  lemma {:induction false} ResumedAsLeft(l: Layout, states: seq<Sys>, i: nat, j: nat)
    requires Apart(l) && Run(l, states) && i < j < |states| - 1
    requires Switch(l, states[i], states[i + 1]) && Switch(l, states[j], states[j + 1])
    requires states[j + 1].cur == states[i].cur && forall k :: i < k <= j ==> states[k].cur != states[i].cur
    ensures Resumed(l, states[i].cur, states[i].cpu, states[j + 1].cpu)
  {
    SwitchParks(l, states[i], states[i + 1]);
    assert states[i].cur in states[i].born;
    StaysParked(l, states, i + 1, j, states[i].cur, states[i].cpu);
    SwitchResumes(l, states[j], states[j + 1], states[i].cpu);
  }

  lemma {:induction false} StaysParked(l: Layout, states: seq<Sys>, i: nat, j: nat, t: int, c: Cpu)
    requires Apart(l) && Run(l, states) && i <= j < |states|
    requires t in l && t in states[i].born && Parked(l, states[i].cpu.mem, t, c)
    requires forall k :: i <= k <= j ==> states[k].cur != t
    ensures t in states[j].born && Parked(l, states[j].cpu.mem, t, c)
    decreases j
  {
    if i < j {
      var k := j - 1;
      assert Moves(l, states[k], states[j]);
      StaysParked(l, states, i, k, t, c);
      OthersKeepParked(l, states[k], states[j], t, c);
    }
  }

  // ---- interrupt frames

  // `struct registers` of include/relis/irq.h, lowest word first.
  const FRAME_REGS: seq<Reg> := [R15, R14, R13, R12, R11, R10, R9, R8, Rbp, Rdi, Rsi, Rdx, Rcx, Rbx, Rax]
  const ISR_PUSHED: seq<Reg> := [Rax, Rbx, Rcx, Rdx, Rsi, Rdi, Rbp, R8, R9, R10, R11, R12, R13, R14, R15]
  const FRAME_WORDS: nat := 22

  // isr_common_return: the pops, then int_no and err_code are skipped.
  function IsrReturn(): seq<Instr> { Pops(FRAME_REGS) + [AddRsp(2)] }

  // What iretq starts: the popped registers and the five words that it takes from the stack.
  datatype UserState = UserState(regs: Reg -> int, rip: int, cs: int, rflags: int, rsp: int, ss: int)

  function Iretq(c: Cpu): UserState {
    UserState(c.regs, c.mem(c.rsp), c.mem(c.rsp + 1), c.mem(c.rsp + 2), c.mem(c.rsp + 3), c.mem(c.rsp + 4))
  }

  // The fifteen words from e's stack pointer up are c's registers.
  ghost predicate FrameHolds(e: Cpu, c: Cpu) {
    forall i :: 0 <= i < 15 ==> e.mem(e.rsp + i) == c.regs(FRAME_REGS[i])
  }

  // The register frame that isr_common leaves is exactly struct registers.
  lemma IsrSavesFrame(c: Cpu)
    ensures var d := Exec(c, Pushes(ISR_PUSHED));
      && d.rsp == c.rsp - 15 && d.regs == c.regs
      && FrameHolds(d, c)
      && (forall a :: c.rsp <= a ==> d.mem(a) == c.mem(a))
  {
    ExecPushes(c, ISR_PUSHED);
    var d := Exec(c, Pushes(ISR_PUSHED));
    forall i | 0 <= i < 15
      ensures d.mem(d.rsp + i) == c.regs(FRAME_REGS[i])
    {
      assert FRAME_REGS[i] == ISR_PUSHED[14 - i];
      assert d.mem(c.rsp - 1 - (14 - i)) == c.regs(ISR_PUSHED[14 - i]);
    }
  }

  function FrameSlot(r: Reg): nat {
    match r
    case R15 => 0 case R14 => 1 case R13 => 2 case R12 => 3 case R11 => 4 case R10 => 5 case R9 => 6 case R8 => 7
    case Rbp => 8 case Rdi => 9 case Rsi => 10 case Rdx => 11 case Rcx => 12 case Rbx => 13 case Rax => 14
  }

  lemma FrameRegsDistinct()
    ensures |FRAME_REGS| == 15 && forall i, j :: 0 <= i < j < 15 ==> FRAME_REGS[i] != FRAME_REGS[j]
  {
    forall i | 0 <= i < 15
      ensures FrameSlot(FRAME_REGS[i]) == i
    {
    }
  }

  // isr_common_return loads the fifteen registers from the frame and leaves iretq its five words.
  lemma IsrReturnLoads(c: Cpu)
    ensures var d := Exec(c, IsrReturn());
      && d.mem == c.mem && d.rsp == c.rsp + 17
      && FrameHolds(c, d)
  {
    FrameRegsDistinct();
    IsrReturnSteps(c, FRAME_REGS);
  }

  lemma IsrReturnSteps(c: Cpu, rs: seq<Reg>)
    requires forall i, j :: 0 <= i < j < |rs| ==> rs[i] != rs[j]
    ensures var d := Exec(c, Pops(rs) + [AddRsp(2)]);
      && d.mem == c.mem && d.rsp == c.rsp + |rs| + 2
      && (forall i :: 0 <= i < |rs| ==> d.regs(rs[i]) == c.mem(c.rsp + i))
  {
    ExecPops(c, rs);
    ExecAppend(c, Pops(rs), [AddRsp(2)]);
    ExecOne(Exec(c, Pops(rs)), AddRsp(2));
  }

  // dispatch_isr returns: it may have changed any register and anything below the frame, but
  // neither the stack pointer nor the words from there up.
  ghost predicate Returned(e: Cpu, h: Cpu) {
    h.rsp == e.rsp && forall a :: e.rsp <= a ==> h.mem(a) == e.mem(a)
  }

  // Entering an interrupt, running any handler that returns, and leaving gives every register
  // back and leaves the stack as the processor pushed it.
  lemma InterruptRoundTrip(c: Cpu, h: Cpu)
    requires Returned(Exec(c, Pushes(ISR_PUSHED)), h)
    ensures var d := Exec(h, IsrReturn());
      d.rsp == c.rsp + 2 && (forall r :: d.regs(r) == c.regs(r)) && forall a :: c.rsp <= a ==> d.mem(a) == c.mem(a)
  {
    IsrSavesFrame(c);
    IsrReturnLoads(h);
    FrameSurvives(c, Exec(c, Pushes(ISR_PUSHED)), h);
    RegistersBack(c, h, Exec(h, IsrReturn()));
  }

  lemma FrameSurvives(c: Cpu, e: Cpu, h: Cpu)
    requires FrameHolds(e, c) && Returned(e, h)
    ensures FrameHolds(h, c)
  {
  }

  lemma RegistersBack(c: Cpu, e: Cpu, d: Cpu)
    requires FrameHolds(e, c) && FrameHolds(e, d)
    ensures forall r :: d.regs(r) == c.regs(r)
  {
    forall r
      ensures d.regs(r) == c.regs(r)
    {
      assert FRAME_REGS[FrameSlot(r)] == r;
      assert e.mem(e.rsp + FrameSlot(r)) == c.regs(FRAME_REGS[FrameSlot(r)]);
    }
  }

  // ---- stacks built by hand

  // sys_fork: the parent's frame at the top of the child's stack with rax cleared, below it the
  // return address isr_common_return and six zeros; the child's rsp field points at them.
  function ForkMemory(mem: int -> int, child: int, top: int, frame: seq<int>, isrReturn: int): int -> int
    requires |frame| == FRAME_WORDS
  {
    x =>
      if x == child then top - 29
      else if top - 22 <= x < top then (if x == top - 8 then 0 else frame[x - (top - 22)])
      else if x == top - 23 then isrReturn
      else if top - 29 <= x < top - 23 then 0
      else mem(x)
  }

  // kernel_thread: the trampoline's address and six zeros.
  function ThreadMemory(mem: int -> int, task: int, top: int, trampoline: int): int -> int {
    x =>
      if x == task then top - 7
      else if x == top - 1 then trampoline
      else if top - 7 <= x < top - 1 then 0
      else mem(x)
  }

  // The state in which a hand-built stack pretends to have called switch_to.
  function Pretended(mem: int -> int, rsp: int): Cpu { Cpu(_ => 0, rsp, 0, mem) }

  lemma ForkParks(l: Layout, mem: int -> int, child: int, top: int, frame: seq<int>, isrReturn: int)
    requires Apart(l) && child in l && l[child].lo <= top - 29 && top == l[child].hi && |frame| == FRAME_WORDS
    ensures var m := ForkMemory(mem, child, top, frame, isrReturn); Parked(l, m, child, Pretended(m, top - 23))
  {
    assert !On(l[child], child);
  }

  lemma ThreadParks(l: Layout, mem: int -> int, task: int, top: int, trampoline: int)
    requires Apart(l) && task in l && l[task].lo <= top - 7 && top == l[task].hi
    ensures var m := ThreadMemory(mem, task, top, trampoline); Parked(l, m, task, Pretended(m, top - 1))
  {
    assert !On(l[task], task);
  }

  // The steps of sys_fork and kernel_thread that build the stack.
  ghost predicate Forks(l: Layout, s: Sys, s': Sys, child: int, frame: seq<int>, isrReturn: int) {
    && child in l && child !in s.born && s'.born == s.born + {child} && s'.cur == s.cur
    && l[child].lo <= l[child].hi - 29
    && |frame| == FRAME_WORDS && s'.cpu.mem == ForkMemory(s.cpu.mem, child, l[child].hi, frame, isrReturn)
  }

  ghost predicate Spawns(l: Layout, s: Sys, s': Sys, task: int, trampoline: int) {
    && task in l && task !in s.born && s'.born == s.born + {task} && s'.cur == s.cur && l[task].lo <= l[task].hi - 7
    && s'.cpu.mem == ThreadMemory(s.cpu.mem, task, l[task].hi, trampoline)
  }

  // They are steps of a run.
  lemma CreationMoves(l: Layout, s: Sys, s': Sys, t: int, frame: seq<int>, address: int)
    requires s.cur in l && (Forks(l, s, s', t, frame, address) || Spawns(l, s, s', t, address))
    ensures Moves(l, s, s')
  {
    assert Create(l, s, s', t);
  }

  // Whenever the scheduler first switches to a forked child, isr_common_return takes it to user
  // mode with the parent's registers, except rax = 0.
  lemma ForkedChildReturns(l: Layout, states: seq<Sys>, i: nat, j: nat, child: int, frame: seq<int>, isrReturn: int)
    requires Apart(l) && Run(l, states) && i < j < |states| - 1
    requires Forks(l, states[i], states[i + 1], child, frame, isrReturn)
    requires forall k :: i < k <= j ==> states[k].cur != child
    requires Switch(l, states[j], states[j + 1]) && states[j + 1].cur == child
    ensures states[j + 1].cpu.rip == isrReturn
    ensures ParentExceptRax(Iretq(Exec(states[j + 1].cpu, IsrReturn())), frame)
  {
    var mem, top := states[i].cpu.mem, l[child].hi;
    var m := ForkMemory(mem, child, top, frame, isrReturn);
    ForkParks(l, mem, child, top, frame, isrReturn);
    StaysParked(l, states, i + 1, j, child, Pretended(m, top - 23));
    SwitchResumes(l, states[j], states[j + 1], Pretended(m, top - 23));
    ForkFrameLoads(states[j + 1].cpu, mem, child, top, frame, isrReturn) by {
      assert forall a :: top - 22 <= a < top ==> On(l[child], a);
    }
  }

  // User mode as in the parent's frame, with a zero result.
  ghost predicate ParentExceptRax(u: UserState, frame: seq<int>)
    requires |frame| == FRAME_WORDS
  {
    && (forall k :: 0 <= k < 14 ==> u.regs(FRAME_REGS[k]) == frame[k]) && u.regs(Rax) == 0
    && u.rip == frame[17] && u.cs == frame[18] && u.rflags == frame[19] && u.rsp == frame[20] && u.ss == frame[21]
  }

  function ChildWord(frame: seq<int>, k: nat): int
    requires k < |frame|
  {
    if k == 14 then 0 else frame[k]
  }

  // The words from sp up are the frame, with a zero for rax.
  ghost predicate ChildFrame(mem: int -> int, sp: int, frame: seq<int>)
    requires |frame| == FRAME_WORDS
  {
    forall k :: 0 <= k < FRAME_WORDS ==> mem(sp + k) == ChildWord(frame, k)
  }

  lemma ForkFrameLoads(d: Cpu, mem: int -> int, child: int, top: int, frame: seq<int>, isrReturn: int)
    requires |frame| == FRAME_WORDS && !(top - 22 <= child < top) && d.rsp == top - 22
    requires forall a :: top - 22 <= a < top ==> d.mem(a) == ForkMemory(mem, child, top, frame, isrReturn)(a)
    ensures ParentExceptRax(Iretq(Exec(d, IsrReturn())), frame)
  {
    IsrReturnLoads(d);
    ForkedFrame(d, mem, child, top, frame, isrReturn);
    ParentFrom(d, Exec(d, IsrReturn()), frame);
  }

  lemma ForkedFrame(d: Cpu, mem: int -> int, child: int, top: int, frame: seq<int>, isrReturn: int)
    requires |frame| == FRAME_WORDS && !(top - 22 <= child < top) && d.rsp == top - 22
    requires forall a :: top - 22 <= a < top ==> d.mem(a) == ForkMemory(mem, child, top, frame, isrReturn)(a)
    ensures ChildFrame(d.mem, d.rsp, frame)
  {
  }

  lemma ParentFrom(d: Cpu, e: Cpu, frame: seq<int>)
    requires |frame| == FRAME_WORDS && ChildFrame(d.mem, d.rsp, frame)
    requires e.mem == d.mem && e.rsp == d.rsp + 17 && forall i :: 0 <= i < 15 ==>
      e.regs(FRAME_REGS[i]) == d.mem(d.rsp + i)
    ensures ParentExceptRax(Iretq(e), frame)
  {
    assert FRAME_REGS[14] == Rax;
    var sp := d.rsp;
    forall k | 0 <= k < 14
      ensures e.regs(FRAME_REGS[k]) == frame[k]
    {
      assert d.mem(sp + k) == ChildWord(frame, k);
    }
    assert e.regs(FRAME_REGS[14]) == d.mem(sp + 14) == ChildWord(frame, 14);
    assert d.mem(sp + 17) == ChildWord(frame, 17) && d.mem(sp + 18) == ChildWord(frame, 18);
    assert d.mem(sp + 19) == ChildWord(frame, 19) && d.mem(sp + 20) == ChildWord(frame, 20);
    assert d.mem(sp + 21) == ChildWord(frame, 21);
  }

  // A new kernel thread first runs at the trampoline with an empty stack.
  lemma NewThreadStarts(l: Layout, states: seq<Sys>, i: nat, j: nat, task: int, trampoline: int)
    requires Apart(l) && Run(l, states) && i < j < |states| - 1 && Spawns(l, states[i], states[i + 1], task, trampoline)
    requires forall k :: i < k <= j ==> states[k].cur != task
    requires Switch(l, states[j], states[j + 1]) && states[j + 1].cur == task
    ensures states[j + 1].cpu.rip == trampoline && states[j + 1].cpu.rsp == l[task].hi
  {
    var mem, top := states[i].cpu.mem, l[task].hi;
    var m := ThreadMemory(mem, task, top, trampoline);
    ThreadParks(l, mem, task, top, trampoline);
    StaysParked(l, states, i + 1, j, task, Pretended(m, top - 1));
    SwitchResumes(l, states[j], states[j + 1], Pretended(m, top - 1));
  }
}
