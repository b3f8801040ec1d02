/** Pipes under the test-and-set spinlock: kernel/ipc.c and include/relis/spinlock.h.

Any number of threads read and write one pipe. Every atomic action is a step: the exchange in
spin_lock, each read of the inner wait loop, each byte of kmemcpy, each position update and
the store in spin_unlock. `History` is the sequential pipe that the steps implement. */
module Pipe {
  import opened Spinlock

  type Byte = bv8
  const CAPACITY: nat := 4096

  // ---- the sequential pipe

  // Finished calls, in the order in which they held the lock.
  datatype Call = Wrote(data: seq<Byte>, n: nat) | Got(count: nat, bytes: seq<Byte>)

  function Accepted(log: seq<Call>): seq<Byte>
    requires forall i :: 0 <= i < |log| && log[i].Wrote? ==> log[i].n <= |log[i].data|
  {
    if log == [] then []
    else
      var k := |log| - 1;
      Accepted(log[..k]) + if log[k].Wrote? then log[k].data[..log[k].n] else []
  }

  function Delivered(log: seq<Call>): seq<Byte> {
    if log == [] then []
    else
      var k := |log| - 1;
      Delivered(log[..k]) + if log[k].Got? then log[k].bytes else []
  }

  function Min(a: nat, b: nat): nat { if a <= b then a else b }

  // A write takes what fits below the capacity of a lifetime; a read takes up to `count` of the
  // bytes that are waiting, and there is at least one.
  ghost predicate History(log: seq<Call>)
    ensures History(log) ==> forall i :: 0 <= i < |log| && log[i].Wrote? ==> log[i].n <= |log[i].data|
  {
    if log == [] then true
    else
      var k := |log| - 1;
      && History(log[..k])
      && var waiting := |Accepted(log[..k])| - |Delivered(log[..k])|;
      match log[k]
      case Wrote(data, n) => |Accepted(log[..k])| <= CAPACITY && n == Min(|data|, CAPACITY - |Accepted(log[..k])|)
      case Got(count, bytes) =>
        && waiting > 0
        && bytes == Accepted(log[..k])[|Delivered(log[..k])|..|Delivered(log[..k])| + Min(waiting, count)]
  }

  // Whatever is read is a prefix of whatever was accepted, and a pipe never accepts more than
  // 4096 bytes.
  lemma {:induction false} HistoryIsFifo(log: seq<Call>)
    requires History(log)
    ensures Delivered(log) <= Accepted(log) && |Accepted(log)| <= 4096
  {
    if log != [] {
      HistoryIsFifo(log[..|log| - 1]);
    }
  }

  // ---- threads

  datatype Op = Read(count: nat) | Write(data: seq<Byte>)

  // Where a thread stands. From Locked to Unlock it holds the lock.
  datatype Pc =
    | Idle
    | Waits(op: Op, w: Waiting)                            // in spin_lock
    | Locked(op: Op)
    | Copying(op: Op, n: nat, k: nat, got: seq<Byte>)      // k of n bytes copied
    | Unlock(op: Op, n: nat, got: seq<Byte>, at: nat)      // position advanced; entry `at` of the history
    | UnlockEmpty(op: Op)                                  // nothing to read
    | Done(op: Op, n: nat, got: seq<Byte>, at: nat)

  datatype State = State(lock: bool, buffer: seq<Byte>, readPos: nat, writePos: nat, pcs: map<nat, Pc>, log: seq<Call>)

  predicate Inside(pc: Pc) { pc.Locked? || pc.Copying? || pc.Unlock? || pc.UnlockEmpty? }

  // sys_pipe: a zeroed pipe, no thread inside.
  ghost predicate Start(s: State) {
    && !s.lock && |s.buffer| == CAPACITY && s.readPos == 0 && s.writePos == 0 && s.log == []
    && forall t :: t in s.pcs ==> s.pcs[t].Idle?
  }

  function Goto(s: State, t: nat, pc: Pc): State { s.(pcs := s.pcs[t := pc]) }

  // ---- what holds between steps

  ghost predicate ThreadOk(s: State, t: nat)
    requires t in s.pcs && InBounds(s)
  {
    match s.pcs[t]
    case Copying(Read(count), n, k, got) =>
      && s.readPos < s.writePos && n == Min(s.writePos - s.readPos, count) && k <= n
      && got == s.buffer[s.readPos..s.readPos + k]
    case Copying(Write(data), n, k, got) =>
      n == Min(|data|, CAPACITY - s.writePos) && k <= n && s.buffer[s.writePos..s.writePos + k] == data[..k]
    case Unlock(op, n, got, at) => Logged(s.log, op, n, got, at)
    case Done(op, n, got, at) => Logged(s.log, op, n, got, at)
    case _ => true
  }

  // The call and its result are entry `at` of the history.
  predicate Logged(log: seq<Call>, op: Op, n: nat, got: seq<Byte>, at: nat) {
    at < |log| &&
    match op
    case Read(count) => log[at] == Got(count, got) && |got| == n
    case Write(data) => log[at] == Wrote(data, n)
  }

  predicate Finished(pc: Pc) { pc.Unlock? || pc.Done? }

  // Finished calls have entries of their own.
  ghost predicate OwnEntries(s: State) {
    forall t, u :: t in s.pcs && u in s.pcs && t != u && Finished(s.pcs[t]) && Finished(s.pcs[u]) ==>
      s.pcs[t].at != s.pcs[u].at
  }

  // The lock word is 1 exactly while a thread is inside, and then only one is.
  ghost predicate Exclusive(s: State) {
    && (s.lock ==> exists t :: t in s.pcs && Inside(s.pcs[t]))
    && (forall t :: t in s.pcs && Inside(s.pcs[t]) ==> s.lock)
    && (forall t, u :: t in s.pcs && u in s.pcs && Inside(s.pcs[t]) && Inside(s.pcs[u]) ==> t == u)
  }

  // The buffer holds what the finished calls say.
  ghost predicate Agrees(s: State) {
    && InBounds(s)
    && History(s.log) && Accepted(s.log) == s.buffer[..s.writePos] && Delivered(s.log) == s.buffer[..s.readPos]
  }

  ghost predicate InBounds(s: State) { s.readPos <= s.writePos <= CAPACITY == |s.buffer| }

  ghost predicate Sane(s: State) {
    InBounds(s) && forall t :: t in s.pcs ==> ThreadOk(s, t)
  }

  ghost predicate Inv(s: State) {
    Exclusive(s) && Agrees(s) && Sane(s) && OwnEntries(s)
  }

  // ---- steps

  // The next step of thread t takes no difference below zero and touches no byte out of range.
  predicate Defined(s: State, t: nat)
    requires t in s.pcs
  {
    match s.pcs[t]
    case Locked(Read(_)) => s.readPos <= s.writePos
    case Locked(Write(_)) => s.writePos <= CAPACITY
    case Copying(Read(_), n, k, _) => k < n ==> s.readPos + k < |s.buffer|
    case Copying(Write(data), n, k, _) => k < n ==> k < |data| && s.writePos + k < |s.buffer|
    case _ => true
  }

  // Thread t makes one step; `op` is the call it makes when it is idle.
  function Step(s: State, t: nat, op: Op): State
    requires t in s.pcs && Defined(s, t)
  {
    match s.pcs[t]
    case Idle => Goto(s, t, Waits(op, Exchange))
    case Waits(op, w) =>
      var (lock, still) := Acquire(s.lock, w);
      Goto(s, t, if still.Some? then Waits(op, still.value) else Locked(op)).(lock := lock)
    case Locked(Read(count)) =>
      if s.readPos == s.writePos then Goto(s, t, UnlockEmpty(Read(count)))
      else Goto(s, t, Copying(Read(count), Min(s.writePos - s.readPos, count), 0, []))
    case Locked(Write(data)) => Goto(s, t, Copying(Write(data), Min(|data|, CAPACITY - s.writePos), 0, []))
    case Copying(op, n, k, got) =>
      if k >= n then Advance(s, t, op, n, got)
      else
        if op.Read? then Goto(s, t, Copying(op, n, k + 1, got + [s.buffer[s.readPos + k]]))
        else Goto(s, t, Copying(op, n, k + 1, got)).(buffer := s.buffer[s.writePos + k := op.data[k]])
    case Unlock(op, n, got, at) => Goto(s, t, Done(op, n, got, at)).(lock := false)
    case UnlockEmpty(op) => Goto(s, t, Waits(op, Exchange)).(lock := false)  // schedule(), then try again
    case Done(_, _, _, _) => Goto(s, t, Idle)
  }

  // `read_pos += to_copy` or `write_pos += to_copy`: the call takes effect.
  function Advance(s: State, t: nat, op: Op, n: nat, got: seq<Byte>): State {
    match op
    case Read(count) =>
      Goto(s, t, Unlock(op, n, got, |s.log|)).(readPos := s.readPos + n, log := s.log + [Got(count, got)])
    case Write(data) =>
      Goto(s, t, Unlock(op, n, got, |s.log|)).(writePos := s.writePos + n, log := s.log + [Wrote(data, n)])
  }

  // A thread goes in with the lock word, comes out with it, or leaves it and its side alone.
  predicate LockMoves(lock: bool, pc: Pc, lock': bool, pc': Pc) {
    || (lock' == lock && Inside(pc') == Inside(pc))
    || (!lock && !Inside(pc) && lock' && Inside(pc'))
    || (lock && Inside(pc) && !lock' && !Inside(pc'))
  }

  lemma StepMovesLock(s: State, t: nat, op: Op)
    requires t in s.pcs && Defined(s, t) && (Inside(s.pcs[t]) ==> s.lock)
    ensures t in Step(s, t, op).pcs && LockMoves(s.lock, s.pcs[t], Step(s, t, op).lock, Step(s, t, op).pcs[t])
  {
  }

  lemma ExclusiveMoved(s: State, s': State, t: nat)
    requires Exclusive(s) && t in s.pcs && t in s'.pcs && s'.pcs == s.pcs[t := s'.pcs[t]]
    requires LockMoves(s.lock, s.pcs[t], s'.lock, s'.pcs[t])
    ensures Exclusive(s')
  {
    if s.lock && s'.lock {
      var h :| h in s.pcs && Inside(s.pcs[h]);
      assert h in s'.pcs && Inside(s'.pcs[h]);
    }
  }

  lemma ExclusiveKept(s: State, t: nat, op: Op)
    requires Sane(s) && Exclusive(s) && t in s.pcs
    ensures Exclusive(Step(s, t, op))
  {
    StepTouches(s, t, op);
    StepMovesLock(s, t, op);
    ExclusiveMoved(s, Step(s, t, op), t);
  }

  lemma {:induction false} ReadLogged(log: seq<Call>, count: nat, got: seq<Byte>)
    requires History(log)
    ensures var log' := log + [Got(count, got)];
      && (History(log') <==>
          var waiting := |Accepted(log)| - |Delivered(log)|;
          waiting > 0 && got == Accepted(log)[|Delivered(log)|..|Delivered(log)| + Min(waiting, count)])
      && Delivered(log') == Delivered(log) + got
      && (History(log') ==> Accepted(log') == Accepted(log))
  {
    AllButLast(log, Got(count, got), log + [Got(count, got)]);
    GotLast(log, count, got, log + [Got(count, got)]);
  }

  lemma AllButLast(log: seq<Call>, c: Call, log': seq<Call>)
    requires log' == log + [c]
    ensures log'[..|log'| - 1] == log && log'[|log'| - 1] == c
  {
  }

  lemma {:induction false} GotLast(log: seq<Call>, count: nat, got: seq<Byte>, log': seq<Call>)
    requires History(log) && log' != [] && log'[..|log'| - 1] == log && log'[|log'| - 1] == Got(count, got)
    ensures History(log') <==>
      var waiting := |Accepted(log)| - |Delivered(log)|;
      waiting > 0 && got == Accepted(log)[|Delivered(log)|..|Delivered(log)| + Min(waiting, count)]
    ensures Delivered(log') == Delivered(log) + got
    ensures History(log') ==> Accepted(log') == Accepted(log)
  {
  }

  lemma {:induction false} AdvanceReadAgrees(s: State, t: nat, count: nat, n: nat, got: seq<Byte>)
    requires Agrees(s) && s.readPos < s.writePos && n == Min(s.writePos - s.readPos, count)
    requires got == s.buffer[s.readPos..s.readPos + n]
    ensures Agrees(Advance(s, t, Read(count), n, got))
  {
    SliceOfPrefix(s.buffer, s.readPos, n, s.writePos, got);
    ReadLogged(s.log, count, got);
    AgreesFrom(s, Advance(s, t, Read(count), n, got), s.buffer[..s.readPos] + got);
  }

  lemma SliceOfPrefix(buffer: seq<Byte>, at: nat, n: nat, end: nat, got: seq<Byte>)
    requires at + n <= end <= |buffer| && got == buffer[at..at + n]
    ensures got == buffer[..end][at..at + n] && buffer[..at] + got == buffer[..at + n]
  {
  }

  lemma {:induction false} AgreesFrom(s: State, s': State, delivered: seq<Byte>)
    requires Agrees(s) && s'.buffer == s.buffer && s'.writePos == s.writePos && s'.readPos <= s'.writePos
    requires History(s'.log) && Accepted(s'.log) == Accepted(s.log)
    requires Delivered(s'.log) == delivered && delivered == s.buffer[..s'.readPos]
    ensures Agrees(s')
  {
  }

  lemma {:induction false} AdvanceWriteAgrees(s: State, t: nat, data: seq<Byte>, n: nat, got: seq<Byte>)
    requires Agrees(s) && n == Min(|data|, CAPACITY - s.writePos) && s.buffer[s.writePos..s.writePos + n] == data[..n]
    ensures Agrees(Advance(s, t, Write(data), n, got))
  {
    var log' := s.log + [Wrote(data, n)];
    assert History(log') && Accepted(log') == s.buffer[..s.writePos] + data[..n]
      && Delivered(log') == s.buffer[..s.readPos] by {
      WriteLogged(s.log, data, n);
    }
    assert s.buffer[..s.writePos] + data[..n] == s.buffer[..s.writePos + n];
  }

  lemma {:induction false} WriteLogged(log: seq<Call>, data: seq<Byte>, n: nat)
    requires History(log) && |Accepted(log)| <= CAPACITY && n == Min(|data|, CAPACITY - |Accepted(log)|)
    ensures var log' := log + [Wrote(data, n)];
      History(log') && Accepted(log') == Accepted(log) + data[..n] && Delivered(log') == Delivered(log)
  {
    AllButLast(log, Wrote(data, n), log + [Wrote(data, n)]);
    WroteLast(log, data, n, log + [Wrote(data, n)]);
  }

  lemma {:induction false} WroteLast(log: seq<Call>, data: seq<Byte>, n: nat, log': seq<Call>)
    requires History(log) && log' != [] && log'[..|log'| - 1] == log && log'[|log'| - 1] == Wrote(data, n)
    ensures History(log') <==> |Accepted(log)| <= CAPACITY && n == Min(|data|, CAPACITY - |Accepted(log)|)
    ensures History(log') ==> Accepted(log') == Accepted(log) + data[..n]
    ensures Delivered(log') == Delivered(log)
  {
  }

  lemma AgreesKept(s: State, t: nat, op: Op)
    requires Inv(s) && t in s.pcs
    ensures Agrees(Step(s, t, op))
  {
    assert ThreadOk(s, t);
    match s.pcs[t]
    case Copying(Read(count), n, k, got) => if k == n { AdvanceReadAgrees(s, t, count, n, got); }
    case Copying(Write(data), n, k, got) =>
      if k == n {
        AdvanceWriteAgrees(s, t, data, n, got);
      } else {
        var buffer' := s.buffer[s.writePos + k := data[k]];
        assert buffer'[..s.writePos] == s.buffer[..s.writePos] && buffer'[..s.readPos] == s.buffer[..s.readPos];
      }
    case _ =>
  }

  // Only a thread inside touches the pipe, and a thread changes only its own place.
  lemma StepTouches(s: State, t: nat, op: Op)
    requires Sane(s) && t in s.pcs
    ensures t in Step(s, t, op).pcs && Step(s, t, op).pcs == s.pcs[t := Step(s, t, op).pcs[t]]
    ensures !Inside(s.pcs[t]) ==>
      Step(s, t, op).buffer == s.buffer && Step(s, t, op).readPos == s.readPos && Step(s, t, op).writePos == s.writePos
    ensures s.log <= Step(s, t, op).log
  {
  }

  lemma MoverKept(s: State, t: nat, op: Op)
    requires Sane(s) && t in s.pcs && InBounds(Step(s, t, op))
    ensures t in Step(s, t, op).pcs && ThreadOk(Step(s, t, op), t)
  {
    assert ThreadOk(s, t);
    if s.pcs[t].Copying? {
      if s.pcs[t].k < s.pcs[t].n {
        CopyKept(s, t, op);
      } else {
        AdvanceLogs(s, t, s.pcs[t].op, s.pcs[t].n, s.pcs[t].got);
      }
    }
  }

  lemma AdvanceLogs(s: State, t: nat, op: Op, n: nat, got: seq<Byte>)
    requires op.Read? ==> |got| == n
    ensures Logged(Advance(s, t, op, n, got).log, op, n, got, |s.log|)
  {
    var log' := Advance(s, t, op, n, got).log;
    assert log'[|s.log|] in log';
  }

  lemma CopyKept(s: State, t: nat, op: Op)
    requires Sane(s) && t in s.pcs && s.pcs[t].Copying? && s.pcs[t].k < s.pcs[t].n && InBounds(Step(s, t, op))
    ensures t in Step(s, t, op).pcs && ThreadOk(Step(s, t, op), t)
  {
    assert ThreadOk(s, t);
    var Copying(call, n, k, got) := s.pcs[t];
    match call
    case Read(count) => ReadOne(s.buffer, s.readPos, k);
    case Write(data) => WriteOne(s.buffer, s.writePos, k, data);
  }

  lemma ReadOne(buffer: seq<Byte>, at: nat, k: nat)
    requires at + k < |buffer|
    ensures buffer[at..at + k] + [buffer[at + k]] == buffer[at..at + k + 1]
  {
  }

  lemma WriteOne(buffer: seq<Byte>, at: nat, k: nat, data: seq<Byte>)
    requires at + k < |buffer| && k < |data| && buffer[at..at + k] == data[..k]
    ensures buffer[at + k := data[k]][at..at + k + 1] == data[..k + 1]
  {
    var written := buffer[at + k := data[k]];
    assert written[at..at + k] == buffer[at..at + k];
    ReadOne(written, at, k);
    assert data[..k] + [data[k]] == data[..k + 1];
  }

  // Any other thread is not inside when this one changes the pipe.
  lemma OtherKept(s: State, t: nat, op: Op, u: nat)
    requires Sane(s) && Exclusive(s) && t in s.pcs && u in s.pcs && u != t && InBounds(Step(s, t, op))
    ensures u in Step(s, t, op).pcs && ThreadOk(Step(s, t, op), u)
  {
    StepTouches(s, t, op);
    UnmovedOk(s, Step(s, t, op), t, u);
  }

  lemma UnmovedOk(s: State, s': State, t: nat, u: nat)
    requires Exclusive(s) && InBounds(s) && InBounds(s') && t in s.pcs && u in s.pcs && u != t && ThreadOk(s, u)
    requires u in s'.pcs && s'.pcs[u] == s.pcs[u]
    requires !Inside(s.pcs[t]) ==> s'.buffer == s.buffer && s'.readPos == s.readPos && s'.writePos == s.writePos
    requires s.log <= s'.log
    ensures ThreadOk(s', u)
  {
  }

  // A call that takes effect gets a new entry, so no other call has it.
  lemma EntriesKept(s: State, t: nat, op: Op)
    requires Sane(s) && OwnEntries(s) && t in s.pcs
    ensures OwnEntries(Step(s, t, op))
  {
    StepTouches(s, t, op);
    NewEntry(s, t, op);
    var s' := Step(s, t, op);
    forall u, v | u in s'.pcs && v in s'.pcs && u != v && Finished(s'.pcs[u]) && Finished(s'.pcs[v])
      ensures s'.pcs[u].at != s'.pcs[v].at
    {
      if u != t { assert ThreadOk(s, u); }
      if v != t { assert ThreadOk(s, v); }
    }
  }

  lemma NewEntry(s: State, t: nat, op: Op)
    requires t in s.pcs && Defined(s, t)
    ensures t in Step(s, t, op).pcs
    ensures var pc := Step(s, t, op).pcs[t]; Finished(pc) ==>
      pc.at == if Finished(s.pcs[t]) then s.pcs[t].at else |s.log|
  {
  }

  lemma StepKeeps(s: State, t: nat, op: Op)
    requires Inv(s) && t in s.pcs
    ensures Inv(Step(s, t, op))
  {
    ExclusiveKept(s, t, op);
    AgreesKept(s, t, op);
    EntriesKept(s, t, op);
    forall u | u in Step(s, t, op).pcs
      ensures ThreadOk(Step(s, t, op), u)
    {
      if u == t { MoverKept(s, t, op); } else { OtherKept(s, t, op, u); }
    }
  }

  // ---- runs

  datatype Choice = Choice(thread: nat, op: Op)

  // Any interleaving: at each step some thread moves. Of a step that is not defined nothing is
  // said; PipeSafe has none.
  ghost predicate Run(states: seq<State>, choices: seq<Choice>) {
    && |states| == |choices| + 1 && Start(states[0])
    && forall i :: 0 <= i < |choices| ==>
         && choices[i].thread in states[i].pcs
         && (Defined(states[i], choices[i].thread) ==>
             states[i + 1] == Step(states[i], choices[i].thread, choices[i].op))
  }

  lemma {:induction false} RunKeeps(states: seq<State>, choices: seq<Choice>, n: nat)
    requires Run(states, choices) && n < |states|
    ensures Inv(states[n])
  {
    if n > 0 {
      RunKeeps(states, choices, n - 1);
      StepDefined(states[n - 1], choices[n - 1].thread);
      StepKeeps(states[n - 1], choices[n - 1].thread, choices[n - 1].op);
    }
  }

  // The history only grows, so entries handed out at different times differ as well.
  lemma {:induction false} LogGrows(states: seq<State>, choices: seq<Choice>, i: nat, j: nat)
    requires Run(states, choices) && i <= j < |states|
    ensures states[i].log <= states[j].log
    decreases j
  {
    if i < j {
      LogGrows(states, choices, i, j - 1);
      RunKeeps(states, choices, j - 1);
      StepDefined(states[j - 1], choices[j - 1].thread);
      StepTouches(states[j - 1], choices[j - 1].thread, choices[j - 1].op);
    }
  }

  lemma StepDefined(s: State, t: nat)
    requires Sane(s) && t in s.pcs
    ensures Defined(s, t)
  {
    assert ThreadOk(s, t);
  }

  // In every state of every interleaving: every next step is defined, one thread at most is
  // inside, the positions are in order, what was read is a prefix of what was accepted, at most
  // 4096 bytes ever are, and every finished call is an entry of its own in the history, with its
  // result.
  lemma PipeSafe(states: seq<State>, choices: seq<Choice>, n: nat)
    requires Run(states, choices) && n < |states|
    ensures var s := states[n];
      && (forall t :: t in s.pcs ==> Defined(s, t))
      && (forall t, u :: t in s.pcs && u in s.pcs && Inside(s.pcs[t]) && Inside(s.pcs[u]) ==> t == u)
      && s.readPos <= s.writePos <= 4096
      && History(s.log) && Delivered(s.log) <= Accepted(s.log) && |Accepted(s.log)| == s.writePos
      && (forall t :: t in s.pcs && s.pcs[t].Done? ==>
         Logged(s.log, s.pcs[t].op, s.pcs[t].n, s.pcs[t].got, s.pcs[t].at))
      && OwnEntries(s)
  {
    RunKeeps(states, choices, n);
    InvMeans(states[n]);
  }

  lemma InvMeans(s: State)
    requires Inv(s)
    ensures forall t :: t in s.pcs ==> Defined(s, t)
    ensures Delivered(s.log) <= Accepted(s.log) && |Accepted(s.log)| == s.writePos
    ensures forall t :: t in s.pcs && s.pcs[t].Done? ==>
      Logged(s.log, s.pcs[t].op, s.pcs[t].n, s.pcs[t].got, s.pcs[t].at)
  {
    HistoryIsFifo(s.log);
    forall t | t in s.pcs
      ensures Defined(s, t)
    {
      StepDefined(s, t);
    }
    forall t | t in s.pcs && s.pcs[t].Done?
      ensures Logged(s.log, s.pcs[t].op, s.pcs[t].n, s.pcs[t].got, s.pcs[t].at)
    {
      assert ThreadOk(s, t);
    }
  }

  // ---- every result is the caller's own

  // Thread t makes its call at step i and has not been idle since, up to state n.
  ghost predicate Called(states: seq<State>, choices: seq<Choice>, t: nat, i: nat, n: nat) {
    && i < n < |states| && i < |choices| && choices[i].thread == t && t in states[i].pcs && states[i].pcs[t].Idle?
    && forall j :: i < j <= n ==> t in states[j].pcs && !states[j].pcs[t].Idle?
  }

  // A step leaves the call of every thread alone, but for a mover that was idle or done.
  lemma StepKeepsCall(s: State, t: nat, op: Op, u: nat)
    requires Sane(s) && t in s.pcs && u in s.pcs
    ensures u in Step(s, t, op).pcs
    ensures var pc, pc' := s.pcs[u], Step(s, t, op).pcs[u];
      && (pc'.Idle? <==> if u == t then pc.Done? else pc.Idle?)
      && (!pc'.Idle? ==> pc'.op == if pc.Idle? then op else pc.op)
      && (Finished(pc') ==> pc'.at == if Finished(pc) then pc.at else |s.log|)
  {
    StepDefined(s, t);
    StepTouches(s, t, op);
    NewEntry(s, t, op);
  }

  lemma RunStep(states: seq<State>, choices: seq<Choice>, n: nat)
    requires Run(states, choices) && n < |choices|
    ensures var t := choices[n].thread;
      && Inv(states[n]) && t in states[n].pcs && Defined(states[n], t)
      && states[n + 1] == Step(states[n], t, choices[n].op)
  {
    RunKeeps(states, choices, n);
    StepDefined(states[n], choices[n].thread);
  }

  // From the call until it is done, through every wait, a thread carries the call it made.
  lemma {:induction false} CarriesCall(states: seq<State>, choices: seq<Choice>, t: nat, i: nat, n: nat)
    requires Run(states, choices) && Called(states, choices, t, i, n)
    ensures states[n].pcs[t].op == choices[i].op
    ensures Finished(states[n].pcs[t]) ==> |states[i].log| <= states[n].pcs[t].at
    decreases n
  {
    var k := n - 1;
    RunStep(states, choices, k);
    StepKeepsCall(states[k], choices[k].thread, choices[k].op, t);
    LogGrows(states, choices, i, k);
    if i < k { CarriesCall(states, choices, t, i, k); }
  }

  // A thread that is not idle has made a call.
  lemma {:induction false} BusyCalled(states: seq<State>, choices: seq<Choice>, t: nat, n: nat) returns (i: nat)
    requires Run(states, choices) && n < |states| && t in states[n].pcs && !states[n].pcs[t].Idle?
    ensures Called(states, choices, t, i, n)
  {
    RunStep(states, choices, n - 1);
    var u, s := choices[n - 1].thread, states[n - 1];
    StepTouches(s, u, choices[n - 1].op);
    assert t in s.pcs;
    StepKeepsCall(s, u, choices[n - 1].op, t);
    if s.pcs[t].Idle? { i := n - 1; } else { i := BusyCalled(states, choices, t, n - 1); }
  }

  // Every finished call took effect once, between the call and its end: entry `at` of the history
  // is the call that this thread made, with the result that it gets, and was made since.
  lemma Linearized(states: seq<State>, choices: seq<Choice>, t: nat, n: nat) returns (i: nat)
    requires Run(states, choices) && n < |states| && t in states[n].pcs && states[n].pcs[t].Done?
    ensures Called(states, choices, t, i, n)
    ensures var Done(_, k, got, at) := states[n].pcs[t];
      |states[i].log| <= at && Logged(states[n].log, choices[i].op, k, got, at)
  {
    i := BusyCalled(states, choices, t, n);
    CarriesCall(states, choices, t, i, n);
    PipeSafe(states, choices, n);
  }

  // ---- and comes

  // Thread t is inside, and its call can take effect: a read has something to read.
  predicate Finishing(s: State, t: nat) {
    && t in s.pcs && Inside(s.pcs[t]) && !s.pcs[t].UnlockEmpty?
    && (s.pcs[t].Locked? && s.pcs[t].op.Read? ==> s.readPos != s.writePos)
  }

  // The bytes that a call moves when it gets the lock now.
  function Moves(s: State, op: Op): int {
    match op
    case Read(count) => if s.writePos - s.readPos <= count then s.writePos - s.readPos else count
    case Write(data) => if |data| <= CAPACITY - s.writePos then |data| else CAPACITY - s.writePos
  }

  // The steps that thread t still needs.
  function StepsLeft(s: State, t: nat): int
    requires t in s.pcs
  {
    match s.pcs[t]
    case Locked(op) => Moves(s, op) + 3
    case Copying(_, n, k, _) => n - k + 2
    case Unlock(_, _, _, _) => 1
    case _ => 0
  }

  lemma OwnStep(s: State, t: nat, op: Op)
    requires Inv(s) && Finishing(s, t)
    ensures StepsLeft(s, t) > 0
    ensures var s' := Step(s, t, op);
      && t in s'.pcs && StepsLeft(s', t) == StepsLeft(s, t) - 1
      && (Finishing(s', t) || (s'.pcs[t].Done? && StepsLeft(s, t) == 1))
  {
    assert ThreadOk(s, t);
  }

  lemma OthersStep(s: State, t: nat, u: nat, op: Op)
    requires Inv(s) && Finishing(s, t) && u in s.pcs && u != t
    ensures Finishing(Step(s, u, op), t) && StepsLeft(Step(s, u, op), t) == StepsLeft(s, t)
  {
    StepTouches(s, u, op);
  }

  // How often thread t moves from step i to step n.
  function OwnMoves(choices: seq<Choice>, t: nat, i: nat, n: nat): nat
    requires i <= n <= |choices|
  {
    if i == n then 0 else OwnMoves(choices, t, i, n - 1) + if choices[n - 1].thread == t then 1 else 0
  }

  // Once inside with something to do, a call ends after a fixed number of the thread's own steps,
  // whatever the others do: three, and one per byte.
  lemma {:induction false} EndsInOwnSteps(states: seq<State>, choices: seq<Choice>, t: nat, i: nat, n: nat)
    requires Run(states, choices) && i <= n < |states| && Finishing(states[i], t)
    requires OwnMoves(choices, t, i, n) <= StepsLeft(states[i], t)
    ensures t in states[n].pcs
    ensures if OwnMoves(choices, t, i, n) == StepsLeft(states[i], t) then states[n].pcs[t].Done?
      else Finishing(states[n], t) && StepsLeft(states[n], t) == StepsLeft(states[i], t) - OwnMoves(choices, t, i, n)
    decreases n
  {
    RunKeeps(states, choices, i);
    OwnStep(states[i], t, Read(0));
    if i < n {
      var k := n - 1;
      EndsInOwnSteps(states, choices, t, i, k);
      RunStep(states, choices, k);
      AnyStep(states[k], choices[k].thread, choices[k].op, t, states[n]);
    }
  }

  // A step on the way to the end, or at the end.
  lemma AnyStep(s: State, u: nat, op: Op, t: nat, s': State)
    requires Inv(s) && u in s.pcs && s' == Step(s, u, op) && t in s.pcs
    requires Finishing(s, t) || (s.pcs[t].Done? && u != t)
    ensures t in s'.pcs
    ensures if u == t then
        StepsLeft(s', t) == StepsLeft(s, t) - 1 && if StepsLeft(s', t) == 0 then s'.pcs[t].Done? else Finishing(s', t)
      else if Finishing(s, t) then Finishing(s', t) && StepsLeft(s', t) == StepsLeft(s, t)
      else s'.pcs[t].Done?
  {
    if u == t {
      OwnStep(s, t, op);
      if Finishing(s', t) {
        StepKeeps(s, t, op);
        OwnStep(s', t, op);
      }
    } else if Finishing(s, t) {
      OthersStep(s, t, u, op);
    } else {
      StepTouches(s, u, op);
    }
  }

  // While no thread is inside, a waiting thread is inside after two steps of its own at most.
  lemma GetsInside(s: State, t: nat, a: Op, b: Op)
    requires Inv(s) && t in s.pcs && s.pcs[t].Waits? && !s.lock
    ensures var s' := Step(s, t, a);
      if s.pcs[t].w.Exchange? then s'.lock && s'.pcs == s.pcs[t := Locked(s.pcs[t].op)]
      else Defined(s', t) && Step(s', t, b).lock && Step(s', t, b).pcs == s.pcs[t := Locked(s.pcs[t].op)]
  {
  }

  // ---- what a pipe accepts in its life

  // All bytes that callers have asked to write.
  function Asked(log: seq<Call>): seq<Byte> {
    if log == [] then []
    else
      var k := |log| - 1;
      Asked(log[..k]) + if log[k].Wrote? then log[k].data else []
  }

  // Reading makes no room: a pipe accepts the first 4096 bytes it is asked to, and no more.
  lemma {:induction false} AcceptsOnce(log: seq<Call>)
    requires History(log)
    ensures Accepted(log) == Asked(log)[..Min(|Asked(log)|, 4096)]
  {
    if log != [] {
      var k := |log| - 1;
      AcceptsOnce(log[..k]);
      if log[k].Wrote? { AcceptsNext(Asked(log[..k]), log[k].data, log[k].n); }
    }
  }

  lemma AcceptsNext(asked: seq<Byte>, data: seq<Byte>, n: nat)
    requires n == Min(|data|, CAPACITY - Min(|asked|, CAPACITY))
    ensures asked[..Min(|asked|, CAPACITY)] + data[..n] == (asked + data)[..Min(|asked + data|, CAPACITY)]
  {
  }

  // A write is accepted whole exactly when it fits into what is left of the 4096 bytes of the
  // pipe's life.
  lemma {:induction false} WholeIff(log: seq<Call>, k: nat)
    requires History(log) && k < |log| && log[k].Wrote?
    ensures History(log[..k])
    ensures log[k].n == |log[k].data| <==> |Accepted(log[..k])| + |log[k].data| <= 4096
    ensures log[k].n == |log[k].data| <==> |log[k].data| == 0 || |Asked(log[..k])| + |log[k].data| <= 4096
  {
    HistoryPrefix(log, k);
    HistoryPrefix(log, k + 1);
    AcceptsOnce(log[..k]);
    assert log[..k + 1][..k] == log[..k];
  }

  // 4096 bytes written, 4096 bytes read: the empty pipe takes nothing of the next write.
  lemma {:induction false} EmptyAndFull(data: seq<Byte>, b: Byte, n: nat)
    requires |data| == 4096
    ensures var log := [Wrote(data, 4096), Got(4096, data), Wrote([b], n)];
      History(log[..2]) && Delivered(log[..2]) == Accepted(log[..2]) && (History(log) <==> n == 0)
  {
    var empty: seq<Call> := [];
    var one := empty + [Wrote(data, CAPACITY)];
    var two := one + [Got(CAPACITY, data)];
    var log := two + [Wrote([b], n)];
    WriteLogged(empty, data, CAPACITY);
    assert Accepted(one) == data && Delivered(one) == [];
    ReadLogged(one, CAPACITY, data);
    assert History(two) && Accepted(two) == data && Delivered(two) == data;
    AllButLast(two, Wrote([b], n), log);
    WroteLast(two, [b], n, log);
    assert log == [Wrote(data, CAPACITY), Got(CAPACITY, data), Wrote([b], n)] && log[..2] == two;
  }

  // A write that is cut short is the last to be accepted at all: the positions never go back.
  lemma {:induction false} FullForEver(log: seq<Call>, i: nat, j: nat)
    requires History(log) && i < j < |log| && log[i].Wrote? && log[j].Wrote? && log[i].n < |log[i].data|
    ensures log[j].n == 0
  {
    HistoryPrefix(log, j + 1);
    FullAtLast(log[..j + 1], i);
  }

  lemma {:induction false} FullAtLast(log: seq<Call>, i: nat)
    requires History(log) && i < |log| - 1 && log[i].Wrote? && log[|log| - 1].Wrote? && log[i].n < |log[i].data|
    ensures log[|log| - 1].n == 0
  {
    var before := log[..|log| - 1];
    FillsUp(before, i);
    HistoryIsFifo(before);
    TakesNothing(log);
  }

  lemma {:induction false} TakesNothing(log: seq<Call>)
    requires History(log) && log != [] && log[|log| - 1].Wrote? && |Accepted(log[..|log| - 1])| == CAPACITY
    ensures log[|log| - 1].n == 0
  {
  }

  // After a write that is cut short the pipe is full, for good.
  lemma {:induction false} FillsUp(log: seq<Call>, i: nat)
    requires History(log) && i < |log| && log[i].Wrote? && log[i].n < |log[i].data|
    ensures |Accepted(log)| >= CAPACITY
    decreases |log|
  {
    var k := |log| - 1;
    if i < k { FillsUp(log[..k], i); }
  }

  lemma {:induction false} HistoryPrefix(log: seq<Call>, k: nat)
    requires History(log) && k <= |log|
    ensures History(log[..k])
    decreases |log|
  {
    if k == |log| {
      assert log[..k] == log;
    } else {
      HistoryPrefix(log[..|log| - 1], k);
      assert log[..|log| - 1][..k] == log[..k];
    }
  }
}
