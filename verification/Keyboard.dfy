/** The keyboard ring: push and keyboard_poll of kernel/drivers/keyboard.c.

The interrupt side pushes without a lock; any number of pollers take kb_lock. Each shared read
or write is a step. `accepted` and `polled` are the characters published and taken so far. */
module Keyboard {
  import opened Spinlock
  import opened Wrappers

  datatype Pusher =
    | Quiet
    | Next(c: char)                  // about to read wp
    | Check(c: char, next: nat)      // about to compare next with rp
    | Fill(c: char, next: nat)       // about to write buf[wp]
    | Publish(c: char, next: nat)    // about to write wp

  datatype Poller =
    | Away
    | Waits(w: Waiting)              // in spin_lock
    | ReadRp
    | ReadWp(r: nat)                 // about to compare r with wp
    | Fetch                          // about to read buf[rp]
    | Advance(c: char)               // about to write rp
    | Unlock(c: char, at: Option<nat>)  // the character and which of the polled ones it is, if any
    | Done(c: char, at: Option<nat>)

  datatype State = State(buf: seq<char>, rp: nat, wp: nat, lock: bool, pusher: Pusher, pollers: map<nat, Poller>,
                         accepted: seq<char>, polled: seq<char>)

  predicate Inside(p: Poller) { p.ReadRp? || p.ReadWp? || p.Fetch? || p.Advance? || p.Unlock? }

  // After keyboard_init.
  ghost predicate Start(s: State) {
    && |s.buf| == 256 && s.rp == 0 && s.wp == 0 && !s.lock && s.pusher == Quiet && s.accepted == [] && s.polled == []
    && forall t :: t in s.pollers ==> s.pollers[t].Away?
  }

  // ---- what holds between steps

  // The slot of the i-th character.
  function Slot(i: nat): (j: nat) ensures j < 256 { i % 256 }

  // |accepted| and |polled| count the wraps that wp and rp forget.
  ghost predicate RingOk(s: State) {
    && |s.buf| == 256 && s.polled <= s.accepted && |s.accepted| - |s.polled| <= 255
    && s.wp == |s.accepted| % 256 && s.rp == |s.polled| % 256
    && forall i :: |s.polled| <= i < |s.accepted| ==> s.buf[Slot(i)] == s.accepted[i]
  }

  ghost predicate PusherOk(s: State)
    requires RingOk(s)
  {
    match s.pusher
    case Quiet => true
    case Next(_) => true
    case Check(_, next) => next == (s.wp + 1) % 256
    case Fill(_, next) => next == (s.wp + 1) % 256 && |s.accepted| - |s.polled| < 255
    case Publish(c, next) => next == (s.wp + 1) % 256 && |s.accepted| - |s.polled| < 255 && s.buf[s.wp] == c
  }

  ghost predicate PollerOk(s: State, t: nat)
    requires RingOk(s) && t in s.pollers
  {
    match s.pollers[t]
    case ReadWp(r) => r == s.rp
    case Fetch => |s.polled| < |s.accepted|
    case Advance(c) => |s.polled| < |s.accepted| && c == s.accepted[|s.polled|]
    case Unlock(c, at) => Taken(s.polled, c, at)
    case Done(c, at) => Taken(s.polled, c, at)
    case _ => true
  }

  // The result of a poll is one of the polled characters, or 0 if there was none.
  predicate Taken(polled: seq<char>, c: char, at: Option<nat>) {
    if at.None? then c == '\0' else at.value < |polled| && c == polled[at.value]
  }

  predicate Has(p: Poller) { (p.Unlock? || p.Done?) && p.at.Some? }

  // No character goes to two polls.
  ghost predicate OwnCharacters(s: State) {
    forall t, u :: t in s.pollers && u in s.pollers && t != u && Has(s.pollers[t]) && Has(s.pollers[u]) ==>
      s.pollers[t].at != s.pollers[u].at
  }

  ghost predicate Exclusive(s: State) {
    && (forall t :: t in s.pollers && Inside(s.pollers[t]) ==> s.lock)
    && (forall t, u :: t in s.pollers && u in s.pollers && Inside(s.pollers[t]) && Inside(s.pollers[u]) ==> t == u)
  }

  ghost predicate Inv(s: State) {
    && RingOk(s) && Exclusive(s) && PusherOk(s)
    && (forall t :: t in s.pollers ==> PollerOk(s, t))
    && OwnCharacters(s)
  }

  // ---- steps

  // The array accesses of a step are in range.
  predicate Bounded(s: State) { |s.buf| == 256 && s.wp < 256 && s.rp < 256 }

  // One step of push; c is the character when a new interrupt arrives.
  function Push(s: State, c: char): State
    requires Bounded(s)
  {
    match s.pusher
    case Quiet => s.(pusher := Next(c))
    case Next(c) => s.(pusher := Check(c, (s.wp + 1) % 256))
    case Check(c, next) => s.(pusher := if next != s.rp then Fill(c, next) else Quiet)
    case Fill(c, next) => s.(buf := s.buf[s.wp := c], pusher := Publish(c, next))
    case Publish(c, next) => s.(wp := next, pusher := Quiet, accepted := s.accepted + [c])
  }

  // One step of keyboard_poll by thread t.
  function Poll(s: State, t: nat): State
    requires Bounded(s) && t in s.pollers
  {
    match s.pollers[t]
    case Away => s.(pollers := s.pollers[t := Waits(Exchange)])
    case Waits(w) =>
      var (lock, still) := Acquire(s.lock, w);
      s.(lock := lock, pollers := s.pollers[t := if still.Some? then Waits(still.value) else ReadRp])
    case ReadRp => s.(pollers := s.pollers[t := ReadWp(s.rp)])
    case ReadWp(r) => s.(pollers := s.pollers[t := if r != s.wp then Fetch else Unlock('\0', None)])
    case Fetch => s.(pollers := s.pollers[t := Advance(s.buf[s.rp])])
    case Advance(c) =>
      s.(rp := (s.rp + 1) % 256, pollers := s.pollers[t := Unlock(c, Some(|s.polled|))], polled := s.polled + [c])
    case Unlock(c, at) => s.(lock := false, pollers := s.pollers[t := Done(c, at)])
    case Done(_, _) => s.(pollers := s.pollers[t := Away])
  }

  // The ring is full exactly when the next write position is rp.
  lemma FullIff(s: State)
    requires RingOk(s)
    ensures (s.wp + 1) % 256 == s.rp <==> |s.accepted| - |s.polled| == 255
    ensures s.wp == s.rp <==> |s.accepted| == |s.polled|
  {
    var w, r := |s.accepted|, |s.polled|;
    var d := w - r;
    assert w == r + d;
  }

  lemma NextSlot(n: nat)
    ensures (n % 256 + 1) % 256 == (n + 1) % 256
  {
  }

  lemma FillKeeps(s: State, c: char)
    requires Inv(s) && s.pusher.Fill?
    ensures RingOk(Push(s, c)) && PusherOk(Push(s, c))
  {
    var s', w := Push(s, c), |s.accepted|;
    forall i | |s.polled| <= i < w
      ensures s'.buf[Slot(i)] == s.accepted[i]
    {
      var d := w - i;
      assert w == i + d && Slot(i) != Slot(w);
    }
  }

  lemma PublishKeeps(s: State, c: char)
    requires Inv(s) && s.pusher.Publish?
    ensures RingOk(Push(s, c))
  {
    assert s.wp == Slot(|s.accepted|);
    NextSlot(|s.accepted|);
  }

  lemma PushKeeps(s: State, c: char)
    requires Inv(s)
    ensures Inv(Push(s, c))
  {
    var s' := Push(s, c);
    if s.pusher.Fill? { FillKeeps(s, c); }
    if s.pusher.Publish? { PublishKeeps(s, c); }
    if s.pusher.Check? { FullIff(s); }
    forall t | t in s'.pollers
      ensures RingOk(s') && PollerOk(s', t)
    {
      assert PollerOk(s, t);
    }
  }

  lemma AdvanceKeeps(s: State, t: nat)
    requires Inv(s) && t in s.pollers && s.pollers[t].Advance?
    ensures RingOk(Poll(s, t)) && PusherOk(Poll(s, t))
  {
    assert PollerOk(s, t);
    NextSlot(|s.polled|);
  }

  lemma PollKeeps(s: State, t: nat)
    requires Inv(s) && t in s.pollers
    ensures Inv(Poll(s, t))
  {
    PollKeepsRing(s, t);
    forall u | u in Poll(s, t).pollers
      ensures PollerOk(Poll(s, t), u)
    {
      PollerKept(s, t, u);
    }
    OwnCharactersKept(s, t);
  }

  lemma PollKeepsRing(s: State, t: nat)
    requires Inv(s) && t in s.pollers
    ensures RingOk(Poll(s, t)) && PusherOk(Poll(s, t)) && Exclusive(Poll(s, t))
  {
    assert PollerOk(s, t);
    if s.pollers[t].Advance? { AdvanceKeeps(s, t); }
  }

  lemma PollerKept(s: State, t: nat, u: nat)
    requires Inv(s) && t in s.pollers && u in s.pollers && RingOk(Poll(s, t))
    ensures u in Poll(s, t).pollers && PollerOk(Poll(s, t), u)
  {
    assert PollerOk(s, t) && PollerOk(s, u);
    if s.pollers[t].ReadWp? { FullIff(s); }
    if s.pollers[t].Fetch? { assert s.buf[Slot(|s.polled|)] == s.accepted[|s.polled|]; }
  }

  lemma OwnCharactersKept(s: State, t: nat)
    requires Inv(s) && t in s.pollers
    ensures OwnCharacters(Poll(s, t))
  {
    var s' := Poll(s, t);
    forall u, v | u in s'.pollers && v in s'.pollers && u != v && Has(s'.pollers[u]) && Has(s'.pollers[v])
      ensures s'.pollers[u].at != s'.pollers[v].at
    {
      assert u != t ==> PollerOk(s, u);
      assert v != t ==> PollerOk(s, v);
    }
  }

  // A character is dropped exactly when 255 are held at the moment rp is read, and a poll finds
  // nothing exactly when none is held at the moment wp is read.
  lemma DropOnlyWhenFull(s: State, c: char, t: nat)
    requires Inv(s) && t in s.pollers
    ensures s.pusher.Check? ==> (Push(s, c).pusher == Quiet <==> |s.accepted| - |s.polled| == 255)
    ensures s.pollers[t].ReadWp? ==> (Poll(s, t).pollers[t].Unlock? <==> |s.accepted| == |s.polled|)
  {
    FullIff(s);
    assert PollerOk(s, t);
  }

  // ---- runs

  datatype Move = Pushes(c: char) | Polls(t: nat)

  // Any interleaving of the pusher's and the pollers' steps. Of a state out of bounds nothing is
  // said; KeyboardSafe has none.
  ghost predicate Run(states: seq<State>, moves: seq<Move>) {
    && |states| == |moves| + 1 && Start(states[0])
    && forall i :: 0 <= i < |moves| && Bounded(states[i]) ==>
         match moves[i]
         case Pushes(c) => states[i + 1] == Push(states[i], c)
         case Polls(t) => t in states[i].pollers && states[i + 1] == Poll(states[i], t)
  }

  // Characters are polled in the order in which they were accepted, each once, and at most 255
  // are held, in every state of every interleaving.
  lemma {:induction false} KeyboardSafe(states: seq<State>, moves: seq<Move>, n: nat)
    requires Run(states, moves) && n < |states|
    ensures Inv(states[n])
    ensures states[n].polled <= states[n].accepted && |states[n].accepted| - |states[n].polled| <= 255
    ensures OwnCharacters(states[n])
  {
    if n > 0 {
      KeyboardSafe(states, moves, n - 1);
      match moves[n - 1]
      case Pushes(c) => PushKeeps(states[n - 1], c);
      case Polls(t) => PollKeeps(states[n - 1], t);
    }
  }

  lemma RunStep(states: seq<State>, moves: seq<Move>, n: nat)
    requires Run(states, moves) && n < |moves|
    ensures Inv(states[n])
    ensures match moves[n]
      case Pushes(c) => states[n + 1] == Push(states[n], c)
      case Polls(t) => t in states[n].pollers && states[n + 1] == Poll(states[n], t)
  {
    KeyboardSafe(states, moves, n);
    assert Bounded(states[n]);
  }

  // ---- every push and every poll

  // The interrupt of step i brings c, and its push is not finished at state n.
  ghost predicate Pushing(states: seq<State>, moves: seq<Move>, i: nat, n: nat, c: char) {
    && i < n < |states| && i < |moves| && moves[i] == Pushes(c) && states[i].pusher.Quiet?
    && forall j :: i < j <= n ==> !states[j].pusher.Quiet?
  }

  function Held(s: State): int { |s.accepted| - |s.polled| }

  // Until a push ends, its character is the one that the interrupt brought, and is not accepted.
  lemma {:induction false} CarriesCharacter(states: seq<State>, moves: seq<Move>, i: nat, n: nat, c: char)
    requires Run(states, moves) && Pushing(states, moves, i, n, c)
    ensures states[n].pusher.c == c && states[n].accepted == states[i].accepted
    decreases n
  {
    RunStep(states, moves, n - 1);
    if i < n - 1 { CarriesCharacter(states, moves, i, n - 1, c); }
  }

  // A push ends with its character accepted behind all others, or dropped because 255 were held
  // when rp was read.
  lemma PushEnds(states: seq<State>, moves: seq<Move>, i: nat, n: nat, c: char)
    requires Run(states, moves) && Pushing(states, moves, i, n, c) && n + 1 < |states| && states[n + 1].pusher.Quiet?
    ensures states[n + 1].accepted == states[i].accepted + [c] || (Held(states[n]) == 255
      && states[n + 1].accepted == states[i].accepted)
  {
    CarriesCharacter(states, moves, i, n, c);
    RunStep(states, moves, n);
    FullIff(states[n]);
  }

  // Each step of the pusher takes it on: a push ends after four of them.
  function PushLeft(p: Pusher): nat {
    match p case Quiet => 0 case Next(_) => 4 case Check(_, _) => 3 case Fill(_, _) => 2 case Publish(_, _) => 1
  }

  lemma PushGoesOn(s: State, c: char, t: nat)
    requires Inv(s) && t in s.pollers
    ensures !s.pusher.Quiet? ==> PushLeft(Push(s, c).pusher) < PushLeft(s.pusher)
    ensures Poll(s, t).pusher == s.pusher
  {
  }

  // Poll t begins at step i and is not over at state n.
  ghost predicate Polling(states: seq<State>, moves: seq<Move>, i: nat, n: nat, t: nat) {
    && i < n < |states| && i < |moves| && moves[i] == Polls(t) && t in states[i].pollers && states[i].pollers[t].Away?
    && forall j :: i < j <= n ==> t in states[j].pollers && !states[j].pollers[t].Away?
  }

  // What poll t has found out by state n.
  ghost predicate PolledSo(states: seq<State>, i: nat, n: nat, t: nat)
    requires i < n < |states| && t in states[n].pollers
  {
    match states[n].pollers[t]
    case Unlock(_, at) => PolledSince(states, i, n, at)
    case Done(_, at) => PolledSince(states, i, n, at)
    case _ => true
  }

  // A character was taken since state i, or at some state since there was none.
  ghost predicate PolledSince(states: seq<State>, i: nat, n: nat, at: Option<nat>)
    requires i < n < |states|
  {
    if at.Some? then |states[i].polled| <= at.value else exists j :: i < j < n && Held(states[j]) == 0
  }

  lemma {:induction false} PolledGrows(states: seq<State>, moves: seq<Move>, i: nat, n: nat)
    requires Run(states, moves) && i <= n < |states|
    ensures |states[i].polled| <= |states[n].polled|
    decreases n
  {
    if i < n {
      PolledGrows(states, moves, i, n - 1);
      RunStep(states, moves, n - 1);
    }
  }

  lemma {:induction false} PollFinds(states: seq<State>, moves: seq<Move>, i: nat, n: nat, t: nat)
    requires Run(states, moves) && Polling(states, moves, i, n, t)
    ensures PolledSo(states, i, n, t)
    decreases n
  {
    var k := n - 1;
    RunStep(states, moves, k);
    PolledGrows(states, moves, i, k);
    if i < k {
      PollFinds(states, moves, i, k, t);
      if moves[k] == Polls(t) { PollStepFinds(states, i, k, t); }
    }
  }

  lemma PollStepFinds(states: seq<State>, i: nat, k: nat, t: nat)
    requires i < k && k + 1 < |states| && t in states[k].pollers && Inv(states[k]) && PolledSo(states, i, k, t)
    requires states[k + 1] == Poll(states[k], t) && |states[i].polled| <= |states[k].polled|
    ensures PolledSo(states, i, k + 1, t)
  {
    assert PollerOk(states[k], t);
    FullIff(states[k]);
  }

  // A poll returns a character that it took itself, the next in order at that time, or 0, and then
  // there was none to take at some time during the poll.
  lemma PollEnds(states: seq<State>, moves: seq<Move>, i: nat, n: nat, t: nat)
    requires Run(states, moves) && Polling(states, moves, i, n, t) && states[n].pollers[t].Done?
    ensures var Done(c, at) := states[n].pollers[t];
      if at.Some? then |states[i].polled| <= at.value < |states[n].accepted| && c == states[n].accepted[at.value]
      else c == '\0' && exists j :: i < j < n && Held(states[j]) == 0
  {
    PollFinds(states, moves, i, n, t);
    KeyboardSafe(states, moves, n);
    assert PollerOk(states[n], t);
  }

  // Each step of a poller inside takes it on, whatever the others do: it is out after five.
  function PollLeft(p: Poller): nat {
    match p
    case ReadRp => 5
    case ReadWp(_) => 4
    case Fetch => 3
    case Advance(_) => 2
    case Unlock(_, _) => 1
    case _ => 0
  }

  lemma PollGoesOn(s: State, t: nat, u: nat, c: char)
    requires Inv(s) && t in s.pollers && u in s.pollers && Inside(s.pollers[t])
    ensures PollLeft(Poll(s, t).pollers[t]) < PollLeft(s.pollers[t])
    ensures PollLeft(Poll(s, t).pollers[t]) == 0 ==> Poll(s, t).pollers[t].Done?
    ensures u != t ==> Poll(s, u).pollers[t] == s.pollers[t]
    ensures Push(s, c).pollers[t] == s.pollers[t]
  {
  }
}
