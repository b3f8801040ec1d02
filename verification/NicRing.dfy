/** The receive descriptor ring of the network card:
drivers/net/ethernet/intel/relis_nic/nic_netdev.c.

The driver polls; the device fills the descriptor at RDH only while RDH differs from RDT
(section 3.2.6 of the Intel 8254x Software Developer's Manual). Reads and writes of the ring
and of the registers by either side are separate steps. */
module NicRing {
  // A descriptor: the packet length and the done bit of its status.
  datatype Desc = Desc(length: nat, done: bool)

  datatype Device = Waiting | Filled(length: nat) | Marked      // before the length, the done bit, the RDH update

  datatype Driver =
    | Away
    | Test(next: nat)                    // RDT read; about to test the done bit
    | ReadLength(next: nat)
    | ClearStatus(next: nat, length: nat)
    | WriteTail(next: nat)

  // `heads` and `tails` count the advances of RDH and RDT, which the registers keep modulo 32.
  datatype State = State(ring: seq<Desc>, rdh: nat, rdt: nat, device: Device, driver: Driver,
                         arrived: seq<nat>, reported: seq<nat>, heads: nat, tails: nat)

  // nic_rx_init
  ghost predicate Start(s: State) {
    && |s.ring| == 32 && (forall i :: 0 <= i < 32 ==> !s.ring[i].done) && s.rdh == 0 && s.rdt == 32 - 1
    && s.device == Waiting && s.driver == Away && s.arrived == [] && s.reported == [] && s.heads == 0 && s.tails == 0
  }

  // ---- steps

  // The descriptor accesses of a step are in range.
  predicate Bounded(s: State) { |s.ring| == 32 && s.rdh < 32 && (s.driver.Away? || s.driver.next < 32) }

  // The device receives a packet of this length, one memory or register write at a time. A
  // packet counts as arrived when its done bit is set.
  function Receive(s: State, length: nat): State
    requires Bounded(s)
  {
    match s.device
    case Waiting =>
      if s.rdh == s.rdt then s
      else s.(ring := s.ring[s.rdh := s.ring[s.rdh].(length := length)], device := Filled(length))
    case Filled(len) =>
      s.(ring := s.ring[s.rdh := s.ring[s.rdh].(done := true)], device := Marked, arrived := s.arrived + [len])
    case Marked => s.(rdh := (s.rdh + 1) % 32, device := Waiting, heads := s.heads + 1)
  }

  // nic_rx_poll
  function Poll(s: State): State
    requires Bounded(s)
  {
    match s.driver
    case Away => s.(driver := Test((s.rdt + 1) % 32))
    case Test(next) => s.(driver := if s.ring[next].done then ReadLength(next) else Away)
    case ReadLength(next) =>
      s.(driver := ClearStatus(next, s.ring[next].length), reported := s.reported + [s.ring[next].length])
    case ClearStatus(next, _) => s.(ring := s.ring[next := s.ring[next].(done := false)], driver := WriteTail(next))
    case WriteTail(next) => s.(rdt := next, driver := Away, tails := s.tails + 1)
  }

  // ---- what holds between steps

  // The descriptor of the i-th packet.
  function Slot(i: nat): (j: nat) ensures j < 32 { i % 32 }

  // Packets whose done bit has been cleared again.
  function Cleared(s: State): nat { if s.driver.WriteTail? then s.tails + 1 else s.tails }

  ghost predicate Inv(s: State) {
    && |s.ring| == 32 && s.rdh == s.heads % 32 && s.rdt == (s.tails + 31) % 32
    && |s.arrived| == (if s.device.Marked? then s.heads + 1 else s.heads)
    && |s.reported| == (if s.driver.ClearStatus? || s.driver.WriteTail? then s.tails + 1 else s.tails)
    && s.reported <= s.arrived
    && s.heads <= s.tails + (if s.device.Waiting? then 31 else 30)
    && (!s.driver.Away? ==> s.driver.next == s.tails % 32)
    && (s.driver.ReadLength? ==> s.tails < |s.arrived|)
    && DoneBits(s)
    && (s.device.Filled? ==> s.ring[s.rdh].length == s.device.length)
  }

  // The done bits are exactly on the packets that have arrived and are not yet cleared, and
  // those descriptors still hold the lengths that arrived.
  ghost predicate DoneBits(s: State)
    requires |s.ring| == 32
  {
    && (forall i :: Cleared(s) <= i < |s.arrived| ==> s.ring[Slot(i)] == Desc(s.arrived[i], true))
    && (forall i :: 0 <= i && |s.arrived| <= i < Cleared(s) + 32 ==> !s.ring[Slot(i)].done)
  }

  lemma SlotsDiffer(i: nat, j: nat)
    requires i < j < i + 32
    ensures Slot(i) != Slot(j)
  {
    var d := j - i;
    assert j == i + d;
  }

  // Writing the descriptor at RDH touches no other packet of the window.
  lemma HeadIsAlone(s: State, ring: seq<Desc>)
    requires Inv(s) && !s.device.Marked? && s.heads < s.tails + 31 && |ring| == 32
    requires forall j :: 0 <= j < 32 && j != s.rdh ==> ring[j] == s.ring[j]
    ensures forall i :: Cleared(s) <= i < |s.arrived| ==> ring[Slot(i)] == s.ring[Slot(i)]
    ensures forall i :: s.heads < i < Cleared(s) + 32 ==> ring[Slot(i)] == s.ring[Slot(i)]
  {
    forall i | Cleared(s) <= i < |s.arrived|
      ensures ring[Slot(i)] == s.ring[Slot(i)]
    {
      SlotsDiffer(i, s.heads);
    }
    forall i | s.heads < i < Cleared(s) + 32
      ensures ring[Slot(i)] == s.ring[Slot(i)]
    {
      if i < s.heads + 32 { SlotsDiffer(s.heads, i); }
    }
  }

  lemma FillKeeps(s: State, length: nat)
    requires Inv(s) && s.device.Waiting?
    ensures Inv(Receive(s, length))
  {
    if s.rdh != s.rdt {
      assert s.heads != s.tails + 31;
      assert !s.ring[Slot(s.heads)].done;
      HeadIsAlone(s, Receive(s, length).ring);
    }
  }

  lemma MarkKeeps(s: State, length: nat)
    requires Inv(s) && s.device.Filled?
    ensures Inv(Receive(s, length))
  {
    HeadIsAlone(s, Receive(s, length).ring);
    assert s.rdh == Slot(s.heads);
  }

  lemma ReceiveKeeps(s: State, length: nat)
    requires Inv(s)
    ensures Inv(Receive(s, length))
  {
    match s.device
    case Waiting => FillKeeps(s, length);
    case Filled(_) => MarkKeeps(s, length);
    case Marked =>
  }

  lemma TestKeeps(s: State)
    requires Inv(s) && s.driver.Test?
    ensures Inv(Poll(s))
  {
    if |s.arrived| <= s.tails { assert !s.ring[Slot(s.tails)].done; }
  }

  lemma LengthKeeps(s: State)
    requires Inv(s) && s.driver.ReadLength?
    ensures Inv(Poll(s))
  {
    assert s.ring[Slot(s.tails)] == Desc(s.arrived[s.tails], true);
  }

  lemma ClearKeeps(s: State)
    requires Inv(s) && s.driver.ClearStatus?
    ensures Inv(Poll(s))
  {
    var s', t := Poll(s), s.tails;
    forall i | t < i < t + 32
      ensures s'.ring[Slot(i)] == s.ring[Slot(i)]
    {
      SlotsDiffer(t, i);
    }
    assert Slot(t + 32) == Slot(t);
  }

  lemma TailKeeps(s: State)
    requires Inv(s) && s.driver.WriteTail?
    ensures Inv(Poll(s))
  {
    assert s.tails % 32 == (s.tails + 1 + 31) % 32;
  }

  lemma AfterTail(n: nat)
    ensures ((n + 31) % 32 + 1) % 32 == n % 32
  {
  }

  lemma AwayKeeps(s: State)
    requires Inv(s) && s.driver.Away?
    ensures Inv(Poll(s))
  {
    AfterTail(s.tails);
  }

  lemma PollKeeps(s: State)
    requires Inv(s)
    ensures Inv(Poll(s))
  {
    match s.driver
    case Away => AwayKeeps(s);
    case Test(_) => TestKeeps(s);
    case ReadLength(_) => LengthKeeps(s);
    case ClearStatus(_, _) => ClearKeeps(s);
    case WriteTail(_) => TailKeeps(s);
  }

  // ---- runs

  datatype Move = Receives(length: nat) | Polls

  // Any interleaving of the device's and the driver's steps. Of a state out of bounds nothing is
  // said; ReceiveSafe has none.
  ghost predicate Run(states: seq<State>, moves: seq<Move>) {
    && |states| == |moves| + 1 && Start(states[0])
    && forall i :: 0 <= i < |moves| && Bounded(states[i]) ==>
         states[i + 1] ==
         match moves[i] case Receives(length) => Receive(states[i], length) case Polls => Poll(states[i])
  }

  lemma StartIsGood(s: State)
    requires Start(s)
    ensures Inv(s)
  {
  }

  // Under every interleaving packets are reported in the order of arrival, each once, with the
  // length that arrived, and at most 31 are waiting.
  lemma {:induction false} ReceiveSafe(states: seq<State>, moves: seq<Move>, n: nat)
    requires Run(states, moves) && n < |states|
    ensures Inv(states[n])
    ensures states[n].reported <= states[n].arrived && |states[n].arrived| - |states[n].reported| <= 31
    ensures DoneBits(states[n])
  {
    if n == 0 {
      StartIsGood(states[0]);
    } else {
      ReceiveSafe(states, moves, n - 1);
      match moves[n - 1]
      case Receives(length) => ReceiveKeeps(states[n - 1], length);
      case Polls => PollKeeps(states[n - 1]);
    }
  }

  lemma RunStep(states: seq<State>, moves: seq<Move>, n: nat)
    requires Run(states, moves) && n < |moves|
    ensures Inv(states[n]) && Bounded(states[n])
    ensures states[n + 1] ==
      match moves[n] case Receives(length) => Receive(states[n], length) case Polls => Poll(states[n])
  {
    ReceiveSafe(states, moves, n);
    assert Bounded(states[n]);
  }

  // ---- every packet is taken

  // The driver finds a packet exactly when one is not yet reported.
  lemma FoundIff(s: State)
    requires Inv(s) && s.driver.Test?
    ensures Poll(s).driver.ReadLength? <==> |s.reported| < |s.arrived|
  {
    if s.tails < |s.arrived| {
      assert s.ring[Slot(s.tails)] == Desc(s.arrived[s.tails], true);
    } else {
      assert !s.ring[Slot(s.tails)].done;
    }
  }

  // The device has a descriptor to fill exactly when fewer than 31 packets are not given back.
  lemma RoomIff(s: State, length: nat)
    requires Inv(s) && s.device.Waiting?
    ensures Receive(s, length).device == (if |s.arrived| - s.tails < 31 then Filled(length) else Waiting)
  {
    if |s.arrived| - s.tails < 31 {
      var d := s.tails + 31 - s.heads;
      assert s.tails + 31 == s.heads + d;
    }
  }

  function OwnMoves(moves: seq<Move>, i: nat, n: nat): nat
    requires i <= n <= |moves|
  {
    if i == n then 0 else OwnMoves(moves, i, n - 1) + if moves[n - 1].Polls? then 1 else 0
  }

  // Where the driver stands k of its own steps after it tested the done bit of a packet in s.
  ghost predicate Reporting(s: State, k: nat, s': State)
    requires |s.reported| < |s'.arrived|
  {
    && s.arrived <= s'.arrived
    && s'.reported == (if k < 2 then s.reported else s.reported + [s'.arrived[|s.reported|]])
    && s'.tails == (if k < 4 then s.tails else s.tails + 1)
    && match k
       case 0 => s'.driver.Test?
       case 1 => s'.driver.ReadLength?
       case 2 => s'.driver.ClearStatus?
       case 3 => s'.driver.WriteTail?
       case _ => s'.driver.Away?
  }

  // A waiting packet is reported, the next in order, and its descriptor given back, in the driver's
  // next four steps, whatever the device does meanwhile.
  lemma {:induction false} ReportedInFour(states: seq<State>, moves: seq<Move>, i: nat, n: nat)
    requires Run(states, moves) && i <= n < |states| && OwnMoves(moves, i, n) <= 4
    requires states[i].driver.Test? && |states[i].reported| < |states[i].arrived|
    ensures |states[i].reported| < |states[n].arrived| && Reporting(states[i], OwnMoves(moves, i, n), states[n])
    decreases n
  {
    if i < n {
      var k := n - 1;
      RunStep(states, moves, k);
      ReportedInFour(states, moves, i, k);
      if moves[k].Polls? { DriverStep(states[i], OwnMoves(moves, i, k), states[k]); }
    }
  }

  lemma DriverStep(s: State, k: nat, s': State)
    requires Inv(s') && |s.reported| < |s.arrived| && s.arrived <= s'.arrived && k < 4 && Reporting(s, k, s')
    ensures Reporting(s, k + 1, Poll(s'))
  {
    if k == 0 { FoundIff(s'); }
    if k == 1 { LengthKeeps(s'); }
  }
}
