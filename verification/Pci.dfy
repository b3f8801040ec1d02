/** The recursive scan of the PCI buses: drivers/pci/pci.c.

Configuration space is a function from bus, slot, function and register to the 32-bit word
that the port pair returns. Nothing is assumed of it: bridges may point anywhere, also back to
a bus that is being scanned. */
module Pci {
  const MAX_DEVICES: nat := 32

  // ---- the address word

  function Address(bus: bv8, slot: bv8, func: bv8, offset: bv8): bv32 {
    0x8000_0000 | ((bus as bv32) << 16) | ((slot as bv32) << 11) | ((func as bv32) << 8) | ((offset & 0xFC) as bv32)
  }

  // The fields of section 3.2.2.3.2 of the PCI Local Bus Specification 3.0 can be read back.
  lemma AddressFields(bus: bv8, slot: bv8, func: bv8, offset: bv8)
    requires slot < 32 && func < 8
    ensures var a := Address(bus, slot, func, offset);
      && a >> 31 == 1 && (a >> 24) & 0x7F == 0
      && (a >> 16) & 0xFF == bus as bv32 && (a >> 11) & 0x1F == slot as bv32
      && (a >> 8) & 0x7 == func as bv32 && a & 0xFF == (offset & 0xFC) as bv32
  {
  }

  // ---- configuration space

  type Config = (nat, nat, nat, nat) -> nat

  datatype Bdf = Bdf(bus: nat, slot: nat, func: nat)

  // pci_read32 and pci_read8: the port returns the aligned word, the byte is shifted out of it.
  function Read32(cfg: Config, d: Bdf, off: nat): nat { cfg(d.bus, d.slot, d.func, off / 4 * 4) % 0x1_0000_0000 }

  function Read8(cfg: Config, d: Bdf, off: nat): nat {
    match off % 4
    case 0 => Read32(cfg, d, off) % 256
    case 1 => Read32(cfg, d, off) / 0x100 % 256
    case 2 => Read32(cfg, d, off) / 0x1_0000 % 256
    case _ => Read32(cfg, d, off) / 0x100_0000 % 256
  }

  const PCI_CLASS_REVISION: nat := 0x08
  const PCI_HEADER_TYPE: nat := 0x0E
  const PCI_SECONDARY_BUS: nat := 0x19

  // The vendor half of the first word is not all ones.
  predicate HasVendor(cfg: Config, d: Bdf) { Read32(cfg, d, 0) % 0x1_0000 != 0xFFFF }

  predicate Answers(cfg: Config, d: Bdf) { Read32(cfg, d, 0) != 0xFFFF_FFFF }

  predicate MultiFunction(cfg: Config, bus: nat, slot: nat) { Read8(cfg, Bdf(bus, slot, 0), PCI_HEADER_TYPE) >= 0x80 }

  // The functions that pci_scan_bus goes on to scan.
  predicate Present(cfg: Config, d: Bdf) {
    && d.slot < 32 && d.func < 8 && Answers(cfg, Bdf(d.bus, d.slot, 0))
    && (if MultiFunction(cfg, d.bus, d.slot) then Answers(cfg, d) else d.func == 0)
    && HasVendor(cfg, d)
  }

  // The bus behind a PCI-to-PCI bridge; 0 means none.
  function Secondary(cfg: Config, d: Bdf): nat {
    var cls := Read32(cfg, d, PCI_CLASS_REVISION);
    if cls / 0x100_0000 % 256 == 0x06 && cls / 0x1_0000 % 256 == 0x04 then Read8(cfg, d, PCI_SECONDARY_BUS) else 0
  }

  // The byte at place i of a word.
  function Place(w: nat, i: nat): nat {
    if i == 0 then w % 256
    else if i == 1 then w / 0x100 % 256
    else if i == 2 then w / 0x1_0000 % 256
    else w / 0x100_0000
  }

  lemma ByteOf(cfg: Config, d: Bdf, off: nat, i: nat)
    requires off % 4 == 0 && i < 4
    ensures Read8(cfg, d, off + i) == Place(Read32(cfg, d, off), i)
  {
    assert (off + i) / 4 * 4 == off && (off + i) % 4 == i;
  }

  lemma WordOf(w: nat)
    ensures w == w % 256 + 0x100 * (w / 0x100 % 256) + 0x1_0000 * (w / 0x1_0000 % 256) + 0x100_0000 * (w / 0x100_0000)
  {
    var a := w / 0x100;
    var b := a / 0x100;
    assert b == w / 0x1_0000 && b / 0x100 == w / 0x100_0000;
    assert w == 0x100 * a + w % 0x100 && a == 0x100 * b + a % 0x100 && b == 0x100 * (b / 0x100) + b % 0x100;
  }

  // The four bytes at the offsets of a word make up the word, lowest first.
  lemma BytesOfWord(cfg: Config, d: Bdf, off: nat, b0: nat, b1: nat, b2: nat, b3: nat)
    requires off % 4 == 0 && b0 == Read8(cfg, d, off) && b1 == Read8(cfg, d, off + 1)
    requires b2 == Read8(cfg, d, off + 2) && b3 == Read8(cfg, d, off + 3)
    ensures b0 < 256 && b1 < 256 && b2 < 256 && b3 < 256
    ensures Read32(cfg, d, off) == b0 + 0x100 * b1 + 0x1_0000 * b2 + 0x100_0000 * b3
  {
    ByteOf(cfg, d, off, 0);
    ByteOf(cfg, d, off, 1);
    ByteOf(cfg, d, off, 2);
    ByteOf(cfg, d, off, 3);
    WordOf(Read32(cfg, d, off));
  }

  // So the tests of the scan look at the registers of section 6.1 of the PCI Local Bus
  // Specification 3.0, by their bytes: vendor at 0 and 1, header type at 0x0E.
  lemma VendorBytes(cfg: Config, d: Bdf, b0: nat, b1: nat, b2: nat, b3: nat)
    requires b0 == Read8(cfg, d, 0) && b1 == Read8(cfg, d, 1) && b2 == Read8(cfg, d, 2) && b3 == Read8(cfg, d, 3)
    ensures HasVendor(cfg, d) <==> !(b0 == 0xFF && b1 == 0xFF)
    ensures Answers(cfg, d) <==> !(b0 == 0xFF && b1 == 0xFF && b2 == 0xFF && b3 == 0xFF)
    ensures MultiFunction(cfg, d.bus, d.slot) <==> Read8(cfg, Bdf(d.bus, d.slot, 0), 0x0E) / 0x80 % 2 == 1
  {
    BytesOfWord(cfg, d, 0, b0, b1, b2, b3);
    LowHalf(b0 + 0x100 * b1, b2 + 0x100 * b3);
  }

  lemma LowHalf(low: nat, high: nat)
    requires low < 0x1_0000
    ensures (low + 0x1_0000 * high) % 0x1_0000 == low
  {
  }

  // Class code at 0x0B and 0x0A, and the secondary bus of a bridge at 0x19.
  lemma BridgeBytes(cfg: Config, d: Bdf)
    ensures Secondary(cfg, d) ==
      if Read8(cfg, d, 0x0B) == 0x06 && Read8(cfg, d, 0x0A) == 0x04 then Read8(cfg, d, 0x19) else 0
  {
    ByteOf(cfg, d, 8, 2);
    ByteOf(cfg, d, 8, 3);
  }

  // ---- the scan

  // pci_scan_function
  function ScanFunction(cfg: Config, devs: seq<Bdf>, d: Bdf): (r: seq<Bdf>)
    requires |devs| <= MAX_DEVICES
    ensures |r| <= MAX_DEVICES && devs <= r
    decreases MAX_DEVICES - |devs|, 0, 0
  {
    if |devs| >= MAX_DEVICES || !HasVendor(cfg, d) then devs
    else if Secondary(cfg, d) != 0 then ScanSlots(cfg, devs + [d], Secondary(cfg, d), 0)
    else devs + [d]
  }

  // The loop over the functions of a slot, from func on.
  function ScanFuncs(cfg: Config, devs: seq<Bdf>, bus: nat, slot: nat, func: nat): (r: seq<Bdf>)
    requires |devs| <= MAX_DEVICES && func <= 8
    ensures |r| <= MAX_DEVICES && devs <= r
    decreases MAX_DEVICES - |devs|, 1, 8 - func
  {
    if func == 8 then devs
    else
      ScanFuncs(cfg, ScanIfAnswers(cfg, devs, Bdf(bus, slot, func)), bus, slot, func + 1)
  }

  function ScanIfAnswers(cfg: Config, devs: seq<Bdf>, d: Bdf): (r: seq<Bdf>)
    requires |devs| <= MAX_DEVICES
    ensures |r| <= MAX_DEVICES && devs <= r
    decreases MAX_DEVICES - |devs|, 0, 1
  {
    if Answers(cfg, d) then ScanFunction(cfg, devs, d) else devs
  }

  // One turn of the slot loop.
  function ScanSlot(cfg: Config, devs: seq<Bdf>, bus: nat, slot: nat): (r: seq<Bdf>)
    requires |devs| <= MAX_DEVICES
    ensures |r| <= MAX_DEVICES && devs <= r
    decreases MAX_DEVICES - |devs|, 2, 0
  {
    if !Answers(cfg, Bdf(bus, slot, 0)) then devs
    else if MultiFunction(cfg, bus, slot) then ScanFuncs(cfg, devs, bus, slot, 0)
    else ScanFunction(cfg, devs, Bdf(bus, slot, 0))
  }

  // pci_scan_bus from slot on.
  function ScanSlots(cfg: Config, devs: seq<Bdf>, bus: nat, slot: nat): (r: seq<Bdf>)
    requires |devs| <= MAX_DEVICES && slot <= 32
    ensures |r| <= MAX_DEVICES && devs <= r
    decreases MAX_DEVICES - |devs|, 3, 32 - slot
  {
    if slot == 32 then devs else ScanSlots(cfg, ScanSlot(cfg, devs, bus, slot), bus, slot + 1)
  }

  // pci_init
  function Scan(cfg: Config): seq<Bdf> { ScanSlots(cfg, [], 0, 0) }

  // ---- the loops

  class Table {
    const cfg: Config
    var devices: seq<Bdf>

    constructor (cfg: Config)
      ensures this.cfg == cfg && devices == []
    {
      this.cfg := cfg;
      devices := [];
    }

    // pci_scan_function
    method ScanDevice(d: Bdf)
      requires |devices| <= MAX_DEVICES
      modifies this
      ensures devices == ScanFunction(cfg, old(devices), d)
      decreases MAX_DEVICES - |devices|, 0
    {
      if |devices| >= MAX_DEVICES { return; }
      if Read32(cfg, d, 0) % 0x1_0000 == 0xFFFF { return; }
      devices := devices + [d];
      var cls := Read32(cfg, d, PCI_CLASS_REVISION);
      if cls / 0x100_0000 % 256 == 0x06 && cls / 0x1_0000 % 256 == 0x04 {
        var bus := Read8(cfg, d, PCI_SECONDARY_BUS);
        if bus != 0 { ScanBus(bus); }
      }
    }

    // pci_scan_bus
    method ScanBus(bus: nat)
      requires |devices| <= MAX_DEVICES
      modifies this
      ensures devices == ScanSlots(cfg, old(devices), bus, 0)
      decreases MAX_DEVICES - |devices|, 1
    {
      ghost var goal := ScanSlots(cfg, devices, bus, 0);
      for slot := 0 to 32
        invariant old(|devices|) <= |devices| <= MAX_DEVICES
        invariant ScanSlots(cfg, devices, bus, slot) == goal
      {
        if Read32(cfg, Bdf(bus, slot, 0), 0) == 0xFFFF_FFFF { continue; }
        var header := Read8(cfg, Bdf(bus, slot, 0), PCI_HEADER_TYPE);
        if header >= 0x80 {
          ghost var before := devices;
          for func := 0 to 8
            invariant |before| <= |devices| <= MAX_DEVICES
            invariant ScanFuncs(cfg, devices, bus, slot, func) == ScanFuncs(cfg, before, bus, slot, 0)
          {
            if Read32(cfg, Bdf(bus, slot, func), 0) != 0xFFFF_FFFF { ScanDevice(Bdf(bus, slot, func)); }
          }
        } else {
          ScanDevice(Bdf(bus, slot, 0));
        }
      }
    }
  }

  // ---- every function that can be reached is listed

  // Every function of the bus that the scan looks at is in r.
  ghost predicate Full(cfg: Config, r: seq<Bdf>, bus: nat) {
    forall slot, func :: Present(cfg, Bdf(bus, slot, func)) ==> Bdf(bus, slot, func) in r
  }

  // The bus behind each bridge among r[n..] is full.
  ghost predicate Closed(cfg: Config, r: seq<Bdf>, n: nat) {
    forall j :: n <= j < |r| && Secondary(cfg, r[j]) != 0 ==> Full(cfg, r, Secondary(cfg, r[j]))
  }

  lemma ClosedTrans(cfg: Config, r: seq<Bdf>, r': seq<Bdf>, n: nat)
    requires n <= |r| && r <= r' && Closed(cfg, r, n) && Closed(cfg, r', |r|)
    ensures Closed(cfg, r', n)
  {
    forall j | n <= j < |r'| && Secondary(cfg, r'[j]) != 0
      ensures Full(cfg, r', Secondary(cfg, r'[j]))
    {
      if j < |r| { FullMore(cfg, r, r', Secondary(cfg, r[j])); }
    }
  }

  lemma FullMore(cfg: Config, r: seq<Bdf>, r': seq<Bdf>, bus: nat)
    requires r <= r' && Full(cfg, r, bus)
    ensures Full(cfg, r', bus)
  {
    assert forall d :: d in r ==> d in r';
  }

  lemma {:induction false} FunctionComplete(cfg: Config, devs: seq<Bdf>, d: Bdf)
    requires |devs| <= MAX_DEVICES && |ScanFunction(cfg, devs, d)| < MAX_DEVICES && HasVendor(cfg, d)
    ensures d in ScanFunction(cfg, devs, d) && Closed(cfg, ScanFunction(cfg, devs, d), |devs|)
    decreases MAX_DEVICES - |devs|, 0, 0
  {
    var r := ScanFunction(cfg, devs, d);
    assert devs <= r;
    if Secondary(cfg, d) != 0 {
      assert (devs + [d])[|devs|] == d && r[|devs|] == d;
      SlotsComplete(cfg, devs + [d], Secondary(cfg, d), 0);
      forall j | |devs| <= j < |r| && Secondary(cfg, r[j]) != 0
        ensures Full(cfg, r, Secondary(cfg, r[j]))
      {
      }
    }
  }

  ghost predicate Listed(cfg: Config, r: seq<Bdf>, d: Bdf) { Answers(cfg, d) && HasVendor(cfg, d) ==> d in r }

  lemma {:induction false} FuncsComplete(cfg: Config, devs: seq<Bdf>, bus: nat, slot: nat, func: nat)
    requires |devs| <= MAX_DEVICES && func <= 8 && |ScanFuncs(cfg, devs, bus, slot, func)| < MAX_DEVICES
    ensures var r := ScanFuncs(cfg, devs, bus, slot, func);
      && Closed(cfg, r, |devs|)
      && forall f :: func <= f < 8 ==> Listed(cfg, r, Bdf(bus, slot, f))
    decreases MAX_DEVICES - |devs|, 1, 8 - func
  {
    if func < 8 {
      var d := Bdf(bus, slot, func);
      var devs' := ScanIfAnswers(cfg, devs, d);
      var r := ScanFuncs(cfg, devs', bus, slot, func + 1);
      assert r == ScanFuncs(cfg, devs, bus, slot, func);
      if Answers(cfg, d) && HasVendor(cfg, d) { FunctionComplete(cfg, devs, d); }
      FuncsComplete(cfg, devs', bus, slot, func + 1);
      ClosedTrans(cfg, devs', r, |devs|);
      forall f | func <= f < 8
        ensures Listed(cfg, r, Bdf(bus, slot, f))
      {
        if f == func { assert d in devs' ==> d in r; }
      }
    }
  }

  lemma {:induction false} SlotComplete(cfg: Config, devs: seq<Bdf>, bus: nat, slot: nat)
    requires |devs| <= MAX_DEVICES && |ScanSlot(cfg, devs, bus, slot)| < MAX_DEVICES
    ensures var r := ScanSlot(cfg, devs, bus, slot);
      && Closed(cfg, r, |devs|)
      && forall f :: Present(cfg, Bdf(bus, slot, f)) ==> Bdf(bus, slot, f) in r
    decreases MAX_DEVICES - |devs|, 2, 0
  {
    if Answers(cfg, Bdf(bus, slot, 0)) {
      if MultiFunction(cfg, bus, slot) {
        FuncsComplete(cfg, devs, bus, slot, 0);
        assert forall f :: 0 <= f < 8 ==> Listed(cfg, ScanSlot(cfg, devs, bus, slot), Bdf(bus, slot, f));
      } else if HasVendor(cfg, Bdf(bus, slot, 0)) {
        FunctionComplete(cfg, devs, Bdf(bus, slot, 0));
      }
    }
  }

  lemma {:induction false} SlotsComplete(cfg: Config, devs: seq<Bdf>, bus: nat, slot: nat)
    requires |devs| <= MAX_DEVICES && slot <= 32 && |ScanSlots(cfg, devs, bus, slot)| < MAX_DEVICES
    ensures var r := ScanSlots(cfg, devs, bus, slot);
      && Closed(cfg, r, |devs|)
      && forall s, f :: slot <= s && Present(cfg, Bdf(bus, s, f)) ==> Bdf(bus, s, f) in r
    decreases MAX_DEVICES - |devs|, 3, 32 - slot
  {
    if slot < 32 {
      var devs' := ScanSlot(cfg, devs, bus, slot);
      var r := ScanSlots(cfg, devs', bus, slot + 1);
      SlotComplete(cfg, devs, bus, slot);
      SlotsComplete(cfg, devs', bus, slot + 1);
      ClosedTrans(cfg, devs', r, |devs|);
      assert forall d :: d in devs' ==> d in r;
    }
  }

  // A chain of bridges from bus 0; path[i+1] lies on the bus behind path[i].
  ghost predicate Chain(cfg: Config, path: seq<Bdf>) {
    && |path| > 0 && path[0].bus == 0
    && (forall i :: 0 <= i < |path| ==> Present(cfg, path[i]))
    && (forall i, j :: 0 <= i && j == i + 1 < |path| ==> Secondary(cfg, path[i]) == path[j].bus != 0)
  }

  // Unless the table is full, every function at the end of a chain is listed.
  lemma {:induction false} ScanIsComplete(cfg: Config, path: seq<Bdf>)
    requires |Scan(cfg)| < 32 && Chain(cfg, path)
    ensures path[|path| - 1] in Scan(cfg)
  {
    SlotsComplete(cfg, [], 0, 0);
    var d := path[|path| - 1];
    assert d == Bdf(d.bus, d.slot, d.func);
    if |path| > 1 {
      var before := path[..|path| - 1];
      ScanIsComplete(cfg, before);
      var b := before[|before| - 1];
      var j :| 0 <= j < |Scan(cfg)| && Scan(cfg)[j] == b;
      assert Full(cfg, Scan(cfg), Secondary(cfg, b));
    }
  }

  // ---- and only those are

  // q is empty for bus 0, or a chain whose last bridge leads to the bus.
  ghost predicate ToBus(cfg: Config, q: seq<Bdf>, bus: nat) {
    if q == [] then bus == 0 else Chain(cfg, q) && Secondary(cfg, q[|q| - 1]) == bus != 0
  }

  ghost predicate Reached(cfg: Config, d: Bdf) { exists path :: Chain(cfg, path) && path[|path| - 1] == d }

  ghost predicate AllReached(cfg: Config, r: seq<Bdf>, n: nat) { forall j :: n <= j < |r| ==> Reached(cfg, r[j]) }

  lemma ExtendChain(cfg: Config, q: seq<Bdf>, d: Bdf)
    requires ToBus(cfg, q, d.bus) && Present(cfg, d)
    ensures Chain(cfg, q + [d]) && Reached(cfg, d)
    ensures (Secondary(cfg, d) != 0 ==> ToBus(cfg, q + [d], Secondary(cfg, d)))
  {
    var path := q + [d];
    assert path[|path| - 1] == d && Chain(cfg, path);
  }

  lemma {:induction false} FunctionSound(cfg: Config, devs: seq<Bdf>, d: Bdf, q: seq<Bdf>)
    requires |devs| <= MAX_DEVICES && ToBus(cfg, q, d.bus) && (HasVendor(cfg, d) ==> Present(cfg, d))
    ensures AllReached(cfg, ScanFunction(cfg, devs, d), |devs|)
    decreases MAX_DEVICES - |devs|, 0, 0
  {
    if |devs| < MAX_DEVICES && HasVendor(cfg, d) {
      ExtendChain(cfg, q, d);
      var r := ScanFunction(cfg, devs, d);
      assert (devs + [d])[|devs|] == d && r[|devs|] == d;
      if Secondary(cfg, d) != 0 { SlotsSound(cfg, devs + [d], Secondary(cfg, d), 0, q + [d]); }
    }
  }

  lemma {:induction false} FuncsSound(cfg: Config, devs: seq<Bdf>, bus: nat, slot: nat, func: nat, q: seq<Bdf>)
    requires |devs| <= MAX_DEVICES && func <= 8 && slot < 32 && ToBus(cfg, q, bus)
    requires Answers(cfg, Bdf(bus, slot, 0)) && MultiFunction(cfg, bus, slot)
    ensures AllReached(cfg, ScanFuncs(cfg, devs, bus, slot, func), |devs|)
    decreases MAX_DEVICES - |devs|, 1, 8 - func
  {
    if func < 8 {
      var d := Bdf(bus, slot, func);
      var devs' := ScanIfAnswers(cfg, devs, d);
      if Answers(cfg, d) { FunctionSound(cfg, devs, d, q); }
      FuncsSound(cfg, devs', bus, slot, func + 1, q);
      assert ScanFuncs(cfg, devs, bus, slot, func) == ScanFuncs(cfg, devs', bus, slot, func + 1);
    }
  }

  lemma {:induction false} SlotsSound(cfg: Config, devs: seq<Bdf>, bus: nat, slot: nat, q: seq<Bdf>)
    requires |devs| <= MAX_DEVICES && slot <= 32 && ToBus(cfg, q, bus)
    ensures AllReached(cfg, ScanSlots(cfg, devs, bus, slot), |devs|)
    decreases MAX_DEVICES - |devs|, 3, 32 - slot
  {
    if slot < 32 {
      var devs' := ScanSlot(cfg, devs, bus, slot);
      if Answers(cfg, Bdf(bus, slot, 0)) {
        if MultiFunction(cfg, bus, slot) {
          FuncsSound(cfg, devs, bus, slot, 0, q);
        } else {
          FunctionSound(cfg, devs, Bdf(bus, slot, 0), q);
        }
      }
      SlotsSound(cfg, devs', bus, slot + 1, q);
    }
  }

  // Unless the table is full, the scan lists exactly the functions that chains of bridges reach.
  lemma ScanIsExact(cfg: Config, d: Bdf)
    requires |Scan(cfg)| < 32
    ensures d in Scan(cfg) <==> Reached(cfg, d)
  {
    SlotsSound(cfg, [], 0, 0, []);
    if Reached(cfg, d) {
      var path :| Chain(cfg, path) && path[|path| - 1] == d;
      ScanIsComplete(cfg, path);
    }
  }

  // ---- on a tree of buses nothing is listed twice

  // p is a chain of bridges, the last of which leads to the bus.
  ghost predicate LeadsTo(cfg: Config, p: seq<Bdf>, bus: nat)
    decreases |p|
  {
    if p == [] then bus == 0
    else
      var d := p[|p| - 1];
      Present(cfg, d) && Secondary(cfg, d) == bus != 0 && LeadsTo(cfg, p[..|p| - 1], d.bus)
  }

  // No bus is behind two bridges.
  ghost predicate OneParent(cfg: Config) {
    forall d: Bdf, e: Bdf :: Present(cfg, d) && Present(cfg, e) && Secondary(cfg, d) == Secondary(cfg, e) != 0 ==>
      d == e
  }

  lemma {:induction false} OnePath(cfg: Config, p: seq<Bdf>, q: seq<Bdf>, bus: nat)
    requires OneParent(cfg) && LeadsTo(cfg, p, bus) && LeadsTo(cfg, q, bus)
    ensures p == q
    decreases |p|
  {
    if p != [] {
      var n, k := |p| - 1, |q| - 1;
      assert q != [];
      OnePath(cfg, p[..n], q[..k], p[n].bus);
      assert p == p[..n] + [p[n]] && q == q[..k] + [q[k]];
    }
  }

  function Pos(d: Bdf): nat { d.slot * 8 + d.func }

  // The chain to a listed function, with the function itself.
  ghost predicate Key(cfg: Config, d: Bdf, key: seq<Bdf>) {
    |key| > 0 && key[|key| - 1] == d && LeadsTo(cfg, key[..|key| - 1], d.bus)
  }

  // Nothing in devs is at or below position pos of the bus that p leads to.
  ghost predicate NotYet(cfg: Config, devs: seq<Bdf>, p: seq<Bdf>, pos: nat) {
    forall d, key :: d in devs && Key(cfg, d, key) && p < key ==> Pos(key[|p|]) < pos
  }

  ghost predicate Below(cfg: Config, d: Bdf, p: seq<Bdf>) { exists key :: Key(cfg, d, key) && p < key }

  // Everything from r[n] on is below p.
  ghost predicate Under(cfg: Config, r: seq<Bdf>, n: nat,
                        p: seq<Bdf>) { forall j :: n <= j < |r| ==> Below(cfg, r[j], p) }

  ghost predicate NoRepeat(r: seq<Bdf>) { forall i, j :: 0 <= i < j < |r| ==> r[i] != r[j] }

  lemma OneKey(cfg: Config, d: Bdf, key: seq<Bdf>, key': seq<Bdf>)
    requires OneParent(cfg) && Key(cfg, d, key) && Key(cfg, d, key')
    ensures key == key'
  {
    OnePath(cfg, key[..|key| - 1], key'[..|key'| - 1], d.bus);
    assert key == key[..|key| - 1] + [d] && key' == key'[..|key'| - 1] + [d];
  }

  // What a scan keeps, for a scan that starts at position pos of the bus that p leads to.
  ghost predicate Good(cfg: Config, devs: seq<Bdf>, p: seq<Bdf>, bus: nat, pos: nat) {
    NoRepeat(devs) && LeadsTo(cfg, p, bus) && NotYet(cfg, devs, p, pos)
  }

  // A function at position pos can be added, and the scan can go below it.
  lemma AddOne(cfg: Config, devs: seq<Bdf>, p: seq<Bdf>, d: Bdf)
    requires OneParent(cfg) && Good(cfg, devs, p, d.bus, Pos(d)) && Present(cfg, d)
    ensures NoRepeat(devs + [d]) && Key(cfg, d, p + [d])
    ensures NotYet(cfg, devs + [d], p, Pos(d) + 1)
    ensures Secondary(cfg, d) != 0 ==> Good(cfg, devs + [d], p + [d], Secondary(cfg, d), 0)
  {
    var key0 := p + [d];
    assert key0[..|key0| - 1] == p;
    assert d !in devs by { assert Key(cfg, d, key0) && p < key0 && key0[|p|] == d; }
    forall e, key | e in devs + [d] && Key(cfg, e, key) && p < key
      ensures Pos(key[|p|]) < Pos(d) + 1
    {
      if e == d { OneKey(cfg, d, key, key0); }
    }
    forall e, key | e in devs + [d] && Key(cfg, e, key)
      ensures !(key0 < key)
    {
      if e == d {
        OneKey(cfg, d, key, key0);
      } else if p < key {
        assert key[|p|] != d;
      }
    }
  }

  // After the scan below d, the scan of the bus itself can go on behind d.
  lemma BelowIsBehind(cfg: Config, devs: seq<Bdf>, p: seq<Bdf>, d: Bdf, r: seq<Bdf>)
    requires OneParent(cfg) && devs + [d] <= r && NotYet(cfg, devs + [d], p, Pos(d) + 1) && Key(cfg, d, p + [d])
    requires Under(cfg, r, |devs| + 1, p + [d])
    ensures NotYet(cfg, r, p, Pos(d) + 1) && Under(cfg, r, |devs|, p)
  {
    forall e, key | e in r && Key(cfg, e, key) && p < key
      ensures Pos(key[|p|]) < Pos(d) + 1
    {
      var j :| 0 <= j < |r| && r[j] == e;
      if j <= |devs| {
        assert e == (devs + [d])[j];
      } else {
        var key' :| Key(cfg, r[j], key') && p + [d] < key';
        OneKey(cfg, e, key, key');
        assert key[|p|] == d;
      }
    }
    forall j | |devs| <= j < |r|
      ensures Below(cfg, r[j], p)
    {
      if j == |devs| {
        assert r[j] == (devs + [d])[j] == d;
        assert Key(cfg, r[j], p + [d]) && p < p + [d];
      } else {
        var key' :| Key(cfg, r[j], key') && p + [d] < key';
        assert p < key';
      }
    }
  }

  lemma UnderTrans(cfg: Config, r: seq<Bdf>, r': seq<Bdf>, n: nat, p: seq<Bdf>)
    requires n <= |r| && r <= r' && Under(cfg, r, n, p) && Under(cfg, r', |r|, p)
    ensures Under(cfg, r', n, p)
  {
    forall j | n <= j < |r'|
      ensures Below(cfg, r'[j], p)
    {
      if j < |r| { assert r'[j] == r[j]; }
    }
  }

  lemma {:induction false} FunctionDistinct(cfg: Config, devs: seq<Bdf>, d: Bdf, p: seq<Bdf>)
    requires OneParent(cfg) && |devs| <= MAX_DEVICES && Good(cfg, devs, p, d.bus, Pos(d))
    requires (HasVendor(cfg, d) ==> Present(cfg, d))
    ensures var r := ScanFunction(cfg, devs, d); Good(cfg, r, p, d.bus, Pos(d) + 1) && Under(cfg, r, |devs|, p)
    decreases MAX_DEVICES - |devs|, 0, 0
  {
    if |devs| < MAX_DEVICES && HasVendor(cfg, d) {
      AddOne(cfg, devs, p, d);
      if Secondary(cfg, d) != 0 { SlotsDistinct(cfg, devs + [d], Secondary(cfg, d), 0, p + [d]); }
      BelowIsBehind(cfg, devs, p, d, ScanFunction(cfg, devs, d));
    }
  }

  lemma {:induction false} FuncsDistinct(cfg: Config, devs: seq<Bdf>, bus: nat, slot: nat, func: nat, p: seq<Bdf>)
    requires OneParent(cfg) && |devs| <= MAX_DEVICES && func <= 8 && slot < 32
    requires Good(cfg, devs, p, bus, slot * 8 + func)
    requires Answers(cfg, Bdf(bus, slot, 0)) && MultiFunction(cfg, bus, slot)
    ensures var r := ScanFuncs(cfg, devs, bus, slot, func);
      Good(cfg, r, p, bus, slot * 8 + 8) && Under(cfg, r, |devs|, p)
    decreases MAX_DEVICES - |devs|, 1, 8 - func
  {
    if func < 8 {
      var d := Bdf(bus, slot, func);
      var devs' := ScanIfAnswers(cfg, devs, d);
      var r := ScanFuncs(cfg, devs', bus, slot, func + 1);
      assert r == ScanFuncs(cfg, devs, bus, slot, func);
      if Answers(cfg, d) { FunctionDistinct(cfg, devs, d, p); }
      FuncsDistinct(cfg, devs', bus, slot, func + 1, p);
      UnderTrans(cfg, devs', r, |devs|, p);
    }
  }

  lemma {:induction false} SlotDistinct(cfg: Config, devs: seq<Bdf>, bus: nat, slot: nat, p: seq<Bdf>)
    requires OneParent(cfg) && |devs| <= MAX_DEVICES && slot < 32 && Good(cfg, devs, p, bus, slot * 8)
    ensures var r := ScanSlot(cfg, devs, bus, slot); Good(cfg, r, p, bus, slot * 8 + 8) && Under(cfg, r, |devs|, p)
    decreases MAX_DEVICES - |devs|, 2, 0
  {
    if Answers(cfg, Bdf(bus, slot, 0)) {
      if MultiFunction(cfg, bus, slot) {
        FuncsDistinct(cfg, devs, bus, slot, 0, p);
      } else {
        FunctionDistinct(cfg, devs, Bdf(bus, slot, 0), p);
      }
    }
  }

  lemma {:induction false} SlotsDistinct(cfg: Config, devs: seq<Bdf>, bus: nat, slot: nat, p: seq<Bdf>)
    requires OneParent(cfg) && |devs| <= MAX_DEVICES && slot <= 32 && Good(cfg, devs, p, bus, slot * 8)
    ensures var r := ScanSlots(cfg, devs, bus, slot); NoRepeat(r) && Under(cfg, r, |devs|, p)
    decreases MAX_DEVICES - |devs|, 3, 32 - slot
  {
    if slot < 32 {
      var devs' := ScanSlot(cfg, devs, bus, slot);
      SlotDistinct(cfg, devs, bus, slot, p);
      SlotsDistinct(cfg, devs', bus, slot + 1, p);
      UnderTrans(cfg, devs', ScanSlots(cfg, devs', bus, slot + 1), |devs|, p);
    }
  }

  // When no bus has two parent bridges, the scan lists every function once.
  lemma ScanHasNoRepeat(cfg: Config)
    requires OneParent(cfg)
    ensures NoRepeat(Scan(cfg))
  {
    SlotsDistinct(cfg, [], 0, 0, []);
  }
}
