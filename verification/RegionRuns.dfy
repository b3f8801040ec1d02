/** The vmalloc region in runs of the paging code.

arch_paging_init maps the local APIC and the I/O APIC at the first two pages of the region, and
vmalloc hands the region out from its first page. */
module RegionRuns {
  import opened Pgtable
  import opened Wrappers
  import opened FrameAlloc
  import opened Paging
  import opened CloneSpace
  import opened Outside
  import opened SharedKernel
  import opened VmArea

  ghost predicate OwnsIn(s: Sys, live: map<nat, nat>, next: nat) { Owns(s.mem, s.nodes, s.cur, live, next) }

  // The step maps no page that was handed out and no live frame again, and unmaps no live page.
  ghost predicate Leaves(op: SharedKernel.Op, live: map<nat, nat>, next: nat)
    requires next <= VM_PAGES && forall k :: k in live ==> k < next
  {
    match op
    case Map(p, frame, _) =>
      (forall k: nat :: k < next ==> p != VmPath(k)) && (forall k :: k in live ==> live[k] != frame)
    case Unmap(p) => forall k :: k in live ==> p != VmPath(k)
    case _ => true
  }

  // ---- each step keeps what vmalloc owns

  // The region's pages under a space whose translations differ only at p, where no page was
  // handed out, and are small there.
  lemma PagesKept(ram: Ram, root: nat, ram': Ram, root': nat, live: map<nat, nat>, next: nat, p: Path)
    requires root < FRAMES && root' < FRAMES && next <= VM_PAGES
    requires forall k :: k in live ==> k < next && live[k] < FRAMES
    requires forall k: nat :: k < VM_PAGES ==> PageIs(ram, root, live, k)
    requires forall k: nat :: k < next && k !in live ==> Unmapped(ram, root, k)
    requires forall k: nat :: k < next ==> p != VmPath(k)
    requires forall q: Path :: q.i4 == 402 && q != p ==> Lookup(ram', root', 4, q) == Lookup(ram, root, 4, q)
    requires p.i4 == 402 ==> Clear(ram', root', 4, p)
    ensures forall k: nat :: k < VM_PAGES ==> PageIs(ram', root', live, k)
    ensures forall k: nat :: k < next && k !in live ==> Unmapped(ram', root', k)
  {
    forall k: nat | k < VM_PAGES
      ensures PageIs(ram', root', live, k)
    {
      assert PageIs(ram, root, live, k);
    }
    forall k: nat | k < next && k !in live
      ensures Unmapped(ram', root', k)
    {
      assert Unmapped(ram, root, k);
    }
  }

  lemma MapKeepsFrames(s: Sys, op: SharedKernel.Op, s': Sys, live: map<nat, nat>, next: nat)
    requires Good(s) && OwnsIn(s, live, next) && op.Map? && Leaves(op, live, next)
    requires SharedKernel.Step(s, op, s') && Good(s')
    ensures forall k :: k in live ==> live[k] < |s'.mem.used| && s'.mem.used[live[k]] && live[k] !in s'.nodes
    ensures Private(s'.mem, s'.nodes, live)
  {
    var m', nodes' := MapEffects(s.mem, s.nodes, s.cur, op.p, op.frame, op.flags);
    forall k | k in live
      ensures live[k] < |m'.used| && m'.used[live[k]] && live[k] !in nodes' && SoleEntry(m', nodes', live[k])
    {
      assert !Free(s.mem, live[k]);
      assert !Free(m', live[k]);
      MapSoleEntry(s.mem, s.nodes, s.cur, op.p, op.frame, op.flags, m', nodes', live[k]);
    }
  }

  lemma MapKeepsOwned(s: Sys, op: SharedKernel.Op, s': Sys, live: map<nat, nat>, next: nat)
    requires Good(s) && OwnsIn(s, live, next) && op.Map? && Leaves(op, live, next)
    requires SharedKernel.Step(s, op, s') && Good(s')
    ensures OwnsIn(s', live, next)
  {
    MapKeepsFrames(s, op, s', live, next);
    MapLookups(s, op, s');
    OwnedFrom(s, s', live, next, op.p);
  }

  lemma MapLookups(s: Sys, op: SharedKernel.Op, s': Sys)
    requires Good(s) && op.Map? && SharedKernel.Step(s, op, s')
    ensures s'.cur == s.cur && Clear(s'.mem.ram, s.cur, 4, op.p)
    ensures forall q :: q != op.p ==> Lookup(s'.mem.ram, s.cur, 4, q) == Lookup(s.mem.ram, s.cur, 4, q)
  {
    var m', nodes' := MapEffects(s.mem, s.nodes, s.cur, op.p, op.frame, op.flags);
  }

  lemma OwnedFrom(s: Sys, s': Sys, live: map<nat, nat>, next: nat, p: Path)
    requires Good(s) && OwnsIn(s, live, next) && Good(s') && Private(s'.mem, s'.nodes, live)
    requires forall k :: k in live ==> live[k] < |s'.mem.used| && s'.mem.used[live[k]] && live[k] !in s'.nodes
    requires forall k: nat :: k < next ==> p != VmPath(k)
    requires forall q: Path :: q.i4 == 402 && q != p ==>
      Lookup(s'.mem.ram, s'.cur, 4, q) == Lookup(s.mem.ram, s.cur, 4, q)
    requires p.i4 == 402 ==> Clear(s'.mem.ram, s'.cur, 4, p)
    ensures OwnsIn(s', live, next)
  {
    PagesKept(s.mem.ram, s.cur, s'.mem.ram, s'.cur, live, next, p);
  }

  // Unmapping page p cannot release the frame of a live page: that page has its only entry.
  lemma ReleasedNotOwned(s: Sys, p: Path, t: nat, i: nat, live: map<nat, nat>, next: nat, k: nat)
    requires Good(s) && OwnsIn(s, live, next) && k in live && p != VmPath(k) && Clear(s.mem.ram, s.cur, 4, p)
    requires Walk(s.mem.ram, s.cur, 4, p) == Some((t, i)) && t < FRAMES && i < 512 && s.mem.ram[t][i].flags.present
    ensures s.mem.ram[t][i].frame != live[k]
  {
    assert PageIs(s.mem.ram, s.cur, live, k);
    WalkFindsEntry(s.mem.ram, s.cur, 4, p);
    WalkFindsEntry(s.mem.ram, s.cur, 4, VmPath(k));
    var f3, f2, f1 := TablePath(s.mem, s.nodes, s.cur, p);
    var g3, g2, g1 := TablePath(s.mem, s.nodes, s.cur, VmPath(k));
    assert Refers(s.mem, s.nodes, g1, VmPath(k).i1, live[k]);
    if t == g1 { TableIdentifiesPath(s.mem, s.nodes, s.cur, p, s.cur, VmPath(k)); }
    assert !Refers(s.mem, s.nodes, t, i, live[k]);
  }

  lemma UnmapKeepsOwned(s: Sys, op: SharedKernel.Op, s': Sys, live: map<nat, nat>, next: nat)
    requires Good(s) && OwnsIn(s, live, next) && op.Unmap? && Leaves(op, live, next)
    requires SharedKernel.Step(s, op, s') && Good(s')
    ensures OwnsIn(s', live, next)
  {
    var (t, i) := Walk(s.mem.ram, s.cur, 4, op.p).value;
    UnmapLookups(s, op, s', t, i);
    forall k | k in live
      ensures live[k] < |s'.mem.used| && s'.mem.used[live[k]] && SoleEntry(s'.mem, s.nodes, live[k])
    {
      ReleasedNotOwned(s, op.p, t, i, live, next, k);
      ClearSoleEntry(s.mem, s.nodes, t, i, s'.mem, live[k]);
    }
    UnmapKeepsPages(s, op, s', live, next, t, i);
  }

  lemma UnmapLookups(s: Sys, op: SharedKernel.Op, s': Sys, t: nat, i: nat)
    requires Good(s) && op.Unmap? && SharedKernel.Step(s, op, s')
    requires Walk(s.mem.ram, s.cur, 4, op.p) == Some((t, i))
    ensures t < FRAMES && i < 512 && s'.mem.ram == WriteWord(s.mem.ram, t, i, ZERO)
    ensures s.mem.ram[t][i].frame < |s.mem.used| && s'.mem.used == s.mem.used[s.mem.ram[t][i].frame := false]
    ensures Lookup(s.mem.ram, s.cur, 4, op.p).Mapped?
    ensures forall q :: Lookup(s'.mem.ram, s.cur, 4, q) == if q == op.p then NoPage else Lookup(s.mem.ram, s.cur, 4, q)
  {
    WalkFindsEntry(s.mem.ram, s.cur, 4, op.p);
    var f3, f2, f1 := TablePath(s.mem, s.nodes, s.cur, op.p);
    ReleaseFrame(s.mem, s.mem.ram[t][i].frame);
    forall q
      ensures Lookup(s'.mem.ram, s.cur, 4, q) == if q == op.p then NoPage else Lookup(s.mem.ram, s.cur, 4, q)
    {
      LeafWriteKeeps(s.mem, s.nodes, t, i, ZERO, s.cur, 4, q);
      if TableOf(s.mem.ram, s.cur, 4, q) == Some(t) { TableIdentifiesPath(s.mem, s.nodes, s.cur, op.p, s.cur, q); }
    }
  }

  lemma UnmapKeepsPages(s: Sys, op: SharedKernel.Op, s': Sys, live: map<nat, nat>, next: nat, t: nat, i: nat)
    requires Good(s) && OwnsIn(s, live, next) && op.Unmap? && Leaves(op, live, next)
    requires forall q :: Lookup(s'.mem.ram, s.cur, 4, q) == if q == op.p then NoPage else Lookup(s.mem.ram, s.cur, 4, q)
    ensures forall k: nat :: k < VM_PAGES ==> PageIs(s'.mem.ram, s.cur, live, k)
    ensures forall k: nat :: k < next && k !in live ==> Unmapped(s'.mem.ram, s.cur, k)
  {
    forall k: nat | k < VM_PAGES
      ensures PageIs(s'.mem.ram, s.cur, live, k)
    {
      assert PageIs(s.mem.ram, s.cur, live, k);
    }
    forall k: nat | k < next && k !in live
      ensures Unmapped(s'.mem.ram, s.cur, k)
    {
      assert Unmapped(s.mem.ram, s.cur, k);
    }
  }

  // The other steps change no translation of the region and no entry that refers to a frame in use.
  ghost predicate Untouched(s: Sys, s': Sys)
    requires Good(s) && Good(s')
  {
    && |s'.mem.used| == |s.mem.used| && Grows(s.mem, s.nodes, s'.nodes)
    && (forall x :: Free(s'.mem, x) ==> Free(s.mem, x))
    && (forall q: Path :: q.i4 == 402 ==> Lookup(s'.mem.ram, s'.cur, 4, q) == Lookup(s.mem.ram, s.cur, 4, q))
    && (forall f, j, x :: Refers(s'.mem, s'.nodes, f, j, x) && !Free(s.mem, x) ==> Refers(s.mem, s.nodes, f, j, x))
  }

  lemma UntouchedKeepsOwned(s: Sys, s': Sys, live: map<nat, nat>, next: nat)
    requires Good(s) && Good(s') && OwnsIn(s, live, next) && Untouched(s, s')
    ensures OwnsIn(s', live, next)
  {
    forall k | k in live
      ensures s'.mem.used[live[k]] && live[k] !in s'.nodes && SoleEntry(s'.mem, s'.nodes, live[k])
    {
      assert !Free(s.mem, live[k]);
      assert !Free(s'.mem, live[k]);
    }
    OwnedFrom(s, s', live, next, Path(0, 0, 0, 0));
  }

  lemma StoreUntouched(s: Sys, op: SharedKernel.Op, s': Sys)
    requires Good(s) && (op.Store? || op.Take?) && SharedKernel.Step(s, op, s') && Good(s')
    ensures Untouched(s, s')
  {
    forall q: Path | q.i4 == 402
      ensures Lookup(s'.mem.ram, s'.cur, 4, q) == Lookup(s.mem.ram, s.cur, 4, q)
    {
      LookupSame(s.mem.ram, s'.mem.ram, s.mem, s.nodes, s.cur, 4, q);
    }
  }

  lemma CreateUntouched(s: Sys, s': Sys)
    requires Good(s) && SharedKernel.Step(s, Create, s') && Good(s')
    ensures Untouched(s, s')
  {
    CreateSpaceLookup(s.mem, s.nodes, s.cur);
  }

  lemma CloneUntouched(s: Sys, child: nat, s': Sys)
    requires Good(s) && SharedKernel.Step(s, Clone(child), s') && Good(s')
    ensures Untouched(s, s')
  {
    CloneTranslations(s.mem, s.nodes, s.cur, s'.mem, s'.nodes, child);
  }

  lemma SwitchUntouched(s: Sys, s': Sys, kernel: map<nat, nat>)
    requires Good(s) && HoldsKernel(s, kernel) && 402 in kernel
    requires IsRoot(s.nodes, s'.cur) && s' == s.(cur := s'.cur)
    ensures Good(s') && Untouched(s, s')
  {
    forall q: Path | q.i4 == 402
      ensures Lookup(s'.mem.ram, s'.cur, 4, q) == Lookup(s.mem.ram, s.cur, 4, q)
    {
      SameLookup(s.mem.ram, s.cur, s'.cur, q);
    }
  }

  lemma StepKeepsOwned(s: Sys, op: SharedKernel.Op, s': Sys, kernel: map<nat, nat>, live: map<nat, nat>, next: nat)
    requires Good(s) && HoldsKernel(s, kernel) && 402 in kernel && OwnsIn(s, live, next)
    requires SharedKernel.Step(s, op, s') && Leaves(op, live, next)
    ensures Good(s') && HoldsKernel(s', kernel) && OwnsIn(s', live, next)
  {
    StepKeeps(s, op, s', kernel);
    match op
    case Map(_, _, _) => MapKeepsOwned(s, op, s', live, next);
    case Unmap(_) => UnmapKeepsOwned(s, op, s', live, next);
    case _ =>
      StepUntouched(s, op, s', kernel);
      UntouchedKeepsOwned(s, s', live, next);
  }

  lemma StepUntouched(s: Sys, op: SharedKernel.Op, s': Sys, kernel: map<nat, nat>)
    requires Good(s) && HoldsKernel(s, kernel) && 402 in kernel && Good(s')
    requires SharedKernel.Step(s, op, s') && !op.Map? && !op.Unmap?
    ensures Untouched(s, s')
  {
    match op
    case Create => CreateUntouched(s, s');
    case Clone(child) => CloneUntouched(s, child, s');
    case Switch(_) => SwitchUntouched(s, s', kernel);
    case Take => StoreUntouched(s, op, s');
    case Store(_, _) => StoreUntouched(s, op, s');
  }

  // In every run that leaves them alone, the pages of vmalloc stay as they are, under whatever
  // address space is loaded: through forks, new address spaces, mappings and stores.
  lemma {:induction false} OwnedInRuns(states: seq<Sys>, ops: seq<SharedKernel.Op>, kernel: map<nat, nat>,
                                       live: map<nat, nat>, next: nat, from: nat, n: nat)
    requires Run(states, ops) && from <= n < |states| && 402 in kernel
    requires Good(states[from]) && HoldsKernel(states[from], kernel) && OwnsIn(states[from], live, next)
    requires forall i :: from <= i < n ==> Leaves(ops[i], live, next)
    ensures Good(states[n]) && HoldsKernel(states[n], kernel) && OwnsIn(states[n], live, next)
    decreases n
  {
    if n > from {
      OwnedInRuns(states, ops, kernel, live, next, from, n - 1);
      StepKeepsOwned(states[n - 1], ops[n - 1], states[n], kernel, live, next);
    }
  }

  // ---- from the boot tables

  // In every run from the boot tables that begins with the mapping of arch_paging_init, vmalloc
  // can start in every state after it: what its constructor asks for holds.
  lemma RegionReady(m: Mem, b: Boot, states: seq<Sys>, ops: seq<SharedKernel.Op>, n: nat)
    requires BootTables(m, b) && Run(states, ops) && 1 <= n < |states| && states[0] == Sys(m, BootRoles(b), b.p4)
    requires ops[0] == Map(PathOf(LAPIC_VADDR), LAPIC_FRAME, MMIO_PAGE)
    ensures Good(states[n]) && OwnsIn(states[n], map[], 0)
  {
    BootIsGood(m, b);
    assert SharedKernel.Step(states[0], ops[0], states[1]);
    var kernel := FirstOwned(m, b, states[0], ops[0], states[1]);
    OwnedInRuns(states, ops, kernel, map[], 0, 1, n);
  }

  lemma FirstOwned(m: Mem, b: Boot, s: Sys, op: SharedKernel.Op, s': Sys) returns (kernel: map<nat, nat>)
    requires BootTables(m, b) && s == Sys(m, BootRoles(b), b.p4) && Good(s)
    requires op.Map? && op.p == PathOf(LAPIC_VADDR) && SharedKernel.Step(s, op, s')
    ensures 402 in kernel && Good(s') && HoldsKernel(s', kernel) && OwnsIn(s', map[], 0)
  {
    BootUnmapped(m, b);
    VmallocUnderLapicEntry(VMALLOC_START);
    kernel := FirstStepShares(m, b, s, op, s');
    MapKeepsOwned(s, op, s', map[], 0);
  }

  lemma BootUnmapped(m: Mem, b: Boot)
    requires BootTables(m, b) && Good(Sys(m, BootRoles(b), b.p4))
    ensures OwnsIn(Sys(m, BootRoles(b), b.p4), map[], 0)
  {
    assert m.ram[b.p4][402] == BootRootEntry(b, 402);
    forall k: nat | k < VM_PAGES
      ensures PageIs(m.ram, b.p4, map[], k)
    {
    }
  }

  // ---- who gets the first pages

  const IOAPIC_VADDR: nat := 0xFFFF_C900_0000_1000
  const IOAPIC_FRAME: nat := 0xF_EC00

  // arch_paging_init from the boot tables: the first two pages of the region are the windows of
  // the local APIC and the I/O APIC.
  ghost predicate PagingInit(m: Mem, b: Boot, s: Sys, s1: Sys, s2: Sys) {
    && BootTables(m, b) && s == Sys(m, BootRoles(b), b.p4) && Good(s) && Good(s1) && Good(s2)
    && SharedKernel.Step(s, Map(PathOf(LAPIC_VADDR), LAPIC_FRAME, MMIO_PAGE), s1)
    && SharedKernel.Step(s1, Map(PathOf(IOAPIC_VADDR), IOAPIC_FRAME, MMIO_PAGE), s2)
  }

  lemma ApicWindows(m: Mem, b: Boot, s: Sys, s1: Sys, s2: Sys, p: Path, q: Path)
    requires PagingInit(m, b, s, s1, s2) && p == VmPath(0) && q == VmPath(1)
    ensures Lookup(s2.mem.ram, s2.cur, 4, p) == Mapped(1, LeafWord(LAPIC_FRAME, MMIO_PAGE))
    ensures Lookup(s2.mem.ram, s2.cur, 4, q) == Mapped(1, LeafWord(IOAPIC_FRAME, MMIO_PAGE))
    ensures OwnsIn(s2, map[], 0)
  {
    VmPathOf(0);
    VmPathOf(1);
    BootUnmapped(m, b);
    var lapic, ioapic := Map(p, LAPIC_FRAME, MMIO_PAGE), Map(q, IOAPIC_FRAME, MMIO_PAGE);
    WindowMapped(s, lapic, s1);
    WindowMapped(s1, ioapic, s2);
  }

  lemma WindowMapped(s: Sys, op: SharedKernel.Op, s': Sys)
    requires Good(s) && OwnsIn(s, map[], 0) && op.Map? && SharedKernel.Step(s, op, s') && Good(s')
    ensures OwnsIn(s', map[], 0) && s'.cur == s.cur
    ensures Lookup(s'.mem.ram, s'.cur, 4, op.p) == Mapped(1, LeafWord(op.frame, op.flags))
    ensures forall q :: q != op.p ==> Lookup(s'.mem.ram, s'.cur, 4, q) == Lookup(s.mem.ram, s.cur, 4, q)
  {
    MapKeepsOwned(s, op, s', map[], 0);
    var m', nodes' := MapEffects(s.mem, s.nodes, s.cur, op.p, op.frame, op.flags);
  }

  // The first page that vmalloc hands out after paging init takes the window of the local APIC.
  lemma VmallocTakesLapic(m: Mem, b: Boot, s: Sys, s1: Sys, s2: Sys, m': Mem)
    requires PagingInit(m, b, s, s1, s2) && GrowPage(s2.mem, s2.cur, 0) == Some(m')
    ensures var frame := Alloc(s2.mem).value.frame;
      && frame != LAPIC_FRAME
      && Lookup(m'.ram, s2.cur, 4, PathOf(LAPIC_VADDR)) == Mapped(1, LeafWord(frame, VM_PAGE))
  {
    ApicWindows(m, b, s, s1, s2, VmPath(0), VmPath(1));
    VmPathOf(0);
    MappedNotFree(s2.mem, s2.nodes, s2.cur, 4, VmPath(0));
    var total := CountFree(s2.mem.used) + |s2.nodes|;
    var nodes', frame := GrowStep(s2.mem, s2.nodes, s2.cur, map[], 0, m', total);
    assert PageIs(m'.ram, s2.cur, map[0 := frame], 0);
  }

  // So does the network driver, which maps its registers at the same address
  // (nic_hw.c:10 and :25): whatever address space is loaded, the APIC is no longer there.
  lemma NicTakesLapic(s: Sys, op: SharedKernel.Op, s': Sys, kernel: map<nat, nat>, r: nat)
    requires Good(s) && HoldsKernel(s, kernel) && 402 in kernel && IsRoot(s.nodes, r)
    requires op.Map? && op.p == PathOf(VMALLOC_START) && op.frame != LAPIC_FRAME && SharedKernel.Step(s, op, s')
    ensures Good(s') && IsRoot(s'.nodes, r)
    ensures Lookup(s'.mem.ram, r, 4, PathOf(LAPIC_VADDR)) == Mapped(1, LeafWord(op.frame, op.flags))
    ensures LeafWord(op.frame, op.flags) != LeafWord(LAPIC_FRAME, MMIO_PAGE)
  {
    VmallocUnderLapicEntry(VMALLOC_START);
    KernelMappingSeenByAll(s, op, s', kernel, r);
  }

  // ---- vmalloc's own steps

  // Each page of vmalloc is two steps of a run: taking a frame and mapping it.
  lemma VmallocIsMap(s: Sys, live: map<nat, nat>, next: nat, m': Mem) returns (s1: Sys, s2: Sys)
    requires Good(s) && OwnsIn(s, live, next) && next < VM_PAGES && GrowPage(s.mem, s.cur, next) == Some(m')
    ensures SharedKernel.Step(s, Take, s1) && Good(s1) && s2.mem == m'
    ensures SharedKernel.Step(s1, Map(VmPath(next), Alloc(s.mem).value.frame, VM_PAGE), s2)
  {
    var g := Alloc(s.mem).value;
    s1 := s.(mem := g.mem);
    s2 := Sys(m', NodesMap(g.mem, s.nodes, s.cur, 4, VmPath(next), VM_PAGE.user), s.cur);
    TakeRegion(s.mem, s.nodes, s.cur, live);
    TakeNoDangling(s.mem, s.nodes);
    assert PageIs(g.mem.ram, s.cur, live, next);
  }
}
