/** Runs of the paging code: every address space keeps the same kernel tables.

A run interleaves mapping, unmapping, creating, cloning and switching address spaces with taking
frames and storing to data frames. The kernel half is shared by holding the same tables, so what
matters is that no PML4 ever loses or replaces an entry that was there before it was copied. */
module SharedKernel {
  import opened Pgtable
  import opened Wrappers
  import opened FrameAlloc
  import opened Paging
  import opened CloneSpace
  import opened Outside
  import VmArea

  datatype Sys = Sys(mem: Mem, nodes: map<nat, Node>, cur: nat)

  datatype Op =
    | Map(p: Path, frame: nat, flags: Flags)
    | Create
    | Clone(child: nat)
    | Switch(root: nat)
    | Take
    | Store(frame: nat, page: Page)
    | Unmap(p: Path)

  ghost predicate Good(s: Sys) {
    Shape(s.mem, s.nodes) && NoDangling(s.mem, s.nodes) && IsRoot(s.nodes, s.cur)
  }

  ghost predicate Step(s: Sys, op: Op, s': Sys)
    requires Good(s)
  {
    match op
    case Map(p, frame, flags) =>
      && frame < FRAMES && !Free(s.mem, frame) && Clear(s.mem.ram, s.cur, 4, p)
      && MapPage(s.mem, s.cur, p, frame, flags) == Some(s'.mem)
      && s'.nodes == NodesMap(s.mem, s.nodes, s.cur, 4, p, flags.user) && s'.cur == s.cur
    case Create =>
      var r := CreateSpace(s.mem, s.cur);
      r.Some? && s' == Sys(r.value.mem, s.nodes[r.value.frame := Root], s.cur)
    case Clone(child) =>
      Cloned(s.mem, s.nodes, s.cur, s'.mem, s'.nodes, child) && s'.cur == s.cur
    case Switch(root) =>
      IsRoot(s.nodes, root) && s' == s.(cur := root)
    case Take =>
      var r := Alloc(s.mem);
      r.Some? && s' == s.(mem := r.value.mem)
    case Store(x, page) =>
      && x < FRAMES && (x in s.nodes ==> s.nodes[x].Data?)
      && s'.mem.ram == s.mem.ram[x := page] && s' == s.(mem := s'.mem) && s'.mem.used == s.mem.used
    case Unmap(p) =>
      var slot := Walk(s.mem.ram, s.cur, 4, p);
      && Clear(s.mem.ram, s.cur, 4, p) && slot.Some? && Unmappable(s, slot.value.0, slot.value.1)
      && s' == s.(mem := VmArea.ShrinkPage(s.mem, slot.value.0, slot.value.1))
  }

  // What vfree unmaps: a page in a frame that no other entry refers to and that holds no table.
  ghost predicate Unmappable(s: Sys, t: nat, i: nat)
    requires Good(s)
  {
    && t < FRAMES && i < 512 && s.mem.ram[t][i].flags.present
    && var x := s.mem.ram[t][i].frame; x !in s.nodes && x < |s.mem.used| && SoleEntry(s.mem, s.nodes, x)
  }

  // Every PML4 holds the kernel tables `kernel`, one per upper-half index.
  ghost predicate HoldsKernel(s: Sys, kernel: map<nat, nat>)
    requires Good(s)
  {
    forall r: nat, i: nat :: IsRoot(s.nodes, r) && i in kernel ==>
      256 <= i < 512 && s.mem.ram[r][i].flags.present && s.mem.ram[r][i].frame == kernel[i]
  }

  // ---- each step keeps both

  // A present PML4 entry keeps its table when a page is mapped.
  lemma MapKeepsRoots(m: Mem, nodes: map<nat, Node>, root: nat, p: Path, frame: nat, flags: Flags, r: nat, i: nat)
    requires Shape(m, nodes) && IsRoot(nodes, root) && frame < FRAMES && Clear(m.ram, root, 4, p)
    requires MapPage(m, root, p, frame, flags).Some? && IsRoot(nodes, r) && i < 512 && m.ram[r][i].flags.present
    ensures var w := MapPage(m, root, p, frame, flags).value.ram[r][i]; w.flags.present && w.frame == m.ram[r][i].frame
  {
    var m', nodes', f' := EnsureStep(m, nodes, root, 4, p, frame, flags);
    MapFromUpper(m', nodes', f', 3, p, frame, flags, r);
  }

  // Mapping adds tables, never a PML4.
  lemma {:induction false} MapAddsNoRoot(m: Mem, nodes: map<nat, Node>, f: nat, k: nat, p: Path, frame: nat,
                                         flags: Flags, r: nat)
    requires Shape(m, nodes) && f in nodes && 1 <= k == Level(nodes[f])
    requires frame < FRAMES && Clear(m.ram, f, k, p) && MapFrom(m, f, k, p, frame, flags).Some?
    requires IsRoot(NodesMap(m, nodes, f, k, p, flags.user), r)
    ensures IsRoot(nodes, r)
    decreases k
  {
    if k > 1 {
      var m', nodes', f' := EnsureStep(m, nodes, f, k, p, frame, flags);
      MapAddsNoRoot(m', nodes', f', k - 1, p, frame, flags, r);
    }
  }

  lemma MapStepKeeps(s: Sys, op: Op, s': Sys, kernel: map<nat, nat>)
    requires Good(s) && HoldsKernel(s, kernel) && op.Map? && Step(s, op, s')
    ensures Good(s') && HoldsKernel(s', kernel)
  {
    var Map(p, frame, flags) := op;
    MapNoDangling(s.mem, s.nodes, s.cur, p, frame, flags, s'.mem, s'.nodes);
    MapFromShape(s.mem, s.nodes, s.cur, 4, p, frame, flags);
    forall r: nat, i: nat | IsRoot(s'.nodes, r) && i in kernel
      ensures 256 <= i < 512 && s'.mem.ram[r][i].flags.present && s'.mem.ram[r][i].frame == kernel[i]
    {
      MapAddsNoRoot(s.mem, s.nodes, s.cur, 4, p, frame, flags, r);
      MapKeepsRoots(s.mem, s.nodes, s.cur, p, frame, flags, r, i);
    }
  }

  lemma StoreStepKeeps(s: Sys, op: Op, s': Sys, kernel: map<nat, nat>)
    requires Good(s) && HoldsKernel(s, kernel) && (op.Store? || op.Take?) && Step(s, op, s')
    ensures Good(s') && HoldsKernel(s', kernel)
  {
    forall f, i | f in s.nodes && 0 <= i < 512
      ensures Linked(s'.mem.ram, s.nodes, f, i)
    {
      assert Linked(s.mem.ram, s.nodes, f, i);
    }
  }

  lemma UnmapStepKeeps(s: Sys, op: Op, s': Sys, kernel: map<nat, nat>)
    requires Good(s) && HoldsKernel(s, kernel) && op.Unmap? && Step(s, op, s')
    ensures Good(s') && HoldsKernel(s', kernel)
  {
    var (t, i) := Walk(s.mem.ram, s.cur, 4, op.p).value;
    var x := s.mem.ram[t][i].frame;
    WalkFindsEntry(s.mem.ram, s.cur, 4, op.p);
    var f3, f2, f1 := TablePath(s.mem, s.nodes, s.cur, op.p);
    ReleaseFrame(s.mem, x);
    LeafWriteShape(s.mem, s.nodes, t, i, ZERO);
    assert Shape(s'.mem, s'.nodes);
    ClearNoDangling(s.mem, s.nodes, t, i, x, s'.mem);
  }

  // Every page that vfree gives back is such a step: the invariant of the vmalloc region says so.
  lemma VfreeIsUnmap(s: Sys, live: map<nat, nat>, k: nat)
    requires Good(s) && VmArea.Region(s.mem, s.nodes, s.cur, live) && VmArea.Private(s.mem, s.nodes, live) && k in live
    ensures var slot := Walk(s.mem.ram, s.cur, 4, VmArea.VmPath(k));
      && slot.Some? && slot.value.0 < FRAMES && slot.value.1 < 512
      && Step(s, Unmap(VmArea.VmPath(k)), s.(mem := VmArea.ShrinkPage(s.mem, slot.value.0, slot.value.1)))
  {
    assert VmArea.PageIs(s.mem.ram, s.cur, live, k);
    WalkFindsEntry(s.mem.ram, s.cur, 4, VmArea.VmPath(k));
  }

  lemma StepKeeps(s: Sys, op: Op, s': Sys, kernel: map<nat, nat>)
    requires Good(s) && HoldsKernel(s, kernel) && Step(s, op, s')
    ensures Good(s') && HoldsKernel(s', kernel)
  {
    match op
    case Map(_, _, _) => MapStepKeeps(s, op, s', kernel);
    case Create => CreateSpaceLookup(s.mem, s.nodes, s.cur);
    case Clone(_) =>
    case Switch(_) =>
    case Take => StoreStepKeeps(s, op, s', kernel);
    case Store(_, _) => StoreStepKeeps(s, op, s', kernel);
    case Unmap(_) => UnmapStepKeeps(s, op, s', kernel);
  }

  // ---- runs

  // Steps are defined on good states; KernelSharedInRuns meets no other.
  ghost predicate Run(states: seq<Sys>, ops: seq<Op>) {
    && |states| == |ops| + 1
    && forall i :: 0 <= i < |ops| ==> Good(states[i]) ==> Step(states[i], ops[i], states[i + 1])
  }

  // In every state of every run, all address spaces translate the kernel regions alike.
  lemma {:induction false} KernelSharedInRuns(states: seq<Sys>, ops: seq<Op>, kernel: map<nat, nat>, n: nat)
    requires Run(states, ops) && n < |states| && Good(states[0]) && HoldsKernel(states[0], kernel)
    ensures Good(states[n]) && HoldsKernel(states[n], kernel)
    ensures forall r, r', q: Path :: IsRoot(states[n].nodes, r) && IsRoot(states[n].nodes, r') && q.i4 in kernel ==>
      Lookup(states[n].mem.ram, r, 4, q) == Lookup(states[n].mem.ram, r', 4, q)
  {
    if n > 0 {
      KernelSharedInRuns(states, ops, kernel, n - 1);
      StepKeeps(states[n - 1], ops[n - 1], states[n], kernel);
    }
  }

  // A kernel mapping made under one address space is at once seen by all of them.
  lemma KernelMappingSeenByAll(s: Sys, op: Op, s': Sys, kernel: map<nat, nat>, r: nat)
    requires Good(s) && HoldsKernel(s, kernel) && op.Map? && op.p.i4 in kernel && Step(s, op, s') && IsRoot(s.nodes, r)
    ensures Good(s') && IsRoot(s'.nodes, r)
    ensures Lookup(s'.mem.ram, r, 4, op.p) == Mapped(1, LeafWord(op.frame, op.flags))
  {
    StepKeeps(s, op, s', kernel);
    MapFromShape(s.mem, s.nodes, s.cur, 4, op.p, op.frame, op.flags);
    MapRefinesFlatMap(s.mem, s.nodes, s.cur, op.p, op.frame, op.flags, op.p);
  }

  // ---- where runs start

  // The tables that arch/entry.asm builds.
  datatype Boot = Boot(p4: nat, p3: nat, p2: nat, p3High: nat, p2High: nat, p3Direct: nat, p2Direct: nat)

  function BigPage(k: nat): Word
    requires k < 512
  {
    Word(k * 512, Flags(true, true, false, true, 0))
  }

  ghost predicate OneEntry(page: Page, i: nat, w: Word) {
    forall j :: 0 <= j < 512 ==> page[j] == if j == i then w else ZERO
  }

  predicate InUse(m: Mem, f: nat) { f < |m.used| && m.used[f] && f < FRAMES }

  function BootRootEntry(b: Boot, j: nat): Word
    requires b.p3 < FRAMES && b.p3Direct < FRAMES && b.p3High < FRAMES
  {
    match j
    case 0 => TableWord(b.p3, false)
    case 256 => TableWord(b.p3Direct, false)
    case 511 => TableWord(b.p3High, false)
    case _ => ZERO
  }

  ghost predicate BootTables(m: Mem, b: Boot) {
    && ValidMem(m)
    && InUse(m, b.p4) && InUse(m, b.p3) && InUse(m, b.p2) && InUse(m, b.p3High) && InUse(m, b.p2High)
    && InUse(m, b.p3Direct) && InUse(m, b.p2Direct)
    && Distinct(b)
    && (forall j :: 0 <= j < 512 ==> m.ram[b.p4][j] == BootRootEntry(b, j))
    && OneEntry(m.ram[b.p3], 0, TableWord(b.p2, false))
    && OneEntry(m.ram[b.p3Direct], 0, TableWord(b.p2Direct, false))
    && OneEntry(m.ram[b.p3High], 510, TableWord(b.p2High, false))
    && OneEntry(m.ram[b.p2], 0, BigPage(0))
    && (forall k :: 0 <= k < 512 ==> m.ram[b.p2Direct][k] == BigPage(k) && m.ram[b.p2High][k] == BigPage(k))
  }

  ghost function BootRoles(b: Boot): map<nat, Node> {
    map[b.p4 := Root, b.p3 := Pdpt(b.p4, 0), b.p2 := Pd(b.p3, 0), b.p3Direct := KernelPdpt(256),
        b.p2Direct := Pd(b.p3Direct, 0),
        b.p3High := KernelPdpt(511), b.p2High := Pd(b.p3High, 510)]
  }

  ghost predicate Distinct(b: Boot) {
    && b.p4 != b.p3 && b.p4 != b.p2 && b.p4 != b.p3High && b.p4 != b.p2High && b.p4 != b.p3Direct && b.p4 != b.p2Direct
    && b.p3 != b.p2 && b.p3 != b.p3High && b.p3 != b.p2High && b.p3 != b.p3Direct && b.p3 != b.p2Direct
    && b.p2 != b.p3High && b.p2 != b.p2High && b.p2 != b.p3Direct && b.p2 != b.p2Direct
    && b.p3High != b.p2High && b.p3High != b.p3Direct && b.p3High != b.p2Direct
    && b.p2High != b.p3Direct && b.p2High != b.p2Direct && b.p3Direct != b.p2Direct
  }

  // The boot tables are a good start, with the direct map and the kernel image already shared.
  lemma BootIsGood(m: Mem, b: Boot)
    requires BootTables(m, b)
    ensures Good(Sys(m, BootRoles(b), b.p4))
    ensures HoldsKernel(Sys(m, BootRoles(b), b.p4), map[256 := b.p3Direct, 511 := b.p3High])
  {
    var nodes := BootRoles(b);
    forall f, i | f in nodes && 0 <= i < 512
      ensures Linked(m.ram, nodes, f, i)
    {
    }
    BootHoldsKernel(m, b);
  }

  lemma BootHoldsKernel(m: Mem, b: Boot)
    requires BootTables(m, b) && Good(Sys(m, BootRoles(b), b.p4))
    ensures HoldsKernel(Sys(m, BootRoles(b), b.p4), map[256 := b.p3Direct, 511 := b.p3High])
  {
    var kernel := map[256 := b.p3Direct, 511 := b.p3High];
    forall r: nat, i: nat | IsRoot(BootRoles(b), r) && i in kernel
      ensures 256 <= i < 512 && m.ram[r][i].flags.present && m.ram[r][i].frame == kernel[i]
    {
      assert r == b.p4 && m.ram[r][i] == BootRootEntry(b, i);
    }
  }

  // The first mapping below an upper-half entry, made while there is one address space, adds
  // that entry to the shared ones. arch_paging_init does this for the vmalloc region.
  lemma FirstMappingIsShared(s: Sys, op: Op, s': Sys, kernel: map<nat, nat>)
    requires Good(s) && HoldsKernel(s, kernel) && op.Map? && op.p.i4 >= 256 && Step(s, op, s')
    requires forall r :: IsRoot(s.nodes, r) ==> r == s.cur
    ensures Good(s') && HoldsKernel(s', kernel[op.p.i4 := s'.mem.ram[s.cur][op.p.i4].frame])
  {
    StepKeeps(s, op, s', kernel);
    MapFromShape(s.mem, s.nodes, s.cur, 4, op.p, op.frame, op.flags);
    MapRefinesFlatMap(s.mem, s.nodes, s.cur, op.p, op.frame, op.flags, op.p);
    forall r: nat | IsRoot(s'.nodes, r)
      ensures r == s.cur
    {
      MapAddsNoRoot(s.mem, s.nodes, s.cur, 4, op.p, op.frame, op.flags, r);
    }
  }

  const LAPIC_VADDR: nat := 0xFFFF_C900_0000_0000
  const LAPIC_FRAME: nat := 0xF_EE00
  // PTE_WRITABLE | PTE_PCD | PTE_GLOBAL
  const MMIO_PAGE := Flags(false, true, false, false, 0x12)

  lemma VmallocUnderLapicEntry(va: nat)
    requires VmArea.VMALLOC_START <= va < VmArea.VMALLOC_END
    ensures PathOf(va).i4 == PathOf(LAPIC_VADDR).i4 == 402
  {
  }

  // In every run from the boot tables that begins with the mapping of arch_paging_init, and in
  // every state after it, all address spaces translate the vmalloc region alike.
  lemma VmallocSharedFromBoot(m: Mem, b: Boot, states: seq<Sys>, ops: seq<Op>, n: nat, r: nat, r': nat, va: nat)
    requires BootTables(m, b) && Run(states, ops) && 1 <= n < |states| && states[0] == Sys(m, BootRoles(b), b.p4)
    requires ops[0] == Map(PathOf(LAPIC_VADDR), LAPIC_FRAME, MMIO_PAGE)
    requires VmArea.VMALLOC_START <= va < VmArea.VMALLOC_END
    ensures Good(states[n])
    ensures IsRoot(states[n].nodes, r) && IsRoot(states[n].nodes, r') ==>
      Lookup(states[n].mem.ram, r, 4, PathOf(va)) == Lookup(states[n].mem.ram, r', 4, PathOf(va))
  {
    BootIsGood(m, b);
    VmallocUnderLapicEntry(va);
    assert Step(states[0], ops[0], states[1]);
    var kernel := FirstStepShares(m, b, states[0], ops[0], states[1]);
    RunTail(states, ops);
    KernelSharedInRuns(states[1..], ops[1..], kernel, n - 1);
    assert states[1..][n - 1] == states[n];
  }

  lemma FirstStepShares(m: Mem, b: Boot, s: Sys, op: Op, s': Sys) returns (kernel: map<nat, nat>)
    requires BootTables(m, b) && s == Sys(m, BootRoles(b), b.p4) && Good(s)
    requires op.Map? && op.p.i4 == 402 && Step(s, op, s')
    ensures 402 in kernel && Good(s') && HoldsKernel(s', kernel)
  {
    var boot := map[256 := b.p3Direct, 511 := b.p3High];
    BootHoldsKernel(m, b);
    BootHasOneRoot(b);
    FirstMappingIsShared(s, op, s', boot);
    kernel := boot[402 := s'.mem.ram[b.p4][402].frame];
  }

  lemma BootHasOneRoot(b: Boot)
    ensures forall r :: IsRoot(BootRoles(b), r) ==> r == b.p4
  {
  }

  lemma RunTail(states: seq<Sys>, ops: seq<Op>)
    requires Run(states, ops) && |ops| > 0
    ensures Run(states[1..], ops[1..])
  {
    var states', ops' := states[1..], ops[1..];
    forall i | 0 <= i < |ops'| && Good(states'[i])
      ensures Step(states'[i], ops'[i], states'[i + 1])
    {
      assert states'[i] == states[i + 1] && ops'[i] == ops[i + 1] && states'[i + 1] == states[i + 1 + 1];
    }
  }

  // ---- a mapping that is lost

  const TRAMPOLINE_PAGE := Flags(true, true, false, false, 0)

  // smp_boot.c:28: the lower half of the boot tables covers 0x8000 with a 2 MiB page. Mapping
  // 0x8000 there changes no translation and overwrites word 8 of physical frame 0.
  lemma TrampolineMapLost(m: Mem, b: Boot)
    requires BootTables(m, b) && 0 !in BootRoles(b)
    ensures Lookup(m.ram, b.p4, 4, PathOf(0x8000)) == Mapped(2, BigPage(0))
    ensures var m' := Memory(WriteWord(m.ram, 0, 8, LeafWord(8, TRAMPOLINE_PAGE)), m.used);
      && MapPage(m, b.p4, PathOf(0x8000), 8, TRAMPOLINE_PAGE) == Some(m')
      && forall q :: Lookup(m'.ram, b.p4, 4, q) == Lookup(m.ram, b.p4, 4, q)
  {
    BootIsGood(m, b);
    assert PathOf(0x8000) == Path(0, 0, 0, 8);
    assert m.ram[b.p4][0] == BootRootEntry(b, 0);
    MapThrough(m, b.p4, 0);
    MapThrough(m, b.p3, 0);
    MapThrough(m, b.p2, 0);
    TrampolineMapped(m, b);
    var ram := WriteWord(m.ram, 0, 8, LeafWord(8, TRAMPOLINE_PAGE));
    forall q
      ensures Lookup(ram, b.p4, 4, q) == Lookup(m.ram, b.p4, 4, q)
    {
      LookupSame(m.ram, ram, m, BootRoles(b), b.p4, 4, q);
    }
  }

  // Going through a present entry without the user flag changes nothing.
  lemma MapThrough(m: Mem, f: nat, i: nat)
    requires ValidMem(m) && f < FRAMES && i < 512 && m.ram[f][i].flags.present
    ensures EnsureTable(m, f, i, false) == Some(m)
  {
    assert OrUser(m.ram[f][i], false) == m.ram[f][i];
    assert m.ram[f][i := m.ram[f][i]] == m.ram[f];
    assert m.ram[f := m.ram[f]] == m.ram;
  }

  lemma TrampolineMapped(m: Mem, b: Boot)
    requires BootTables(m, b) && m.ram[b.p4][0] == BootRootEntry(b, 0)
    requires EnsureTable(m, b.p4, 0, false) == EnsureTable(m, b.p3, 0, false) == Some(m)
    requires EnsureTable(m, b.p2, 0, false) == Some(m)
    ensures MapFrom(m, b.p4, 4, Path(0, 0, 0, 8), 8, TRAMPOLINE_PAGE) ==
      Some(Memory(WriteWord(m.ram, 0, 8, LeafWord(8, TRAMPOLINE_PAGE)), m.used))
  {
    var p: Path := Path(0, 0, 0, 8);
    assert MapFrom(m, 0, 1, p, 8, TRAMPOLINE_PAGE) ==
      Some(Memory(WriteWord(m.ram, 0, 8, LeafWord(8, TRAMPOLINE_PAGE)), m.used));
    assert MapFrom(m, b.p2, 2, p, 8, TRAMPOLINE_PAGE) == MapFrom(m, 0, 1, p, 8, TRAMPOLINE_PAGE);
    assert MapFrom(m, b.p3, 3, p, 8, TRAMPOLINE_PAGE) == MapFrom(m, b.p2, 2, p, 8, TRAMPOLINE_PAGE);
    assert MapFrom(m, b.p4, 4, p, 8, TRAMPOLINE_PAGE) == MapFrom(m, b.p3, 3, p, 8, TRAMPOLINE_PAGE);
  }
}
