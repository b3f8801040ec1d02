/** Access rights under fork and over runs of the paging code. */
module AccessRuns {
  import opened Pgtable
  import opened FrameAlloc
  import opened Paging
  import opened CloneSpace
  import opened Access
  import opened SharedKernel
  import VmArea
  import RegionRuns
  import Loader

  // The flags of the model's pages are the words that the kernel passes to arch_map_page.
  lemma PageFlags()
    ensures Loader.USER_PAGE == FlagsOf(0x2 | 0x4)
    ensures Loader.VGA_PAGE == FlagsOf(0x2 | 0x100)
    ensures MMIO_PAGE == FlagsOf(0x2 | 0x10 | 0x100)
    ensures VmArea.VM_PAGE == FlagsOf(0x2)
  {
  }

  // ---- forking

  // A copied subtree lets an access do what the original does.
  lemma {:induction false} CopyAccess(r: Right, m: Mem, ram: Ram, nodes: map<nat, Node>, f: nat, g: nat, k: nat,
                                      q: Path)
    requires f < FRAMES && g < FRAMES && g in nodes && 1 <= k <= 4
    requires CopiedEntry(m, ram, nodes, f, g, k, Index(q, k))
    ensures Open(r, ram, g, k, q) == Open(r, m.ram, f, k, q)
    ensures Can(r, ram, g, k, q) == Can(r, m.ram, f, k, q) && UserCan(ram, g, k, q) == UserCan(m.ram, f, k, q)
    decreases k
  {
    var e, e' := m.ram[f][Index(q, k)], ram[g][Index(q, k)];
    if IsTable(k, e) {
      assert CopiedEntry(m, ram, nodes, e.frame, e'.frame, k - 1, Index(q, k - 1));
      CopyAccess(r, m, ram, nodes, e.frame, e'.frame, k - 1, q);
    }
  }

  // Tables that have not changed let an access do what they did.
  lemma SameAccess(r: Right, m: Mem, nodes: map<nat, Node>, ram: Ram, f: nat, k: nat, q: Path)
    requires Shape(m, nodes) && f in nodes && 1 <= k == Level(nodes[f])
    requires forall x :: x in nodes && !nodes[x].Data? ==> ram[x] == m.ram[x]
    ensures Open(r, ram, f, k, q) == Open(r, m.ram, f, k, q)
    ensures Can(r, ram, f, k, q) == Can(r, m.ram, f, k, q) && UserCan(ram, f, k, q) == UserCan(m.ram, f, k, q)
  {
    OpenSame(r, m, nodes, ram, f, k, q);
    LookupSame(m.ram, ram, m, nodes, f, k, q);
    CanIff(r, ram, f, k, q);
    CanIff(r, m.ram, f, k, q);
    UserSame(m, nodes, ram, f, k, q);
  }

  // A PML4 whose entry for q is that of another lets an access to q do the same.
  lemma EntryAccess(r: Right, m: Mem, nodes: map<nat, Node>, ram: Ram, cur: nat, root: nat, q: Path)
    requires Shape(m, nodes) && IsRoot(nodes, cur) && root < FRAMES && ram[root][q.i4] == m.ram[cur][q.i4]
    requires forall x :: x in nodes && !nodes[x].Data? ==> ram[x] == m.ram[x]
    ensures Open(r, ram, root, 4, q) == Open(r, m.ram, cur, 4, q)
    ensures Can(r, ram, root, 4, q) == Can(r, m.ram, cur, 4, q) && UserCan(ram, root, 4, q) == UserCan(m.ram, cur, 4, q)
  {
    assert Linked(m.ram, nodes, cur, q.i4);
    var w := m.ram[cur][q.i4];
    if IsTable(4, w) { SameAccess(r, m, nodes, ram, w.frame, 3, q); }
  }

  // After fork the child may access exactly what the parent may, and every other space what it could.
  lemma CloneAccess(r: Right, m: Mem, nodes: map<nat, Node>, cur: nat, m': Mem, nodes': map<nat, Node>, child: nat,
                    root: nat, q: Path)
    requires Cloned(m, nodes, cur, m', nodes', child) && IsRoot(nodes', root)
    ensures var from := if root == child then cur else root;
      && IsRoot(nodes, from)
      && Open(r, m'.ram, root, 4, q) == Open(r, m.ram, from, 4, q)
      && Can(r, m'.ram, root, 4, q) == Can(r, m.ram, from, 4, q)
      && UserCan(m'.ram, root, 4, q) == UserCan(m.ram, from, 4, q)
  {
    if root != child {
      SameAccess(r, m, nodes, m'.ram, root, 4, q);
    } else if q.i4 < 256 {
      CopyAccess(r, m, m'.ram, nodes', cur, child, 4, q);
    } else {
      EntryAccess(r, m, nodes, m'.ram, cur, child, q);
    }
  }

  // ---- runs

  // No table of any address space withholds a right.
  ghost predicate AllOpen(s: Sys)
    requires Good(s)
  {
    forall r: Right, root: nat, q: Path :: IsRoot(s.nodes, root) ==> Open(r, s.mem.ram, root, 4, q)
  }

  lemma StepKeepsOpen(s: Sys, op: SharedKernel.Op, s': Sys)
    requires Good(s) && AllOpen(s) && SharedKernel.Step(s, op, s') && Good(s')
    ensures AllOpen(s')
  {
    forall r: Right, root: nat, q: Path | IsRoot(s'.nodes, root)
      ensures Open(r, s'.mem.ram, root, 4, q)
    {
      match op
      case Map(p, frame, flags) =>
        MapAddsNoRoot(s.mem, s.nodes, s.cur, 4, p, frame, flags, root);
        MapOpen(r, s.mem, s.nodes, s.cur, 4, p, frame, flags, root, 4, q);
      case Create => CreateOpen(s, s', r, root, q);
      case Clone(child) => CloneAccess(r, s.mem, s.nodes, s.cur, s'.mem, s'.nodes, child, root, q);
      case Switch(_) =>
      case Take => OpenSame(r, s.mem, s.nodes, s'.mem.ram, root, 4, q);
      case Store(_, _) => OpenSame(r, s.mem, s.nodes, s'.mem.ram, root, 4, q);
      case Unmap(p) => UnmapOpen(s, p, s', r, root, q);
    }
  }

  lemma CreateOpen(s: Sys, s': Sys, r: Right, root: nat, q: Path)
    requires Good(s) && AllOpen(s) && SharedKernel.Step(s, Create, s') && IsRoot(s'.nodes, root) && root < FRAMES
    ensures Open(r, s'.mem.ram, root, 4, q)
  {
    var g := CreateSpace(s.mem, s.cur).value;
    if root != g.frame {
      OpenSame(r, s.mem, s.nodes, g.mem.ram, root, 4, q);
    } else if q.i4 >= 256 {
      EntryAccess(r, s.mem, s.nodes, g.mem.ram, s.cur, root, q);
    }
  }

  lemma UnmapOpen(s: Sys, p: Path, s': Sys, r: Right, root: nat, q: Path)
    requires Good(s) && AllOpen(s) && SharedKernel.Step(s, Unmap(p), s') && IsRoot(s.nodes, root)
    ensures Open(r, s'.mem.ram, root, 4, q)
  {
    var (t, i) := Walk(s.mem.ram, s.cur, 4, p).value;
    WalkFindsEntry(s.mem.ram, s.cur, 4, p);
    var f3, f2, f1 := TablePath(s.mem, s.nodes, s.cur, p);
    ReleaseFrame(s.mem, s.mem.ram[t][i].frame);
    LeafWriteOpen(r, s.mem, s.nodes, t, i, ZERO, root, 4, q);
  }

  lemma BootOpen(m: Mem, b: Boot, r: Right, q: Path)
    requires BootTables(m, b)
    ensures Open(r, m.ram, b.p4, 4, q)
  {
    TableGrants(r, b.p3, false);
    TableGrants(r, b.p2, false);
    TableGrants(r, b.p3Direct, false);
    TableGrants(r, b.p2Direct, false);
    TableGrants(r, b.p3High, false);
    TableGrants(r, b.p2High, false);
  }

  lemma BootAllOpen(m: Mem, b: Boot, s: Sys)
    requires BootTables(m, b) && s == Sys(m, BootRoles(b), b.p4) && Good(s)
    ensures AllOpen(s)
  {
    forall r: Right, x: nat, p: Path | IsRoot(s.nodes, x)
      ensures Open(r, s.mem.ram, x, 4, p)
    {
      BootOpen(m, b, r, p);
    }
  }

  // In every state of every run from the boot tables, a page may be written or executed, under any
  // address space, exactly when its own entry says so.
  lemma {:induction false} LeafDecides(m: Mem, b: Boot, states: seq<Sys>, ops: seq<SharedKernel.Op>, n: nat,
                                       r: Right, root: nat, q: Path)
    requires BootTables(m, b) && Run(states, ops) && n < |states| && states[0] == Sys(m, BootRoles(b), b.p4)
    ensures Good(states[n]) && AllOpen(states[n])
    ensures IsRoot(states[n].nodes, root) ==>
      Can(r, states[n].mem.ram, root, 4, q) == LeafGrants(Lookup(states[n].mem.ram, root, 4, q), r)
  {
    BootIsGood(m, b);
    if n == 0 {
      BootAllOpen(m, b, states[0]);
    } else {
      LeafDecides(m, b, states, ops, n - 1, r, root, q);
      StepKeeps(states[n - 1], ops[n - 1], states[n], map[]);
      StepKeepsOpen(states[n - 1], ops[n - 1], states[n]);
    }
    if IsRoot(states[n].nodes, root) { CanIff(r, states[n].mem.ram, root, 4, q); }
  }

  // ---- vmalloc

  // The pages that vmalloc hands out are open to the kernel and to nobody else: user mode reaches
  // none of them, and in a run from boot the kernel may write and execute them all.
  lemma KernelOnly(m: Mem, nodes: map<nat, Node>, root: nat, live: map<nat, nat>, k: nat, r: Right)
    requires VmArea.Region(m, nodes, root, live) && k in live
    ensures !UserCan(m.ram, root, 4, VmArea.VmPath(k))
    ensures Can(r, m.ram, root, 4, VmArea.VmPath(k)) <==> Open(r, m.ram, root, 4, VmArea.VmPath(k))
  {
    assert VmArea.PageIs(m.ram, root, live, k);
    UserCanIsLeaf(m.ram, root, 4, VmArea.VmPath(k));
    CanIff(r, m.ram, root, 4, VmArea.VmPath(k));
  }

  // Page q is an uncached window at that physical address, for the kernel to write and for nobody
  // else to reach.
  ghost predicate Window(s: Sys, q: Path, phys: nat)
    requires Good(s)
  {
    var l := Lookup(s.mem.ram, s.cur, 4, q);
    && l.Mapped? && l.level == 1 && l.word.frame * 4096 == phys && l.word.flags.rest & 0x2 != 0
    && Can(ToWrite, s.mem.ram, s.cur, 4, q) && !UserCan(s.mem.ram, s.cur, 4, q)
  }

  // Paging init opens such windows to the local APIC and the I/O APIC.
  lemma WindowsKernelOnly(m: Mem, b: Boot, s: Sys, s1: Sys, s2: Sys, p: Path, q: Path)
    requires RegionRuns.PagingInit(m, b, s, s1, s2) && p == VmArea.VmPath(0) && q == VmArea.VmPath(1)
    ensures Window(s2, p, 0xFEE0_0000) && Window(s2, q, 0xFEC0_0000)
  {
    RegionRuns.ApicWindows(m, b, s, s1, s2, p, q);
    InitOpen(m, b, s, s1, s2);
    WindowAccess(s2, p, LAPIC_FRAME, 0xFEE0_0000);
    WindowAccess(s2, q, RegionRuns.IOAPIC_FRAME, 0xFEC0_0000);
  }

  lemma WindowAccess(s: Sys, q: Path, frame: nat, phys: nat)
    requires Good(s) && AllOpen(s) && frame < FRAMES && frame * 4096 == phys
    requires Lookup(s.mem.ram, s.cur, 4, q) == Mapped(1, LeafWord(frame, MMIO_PAGE))
    ensures Window(s, q, phys)
  {
    CanIff(ToWrite, s.mem.ram, s.cur, 4, q);
    UserCanIsLeaf(s.mem.ram, s.cur, 4, q);
  }

  lemma InitOpen(m: Mem, b: Boot, s: Sys, s1: Sys, s2: Sys)
    requires RegionRuns.PagingInit(m, b, s, s1, s2)
    ensures AllOpen(s2)
  {
    BootAllOpen(m, b, s);
    TwoStepsOpen(s, Map(PathOf(LAPIC_VADDR), LAPIC_FRAME, MMIO_PAGE), s1,
                 Map(PathOf(RegionRuns.IOAPIC_VADDR), RegionRuns.IOAPIC_FRAME, MMIO_PAGE), s2);
  }

  lemma TwoStepsOpen(s: Sys, op: SharedKernel.Op, s1: Sys, op1: SharedKernel.Op, s2: Sys)
    requires Good(s) && AllOpen(s) && SharedKernel.Step(s, op, s1) && Good(s1) && SharedKernel.Step(s1, op1, s2)
    requires Good(s2)
    ensures AllOpen(s2)
  {
    StepKeepsOpen(s, op, s1);
    StepKeepsOpen(s1, op1, s2);
  }
}
