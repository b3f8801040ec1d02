/** The vmalloc region: mm/vmalloc.c, one page at a time.

`Region` ties the page tables to the flat view that vmalloc keeps of its address range: which
pages are live and which frame each one owns. Other pages may be mapped by others, as
arch_paging_init maps the first two, but lie under no big page. */
module VmArea {
  import opened Pgtable
  import opened Wrappers
  import opened FrameAlloc
  import opened Paging
  import opened CloneSpace
  import opened Outside
  import opened FrameCosts

  const VMALLOC_START: nat := 0xFFFF_C900_0000_0000
  const VMALLOC_END: nat := 0xFFFF_C900_4000_0000
  const VM_PAGES: nat := 0x4_0000  // (VMALLOC_END - VMALLOC_START) / 4096
  const VM_PAGE := Flags(false, true, false, false, 0)

  // Page k of the region.
  function VmPath(k: nat): Path
    requires k < VM_PAGES
  {
    Path(402, 0, k / 512, k % 512)
  }

  lemma VmPathOf(k: nat)
    requires k < VM_PAGES
    ensures PathOf(VMALLOC_START + 4096 * k) == VmPath(k)
  {
    var q, r := k / 512, k % 512;
    VmUpper(4096 * k);
    VmLower(q, r);
    assert k == 512 * q + r;
  }

  lemma VmUpper(d: nat)
    requires d < 0x4000_0000
    ensures PgdIndex(VMALLOC_START + d) == 402 && PudIndex(VMALLOC_START + d) == 0
  {
    assert (VMALLOC_START + d) / 0x80_0000_0000 == 0x1FF_FF92;
    assert (VMALLOC_START + d) / 0x4000_0000 == 0x3_FFFF_2400;
  }

  lemma VmLower(q: nat, r: nat)
    requires q < 512 && r < 512
    ensures var va := VMALLOC_START + 4096 * (512 * q + r); PmdIndex(va) == q && PteIndex(va) == r
  {
    var va := VMALLOC_START + 4096 * (512 * q + r);
    assert va / 0x20_0000 == 0x7FF_FE48_0000 + q;
    assert va / 0x1000 == 0xF_FFFC_9000_0000 + 512 * q + r;
  }

  ghost predicate Region(m: Mem, nodes: map<nat, Node>, root: nat, live: map<nat, nat>) {
    && Shape(m, nodes) && IsRoot(nodes, root)
    && (forall k :: k in live ==> k < VM_PAGES && live[k] < |m.used| && m.used[live[k]] && live[k] !in nodes)
    && (forall j, k :: j in live && k in live && j != k ==> live[j] != live[k])
    && (forall k: nat :: k < VM_PAGES ==> PageIs(m.ram, root, live, k))
  }

  // Page k is mapped to the frame it owns, or else under no big page.
  ghost predicate PageIs(ram: Ram, root: nat, live: map<nat, nat>, k: nat)
    requires root < FRAMES && k < VM_PAGES && (k in live ==> live[k] < FRAMES)
  {
    if k in live then Lookup(ram, root, 4, VmPath(k)) == Mapped(1, LeafWord(live[k], VM_PAGE))
    else Clear(ram, root, 4, VmPath(k))
  }

  ghost predicate Unmapped(ram: Ram, root: nat, k: nat)
    requires root < FRAMES && k < VM_PAGES
  {
    Lookup(ram, root, 4, VmPath(k)).NoPage?
  }

  // ---- the region under another address space

  // Both PML4s hold the same table for the region.
  predicate SameTable(ram: Ram, r: nat, s: nat)
    requires r < FRAMES && s < FRAMES
  {
    ram[r][402].flags.present && ram[s][402].flags.present && ram[r][402].frame == ram[s][402].frame
  }

  lemma SameLookup(ram: Ram, r: nat, s: nat, q: Path)
    requires r < FRAMES && s < FRAMES && SameTable(ram, r, s) && q.i4 == 402
    ensures Lookup(ram, s, 4, q) == Lookup(ram, r, 4, q)
  {
  }

  lemma RegionUnder(m: Mem, nodes: map<nat, Node>, root: nat, live: map<nat, nat>, r: nat)
    requires Region(m, nodes, root, live) && IsRoot(nodes, r) && SameTable(m.ram, root, r)
    ensures Region(m, nodes, r, live)
  {
    forall k: nat | k < VM_PAGES
      ensures PageIs(m.ram, r, live, k)
    {
      assert PageIs(m.ram, root, live, k);
      SameLookup(m.ram, root, r, VmPath(k));
    }
  }

  // ---- conservation

  // The number of frames that are free, tables, or owned by live pages.
  ghost predicate Balance(m: Mem, nodes: map<nat, Node>, live: map<nat, nat>, total: int) {
    CountFree(m.used) + |nodes| + |live| == total
  }

  // ---- one page of vmalloc

  function GrowPage(m: Mem, root: nat, k: nat): (r: Option<Mem>)
    requires ValidMem(m) && root < FRAMES && k < VM_PAGES
    ensures r.Some? ==> ValidMem(r.value)
  {
    TakeAndMap(m, root, VmPath(k), VM_PAGE)
  }

  lemma {:induction false} MapBalance(m: Mem, nodes: map<nat, Node>, f: nat, k: nat, p: Path, frame: nat, flags: Flags)
    requires Shape(m, nodes) && f in nodes && 1 <= k == Level(nodes[f]) && frame < FRAMES
    requires Clear(m.ram, f, k, p) && MapFrom(m, f, k, p, frame, flags).Some?
    ensures CountFree(MapFrom(m, f, k, p, frame, flags).value.used) + |NodesMap(m, nodes, f, k, p, flags.user)| ==
      CountFree(m.used) + |nodes|
    decreases k
  {
    if k > 1 {
      var m', nodes', f' := EnsureStep(m, nodes, f, k, p, frame, flags);
      EnsureBalance(m, nodes, f, Index(p, k), flags.user);
      MapBalance(m', nodes', f', k - 1, p, frame, flags);
    }
  }

  lemma EnsureBalance(m: Mem, nodes: map<nat, Node>, f: nat, i: nat, user: bool)
    requires Shape(m, nodes) && f in nodes && i < 512 && EnsureTable(m, f, i, user).Some?
    ensures CountFree(EnsureTable(m, f, i, user).value.used) + |NodesAfter(m, nodes, f, i)| ==
      CountFree(m.used) + |nodes|
  {
    if !m.ram[f][i].flags.present {
      var t := Alloc(m).value.frame;
      CountFreeUpdate(m.used, t, true);
      assert t !in nodes;
    }
  }

  lemma GrowStep(m: Mem, nodes: map<nat, Node>, root: nat, live: map<nat, nat>, k: nat, m': Mem, total: int)
    returns (nodes': map<nat, Node>, frame: nat)
    requires Region(m, nodes, root, live) && k < VM_PAGES && k !in live && GrowPage(m, root, k) == Some(m')
    requires Balance(m, nodes, live, total)
    ensures Free(m, frame) && frame == Alloc(m).value.frame
    ensures nodes' == NodesMap(Alloc(m).value.mem, nodes, root, 4, VmPath(k), VM_PAGE.user)
    ensures Region(m', nodes', root, live[k := frame]) && Balance(m', nodes', live[k := frame], total)
    ensures forall q :: q != VmPath(k) ==> Lookup(m'.ram, root, 4, q) == Lookup(m.ram, root, 4, q)
  {
    var g := Alloc(m).value;
    frame := g.frame;
    TakeRegion(m, nodes, root, live);
    assert PageIs(g.mem.ram, root, live, k);
    var mapped;
    mapped, nodes' := MapEffects(g.mem, nodes, root, VmPath(k), frame, VM_PAGE);
    MapBalance(g.mem, nodes, root, 4, VmPath(k), frame, VM_PAGE);
    CountFreeUpdate(m.used, frame, true);
    GrownRegion(g.mem, nodes, root, live, k, m', nodes', frame);
  }

  lemma TakeRegion(m: Mem, nodes: map<nat, Node>, root: nat, live: map<nat, nat>)
    requires Region(m, nodes, root, live) && Alloc(m).Some?
    ensures var g := Alloc(m).value;
      && Region(g.mem, nodes, root, live) && g.frame !in nodes && (forall k :: k in live ==> live[k] != g.frame)
      && forall q :: Lookup(g.mem.ram, root, 4, q) == Lookup(m.ram, root, 4, q)
  {
    var g := Alloc(m).value;
    forall f, i | f in nodes && 0 <= i < 512
      ensures Linked(g.mem.ram, nodes, f, i)
    {
      assert Linked(m.ram, nodes, f, i);
    }
    forall q
      ensures Lookup(g.mem.ram, root, 4, q) == Lookup(m.ram, root, 4, q)
    {
      LookupSame(m.ram, g.mem.ram, m, nodes, root, 4, q);
    }
    forall k: nat | k < VM_PAGES
      ensures PageIs(g.mem.ram, root, live, k)
    {
      assert PageIs(m.ram, root, live, k);
    }
  }

  lemma GrownRegion(m: Mem, nodes: map<nat, Node>, root: nat, live: map<nat, nat>, k: nat, m': Mem,
                    nodes': map<nat, Node>, frame: nat)
    requires Region(m, nodes, root, live) && k < VM_PAGES && k !in live
    requires frame < |m.used| && m.used[frame] && frame !in nodes && (forall j :: j in live ==> live[j] != frame)
    requires Shape(m', nodes') && Grows(m, nodes, nodes') && |m'.used| == |m.used|
    requires var p, leaf := VmPath(k), Mapped(1, LeafWord(frame, VM_PAGE));
      forall q :: Lookup(m'.ram, root, 4, q) == if q == p then leaf else Lookup(m.ram, root, 4, q)
    requires forall x :: Free(m', x) <==> Free(m, x) && x !in nodes'
    ensures Region(m', nodes', root, live[k := frame])
  {
    var live' := live[k := frame];
    forall j: nat | j < VM_PAGES
      ensures PageIs(m'.ram, root, live', j)
    {
      assert PageIs(m.ram, root, live, j);
      assert VmPath(j) == VmPath(k) <==> j == k;
    }
    forall j | j in live'
      ensures j < VM_PAGES && live'[j] < |m'.used| && m'.used[live'[j]] && live'[j] !in nodes'
    {
      assert !Free(m, live'[j]);
      assert !Free(m', live'[j]);
    }
  }

  // ---- one page of vfree

  // The page-table entry at slot (t, i) is cleared and its frame released.
  function ShrinkPage(m: Mem, t: nat, i: nat): Mem
    requires t < FRAMES && i < 512
  {
    var released := Release(m, m.ram[t][i].frame * 4096);
    Memory(WriteWord(released.ram, t, i, ZERO), released.used)
  }

  lemma ShrinkStep(m: Mem, nodes: map<nat, Node>, root: nat, live: map<nat, nat>, k: nat, rest: map<nat, nat>, t: nat,
                   i: nat, total: int)
    requires Region(m, nodes, root, live) && k in live && Balance(m, nodes, live, total) && rest == live - {k}
    requires Walk(m.ram, root, 4, VmPath(k)) == Some((t, i))
    ensures t < FRAMES && i < 512 && m.ram[t][i] == LeafWord(live[k], VM_PAGE)
    ensures var m' := ShrinkPage(m, t, i);
      && Region(m', nodes, root, rest) && Balance(m', nodes, rest, total)
      && m' == Memory(WriteWord(m.ram, t, i, ZERO), m.used[live[k] := false])
      && forall q :: Lookup(m'.ram, root, 4, q) == if q == VmPath(k) then NoPage else Lookup(m.ram, root, 4, q)
  {
    assert PageIs(m.ram, root, live, k);
    WalkFindsEntry(m.ram, root, 4, VmPath(k));
    ReleaseFrame(m, live[k]);
    var m' := ShrinkPage(m, t, i);
    CountFreeUpdate(m.used, live[k], false);
    ShrunkRegion(m, nodes, root, live, k, t, m');
  }

  lemma ShrunkRegion(m: Mem, nodes: map<nat, Node>, root: nat, live: map<nat, nat>, k: nat, t: nat, m': Mem)
    requires Region(m, nodes, root, live) && k in live
    requires TableOf(m.ram, root, 4, VmPath(k)) == Some(t) && t < FRAMES
    requires m' == Memory(WriteWord(m.ram, t, k % 512, ZERO), m.used[live[k] := false])
    ensures Region(m', nodes, root, live - {k})
    ensures forall q :: Lookup(m'.ram, root, 4, q) == if q == VmPath(k) then NoPage else Lookup(m.ram, root, 4, q)
  {
    var f3, f2, f1 := TablePath(m, nodes, root, VmPath(k));
    LeafWriteShape(m, nodes, t, k % 512, ZERO);
    assert Shape(m', nodes);
    forall q
      ensures Lookup(m'.ram, root, 4, q) == if q == VmPath(k) then NoPage else Lookup(m.ram, root, 4, q)
    {
      LeafWriteKeeps(m, nodes, t, k % 512, ZERO, root, 4, q);
      if TableOf(m.ram, root, 4, q) == Some(t) { TableIdentifiesPath(m, nodes, root, VmPath(k), root, q); }
    }
    forall j: nat | j < VM_PAGES
      ensures PageIs(m'.ram, root, live - {k}, j)
    {
      assert PageIs(m.ram, root, live, j);
      assert VmPath(j) == VmPath(k) <==> j == k;
    }
  }

  // ---- the rest of memory

  // The paths of n pages from `first`.
  ghost function Span(first: nat, n: nat): iset<Path> {
    iset p: Path | p.i4 == 402 && p.i3 == 0 && first <= 512 * p.i2 + p.i1 < first + n
  }

  lemma InSpan(first: nat, n: nat, k: nat)
    requires k < VM_PAGES
    ensures VmPath(k) in Span(first, n) <==> first <= k < first + n
  {
  }

  // No page-table entry but its own refers to the frame of a live page, and none to a free frame.
  ghost predicate Private(m: Mem, nodes: map<nat, Node>, live: map<nat, nat>)
    requires Shape(m, nodes)
  {
    NoDangling(m, nodes) && forall k :: k in live ==> SoleEntry(m, nodes, live[k])
  }

  // Pages below `next` have been handed out; some of them are live, in frames that no other entry
  // refers to, and the others are unmapped.
  ghost predicate Owns(m: Mem, nodes: map<nat, Node>, root: nat, live: map<nat, nat>, next: nat) {
    && Region(m, nodes, root, live) && Private(m, nodes, live)
    && next <= VM_PAGES && (forall k :: k in live ==> k < next)
    && (forall k: nat :: k < next && k !in live ==> Unmapped(m.ram, root, k))
  }

  // Since m0, nothing but the open pages has been touched, and the live pages are private.
  ghost predicate Tended(m0: Mem, nodes0: map<nat, Node>, m: Mem, nodes: map<nat, Node>, live: map<nat, nat>,
                         open: iset<Path>) {
    Undisturbed(m0, nodes0, m, nodes, open) && Private(m, nodes, live)
  }

  lemma GrowTended(m0: Mem, nodes0: map<nat, Node>, m: Mem, nodes: map<nat, Node>, root: nat, live: map<nat, nat>,
                   k: nat, m': Mem, nodes': map<nat, Node>, open: iset<Path>)
    requires Region(m, nodes, root, live) && k < VM_PAGES && k !in live && GrowPage(m, root, k) == Some(m')
    requires nodes' == NodesMap(Alloc(m).value.mem, nodes, root, 4, VmPath(k), VM_PAGE.user)
    requires Tended(m0, nodes0, m, nodes, live, open) && OnlyTaken(m0, m) && VmPath(k) in open
    ensures Tended(m0, nodes0, m', nodes', live[k := Alloc(m).value.frame], open) && OnlyTaken(m0, m')
  {
    var g := Alloc(m).value;
    TakeRegion(m, nodes, root, live);
    assert PageIs(g.mem.ram, root, live, k);
    UndisturbedTake(m0, nodes0, m, nodes, open);
    UndisturbedMap(m0, nodes0, g.mem, nodes, open, root, VmPath(k), g.frame, VM_PAGE, m', nodes');
    GrowPrivate(m, nodes, root, live, k, m', nodes');
  }

  lemma GrowPrivate(m: Mem, nodes: map<nat, Node>, root: nat, live: map<nat, nat>, k: nat, m': Mem,
                    nodes': map<nat, Node>)
    requires Shape(m, nodes) && Private(m, nodes, live) && IsRoot(nodes, root) && Alloc(m).Some? && k < VM_PAGES
    requires forall j :: j in live ==> live[j] != Alloc(m).value.frame
    requires var g := Alloc(m).value;
      && Clear(g.mem.ram, root, 4, VmPath(k))
      && MapPage(g.mem, root, VmPath(k), g.frame, VM_PAGE) == Some(m')
      && nodes' == NodesMap(g.mem, nodes, root, 4, VmPath(k), VM_PAGE.user)
    ensures Shape(m', nodes') && Private(m', nodes', live[k := Alloc(m).value.frame])
  {
    var g := Alloc(m).value;
    TakeNoDangling(m, nodes);
    MapNoDangling(g.mem, nodes, root, VmPath(k), g.frame, VM_PAGE, m', nodes');
    var live' := live[k := g.frame];
    forall j | j in live'
      ensures SoleEntry(m', nodes', live'[j])
    {
      if j != k { TakeSoleEntry(m, nodes, live[j]); }
      MapSoleEntry(g.mem, nodes, root, VmPath(k), g.frame, VM_PAGE, m', nodes', live'[j]);
    }
  }

  lemma ShrinkTended(m0: Mem, nodes0: map<nat, Node>, m: Mem, nodes: map<nat, Node>, root: nat, live: map<nat, nat>,
                     k: nat, rest: map<nat, nat>, t: nat, i: nat, m': Mem, open: iset<Path>)
    requires Region(m, nodes, root, live) && k in live && rest == live - {k}
    requires Walk(m.ram, root, 4, VmPath(k)) == Some((t, i)) && t < FRAMES && i < 512
    requires Shape(m', nodes) && m' == Memory(WriteWord(m.ram, t, i, ZERO), m.used[live[k] := false])
    requires Tended(m0, nodes0, m, nodes, live, open) && VmPath(k) in open
    ensures Tended(m0, nodes0, m', nodes, rest, open)
  {
    assert PageIs(m.ram, root, live, k);
    WalkFindsEntry(m.ram, root, 4, VmPath(k));
    var f3, f2, f1 := TablePath(m, nodes, root, VmPath(k));
    UndisturbedClear(m0, nodes0, m, nodes, open, root, VmPath(k), t, m');
    ClearNoDangling(m, nodes, t, i, live[k], m');
    forall j | j in rest
      ensures SoleEntry(m', nodes, rest[j])
    {
      ClearSoleEntry(m, nodes, t, i, m', live[j]);
    }
  }

  // ---- what pages cost

  // Pages with the same block share a page table.
  function Block(k: nat): nat { k / 512 }

  lemma BlockPart(k: nat, l: nat)
    requires k < VM_PAGES && l < VM_PAGES
    ensures Parting(VmPath(k), VmPath(l), 4) == if Block(k) == Block(l) then 0 else 1
  {
    PartingIs(VmPath(k), VmPath(l));
  }

  lemma BlocksGrow(l: nat, n: nat, k: nat)
    requires l <= n <= k
    ensures Block(k) == Block(l) ==> Block(k) == Block(n)
  {
  }

  function MissingAt(ram: Ram, root: nat, k: nat): nat
    requires root < FRAMES && k < VM_PAGES
  {
    Missing(ram, root, 4, VmPath(k))
  }

  // The tables that page k lacks once the pages from `first` up to `next` have been mapped.
  function Lacks(ram: Ram, root: nat, first: nat, next: nat, k: nat): nat
    requires root < FRAMES && k < VM_PAGES
  {
    if next <= first then MissingAt(ram, root, k)
    else if Block(k) == Block(next - 1) then 0
    else Min(1, MissingAt(ram, root, k))
  }

  // The frames that the pages from `first` up to `next` take: one each, and their tables.
  function SpanCost(ram: Ram, root: nat, first: nat, next: nat): nat
    requires root < FRAMES && next <= VM_PAGES
  {
    if next <= first then 0
    else SpanCost(ram, root, first, next - 1) + 1 + Lacks(ram, root, first, next - 1, next - 1)
  }

  lemma SpanCostNext(ram: Ram, root: nat, first: nat, next: nat, next': nat)
    requires root < FRAMES && first <= next < VM_PAGES && next' == next + 1
    ensures SpanCost(ram, root, first, next') ==
      SpanCost(ram, root, first, next) + 1 + Lacks(ram, root, first, next, next)
  {
  }

  lemma {:induction false} SpanCostGrows(ram: Ram, root: nat, first: nat, next: nat, end: nat)
    requires root < FRAMES && first <= next <= end <= VM_PAGES
    ensures SpanCost(ram, root, first, next) <= SpanCost(ram, root, first, end)
    decreases end
  {
    if next < end { SpanCostGrows(ram, root, first, next, end - 1); }
  }

  // The pages from `first` to `last` never take more than a frame each, three tables, and a table
  // for each further block.
  lemma {:induction false} SpanCostBound(ram: Ram, root: nat, first: nat, last: nat)
    requires root < FRAMES && first <= last < VM_PAGES
    ensures SpanCost(ram, root, first, last + 1) <= last + 1 - first + 3 + Block(last) - Block(first)
    decreases last
  {
    SpanCostNext(ram, root, first, last, last + 1);
    LacksMost(ram, root, first, last);
    if first < last { SpanCostBound(ram, root, first, last - 1); }
  }

  lemma LacksMost(ram: Ram, root: nat, first: nat, k: nat)
    requires root < FRAMES && first <= k < VM_PAGES
    ensures Lacks(ram, root, first, k, k) <= if k == first then 3 else Block(k) - Block(k - 1)
  {
    MissingMost(ram, root, 4, VmPath(k));
  }

  lemma {:induction false} MissingMost(ram: Ram, f: nat, k: nat, p: Path)
    requires f < FRAMES && 1 <= k <= 4
    ensures Missing(ram, f, k, p) <= k - 1
    decreases k
  {
    if k > 1 && ram[f][Index(p, k)].flags.present { MissingMost(ram, ram[f][Index(p, k)].frame, k - 1, p); }
  }

  // Since m0, exactly the cost of the pages from `first` up to `next` has been taken.
  ghost predicate Paid(m0: Mem, m: Mem, root: nat, first: nat, next: nat)
    requires root < FRAMES && next <= VM_PAGES
  {
    && CountFree(m.used) + SpanCost(m0.ram, root, first, next) == CountFree(m0.used)
    && forall k: nat :: next <= k < VM_PAGES ==> MissingAt(m.ram, root, k) == Lacks(m0.ram, root, first, next, k)
  }

  lemma PaidStart(m: Mem, root: nat, first: nat)
    requires root < FRAMES && first <= VM_PAGES
    ensures Paid(m, m, root, first, first)
  {
  }

  // The next page halts exactly when fewer frames are free than it takes, and pays for itself.
  lemma PaidNext(m0: Mem, m: Mem, nodes: map<nat, Node>, root: nat, live: map<nat, nat>, first: nat, next: nat,
                 next': nat, r: Option<Mem>)
    requires Region(m, nodes, root, live) && first <= next < VM_PAGES && next' == next + 1
    requires Paid(m0, m, root, first, next) && r == GrowPage(m, root, next)
    ensures r.None? ==> CountFree(m0.used) < SpanCost(m0.ram, root, first, next')
    ensures r.Some? ==> Paid(m0, r.value, root, first, next')
  {
    assert PageIs(m.ram, root, live, next);
    assert MissingAt(m.ram, root, next) == Lacks(m0.ram, root, first, next, next);
    TakeAndMapCost(m, nodes, root, VmPath(next), VM_PAGE);
    SpanCostNext(m0.ram, root, first, next, next');
    if r.Some? {
      forall k: nat | next' <= k < VM_PAGES
        ensures MissingAt(r.value.ram, root, k) == Lacks(m0.ram, root, first, next', k)
      {
        assert PageIs(m.ram, root, live, k);
        assert MissingAt(m.ram, root, k) == Lacks(m0.ram, root, first, next, k);
        MissingLater(m, nodes, root, next, r.value, k);
        LacksNext(m0.ram, root, first, next, next', k);
      }
    }
  }

  lemma MissingLater(m: Mem, nodes: map<nat, Node>, root: nat, next: nat, m': Mem, k: nat)
    requires Shape(m, nodes) && IsRoot(nodes, root) && next < VM_PAGES && k < VM_PAGES
    requires Clear(m.ram, root, 4, VmPath(next)) && Clear(m.ram, root, 4, VmPath(k))
    requires GrowPage(m, root, next) == Some(m')
    ensures MissingAt(m'.ram, root, k) == Min(MissingAt(m.ram, root, k), if Block(k) == Block(next) then 0 else 1)
  {
    var g := Alloc(m).value;
    TakeShape(m, nodes);
    LookupSame(m.ram, g.mem.ram, m, nodes, root, 4, VmPath(next));
    LookupSame(m.ram, g.mem.ram, m, nodes, root, 4, VmPath(k));
    MissingKept(m, nodes, g.mem.ram, root, 4, VmPath(k));
    MissingAfter(g.mem, nodes, root, 4, VmPath(next), g.frame, VM_PAGE, VmPath(k));
    BlockPart(k, next);
  }

  lemma LacksNext(ram: Ram, root: nat, first: nat, next: nat, next': nat, k: nat)
    requires root < FRAMES && first <= next < k < VM_PAGES && next' == next + 1
    ensures Lacks(ram, root, first, next', k) ==
      Min(Lacks(ram, root, first, next, k), if Block(k) == Block(next) then 0 else 1)
  {
    if next > first { BlocksGrow(next - 1, next, k); }
  }
}
