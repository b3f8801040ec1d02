/** vmalloc and vfree (mm/vmalloc.c): the moving pointer, the list of areas and the loops. */
module Vmalloc {
  import opened Pgtable
  import opened Wrappers
  import opened FrameAlloc
  import opened Paging
  import opened CloneSpace
  import opened Outside
  import opened VmArea
  import opened Mmu

  // A vm_struct counted in pages: its addr is VMALLOC_START + 4096 * first, its size 4096 * count.
  datatype Area = Area(first: nat, count: nat)

  function Addr(a: Area): nat { VMALLOC_START + 4096 * a.first }

  // The first record with that address, or the number of records.
  function FirstAt(areas: seq<Area>, addr: nat): (i: nat)
    ensures i <= |areas| && (forall j :: 0 <= j < i ==> Addr(areas[j]) != addr)
    ensures i < |areas| ==> Addr(areas[i]) == addr
  {
    if areas == [] || Addr(areas[0]) == addr then 0 else 1 + FirstAt(areas[1..], addr)
  }

  // `(size + PAGE_SIZE - 1) / PAGE_SIZE` in 64 bits, narrowed to 32.
  function PagesNeeded(size: nat): nat {
    (size + 4095) % 0x1_0000_0000_0000_0000 / 4096 % 0x1_0000_0000
  }

  // The narrowing is harmless exactly up to 2^44 - 4096 bytes; above, too few pages are mapped.
  lemma PagesNeededExact(size: nat)
    requires 0 < size < 0x1_0000_0000_0000_0000
    ensures PagesNeeded(size) * 4096 >= size <==> size <= 0xFFF_FFFF_F000
    ensures size <= 0xFFF_FFFF_F000 ==> PagesNeeded(size) == (size + 4095) / 4096
  {
  }

  // The areas, newest first: apart from each other, below page n, all pages live.
  ghost predicate AreasOk(areas: seq<Area>, live: map<nat, nat>, n: nat) {
    && (forall i :: 0 <= i < |areas| ==> AreaOk(areas[i], live, n))
    && (forall i, j :: 0 <= i < j < |areas| ==> areas[j].first + areas[j].count <= areas[i].first)
  }

  ghost predicate AreaOk(a: Area, live: map<nat, nat>, n: nat) {
    a.first + a.count <= n && forall k :: a.first <= k < a.first + a.count ==> k in live
  }

  // The live pages without n pages from `first`.
  ghost function Without(live: map<nat, nat>, first: nat, n: nat): map<nat, nat> {
    map k | k in live && !(first <= k < first + n) :: live[k]
  }

  ghost predicate Handed(m: Mem, nodes: map<nat, Node>, root: nat, live: map<nat, nat>, total: int, next: nat) {
    Owns(m, nodes, root, live, next) && Balance(m, nodes, live, total)
  }

  // live' adds pages first..next to live, in frames that were free in m.
  ghost predicate Extends(m: Mem, live: map<nat, nat>, live': map<nat, nat>, first: nat, next: nat) {
    && (forall k :: k in live' <==> k in live || first <= k < next)
    && (forall k :: k in live && k < first ==> live'[k] == live[k])
    && (forall k :: first <= k < next ==> Free(m, live'[k]))
  }

  // Since m0, the pages from `first` to `next` have been handed out, and nothing has changed but
  // the open pages.
  ghost predicate Grown(m0: Mem, nodes0: map<nat, Node>, live0: map<nat, nat>, first: nat, open: iset<Path>,
                        m: Mem, nodes: map<nat, Node>, root: nat, live: map<nat, nat>, total: int, next: nat) {
    && first <= next && Handed(m, nodes, root, live, total, next) && Extends(m0, live0, live, first, next)
    && Undisturbed(m0, nodes0, m, nodes, open) && OnlyTaken(m0, m) && Paid(m0, m, root, first, next)
  }

  lemma GrownNext(m0: Mem, nodes0: map<nat, Node>, live0: map<nat, nat>, first: nat, open: iset<Path>,
                  m: Mem, nodes: map<nat, Node>, root: nat, live: map<nat, nat>, total: int, next: nat, m': Mem)
    returns (nodes': map<nat, Node>, live': map<nat, nat>, next': nat)
    requires Grown(m0, nodes0, live0, first, open, m, nodes, root, live, total, next)
    requires next < VM_PAGES && VmPath(next) in open && GrowPage(m, root, next) == Some(m')
    ensures Grown(m0, nodes0, live0, first, open, m', nodes', root, live', total, next') && next' == next + 1
  {
    var frame;
    nodes', frame := GrowStep(m, nodes, root, live, next, m', total);
    live', next' := live[next := frame], next + 1;
    ExtendsNext(m0, live0, live, first, next, frame);
    GrowTended(m0, nodes0, m, nodes, root, live, next, m', nodes', open);
    PaidNext(m0, m, nodes, root, live, first, next, next', Some(m'));
    forall k: nat | k < next' && k !in live'
      ensures Unmapped(m'.ram, root, k)
    {
      assert Unmapped(m.ram, root, k);
      assert VmPath(k) == VmPath(next) <==> k == next;
    }
  }

  lemma ExtendsNext(m0: Mem, live0: map<nat, nat>, live: map<nat, nat>, first: nat, next: nat, frame: nat)
    requires Extends(m0, live0, live, first, next) && first <= next && Free(m0, frame)
    ensures Extends(m0, live0, live[next := frame], first, next + 1)
  {
  }

  // The pages from `next` up to `end`.
  function GrowFrom(m: Mem, root: nat, next: nat, end: nat): (r: Option<Mem>)
    requires ValidMem(m) && root < FRAMES && next <= end <= VM_PAGES
    ensures r.Some? ==> ValidMem(r.value)
    decreases end - next
  {
    if next == end then Some(m)
    else
      match GrowPage(m, root, next)
      case None => None
      case Some(m') => GrowFrom(m', root, next + 1, end)
  }

  lemma {:induction false} GrowFromFirst(m: Mem, root: nat, next: nat, end: nat, r: Option<Mem>, w: Option<Mem>)
    requires ValidMem(m) && root < FRAMES && next < end <= VM_PAGES
    requires w == GrowFrom(m, root, next, end) && r == GrowPage(m, root, next)
    ensures r.None? ==> w.None?
    ensures r.Some? ==> w == GrowFrom(r.value, root, next + 1, end)
  {
  }

  lemma {:induction false} GrowFromSame(m: Mem, root: nat, a: nat, b: nat, end: nat, w: Option<Mem>)
    requires ValidMem(m) && root < FRAMES && a <= end <= VM_PAGES && a == b && w == GrowFrom(m, root, a, end)
    ensures w == GrowFrom(m, root, b, end)
  {
  }

  lemma GrowFromStep(m: Mem, root: nat, next: nat, next': nat, end: nat, r: Option<Mem>, w: Option<Mem>)
    requires ValidMem(m) && root < FRAMES && next < end <= VM_PAGES && next' == next + 1
    requires w == GrowFrom(m, root, next, end) && r == GrowPage(m, root, next)
    ensures r.None? ==> w.None?
    ensures r.Some? ==> w == GrowFrom(r.value, root, next', end)
  {
    GrowFromFirst(m, root, next, end, r, w);
    if r.Some? { GrowFromSame(r.value, root, next + 1, next', end, w); }
  }

  // Grown, with some roles of the tables and some frames.
  ghost predicate GrownTo(m0: Mem, nodes0: map<nat, Node>, live0: map<nat, nat>, first: nat, open: iset<Path>,
                          m: Mem, root: nat, total: int, next: nat) {
    exists nodes: map<nat, Node>, live: map<nat, nat> ::
      Grown(m0, nodes0, live0, first, open, m, nodes, root, live, total, next)
  }

  // All pages are handed out, or there are too few frames for them.
  lemma {:induction false} PagesGrown(m0: Mem, nodes0: map<nat, Node>, live0: map<nat, nat>, first: nat,
                                      open: iset<Path>, m: Mem, root: nat, total: int, next: nat, end: nat,
                                      r: Option<Mem>)
    requires ValidMem(m) && root < FRAMES && first <= next <= end <= VM_PAGES
    requires GrownTo(m0, nodes0, live0, first, open, m, root, total, next)
    requires forall k :: next <= k < end ==> VmPath(k) in open
    requires r == GrowFrom(m, root, next, end)
    ensures r.None? ==> CountFree(m0.used) < SpanCost(m0.ram, root, first, end)
    ensures r.Some? ==> GrownTo(m0, nodes0, live0, first, open, r.value, root, total, end)
    decreases end - next
  {
    if next < end {
      var r1, next' := PageGrown(m0, nodes0, live0, first, open, m, root, total, next, end, r);
      if r1.Some? { PagesGrown(m0, nodes0, live0, first, open, r1.value, root, total, next', end, r); }
    }
  }

  // One page, and what is left to hand out after it.
  lemma PageGrown(m0: Mem, nodes0: map<nat, Node>, live0: map<nat, nat>, first: nat, open: iset<Path>,
                  m: Mem, root: nat, total: int, next: nat, end: nat, r: Option<Mem>)
    returns (r1: Option<Mem>, next': nat)
    requires ValidMem(m) && root < FRAMES && first <= next < end <= VM_PAGES && VmPath(next) in open
    requires GrownTo(m0, nodes0, live0, first, open, m, root, total, next) && r == GrowFrom(m, root, next, end)
    ensures next' == next + 1
    ensures r1.None? ==> r.None? && CountFree(m0.used) < SpanCost(m0.ram, root, first, end)
    ensures r1.Some? ==>
      && ValidMem(r1.value) && GrownTo(m0, nodes0, live0, first, open, r1.value, root, total, next')
      && r == GrowFrom(r1.value, root, next', end)
  {
    r1, next' := PagePaid(m0, nodes0, live0, first, open, m, root, total, next);
    GrowFromStep(m, root, next, next', end, r1, r);
    SpanCostGrows(m0.ram, root, first, next', end);
  }

  lemma PagePaid(m0: Mem, nodes0: map<nat, Node>, live0: map<nat, nat>, first: nat, open: iset<Path>,
                 m: Mem, root: nat, total: int, next: nat)
    returns (r: Option<Mem>, next': nat)
    requires ValidMem(m) && root < FRAMES && first <= next < VM_PAGES && VmPath(next) in open
    requires GrownTo(m0, nodes0, live0, first, open, m, root, total, next)
    ensures r == GrowPage(m, root, next) && next' == next + 1
    ensures r.None? ==> CountFree(m0.used) < SpanCost(m0.ram, root, first, next')
    ensures r.Some? ==> ValidMem(r.value) && GrownTo(m0, nodes0, live0, first, open, r.value, root, total, next')
  {
    var nodes: map<nat, Node>, live: map<nat, nat> :|
      Grown(m0, nodes0, live0, first, open, m, nodes, root, live, total, next);
    r, next' := GrowPage(m, root, next), next + 1;
    if r.None? {
      PaidNext(m0, m, nodes, root, live, first, next, next', r);
    } else {
      var nodes', live', n := GrownNext(m0, nodes0, live0, first, open, m, nodes, root, live, total, next, r.value);
    }
  }

  // alloc_page and arch_map_page for page k; false is the out-of-memory halt.
  method MapAt(mmu: Mmu, ghost k: nat, va: nat) returns (ok: bool)
    requires mmu.Valid() && mmu.currentPgd.Some? && k < VM_PAGES && va == VMALLOC_START + 4096 * k
    modifies mmu.pm, mmu.pm.bitmap
    ensures mmu.Valid()
    ensures GrowPage(old(mmu.View()), mmu.cr3, k) == if ok then Some(mmu.View()) else None
    ensures !ok ==> CountFree(mmu.View().used) == 0
  {
    VmPathOf(k);
    var frame := mmu.pm.AllocPage();
    if frame.None? {
      NoneFree(mmu.View());
      return false;
    }
    ok := mmu.ArchMapPage(va, frame.value, VM_PAGE);
  }

  // The same, on the way to page `end`: w is what the whole way comes to.
  method MapNext(mmu: Mmu, va: nat, ghost next: nat, ghost next': nat, ghost end: nat, ghost w: Option<Mem>)
    returns (ok: bool)
    requires mmu.Valid() && mmu.currentPgd.Some? && va == VMALLOC_START + 4096 * next
    requires next < end <= VM_PAGES && next' == next + 1 && w == GrowFrom(mmu.View(), mmu.cr3, next, end)
    modifies mmu.pm, mmu.pm.bitmap
    ensures mmu.Valid()
    ensures ok ==> w == GrowFrom(mmu.View(), mmu.cr3, next', end)
    ensures !ok ==> w.None? && CountFree(mmu.View().used) == 0
  {
    ghost var m := mmu.View();
    ok := MapAt(mmu, next, va);
    GrowFromStep(m, mmu.cr3, next, next', end, if ok then Some(mmu.View()) else None, w);
  }

  // The loop of lines 25-29 from page `first`; va is the moving vmalloc_ptr.
  method GrowPages(mmu: Mmu, start: nat, n: nat, ghost first: nat, ghost end: nat) returns (ok: bool, va: nat)
    requires mmu.Valid() && mmu.currentPgd.Some? && start == VMALLOC_START + 4096 * first
    requires end == first + n && end <= VM_PAGES
    modifies mmu.pm, mmu.pm.bitmap
    ensures mmu.Valid()
    ensures GrowFrom(old(mmu.View()), mmu.cr3, first, end) == if ok then Some(mmu.View()) else None
    ensures ok ==> va == start + 4096 * n
    ensures !ok ==> CountFree(mmu.View().used) == 0
  {
    va := start;
    ghost var next := first;
    ghost var w := GrowFrom(mmu.View(), mmu.cr3, first, end);
    for i := 0 to n
      invariant mmu.Valid() && va == start + 4096 * i && next == first + i
      invariant w == GrowFrom(mmu.View(), mmu.cr3, next, end)
    {
      ghost var next' := next + 1;
      ok := MapNext(mmu, va, next, next', end, w);
      if !ok { return; }
      va, next := va + 4096, next';
    }
    ok := true;
  }

  // Some page among i pages from `first` owns frame x.
  ghost predicate Owned(live: map<nat, nat>, first: nat, i: nat, x: nat) {
    exists k :: first <= k < first + i && k in live && live[k] == x
  }

  // i pages from `first` have been given back: unmapped, and exactly their frames released.
  ghost predicate GivenBack(m0: Mem, live: map<nat, nat>, m: Mem, nodes: map<nat, Node>, root: nat, total: int,
                            next: nat, open: iset<Path>, first: nat, i: nat) {
    && Handed(m, nodes, root, Without(live, first, i), total, next)
    && Undisturbed(m0, nodes, m, nodes, open)
    && CountFree(m.used) == CountFree(m0.used) + i
    && Released(m0, live, m, first, i)
  }

  ghost predicate Released(m0: Mem, live: map<nat, nat>, m: Mem, first: nat, i: nat) {
    forall x :: Free(m, x) <==> Free(m0, x) || Owned(live, first, i, x)
  }

  lemma ReleasedNext(m0: Mem, live: map<nat, nat>, m: Mem, first: nat, i: nat, k: nat, m': Mem)
    requires Released(m0, live, m, first, i) && k == first + i && k in live && live[k] < |m.used|
    requires m'.used == m.used[live[k] := false]
    ensures Released(m0, live, m', first, i + 1)
  {
    forall x
      ensures Free(m', x) <==> Free(m0, x) || Owned(live, first, i + 1, x)
    {
      assert Free(m', x) <==> Free(m, x) || x == live[k];
      assert Owned(live, first, i + 1, x) <==> Owned(live, first, i, x) || x == live[k] by {
        if x == live[k] { assert first <= k < first + (i + 1) && k in live && live[k] == x; }
      }
    }
  }

  lemma WithoutNext(live: map<nat, nat>, first: nat, i: nat, k: nat) returns (held: map<nat, nat>, rest: map<nat, nat>)
    requires k == first + i && k in live
    ensures held == Without(live, first, i) && rest == Without(live, first, i + 1)
    ensures rest == held - {k} && k in held && held[k] == live[k]
  {
    held, rest := Without(live, first, i), Without(live, first, i + 1);
  }

  lemma GiveBackOne(m0: Mem, live: map<nat, nat>, m: Mem, nodes: map<nat, Node>, root: nat, total: int, next: nat,
                    open: iset<Path>, first: nat, i: nat, k: nat, t: nat, j: nat)
    requires GivenBack(m0, live, m, nodes, root, total, next, open, first, i) && k == first + i && k in live
    requires k < VM_PAGES && VmPath(k) in open && Walk(m.ram, root, 4, VmPath(k)) == Some((t, j))
    ensures t < FRAMES && j < 512
    ensures GivenBack(m0, live, ShrinkPage(m, t, j), nodes, root, total, next, open, first, i + 1)
  {
    var held, rest := WithoutNext(live, first, i, k);
    HandedShrink(m0, m, nodes, root, held, total, next, open, k, rest, t, j);
    CountedNext(m0, live, m, first, i, k, ShrinkPage(m, t, j));
  }

  lemma CountedNext(m0: Mem, live: map<nat, nat>, m: Mem, first: nat, i: nat, k: nat, m': Mem)
    requires CountFree(m.used) == CountFree(m0.used) + i && Released(m0, live, m, first, i)
    requires k == first + i && k in live && live[k] < |m.used| && m.used[live[k]] && m'.used == m.used[live[k] := false]
    ensures CountFree(m'.used) == CountFree(m0.used) + (i + 1) && Released(m0, live, m', first, i + 1)
  {
    CountFreeUpdate(m.used, live[k], false);
    ReleasedNext(m0, live, m, first, i, k, m');
  }

  lemma HandedShrink(m0: Mem, m: Mem, nodes: map<nat, Node>, root: nat, live: map<nat, nat>, total: int, next: nat,
                     open: iset<Path>, k: nat, rest: map<nat, nat>, t: nat, j: nat)
    requires Handed(m, nodes, root, live, total, next) && Undisturbed(m0, nodes, m, nodes, open)
    requires k in live && rest == live - {k} && VmPath(k) in open && Walk(m.ram, root, 4, VmPath(k)) == Some((t, j))
    ensures t < FRAMES && j < 512 && live[k] < |m.used| && m.used[live[k]]
    ensures ShrinkPage(m, t, j).used == m.used[live[k] := false]
    ensures Handed(ShrinkPage(m, t, j), nodes, root, rest, total, next)
    ensures Undisturbed(m0, nodes, ShrinkPage(m, t, j), nodes, open)
  {
    ShrinkStep(m, nodes, root, live, k, rest, t, j, total);
    var m' := ShrinkPage(m, t, j);
    ShrinkTended(m0, nodes, m, nodes, root, live, k, rest, t, j, m', open);
    forall l: nat | l < next && l !in rest
      ensures Unmapped(m'.ram, root, l)
    {
      if l != k { assert Unmapped(m.ram, root, l); }
    }
  }

  // Lines 49-55: walk to the entry of page k, release its frame, clear it.
  method UnmapAt(mmu: Mmu, ghost k: nat, va: nat)
    requires mmu.Valid() && mmu.currentPgd.Some? && k < VM_PAGES && va == VMALLOC_START + 4096 * k
    modifies mmu.pm, mmu.pm.bitmap
    ensures mmu.Valid()
    ensures match Walk(old(mmu.pm.ram), mmu.cr3, 4, VmPath(k))
      case None => mmu.View() == old(mmu.View())
      case Some((t, j)) =>
        && t < FRAMES && j < 512
        && var m := old(mmu.View()); mmu.View() == if m.ram[t][j].flags.present then ShrinkPage(m, t, j) else m
  {
    VmPathOf(k);
    var pte := mmu.WalkPageTable(va);
    WalkInRange(mmu.pm.ram, mmu.cr3, 4, VmPath(k));
    if pte.Some? {
      var (t, j) := pte.value;
      var w := mmu.pm.ram[t][j];
      if w.flags.present {
        mmu.pm.FreePage(w.frame * 4096);
        mmu.Store(t, j, ZERO);
      }
    }
  }

  lemma {:induction false} WalkInRange(ram: Ram, f: nat, k: nat, p: Path)
    requires f < FRAMES && 1 <= k <= 4
    ensures Walk(ram, f, k, p).Some? ==> Walk(ram, f, k, p).value.0 < FRAMES && Walk(ram, f, k, p).value.1 == p.i1
    decreases k
  {
    if k > 1 { WalkInRange(ram, ram[f][Index(p, k)].frame, k - 1, p); }
  }

  // One iteration of the loop of lines 48-56.
  method GiveBackPage(mmu: Mmu, va: nat, ghost k: nat, ghost m0: Mem, ghost nodes: map<nat, Node>,
                      ghost live: map<nat, nat>, ghost total: int, ghost next: nat, ghost open: iset<Path>,
                      ghost first: nat, ghost i: nat)
    requires mmu.Valid() && mmu.currentPgd.Some? && va == VMALLOC_START + 4096 * k && k == first + i && k in live
    requires k < VM_PAGES && VmPath(k) in open
    requires GivenBack(m0, live, mmu.View(), nodes, mmu.cr3, total, next, open, first, i)
    modifies mmu.pm, mmu.pm.bitmap
    ensures mmu.Valid() && GivenBack(m0, live, mmu.View(), nodes, mmu.cr3, total, next, open, first, i + 1)
  {
    ghost var m := mmu.View();
    ghost var t, j := LiveEntry(m, nodes, mmu.cr3, Without(live, first, i), k);
    UnmapAt(mmu, k, va);
    GiveBackOne(m0, live, m, nodes, mmu.cr3, total, next, open, first, i, k, t, j);
  }

  // The loop of lines 48-56 over the n pages of an area. Only the open pages change.
  method GiveBackPages(mmu: Mmu, start: nat, n: nat, ghost first: nat, ghost open: iset<Path>,
                       ghost nodes: map<nat, Node>, ghost live: map<nat, nat>, ghost total: int, ghost next: nat)
    requires mmu.Valid() && mmu.currentPgd.Some? && start == VMALLOC_START + 4096 * first && first + n <= VM_PAGES
    requires GivenBack(mmu.View(), live, mmu.View(), nodes, mmu.cr3, total, next, open, first, 0)
    requires forall k :: first <= k < first + n ==> k in live && VmPath(k) in open
    modifies mmu.pm, mmu.pm.bitmap
    ensures mmu.Valid()
    ensures GivenBack(old(mmu.View()), live, mmu.View(), nodes, mmu.cr3, total, next, open, first, n)
  {
    ghost var m0 := mmu.View();
    ghost var m := m0;
    for i := 0 to n
      invariant mmu.Valid() && m == mmu.View() && GivenBack(m0, live, m, nodes, mmu.cr3, total, next, open, first, i)
    {
      GiveBackPage(mmu, start + i * 4096, first + i, m0, nodes, live, total, next, open, first, i);
      m := mmu.View();
    }
  }

  lemma LiveEntry(m: Mem, nodes: map<nat, Node>, root: nat, live: map<nat, nat>, k: nat) returns (t: nat, j: nat)
    requires Region(m, nodes, root, live) && k in live
    ensures Walk(m.ram, root, 4, VmPath(k)) == Some((t, j)) && t < FRAMES && j < 512 && m.ram[t][j].flags.present
  {
    assert PageIs(m.ram, root, live, k);
    WalkFindsEntry(m.ram, root, 4, VmPath(k));
    var slot := Walk(m.ram, root, 4, VmPath(k)).value;
    t, j := slot.0, slot.1;
  }

  // ---- how far the pointer goes

  datatype Call = VmallocCall(size: nat) | VfreeCall(addr: nat)

  // vmalloc_ptr after the calls, as a page of the region. vfree never takes it back.
  function Pointer(calls: seq<Call>): nat {
    if calls == [] then 0
    else
      var last := calls[|calls| - 1];
      Pointer(calls[..|calls| - 1]) + if last.VmallocCall? then PagesNeeded(last.size) else 0
  }

  predicate PageInside(k: nat) { VMALLOC_START + 4096 * k + 4096 <= VMALLOC_END }

  ghost predicate AllInside(first: nat, n: nat) {
    forall k: nat :: first <= k < first + n ==> PageInside(k)
  }

  // Every page that call i gets lies in the region.
  ghost predicate CallInside(calls: seq<Call>, i: nat)
    requires i < |calls|
  {
    calls[i].VmallocCall? ==> AllInside(Pointer(calls[..i]), PagesNeeded(calls[i].size))
  }

  // The pages that a run of calls gets lie in the region exactly when there are at most VM_PAGES of
  // them, whatever is freed in between: VMALLOC_END is never tested.
  lemma {:induction false} InsideIff(calls: seq<Call>)
    ensures (forall i :: 0 <= i < |calls| ==> CallInside(calls, i)) <==> Pointer(calls) <= VM_PAGES
  {
    if calls != [] {
      var k := |calls| - 1;
      var before := calls[..k];
      InsideIff(before);
      forall i | 0 <= i < k
        ensures CallInside(before, i) <==> CallInside(calls, i)
      {
        assert before[..i] == calls[..i];
      }
      LastInside(calls, Pointer(before));
    }
  }

  lemma LastInside(calls: seq<Call>, at: nat)
    requires calls != [] && at == Pointer(calls[..|calls| - 1])
    ensures Pointer(calls) <= VM_PAGES ==> CallInside(calls, |calls| - 1)
    ensures at <= VM_PAGES && CallInside(calls, |calls| - 1) ==> Pointer(calls) <= VM_PAGES
  {
    var last := calls[|calls| - 1];
    if last.VmallocCall? && PagesNeeded(last.size) > 0 && CallInside(calls, |calls| - 1) {
      assert PageInside(at + PagesNeeded(last.size) - 1);
    }
  }

  // A gigabyte, given back, and one byte more: the byte is past the region.
  lemma FreedPagesDoNotReturn()
    ensures var calls := [VmallocCall(0x4000_0000), VfreeCall(VMALLOC_START), VmallocCall(1)];
      !CallInside(calls, 2) && Pointer(calls[..2]) == VM_PAGES
  {
    var calls := [VmallocCall(0x4000_0000), VfreeCall(VMALLOC_START), VmallocCall(1)];
    var two := calls[..2];
    assert two[..1] == calls[..1] && calls[..1][..0] == [];
    assert Pointer(calls[..1]) == VM_PAGES;
    assert Pointer(two) == VM_PAGES;
    assert !PageInside(Pointer(two));
  }

  // ---- vmalloc and vfree

  // Pages handed out below `next`, and the recorded areas over them.
  ghost predicate Keeps(m: Mem, nodes: map<nat, Node>, root: nat, live: map<nat, nat>, total: int, next: nat,
                        areas: seq<Area>) {
    Handed(m, nodes, root, live, total, next) && AreasOk(areas, live, next)
  }

  ghost function AreaPaths(a: Area): iset<Path> { Span(a.first, a.count) }

  predicate InArea(a: Area, k: nat) { a.first <= k < a.first + a.count }

  // Two pages of live areas, of one or of two, are different pages on different frames that are
  // in use and hold no page table.
  lemma AreasPrivate(m: Mem, nodes: map<nat, Node>, root: nat, live: map<nat, nat>, total: int, next: nat,
                     areas: seq<Area>,
                     i: nat, j: nat, k: nat, l: nat)
    requires Keeps(m, nodes, root, live, total, next, areas)
    requires i < |areas| && j < |areas| && InArea(areas[i], k) && InArea(areas[j], l) && (i != j || k != l)
    ensures k != l && k < VM_PAGES && l < VM_PAGES
    ensures var a, b := Lookup(m.ram, root, 4, VmPath(k)), Lookup(m.ram, root, 4, VmPath(l));
      && a.Mapped? && b.Mapped? && a.level == 1 == b.level && a.word.frame != b.word.frame
      && !Free(m, a.word.frame) && a.word.frame !in nodes
  {
    assert AreaOk(areas[i], live, next) && AreaOk(areas[j], live, next);
    assert PageIs(m.ram, root, live, k) && PageIs(m.ram, root, live, l);
  }

  lemma KeepsGrown(m0: Mem, live: map<nat, nat>, first: nat, areas: seq<Area>,
                   m: Mem, nodes: map<nat, Node>, root: nat, live': map<nat, nat>, total: int, n: nat, next: nat)
    requires AreasOk(areas, live, first) && (forall k :: k in live ==> k < first) && next == first + n
    requires Extends(m0, live, live', first, next) && Handed(m, nodes, root, live', total, next)
    ensures Keeps(m, nodes, root, live', total, next, areas)
    ensures Keeps(m, nodes, root, live', total, next, [Area(first, n)] + areas)
  {
    AreasGrown(m0, live, first, areas, live', n, next);
  }

  lemma AreasGrown(m0: Mem, live: map<nat, nat>, first: nat, areas: seq<Area>, live': map<nat, nat>, n: nat, next: nat)
    requires AreasOk(areas, live, first) && (forall k :: k in live ==> k < first) && next == first + n
    requires Extends(m0, live, live', first, next)
    ensures AreasOk(areas, live', next) && AreasOk([Area(first, n)] + areas, live', next)
  {
    var areas' := [Area(first, n)] + areas;
    forall i | 0 <= i < |areas|
      ensures AreaOk(areas[i], live', next)
    {
      assert AreaOk(areas[i], live, first);
    }
    forall i | 0 <= i < |areas'|
      ensures AreaOk(areas'[i], live', next)
    {
      if i > 0 { assert areas'[i] == areas[i - 1]; }
    }
    forall i, j | 0 <= i < j < |areas'|
      ensures areas'[j].first + areas'[j].count <= areas'[i].first
    {
      assert areas'[j] == areas[j - 1];
      assert AreaOk(areas[j - 1], live, first);
    }
  }

  lemma KeepsShrunk(m0: Mem, live: map<nat, nat>, areas: seq<Area>, i: nat,
                    m: Mem, nodes: map<nat, Node>, root: nat, total: int, next: nat, open: iset<Path>)
    requires Keeps(m0, nodes, root, live, total, next, areas) && i < |areas|
    requires GivenBack(m0, live, m, nodes, root, total, next, open, areas[i].first, areas[i].count)
    ensures Keeps(m, nodes, root, Without(live, areas[i].first, areas[i].count), total, next,
      areas[..i] + areas[i + 1..])
  {
    AreasShrunk(live, areas, i, next);
  }

  lemma AreasShrunk(live: map<nat, nat>, areas: seq<Area>, i: nat, next: nat)
    requires AreasOk(areas, live, next) && i < |areas|
    ensures AreasOk(areas[..i] + areas[i + 1..], Without(live, areas[i].first, areas[i].count), next)
  {
    var live', areas' := Without(live, areas[i].first, areas[i].count), areas[..i] + areas[i + 1..];
    forall j | 0 <= j < |areas'|
      ensures AreaOk(areas'[j], live', next)
    {
      var b := areas[if j < i then j else j + 1];
      assert areas'[j] == b && AreaOk(b, live, next);
    }
  }

  lemma NothingGivenBack(m: Mem, live: map<nat, nat>, nodes: map<nat, Node>, root: nat, total: int, next: nat,
                         open: iset<Path>, first: nat)
    requires Handed(m, nodes, root, live, total, next)
    ensures GivenBack(m, live, m, nodes, root, total, next, open, first, 0)
  {
    assert Without(live, first, 0) == live;
  }

  lemma SpanOpen(first: nat, n: nat) returns (open: iset<Path>)
    requires first + n <= VM_PAGES
    ensures open == Span(first, n) && forall k :: first <= k < first + n ==> VmPath(k) in open
  {
    open := Span(first, n);
    forall k | first <= k < first + n
      ensures VmPath(k) in open
    {
      InSpan(first, n, k);
    }
  }

  // Everything that was mapped is still mapped as it was.
  ghost predicate Survives(ram: Ram, root: nat, ram': Ram)
    requires root < FRAMES
  {
    forall q :: Lookup(ram, root, 4, q).Mapped? ==> Lookup(ram', root, 4, q) == Lookup(ram, root, 4, q)
  }

  // From m to m' pages first..next were handed out: what was mapped survives exactly when they
  // were unmapped, since nothing tests them.
  ghost predicate TakesOver(m: Mem, root: nat, m': Mem, first: nat, next: nat)
    requires root < FRAMES && next <= VM_PAGES
  {
    Survives(m.ram, root, m'.ram) <==> forall k: nat :: first <= k < next ==> Unmapped(m.ram, root, k)
  }

  // From m0 to m the n pages from `first` were handed out, and nothing else changed.
  ghost predicate Reserved(m0: Mem, nodes0: map<nat, Node>, live0: map<nat, nat>, root: nat, first: nat, n: nat,
                           end: nat, m: Mem, nodes: map<nat, Node>, live: map<nat, nat>)
    requires root < FRAMES && end == first + n && end <= VM_PAGES
  {
    && Extends(m0, live0, live, first, end)
    && Undisturbed(m0, nodes0, m, nodes, Span(first, n))
    && TakesOver(m0, root, m, first, end)
    && CountFree(m.used) + SpanCost(m0.ram, root, first, end) == CountFree(m0.used)
  }

  // vmalloc of n pages: the pointer moves past them, and the area is recorded if kmalloc gave a record.
  ghost predicate Obtained(m0: Mem, nodes0: map<nat, Node>, live0: map<nat, nat>, next0: nat, areas0: seq<Area>,
                         root: nat, n: nat, recorded: bool, m: Mem, nodes: map<nat, Node>, live: map<nat, nat>,
                         next: nat, areas: seq<Area>) {
    && root < FRAMES && next == next0 + n && next <= VM_PAGES
    && Reserved(m0, nodes0, live0, root, next0, n, next, m, nodes, live)
    && areas == if recorded then [Area(next0, n)] + areas0 else areas0
  }

  // Fewer frames are free than n pages from `first` take.
  ghost predicate ShortOf(m: Mem, root: nat, first: nat, n: nat)
    requires root < FRAMES && first + n <= VM_PAGES
  {
    CountFree(m.used) < SpanCost(m.ram, root, first, first + n)
  }

  lemma TakesOverIff(m: Mem, nodes: map<nat, Node>, root: nat, live: map<nat, nat>, m': Mem, nodes': map<nat, Node>,
                     live': map<nat, nat>, first: nat, n: nat, next: nat)
    requires Region(m, nodes, root, live) && NoDangling(m, nodes) && Region(m', nodes', root, live')
    requires next == first + n && next <= VM_PAGES && (forall k :: k in live ==> k < first)
    requires Extends(m, live, live', first, next) && Undisturbed(m, nodes, m', nodes', Span(first, n))
    ensures TakesOver(m, root, m', first, next)
  {
    if Survives(m.ram, root, m'.ram) {
      forall k: nat | first <= k < next
        ensures Unmapped(m.ram, root, k)
      {
        PageTakenOver(m, nodes, root, live, m', nodes', live', k);
      }
    }
    if forall k: nat :: first <= k < next ==> Unmapped(m.ram, root, k) {
      forall q: Path | Lookup(m.ram, root, 4, q).Mapped?
        ensures Lookup(m'.ram, root, 4, q) == Lookup(m.ram, root, 4, q)
      {
        if q in Span(first, n) {
          var k := SpanPage(first, n, next, q);
          assert Unmapped(m.ram, root, k);
        }
      }
    }
  }

  lemma SpanPage(first: nat, n: nat, next: nat, q: Path) returns (k: nat)
    requires q in Span(first, n) && next == first + n && next <= VM_PAGES
    ensures first <= k < next && VmPath(k) == q
  {
    k := 512 * q.i2 + q.i1;
  }

  // A page that is handed out while mapped loses what it was mapped to: its new frame was free.
  lemma PageTakenOver(m: Mem, nodes: map<nat, Node>, root: nat, live: map<nat, nat>, m': Mem, nodes': map<nat, Node>,
                      live': map<nat, nat>, k: nat)
    requires Region(m, nodes, root, live) && NoDangling(m, nodes) && k < VM_PAGES && k !in live
    requires Region(m', nodes', root, live') && k in live' && Free(m, live'[k])
    ensures Unmapped(m.ram, root, k) || Lookup(m'.ram, root, 4, VmPath(k)) != Lookup(m.ram, root, 4, VmPath(k))
  {
    assert PageIs(m.ram, root, live, k) && PageIs(m'.ram, root, live', k);
    if !Unmapped(m.ram, root, k) { MappedNotFree(m, nodes, root, 4, VmPath(k)); }
  }

  // vmalloc for size > 0, on the values of its static variables.
  method Reserve(mmu: Mmu, n: nat, recorded: bool, next: nat, areas: seq<Area>,
                 ghost nodes: map<nat, Node>, ghost live: map<nat, nat>, ghost total: int)
    returns (ok: bool, next': nat, areas': seq<Area>, ghost nodes': map<nat, Node>, ghost live': map<nat, nat>)
    requires mmu.Valid() && mmu.currentPgd.Some? && next + n <= VM_PAGES
    requires Keeps(mmu.View(), nodes, mmu.cr3, live, total, next, areas)
    modifies mmu.pm, mmu.pm.bitmap
    ensures mmu.Valid() && next' == next + n
    ensures ok ==> Keeps(mmu.View(), nodes', mmu.cr3, live', total, next', areas')
    ensures ok ==>
      Obtained(old(mmu.View()), nodes, live, next, areas, mmu.cr3, n, recorded,
               mmu.View(), nodes', live', next', areas')
    ensures !ok ==> ShortOf(old(mmu.View()), mmu.cr3, next, n) && CountFree(mmu.View().used) == 0
  {
    ghost var m0, root := mmu.View(), mmu.cr3;
    areas', next', nodes', live' := areas, next + n, nodes, live;
    ghost var open := SpanOpen(next, n);
    ReservedOrShort(m0, nodes, live, root, total, next, n, next', open);
    var va;
    ok, va := GrowPages(mmu, VMALLOC_START + 4096 * next, n, next, next');
    if ok {
      nodes', live' := ReservedWith(m0, nodes, live, root, total, next, n, next', open, mmu.View(), areas);
      if recorded { areas' := [Area(next, n)] + areas; }
    }
  }

  lemma ReservedOrShort(m0: Mem, nodes: map<nat, Node>, live: map<nat, nat>, root: nat, total: int, first: nat, n: nat,
                        end: nat, open: iset<Path>)
    requires Handed(m0, nodes, root, live, total, first) && end == first + n && end <= VM_PAGES
    requires forall k :: first <= k < first + n ==> VmPath(k) in open
    ensures var r := GrowFrom(m0, root, first, end);
      && (r.None? ==> ShortOf(m0, root, first, n))
      && (r.Some? ==> GrownTo(m0, nodes, live, first, open, r.value, root, total, end))
  {
    PaidStart(m0, root, first);
    assert Grown(m0, nodes, live, first, open, m0, nodes, root, live, total, first);
    PagesGrown(m0, nodes, live, first, open, m0, root, total, first, end, GrowFrom(m0, root, first, end));
    if CountFree(m0.used) < SpanCost(m0.ram, root, first, end) { ShortAtEnd(m0, root, first, n, end); }
  }

  lemma ShortAtEnd(m: Mem, root: nat, first: nat, n: nat, end: nat)
    requires root < FRAMES && end == first + n && end <= VM_PAGES
    requires CountFree(m.used) < SpanCost(m.ram, root, first, end)
    ensures ShortOf(m, root, first, n)
  {
  }

  lemma ReservedWith(m0: Mem, nodes: map<nat, Node>, live: map<nat, nat>, root: nat, total: int, first: nat, n: nat,
                     end: nat, open: iset<Path>, m: Mem, areas: seq<Area>)
    returns (nodes': map<nat, Node>, live': map<nat, nat>)
    requires Keeps(m0, nodes, root, live, total, first, areas) && end == first + n && end <= VM_PAGES
    requires open == Span(first, n) && GrownTo(m0, nodes, live, first, open, m, root, total, end)
    ensures Reserved(m0, nodes, live, root, first, n, end, m, nodes', live')
    ensures Keeps(m, nodes', root, live', total, end, areas)
    ensures Keeps(m, nodes', root, live', total, end, [Area(first, n)] + areas)
  {
    nodes', live' :| Grown(m0, nodes, live, first, open, m, nodes', root, live', total, end);
    KeepsGrown(m0, live, first, areas, m, nodes', root, live', total, n, end);
    TakesOverIff(m0, nodes, root, live, m, nodes', live', first, n, end);
  }

  // vfree of record i, likewise.
  method Drop(mmu: Mmu, i: nat, ghost next: nat, areas: seq<Area>,
              ghost nodes: map<nat, Node>, ghost live: map<nat, nat>, ghost total: int)
    returns (areas': seq<Area>, ghost live': map<nat, nat>)
    requires mmu.Valid() && mmu.currentPgd.Some? && i < |areas|
    requires Keeps(mmu.View(), nodes, mmu.cr3, live, total, next, areas)
    modifies mmu.pm, mmu.pm.bitmap
    ensures mmu.Valid()
    ensures areas' == areas[..i] + areas[i + 1..] && live' == Without(live, areas[i].first, areas[i].count)
    ensures Keeps(mmu.View(), nodes, mmu.cr3, live', total, next, areas')
    ensures var a := areas[i];
      GivenBack(old(mmu.View()), live, mmu.View(), nodes, mmu.cr3, total, next, AreaPaths(a), a.first, a.count)
  {
    var a := areas[i];
    ghost var m0 := mmu.View();
    assert AreaOk(a, live, next);
    ghost var open := SpanOpen(a.first, a.count);
    NothingGivenBack(m0, live, nodes, mmu.cr3, total, next, open, a.first);
    GiveBackPages(mmu, Addr(a), a.count, a.first, open, nodes, live, total, next);
    KeepsShrunk(m0, live, areas, i, mmu.View(), nodes, mmu.cr3, total, next, open);
    areas', live' := areas[..i] + areas[i + 1..], Without(live, a.first, a.count);
  }

  class Vmalloc {
    const mmu: Mmu
    var next: nat  // vmalloc_ptr, as a page of the region
    var areas: seq<Area>
    ghost var nodes: map<nat, Node>
    ghost var live: map<nat, nat>  // the live pages and the frame of each
    ghost var total: int  // frames that are free, tables or owned

    ghost predicate Valid()
      reads this, mmu, mmu.pm, mmu.pm.bitmap
    {
      && mmu.Valid() && mmu.currentPgd.Some?
      && Keeps(mmu.View(), nodes, mmu.cr3, live, total, next, areas)
    }

    // No page has been handed out yet. None lies under a big page, but others may have mapped some.
    constructor (mmu: Mmu, ghost nodes: map<nat, Node>)
      requires mmu.Valid() && mmu.currentPgd.Some?
      requires Owns(mmu.View(), nodes, mmu.cr3, map[], 0)
      ensures Valid() && this.mmu == mmu && areas == [] && live == map[] && next == 0
    {
      this.mmu := mmu;
      next := 0;
      areas := [];
      this.nodes := nodes;
      live := map[];
      total := CountFree(mmu.View().used) + |nodes|;
    }

    // Between calls the kernel may do anything that leaves the pages handed out alone, switch
    // address spaces included.
    ghost method Resume(nodes': map<nat, Node>)
      requires mmu.Valid() && mmu.currentPgd.Some?
      requires Owns(mmu.View(), nodes', mmu.cr3, live, next) && AreasOk(areas, live, next)
      modifies this`nodes, this`total
      ensures Valid() && nodes == nodes'
    {
      ghost var m := mmu.View();
      nodes, total := nodes', CountFree(m.used) + |nodes'| + |live|;
      assert mmu.View() == m;
    }

    // The new values of the static variables.
    method Record(next': nat, areas': seq<Area>, ghost nodes': map<nat, Node>, ghost live': map<nat, nat>)
      requires mmu.Valid() && mmu.currentPgd.Some?
      requires Keeps(mmu.View(), nodes', mmu.cr3, live', total, next', areas')
      modifies this`areas, this`next, this`nodes, this`live
      ensures Valid() && next == next' && areas == areas' && nodes == nodes' && live == live'
      ensures mmu.View() == old(mmu.View())
    {
      next, areas, nodes, live := next', areas', nodes', live';
    }

    // The part of vmalloc after the page count. `recorded` says whether kmalloc gave the record.
    // False is the out-of-memory halt.
    method Link(n: nat, recorded: bool) returns (ok: bool)
      requires Valid() && next + n <= VM_PAGES
      modifies this`areas, this`next, this`nodes, this`live, mmu.pm, mmu.pm.bitmap
      ensures ok ==> Valid()
      ensures ok ==>
        Obtained(old(mmu.View()), old(nodes), old(live), old(next), old(areas), mmu.cr3, n, recorded,
               mmu.View(), nodes, live, next, areas)
      ensures !ok ==> ShortOf(old(mmu.View()), mmu.cr3, old(next), n) && CountFree(mmu.View().used) == 0
    {
      var next', areas';
      ghost var nodes', live';
      ok, next', areas', nodes', live' := Reserve(mmu, n, recorded, next, areas, nodes, live, total);
      if ok { Record(next', areas', nodes', live'); }
    }

    // vmalloc.
    method Alloc(size: nat, recorded: bool) returns (ok: bool, addr: nat)
      requires Valid() && size < 0x1_0000_0000_0000_0000 && next + PagesNeeded(size) <= VM_PAGES
      modifies this`areas, this`next, this`nodes, this`live, mmu.pm, mmu.pm.bitmap
      ensures ok ==> Valid()
      ensures !ok ==> size > 0 && CountFree(mmu.View().used) == 0
      ensures !ok ==> ShortOf(old(mmu.View()), mmu.cr3, old(next), PagesNeeded(size))
      ensures size == 0 ==>
        && ok && addr == 0 && mmu.View() == old(mmu.View())
        && next == old(next) && areas == old(areas) && nodes == old(nodes) && live == old(live)
      ensures ok && size > 0 ==>
        && addr == VMALLOC_START + 4096 * old(next)
        && Obtained(old(mmu.View()), old(nodes), old(live), old(next), old(areas), mmu.cr3, PagesNeeded(size), recorded,
                  mmu.View(), nodes, live, next, areas)
    {
      if size == 0 { return true, 0; }
      addr := VMALLOC_START + 4096 * next;
      ok := Link(PagesNeeded(size), recorded);
    }

    // The part of vfree after its record has been found.
    method Unlink(at: nat)
      requires Valid() && at < |areas|
      modifies this`areas, this`live, mmu.pm, mmu.pm.bitmap
      ensures Valid()
      ensures var a := old(areas)[at];
        && areas == old(areas)[..at] + old(areas)[at + 1..] && live == Without(old(live), a.first, a.count)
        && GivenBack(old(mmu.View()), old(live), mmu.View(), nodes, mmu.cr3, total, next, AreaPaths(a), a.first,
                     a.count)
    {
      var areas';
      ghost var live';
      areas', live' := Drop(mmu, at, next, areas, nodes, live, total);
      areas, live := areas', live';
    }

    // vfree: unmaps exactly the pages of the first area at that address and releases exactly their
    // frames.
    method Free(addr: nat)
      requires Valid()
      modifies this`areas, this`live, mmu.pm, mmu.pm.bitmap
      ensures Valid()
      ensures var i := FirstAt(old(areas), addr);
        if addr == 0 || i == |old(areas)| then
          mmu.View() == old(mmu.View()) && areas == old(areas) && live == old(live)
        else
          var a := old(areas)[i];
          && areas == old(areas)[..i] + old(areas)[i + 1..] && live == Without(old(live), a.first, a.count)
          && GivenBack(old(mmu.View()), old(live), mmu.View(), nodes, mmu.cr3, total, next, AreaPaths(a), a.first,
                       a.count)
    {
      if addr == 0 { return; }
      var at := 0;
      while at < |areas| && Addr(areas[at]) != addr
        invariant at <= |areas| && FirstAt(areas, addr) >= at
      {
        at := at + 1;
      }
      if at < |areas| { Unlink(at); }
    }
  }
}
