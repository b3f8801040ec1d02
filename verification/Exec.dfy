/** The loading loops of exec_user_program and sys_execve (fs/exec.c), run on the page tables. */
module Exec {
  import opened Pgtable
  import opened PageContents
  import opened Wrappers
  import opened FrameAlloc
  import opened Paging
  import opened CloneSpace
  import opened Outside
  import opened Mmu
  import opened FrameCosts
  import opened Access
  import opened Elf
  import opened Loader
  import opened Program

  // alloc_page, arch_map_page and kmemcpy for one page; false is the out-of-memory halt.
  method LoadPage(mmu: Mmu, va: nat, src: seq<bv8>) returns (ok: bool)
    requires mmu.Valid() && mmu.currentPgd.Some? && |src| <= 4096
    modifies mmu.pm, mmu.pm.bitmap
    ensures mmu.Valid()
    ensures Loader.LoadPage(old(mmu.View()), mmu.cr3, PathOf(va), src) == if ok then Some(mmu.View()) else None
    ensures !ok ==> CountFree(mmu.View().used) == 0
  {
    var frame := mmu.pm.AllocPage();
    if frame.None? {
      NoneFree(mmu.View());
      return false;
    }
    ok := mmu.ArchMapPage(va, frame.value, USER_PAGE);
    if ok { CopyToFrame(mmu, frame.value, src); }
  }

  // kmemcpy to the start of a frame.
  method CopyToFrame(mmu: Mmu, frame: nat, src: seq<bv8>)
    requires mmu.Valid() && frame < FRAMES && |src| <= 4096
    modifies mmu.pm
    ensures mmu.Valid()
    ensures var m := old(mmu.View()); mmu.View() == Memory(m.ram[frame := CopyIn(m.ram[frame], src)], m.used)
  {
    mmu.pm.ram := mmu.pm.ram[frame := CopyIn(mmu.pm.ram[frame], src)];
  }

  // Lines 89-97 for page j of the segment.
  method LoadSegmentPage(mmu: Mmu, data: seq<bv8>, h: Phdr, j: nat) returns (ok: bool)
    requires mmu.Valid() && mmu.currentPgd.Some? && InFile(data, h)
    modifies mmu.pm, mmu.pm.bitmap
    ensures mmu.Valid()
    ensures Loader.LoadPage(old(mmu.View()), mmu.cr3, PagePath(h, j), Source(data, h, j)) ==
      if ok then Some(mmu.View()) else None
    ensures !ok ==> CountFree(mmu.View().used) == 0
  {
    var va := h.vaddr + j * 4096;
    PagePathIs(h, j, va);
    ok := LoadPage(mmu, va, Source(data, h, j));
  }

  // The loop over the pages of one segment, lines 88-98.
  method LoadSegment(mmu: Mmu, data: seq<bv8>, h: Phdr) returns (ok: bool)
    requires mmu.Valid() && mmu.currentPgd.Some? && InFile(data, h)
    modifies mmu.pm, mmu.pm.bitmap
    ensures mmu.Valid()
    ensures LoadPages(old(mmu.View()), mmu.cr3, data, h, 0, Pages(h)) == if ok then Some(mmu.View()) else None
    ensures !ok ==> CountFree(mmu.View().used) == 0
  {
    var pages := Pages(h);
    for j := 0 to pages
      invariant mmu.Valid()
      invariant LoadPages(old(mmu.View()), mmu.cr3, data, h, 0, pages) ==
        LoadPages(mmu.View(), mmu.cr3, data, h, j, pages)
    {
      ghost var m := mmu.View();
      ok := LoadSegmentPage(mmu, data, h, j);
      LoadPagesStep(m, mmu.cr3, data, h, j, pages, if ok then Some(mmu.View()) else None);
      if !ok { return; }
    }
    ok := true;
  }

  datatype Outcome = BadMagic | Halted | Started(entry: nat, root: nat)

  // Lines 76-79: a new space that maps the VGA page and nothing else in its lower half.
  method StartSpace(mmu: Mmu, ghost nodes: map<nat, Node>) returns (root: Option<nat>, ghost nodes': map<nat, Node>)
    requires mmu.Valid() && mmu.currentPgd.Some? && Shape(mmu.View(), nodes) && IsRoot(nodes, mmu.cr3)
    modifies mmu, mmu.pm, mmu.pm.bitmap
    ensures mmu.Valid() && mmu.currentPgd.Some?
    ensures root.Some? ==> mmu.cr3 == root.value && Free(old(mmu.View()), root.value)
    ensures root.Some? ==> Built(Before(old(mmu.View()), nodes), mmu.View(), nodes', root.value, map[])
    ensures root.None? ==> CountFree(old(mmu.View()).used) < Need({}) && CountFree(mmu.View().used) == 0
  {
    nodes' := nodes;
    ghost var m := mmu.View();
    TakeCost(m);
    root := mmu.CreateNewAddressSpace();
    if root.None? { return; }
    mmu.SwitchAddressSpace(root.value);
    CreateSpaceLookup(m, nodes, old(mmu.cr3));
    UndisturbedCreate(m, nodes, old(mmu.cr3), mmu.View(), root.value);
    if Clean(m, nodes) { CreateNoDangling(m, nodes, old(mmu.cr3), mmu.View(), root.value); }
    nodes' := nodes[root.value := Root];
    ghost var m1 := mmu.View();
    VgaCost(Before(m, nodes), m1, nodes', root.value);
    var ok := mmu.ArchMapPage(0xB8000, VGA_FRAME, VGA_PAGE);
    if !ok { return None, nodes'; }
    nodes' := VgaMapped(Before(m, nodes), m1, nodes', root.value, mmu.View());
  }

  // The loop over the program headers, lines 82-100; `phdr` is the array at e_phoff.
  method LoadSegments(mmu: Mmu, data: seq<bv8>, phdr: seq<Phdr>) returns (ok: bool)
    requires mmu.Valid() && mmu.currentPgd.Some?
    requires forall h :: h in phdr && h.ptype == PT_LOAD ==> InFile(data, h)
    modifies mmu.pm, mmu.pm.bitmap
    ensures mmu.Valid()
    ensures LoadFrom(old(mmu.View()), mmu.cr3, data, phdr, 0) == if ok then Some(mmu.View()) else None
    ensures !ok ==> CountFree(mmu.View().used) == 0
  {
    for i := 0 to |phdr|
      invariant mmu.Valid()
      invariant LoadFrom(old(mmu.View()), mmu.cr3, data, phdr, 0) == LoadFrom(mmu.View(), mmu.cr3, data, phdr, i)
    {
      if phdr[i].ptype == PT_LOAD {
        ok := LoadSegment(mmu, data, phdr[i]);
        if !ok { return; }
      }
    }
    ok := true;
  }

  // exec_user_program up to the jump to user mode; sys_execve runs the same loops.
  method ExecUserProgram(mmu: Mmu, data: seq<bv8>, ghost nodes: map<nat, Node>)
    returns (r: Outcome, ghost nodes': map<nat, Node>)
    requires mmu.Valid() && mmu.currentPgd.Some? && Shape(mmu.View(), nodes) && IsRoot(nodes, mmu.cr3)
    requires |data| >= 64 && (Magic(data) == ELF_MAGIC ==> HasHeaders(data) && Loadable(data, Headers(data)))
    modifies mmu, mmu.pm, mmu.pm.bitmap
    ensures mmu.Valid() && mmu.currentPgd.Some?
    ensures r.BadMagic? <==> Magic(data) != ELF_MAGIC
    ensures r.BadMagic? ==> mmu.View() == old(mmu.View()) && mmu.cr3 == old(mmu.cr3)
    ensures r.Started? ==> mmu.cr3 == r.root && Free(old(mmu.View()), r.root) && r.entry == EntryPoint(data)
    ensures r.Started? ==>
      Built(Before(old(mmu.View()), nodes), mmu.View(), nodes', r.root, Image(data, Headers(data), |Headers(data)|))
    ensures r.Started? && Clean(old(mmu.View()), nodes) ==>
      Clean(mmu.View(), nodes') && IsRoot(nodes', mmu.cr3) && NoGiantBelow(mmu.pm.ram, mmu.cr3)
    ensures r.Halted? ==>
      && Magic(data) == ELF_MAGIC && Short(Before(old(mmu.View()), nodes), data, Headers(data))
      && CountFree(mmu.View().used) == 0
    ensures r.Started? ==>
      && !Short(Before(old(mmu.View()), nodes), data, Headers(data))
      && AsDescribed(data, Headers(data), mmu.pm.ram, r.root)
  {
    nodes' := nodes;
    if Magic(data) != ELF_MAGIC { return BadMagic, nodes'; }
    var root;
    root, nodes' := StartSpace(mmu, nodes);
    if root.None? {
      NeedFewer({}, Image(data, Headers(data), |Headers(data)|).Keys);
      return Halted, nodes';
    }
    ghost var b, m, hs := Before(old(mmu.View()), nodes), mmu.View(), Headers(data);
    LoadableInFile(data, hs);
    ImageBuilt(b, m, root.value, data, hs, 0, map[], LoadFrom(m, root.value, data, hs, 0));
    var ok := LoadSegments(mmu, data, Headers(data));
    r := if ok then Started(EntryPoint(data), root.value) else Halted;
    if ok { nodes' := Finished(b, mmu.View(), root.value, data, hs); }
  }

  // What holds of the loaded program.
  lemma Finished(b: Before, m: Mem, root: nat, data: seq<bv8>, hs: seq<Phdr>) returns (nodes: map<nat, Node>)
    requires Loadable(data, hs) && Ready(b, m, root, Image(data, hs, |hs|))
    ensures Built(b, m, nodes, root, Image(data, hs, |hs|)) && !Short(b, data, hs) && AsDescribed(data, hs, m.ram, root)
    ensures Clean(b.mem, b.nodes) ==> Clean(m, nodes) && IsRoot(nodes, root) && NoGiantBelow(m.ram, root)
  {
    nodes :| Built(b, m, nodes, root, Image(data, hs, |hs|));
    BuiltAsDescribed(b, data, hs, m, nodes, root);
    LoadedNoGiant(m, nodes, root, Image(data, hs, |hs|));
  }

  // The new space with only the VGA page is the empty image.
  lemma VgaMapped(b: Before, m: Mem, nodes: map<nat, Node>, root: nat, m': Mem) returns (nodes': map<nat, Node>)
    requires Undisturbed(b.mem, b.nodes, m, nodes, iset{}) && OnlyTaken(b.mem, m) && root !in b.nodes
    requires IsRoot(nodes, root)
    requires forall q: Path :: q.i4 < 256 ==> Lookup(m.ram, root, 4, q).NoPage?
    requires MapPage(m, root, PathOf(0xB8000), VGA_FRAME, VGA_PAGE) == Some(m')
    requires Clean(b.mem, b.nodes) ==> Clean(m, nodes)
    requires CountFree(m.used) + 1 == CountFree(b.mem.used)
    requires forall i :: 0 <= i < 256 ==> !m.ram[root][i].flags.present
    ensures Built(b, m', nodes', root, map[])
  {
    var p := PathOf(0xB8000);
    PathIdentifiesPage(0xB8000, 0);
    assert Lookup(m.ram, root, 4, p).NoPage?;
    var mapped;
    mapped, nodes' := MapEffects(m, nodes, root, p, VGA_FRAME, VGA_PAGE);
    UndisturbedMap(b.mem, b.nodes, m, nodes, iset{}, root, p, VGA_FRAME, VGA_PAGE, m', nodes');
    if Clean(m, nodes) { MapNoDangling(m, nodes, root, p, VGA_FRAME, VGA_PAGE, m', nodes'); }
    forall q: Path | q.i4 < 256
      ensures LoadedAt(m', nodes', root, map[], q) && !UserCan(m'.ram, root, 4, q)
    {
      assert Lookup(m.ram, root, 4, q).NoPage?;
      UserCanIsLeaf(m'.ram, root, 4, q);
    }
    VgaOpened(m, nodes, root, m');
    VgaCost(b, m, nodes, root);
    TabledMap(m, nodes, root, {}, p, VGA_FRAME, VGA_PAGE, m');
    var none: map<Path, Page> := map[];
    assert none.Keys == {} && {} + {p} == {p};
  }

  lemma VgaOpened(m: Mem, nodes: map<nat, Node>, root: nat, m': Mem)
    requires Shape(m, nodes) && IsRoot(nodes, root) && Clear(m.ram, root, 4, PathOf(0xB8000))
    requires MapPage(m, root, PathOf(0xB8000), VGA_FRAME, VGA_PAGE) == Some(m')
    requires forall i :: 0 <= i < 256 ==> !m.ram[root][i].flags.present
    ensures Opened(m', root)
  {
    forall r: Right, q: Path | q.i4 < 256
      ensures Open(r, m'.ram, root, 4, q)
    {
      assert !m.ram[root][Index(q, 4)].flags.present;
      MapOpen(r, m, nodes, root, 4, PathOf(0xB8000), VGA_FRAME, VGA_PAGE, root, 4, q);
    }
  }

  // The VGA page of the new space costs three tables.
  lemma VgaCost(b: Before, m: Mem, nodes: map<nat, Node>, root: nat)
    requires Shape(m, nodes) && IsRoot(nodes, root)
    requires CountFree(m.used) + 1 == CountFree(b.mem.used)
    requires forall i :: 0 <= i < 256 ==> !m.ram[root][i].flags.present
    ensures Tabled(m.ram, root, {}) && Need({}) == 4
    ensures var r := MapPage(m, root, PathOf(0xB8000), VGA_FRAME, VGA_PAGE);
      && (r.None? ==> CountFree(b.mem.used) < Need({}))
      && (r.Some? ==> CountFree(r.value.used) + Need({}) == CountFree(b.mem.used))
  {
    var p := PathOf(0xB8000);
    PathIdentifiesPage(0xB8000, 0);
    TabledEmpty(m.ram, root);
    TablesNext({}, p);
    assert Tops({}) == {} && Uppers({}) == {} && Middles({}) == {};
    assert {} + {p} == {p};
    assert !m.ram[root][p.i4].flags.present;
    MapHaltsWhenShort(m, nodes, root, 4, p, VGA_FRAME, VGA_PAGE);
    if MapPage(m, root, p, VGA_FRAME, VGA_PAGE).Some? { MapCost(m, nodes, root, 4, p, VGA_FRAME, VGA_PAGE); }
  }
}
