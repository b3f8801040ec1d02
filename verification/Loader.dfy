/** Building a program's address space from an ELF image: fs/exec.c and fs/binfmt_elf.c.

The loaders allocate a frame per page, map it, and copy file bytes into it through the direct
map. The module proves that the resulting lower half is the image that the program headers
describe: exactly their pages, file bytes first and zeros after them. */
module Loader {
  import opened Elf
  import opened Pgtable
  import opened PageContents
  import opened Wrappers
  import opened FrameAlloc
  import opened Paging
  import opened CloneSpace
  import opened Outside
  import opened FrameCosts
  import opened Access

  // ---- one page

  const USER_PAGE := Flags(false, true, true, false, 0)
  // PTE_WRITABLE | PTE_GLOBAL; the global bit is the lowest of bits 8-11.
  const VGA_PAGE := Flags(false, true, false, false, 0x10)
  const VGA_FRAME: nat := 0xB8

  // The lower half of `root` holds the pages of `image` and the VGA page, and nothing else.
  ghost predicate Loaded(m: Mem, nodes: map<nat, Node>, root: nat, image: map<Path, Page>) {
    && Shape(m, nodes) && IsRoot(nodes, root)
    && forall q: Path :: q.i4 < 256 ==> LoadedAt(m, nodes, root, image, q)
  }

  ghost predicate LoadedAt(m: Mem, nodes: map<nat, Node>, root: nat, image: map<Path, Page>, q: Path)
    requires root < FRAMES
  {
    var l := Lookup(m.ram, root, 4, q);
    if q in image then
      && l.Mapped? && l == Mapped(1, LeafWord(l.word.frame, USER_PAGE))
      && l.word.frame !in nodes && !Free(m, l.word.frame)
      && m.ram[l.word.frame] == image[q]
    else if q == PathOf(0xB8000) then l == Mapped(1, LeafWord(VGA_FRAME, VGA_PAGE))
    else l.NoPage?
  }

  // alloc_page, arch_map_page and kmemcpy for one page of a segment.
  function LoadPage(m: Mem, root: nat, q: Path, src: seq<bv8>): (r: Option<Mem>)
    requires ValidMem(m) && root < FRAMES && |src| <= 4096
    ensures r.Some? ==> ValidMem(r.value)
  {
    match Alloc(m)
    case None => None
    case Some(g) =>
      match MapPage(g.mem, root, q, g.frame, USER_PAGE)
      case None => None
      case Some(m') => Some(Memory(m'.ram[g.frame := CopyIn(m'.ram[g.frame], src)], m'.used))
  }

  lemma LoadPageStep(m: Mem, nodes: map<nat, Node>, root: nat, image: map<Path, Page>, q: Path, src: seq<bv8>, m': Mem)
    returns (nodes': map<nat, Node>)
    requires Loaded(m, nodes, root, image) && q.i4 < 256 && q !in image && q != PathOf(0xB8000)
    requires |src| <= 4096 && LoadPage(m, root, q, src) == Some(m')
    ensures Loaded(m', nodes', root, image[q := CopyIn(ZeroPage(), src)])
    ensures nodes' == NodesMap(Alloc(m).value.mem, nodes, root, 4, q, USER_PAGE.user)
    ensures forall p: Path :: p.i4 < 256 ==>
      Lookup(m'.ram, root, 4, p) ==
      if p == q then Mapped(1, LeafWord(Alloc(m).value.frame, USER_PAGE)) else Lookup(m.ram, root, 4, p)
    ensures forall p: Path :: p.i4 < 256 && p in image ==> Lookup(m.ram, root, 4, p).word.frame != Alloc(m).value.frame
  {
    var g := Alloc(m).value;
    TakeKeeps(m, nodes, root, image);
    assert LoadedAt(g.mem, nodes, root, image, q);
    nodes' := FillShape(g.mem, nodes, root, q, g.frame, src, m');
    forall p: Path | p.i4 < 256
      ensures LoadedAt(m', nodes', root, image[q := CopyIn(ZeroPage(), src)], p)
    {
      FillAt(g.mem, nodes, root, image, q, g.frame, src, m', nodes', p);
    }
  }

  // Mapping the taken frame x at q and filling it: m is the state after the allocation.
  ghost predicate Filled(m: Mem, root: nat, q: Path, x: nat, src: seq<bv8>, m': Mem)
    requires ValidMem(m) && root < FRAMES && x < FRAMES && |src| <= 4096
  {
    var r := MapPage(m, root, q, x, USER_PAGE);
    r.Some? && m' == Memory(r.value.ram[x := CopyIn(r.value.ram[x], src)], r.value.used)
  }

  lemma FillShape(m: Mem, nodes: map<nat, Node>, root: nat, q: Path, x: nat, src: seq<bv8>, m': Mem)
    returns (nodes': map<nat, Node>)
    requires Shape(m, nodes) && IsRoot(nodes, root) && Clear(m.ram, root, 4, q)
    requires x < FRAMES && x !in nodes && !Free(m, x) && |src| <= 4096 && Filled(m, root, q, x, src, m')
    ensures nodes' == NodesMap(m, nodes, root, 4, q, USER_PAGE.user)
    ensures Shape(m', nodes') && IsRoot(nodes', root) && x !in nodes' && Grows(m, nodes, nodes')
    ensures forall p ::
      Lookup(m'.ram, root, 4, p) == if p == q then Mapped(1, LeafWord(x, USER_PAGE)) else Lookup(m.ram, root, 4, p)
    ensures m'.ram[x] == CopyIn(m.ram[x], src)
    ensures forall f :: 0 <= f < FRAMES && f != x && f !in nodes && !Free(m, f) ==> m'.ram[f] == m.ram[f]
    ensures forall f :: Free(m', f) ==> Free(m, f)
  {
    var m2;
    m2, nodes' := MapEffects(m, nodes, root, q, x, USER_PAGE);
    StoreShape(m2, nodes', x, CopyIn(m2.ram[x], src));
    forall p
      ensures Lookup(m'.ram, root, 4, p) == Lookup(m2.ram, root, 4, p)
    {
      LookupSame(m2.ram, m'.ram, m2, nodes', root, 4, p);
    }
  }

  lemma FillAt(m: Mem, nodes: map<nat, Node>, root: nat, image: map<Path, Page>, q: Path, x: nat, src: seq<bv8>,
               m': Mem, nodes': map<nat, Node>, p: Path)
    requires root < FRAMES && x < FRAMES && |src| <= 4096 && LoadedAt(m, nodes, root, image, p)
    requires x !in nodes' && !Free(m, x) && m.ram[x] == ZeroPage() && Grows(m, nodes, nodes')
    requires p in image ==> Lookup(m.ram, root, 4, p).word.frame != x
    requires Lookup(m'.ram, root, 4, p) ==
      if p == q then Mapped(1, LeafWord(x, USER_PAGE)) else Lookup(m.ram, root, 4, p)
    requires m'.ram[x] == CopyIn(m.ram[x], src)
    requires forall f :: 0 <= f < FRAMES && f != x && f !in nodes && !Free(m, f) ==> m'.ram[f] == m.ram[f]
    requires forall f :: Free(m', f) ==> Free(m, f)
    ensures LoadedAt(m', nodes', root, image[q := CopyIn(ZeroPage(), src)], p)
  {
  }

  // Taking a frame disturbs nothing that is loaded.
  lemma TakeKeeps(m: Mem, nodes: map<nat, Node>, root: nat, image: map<Path, Page>)
    requires Loaded(m, nodes, root, image) && Alloc(m).Some?
    ensures var g := Alloc(m).value; 
      && Loaded(g.mem, nodes, root, image) && g.frame !in nodes && g.mem.ram[g.frame] == ZeroPage()
      && (forall p: Path :: p.i4 < 256 ==> Lookup(g.mem.ram, root, 4, p) == Lookup(m.ram, root, 4, p))
      && forall p: Path :: p.i4 < 256 && p in image ==> Lookup(g.mem.ram, root, 4, p).word.frame != g.frame
  {
    var g := Alloc(m).value;
    forall f, i | f in nodes && 0 <= i < 512
      ensures Linked(g.mem.ram, nodes, f, i)
    {
      assert Linked(m.ram, nodes, f, i);
    }
    forall p: Path | p.i4 < 256
      ensures Lookup(g.mem.ram, root, 4, p) == Lookup(m.ram, root, 4, p)
      ensures LoadedAt(g.mem, nodes, root, image, p)
      ensures (p in image ==> Lookup(g.mem.ram, root, 4, p).word.frame != g.frame)
    {
      assert LoadedAt(m, nodes, root, image, p);
      LookupSame(m.ram, g.mem.ram, m, nodes, root, 4, p);
    }
  }

  lemma StoreShape(m: Mem, nodes: map<nat, Node>, x: nat, page: Page)
    requires Shape(m, nodes) && x < FRAMES && x !in nodes
    ensures Shape(Memory(m.ram[x := page], m.used), nodes)
  {
    var ram := m.ram[x := page];
    forall f, i | f in nodes && 0 <= i < 512
      ensures Linked(ram, nodes, f, i)
    {
      assert Linked(m.ram, nodes, f, i);
    }
  }

  // ---- and nothing else

  // The pages of the image are in frames of their own: their entries have the same flags.
  ghost predicate OwnFrames(m: Mem, root: nat, image: map<Path, Page>)
    requires root < FRAMES
  {
    forall p: Path, q: Path :: p.i4 < 256 && q.i4 < 256 && p in image && q in image && p != q ==>
      Lookup(m.ram, root, 4, p) != Lookup(m.ram, root, 4, q)
  }

  // No page of the image is in the VGA frame.
  ghost predicate OffVga(m: Mem, root: nat, image: map<Path, Page>)
    requires root < FRAMES
  {
    forall p: Path :: p.i4 < 256 && p in image ==>
      Lookup(m.ram, root, 4, p) != Mapped(1, LeafWord(VGA_FRAME, USER_PAGE))
  }

  // What cloning asks of the tables, and the VGA frame not up for allocation.
  ghost predicate Clean(m: Mem, nodes: map<nat, Node>) {
    Shape(m, nodes) && NoDangling(m, nodes) && !Free(m, VGA_FRAME)
  }

  // User mode reaches exactly the pages of the image.
  ghost predicate UserPages(m: Mem, root: nat, image: map<Path, Page>)
    requires root < FRAMES
  {
    forall q: Path :: q.i4 < 256 ==> (UserCan(m.ram, root, 4, q) <==> q in image)
  }

  // No table of the lower half keeps a program from writing or executing its pages.
  ghost predicate Opened(m: Mem, root: nat)
    requires root < FRAMES
  {
    forall r: Right, q: Path :: q.i4 < 256 ==> Open(r, m.ram, root, 4, q)
  }

  // The frames that a space with these pages and the VGA page takes: the PML4, the pages and the
  // tables.
  ghost function Need(pages: set<Path>): nat { 1 + |pages| + Tables(pages + {PathOf(0xB8000)}) }

  // What has been taken since b is what the pages need, and the tables are those of the pages.
  ghost predicate Funded(b: Before, m: Mem, root: nat, pages: set<Path>)
    requires root < FRAMES
  {
    && CountFree(m.used) + Need(pages) == CountFree(b.mem.used)
    && Tabled(m.ram, root, pages + {PathOf(0xB8000)})
  }

  datatype Before = Before(mem: Mem, nodes: map<nat, Node>)

  // Since b, a space `root` has been made and loaded with `image`, each page in a frame of its
  // own and open to user mode, with as many frames as it needs, and every other space and every
  // frame in use is as it was. Clean tables stay clean.
  ghost predicate Built(b: Before, m: Mem, nodes: map<nat, Node>, root: nat, image: map<Path, Page>) {
    && Loaded(m, nodes, root, image) && OwnFrames(m, root, image)
    && Undisturbed(b.mem, b.nodes, m, nodes, iset{}) && OnlyTaken(b.mem, m) && root !in b.nodes
    && (Clean(b.mem, b.nodes) ==> Clean(m, nodes) && OffVga(m, root, image))
    && UserPages(m, root, image) && Opened(m, root) && Funded(b, m, root, image.Keys)
  }

  lemma BuildPage(b: Before, m: Mem, nodes: map<nat, Node>, root: nat, image: map<Path, Page>, q: Path, src: seq<bv8>,
                  m': Mem)
    returns (nodes': map<nat, Node>)
    requires Built(b, m, nodes, root, image) && q.i4 < 256 && q !in image && q != PathOf(0xB8000)
    requires |src| <= 4096 && LoadPage(m, root, q, src) == Some(m')
    ensures Built(b, m', nodes', root, image[q := CopyIn(ZeroPage(), src)])
  {
    nodes' := LoadPageStep(m, nodes, root, image, q, src, m');
    OwnFramesNext(m, root, image, q, CopyIn(ZeroPage(), src), m', Alloc(m).value.frame);
    assert LoadedAt(m, nodes, root, image, q);
    PageOutside(b.mem, b.nodes, m, nodes, root, q, src, m', nodes');
    if Clean(b.mem, b.nodes) { CleanNext(m, nodes, root, image, q, src, m', nodes'); }
    UserNext(m, nodes, root, image, q, src, m');
    OpenedNext(m, nodes, root, image, q, src, m');
    FundedNext(b, m, nodes, root, image, q, src, m');
  }

  lemma LoadedClear(m: Mem, nodes: map<nat, Node>, root: nat, image: map<Path, Page>)
    requires Loaded(m, nodes, root, image)
    ensures forall q: Path :: q.i4 < 256 ==> Clear(m.ram, root, 4, q)
  {
    forall q: Path | q.i4 < 256
      ensures Clear(m.ram, root, 4, q)
    {
      assert LoadedAt(m, nodes, root, image, q);
    }
  }

  lemma UserNext(m: Mem, nodes: map<nat, Node>, root: nat, image: map<Path, Page>, q: Path, src: seq<bv8>, m': Mem)
    requires Loaded(m, nodes, root, image) && UserPages(m, root, image) && q.i4 < 256
    requires |src| <= 4096 && LoadPage(m, root, q, src) == Some(m')
    ensures UserPages(m', root, image[q := CopyIn(ZeroPage(), src)])
  {
    LoadedClear(m, nodes, root, image);
    forall p: Path | p.i4 < 256
      ensures UserCan(m'.ram, root, 4, p) <==> p == q || p in image
    {
      assert LoadedAt(m, nodes, root, image, p);
      UserAfter(m, nodes, root, q, src, m', p);
    }
  }

  lemma UserAfter(m: Mem, nodes: map<nat, Node>, root: nat, q: Path, src: seq<bv8>, m': Mem, p: Path)
    requires Shape(m, nodes) && IsRoot(nodes, root) && Clear(m.ram, root, 4, q) && UserClosed(m.ram, root, p)
    requires |src| <= 4096 && LoadPage(m, root, q, src) == Some(m')
    ensures UserCan(m'.ram, root, 4, p) <==> p == q || UserCan(m.ram, root, 4, p)
  {
    var g := Alloc(m).value;
    TakeShape(m, nodes);
    LookupSame(m.ram, g.mem.ram, m, nodes, root, 4, q);
    LookupSame(m.ram, g.mem.ram, m, nodes, root, 4, p);
    UserSame(m, nodes, g.mem.ram, root, 4, p);
    var mapped, nodes' := MapEffects(g.mem, nodes, root, q, g.frame, USER_PAGE);
    MapUserAccess(g.mem, nodes, root, q, g.frame, USER_PAGE, p);
    UserSame(mapped, nodes', m'.ram, root, 4, p);
  }

  lemma OpenedNext(m: Mem, nodes: map<nat, Node>, root: nat, image: map<Path, Page>, q: Path, src: seq<bv8>, m': Mem)
    requires Loaded(m, nodes, root, image) && Opened(m, root) && q.i4 < 256
    requires |src| <= 4096 && LoadPage(m, root, q, src) == Some(m')
    ensures Opened(m', root)
  {
    LoadedClear(m, nodes, root, image);
    forall r: Right, p: Path | p.i4 < 256
      ensures Open(r, m'.ram, root, 4, p)
    {
      OpenAfter(r, m, nodes, root, q, src, m', p);
    }
  }

  lemma OpenAfter(r: Right, m: Mem, nodes: map<nat, Node>, root: nat, q: Path, src: seq<bv8>, m': Mem, p: Path)
    requires Shape(m, nodes) && IsRoot(nodes, root) && Clear(m.ram, root, 4, q)
    requires |src| <= 4096 && LoadPage(m, root, q, src) == Some(m')
    ensures Open(r, m'.ram, root, 4, p) == Open(r, m.ram, root, 4, p)
  {
    var g := Alloc(m).value;
    TakeShape(m, nodes);
    LookupSame(m.ram, g.mem.ram, m, nodes, root, 4, q);
    OpenSame(r, m, nodes, g.mem.ram, root, 4, p);
    var mapped, nodes' := MapEffects(g.mem, nodes, root, q, g.frame, USER_PAGE);
    MapOpen(r, g.mem, nodes, root, 4, q, g.frame, USER_PAGE, root, 4, p);
    OpenSame(r, mapped, nodes', m'.ram, root, 4, p);
  }

  lemma NeedNext(pages: set<Path>, q: Path)
    requires q !in pages
    ensures Need(pages + {q}) == Need(pages) + 1 + New(pages + {PathOf(0xB8000)}, q)
  {
    TablesNext(pages + {PathOf(0xB8000)}, q);
    assert pages + {q} + {PathOf(0xB8000)} == pages + {PathOf(0xB8000)} + {q};
  }

  lemma NeedFewer(s: set<Path>, t: set<Path>)
    requires s <= t
    ensures Need(s) <= Need(t)
  {
    Fewer(s, t);
    TablesFewer(s + {PathOf(0xB8000)}, t + {PathOf(0xB8000)});
  }

  // Loading a page halts exactly when fewer frames are free than it takes.
  lemma LoadPageCost(m: Mem, nodes: map<nat, Node>, root: nat, s: set<Path>, q: Path, src: seq<bv8>)
    requires Shape(m, nodes) && IsRoot(nodes, root) && Clear(m.ram, root, 4, q) && q.i4 < 256 && |src| <= 4096
    requires Tabled(m.ram, root, s)
    ensures var r := LoadPage(m, root, q, src);
      && (r.None? <==> CountFree(m.used) < 1 + New(s, q))
      && (r.Some? ==> CountFree(r.value.used) + 1 + New(s, q) == CountFree(m.used))
  {
    TakeAndMapCost(m, nodes, root, q, USER_PAGE);
  }

  lemma FundedNext(b: Before, m: Mem, nodes: map<nat, Node>, root: nat, image: map<Path, Page>, q: Path, src: seq<bv8>,
                   m': Mem)
    requires Loaded(m, nodes, root, image) && Funded(b, m, root, image.Keys) && q.i4 < 256 && q !in image
    requires |src| <= 4096 && LoadPage(m, root, q, src) == Some(m')
    ensures Funded(b, m', root, image[q := CopyIn(ZeroPage(), src)].Keys)
  {
    LoadedClear(m, nodes, root, image);
    LoadPageCost(m, nodes, root, image.Keys + {PathOf(0xB8000)}, q, src);
    TabledLoad(m, nodes, root, image.Keys + {PathOf(0xB8000)}, q, src, m');
    FundedWith(b, m, m', root, image.Keys, q, image[q := CopyIn(ZeroPage(), src)].Keys);
  }

  lemma FundedWith(b: Before, m: Mem, m': Mem, root: nat, pages: set<Path>, q: Path, pages': set<Path>)
    requires root < FRAMES && q !in pages && pages' == pages + {q}
    requires CountFree(m.used) + Need(pages) == CountFree(b.mem.used)
    requires CountFree(m'.used) + 1 + New(pages + {PathOf(0xB8000)}, q) == CountFree(m.used)
    requires Tabled(m'.ram, root, pages + {PathOf(0xB8000)} + {q})
    ensures Funded(b, m', root, pages')
  {
    NeedNext(pages, q);
    assert pages' + {PathOf(0xB8000)} == pages + {PathOf(0xB8000)} + {q};
  }

  lemma ClearKept(m: Mem, nodes: map<nat, Node>, ram: Ram, root: nat)
    requires Shape(m, nodes) && IsRoot(nodes, root) && forall x :: x in nodes && !nodes[x].Data? ==> ram[x] == m.ram[x]
    requires forall p: Path :: p.i4 < 256 ==> Clear(m.ram, root, 4, p)
    ensures forall p: Path :: p.i4 < 256 ==> Clear(ram, root, 4, p)
  {
    forall p: Path | p.i4 < 256
      ensures Clear(ram, root, 4, p)
    {
      assert Clear(m.ram, root, 4, p);
      LookupSame(m.ram, ram, m, nodes, root, 4, p);
    }
  }

  lemma TabledLoad(m: Mem, nodes: map<nat, Node>, root: nat, s: set<Path>, q: Path, src: seq<bv8>, m': Mem)
    requires Shape(m, nodes) && IsRoot(nodes, root) && Tabled(m.ram, root, s) && q.i4 < 256
    requires forall p: Path :: p.i4 < 256 ==> Clear(m.ram, root, 4, p)
    requires |src| <= 4096 && LoadPage(m, root, q, src) == Some(m')
    ensures Tabled(m'.ram, root, s + {q})
  {
    var g := Alloc(m).value;
    TakeShape(m, nodes);
    TabledKept(m, nodes, g.mem.ram, root, s);
    ClearKept(m, nodes, g.mem.ram, root);
    var mapped, nodes' := MapEffects(g.mem, nodes, root, q, g.frame, USER_PAGE);
    TabledMap(g.mem, nodes, root, s, q, g.frame, USER_PAGE, mapped);
    TabledKept(mapped, nodes', m'.ram, root, s + {q});
  }

  // When a page cannot be loaded, there were too few frames for the pages so far and this one.
  lemma ShortOfPage(b: Before, m: Mem, nodes: map<nat, Node>, root: nat, image: map<Path, Page>, q: Path, src: seq<bv8>)
    requires Loaded(m, nodes, root, image) && Funded(b, m, root, image.Keys) && q.i4 < 256 && q !in image
    requires |src| <= 4096 && LoadPage(m, root, q, src).None?
    ensures CountFree(b.mem.used) < Need(image.Keys + {q})
  {
    LoadedClear(m, nodes, root, image);
    NeedNext(image.Keys, q);
    LoadPageCost(m, nodes, root, image.Keys + {PathOf(0xB8000)}, q, src);
  }

  lemma CleanNext(m: Mem, nodes: map<nat, Node>, root: nat, image: map<Path, Page>, q: Path, src: seq<bv8>, m': Mem,
                  nodes': map<nat, Node>)
    requires Clean(m, nodes) && IsRoot(nodes, root) && OffVga(m, root, image) && Lookup(m.ram, root, 4, q).NoPage?
    requires |src| <= 4096 && LoadPage(m, root, q, src) == Some(m') && Shape(m', nodes')
    requires nodes' == NodesMap(Alloc(m).value.mem, nodes, root, 4, q, USER_PAGE.user)
    requires forall p: Path :: p.i4 < 256 ==>
      Lookup(m'.ram, root, 4, p) ==
      if p == q then Mapped(1, LeafWord(Alloc(m).value.frame, USER_PAGE)) else Lookup(m.ram, root, 4, p)
    ensures Clean(m', nodes') && OffVga(m', root, image[q := CopyIn(ZeroPage(), src)])
  {
    var g := Alloc(m).value;
    var mapped := MapPage(g.mem, root, q, g.frame, USER_PAGE).value;
    TakeNoDangling(m, nodes);
    LookupSame(m.ram, g.mem.ram, m, nodes, root, 4, q);
    var m1, nodes1 := MapEffects(g.mem, nodes, root, q, g.frame, USER_PAGE);
    MapNoDangling(g.mem, nodes, root, q, g.frame, USER_PAGE, mapped, nodes');
    StoreNoDangling(mapped, nodes', g.frame, m');
  }

  lemma StoreNoDangling(m: Mem, nodes: map<nat, Node>, x: nat, m': Mem)
    requires Shape(m, nodes) && NoDangling(m, nodes) && x < FRAMES && x !in nodes && Shape(m', nodes)
    requires m'.used == m.used && forall f :: 0 <= f < FRAMES && f != x ==> m'.ram[f] == m.ram[f]
    ensures NoDangling(m', nodes)
  {
  }

  lemma OwnFramesNext(m: Mem, root: nat, image: map<Path, Page>, q: Path, page: Page, m': Mem, x: nat)
    requires root < FRAMES && x < FRAMES && OwnFrames(m, root, image) && q !in image
    requires forall p: Path :: p.i4 < 256 && p in image ==>
      Lookup(m.ram, root, 4, p).Mapped? && Lookup(m.ram, root, 4, p).word.frame != x
    requires forall p: Path :: p.i4 < 256 ==>
      Lookup(m'.ram, root, 4, p) == if p == q then Mapped(1, LeafWord(x, USER_PAGE)) else Lookup(m.ram, root, 4, p)
    ensures OwnFrames(m', root, image[q := page])
  {
  }

  lemma PageOutside(m0: Mem, nodes0: map<nat, Node>, m: Mem, nodes: map<nat, Node>, root: nat, q: Path, src: seq<bv8>,
                    m': Mem, nodes': map<nat, Node>)
    requires Undisturbed(m0, nodes0, m, nodes, iset{}) && OnlyTaken(m0, m) && IsRoot(nodes, root) && root !in nodes0
    requires q.i4 < 256 && Lookup(m.ram, root, 4, q).NoPage? && |src| <= 4096 && LoadPage(m, root, q, src) == Some(m')
    requires nodes' == NodesMap(Alloc(m).value.mem, nodes, root, 4, q, USER_PAGE.user) && Shape(m', nodes')
    ensures Undisturbed(m0, nodes0, m', nodes', iset{}) && OnlyTaken(m0, m')
  {
    var g := Alloc(m).value;
    var mapped := MapPage(g.mem, root, q, g.frame, USER_PAGE).value;
    TakeShape(m, nodes);
    LookupSame(m.ram, g.mem.ram, m, nodes, root, 4, q);
    UndisturbedTake(m0, nodes0, m, nodes, iset{});
    var m1, nodes1 := MapEffects(g.mem, nodes, root, q, g.frame, USER_PAGE);
    UndisturbedMap(m0, nodes0, g.mem, nodes, iset{}, root, q, g.frame, USER_PAGE, mapped, nodes');
    UndisturbedStore(m0, nodes0, mapped, nodes', iset{}, g.frame, m');
  }

  // A loaded space has no 1 GiB entry in its lower half.
  lemma LoadedNoGiant(m: Mem, nodes: map<nat, Node>, root: nat, image: map<Path, Page>)
    requires Loaded(m, nodes, root, image)
    ensures NoGiantBelow(m.ram, root)
  {
    forall i, j | 0 <= i < 256 && 0 <= j < 512 && m.ram[root][i].flags.present
      && m.ram[m.ram[root][i].frame][j].flags.present
      ensures !m.ram[m.ram[root][i].frame][j].flags.huge
    {
      assert LoadedAt(m, nodes, root, image, Path(i, j, 0, 0));
    }
  }

  // ---- segments

  // `(p_memsz + PAGE_SIZE - 1) / PAGE_SIZE`
  function Pages(h: Phdr): nat { (h.memsz + 4096 - 1) / 4096 }

  // A segment has the pages that begin below its end, and its last page ends at the next boundary.
  lemma PagesIff(h: Phdr, j: nat)
    ensures j < Pages(h) <==> j * 4096 < h.memsz
  {
  }

  lemma PagesEnd(h: Phdr, end: nat)
    requires h.vaddr % 4096 == 0 && end % 4096 == 0 && h.vaddr + h.memsz <= end
    ensures h.vaddr + Pages(h) * 4096 <= end
  {
  }

  // The file bytes that go to page j of the segment.
  function Source(data: seq<bv8>, h: Phdr, j: nat): (s: seq<bv8>)
    requires h.offset + h.filesz <= |data|
    ensures |s| <= 4096
  {
    var off := j * 4096;
    if off >= h.filesz then []
    else
      var len := if off + 4096 > h.filesz then h.filesz - off else 4096;
      data[h.offset + off..h.offset + off + len]
  }

  // A segment that gABI chapter 5 allows and that lies, page-aligned, in the lower half.
  predicate ValidSegment(data: seq<bv8>, h: Phdr) {
    && h.vaddr % 4096 == 0 && h.vaddr + h.memsz <= 0x8000_0000_0000
    && h.filesz <= h.memsz && h.offset + h.filesz <= |data|
    && (h.vaddr + h.memsz <= 0xB8000 || 0xB9000 <= h.vaddr)
  }

  predicate Apart(g: Phdr, h: Phdr) { g.vaddr + g.memsz <= h.vaddr || h.vaddr + h.memsz <= g.vaddr }

  ghost predicate Loadable(data: seq<bv8>, hs: seq<Phdr>) {
    && (forall i :: 0 <= i < |hs| && hs[i].ptype == PT_LOAD ==> ValidSegment(data, hs[i]))
    && (forall i, j :: 0 <= i < j < |hs| && hs[i].ptype == PT_LOAD && hs[j].ptype == PT_LOAD ==> Apart(hs[i], hs[j]))
  }

  function PagePath(h: Phdr, j: nat): Path { PathOf(h.vaddr + j * 4096) }

  lemma PagePathIs(h: Phdr, j: nat, va: nat)
    requires va == h.vaddr + j * 4096
    ensures PathOf(va) == PagePath(h, j)
  {
  }

  // ---- the image that the headers describe

  function SegmentImage(data: seq<bv8>, h: Phdr, n: nat): map<Path, Page>
    requires h.offset + h.filesz <= |data|
  {
    if n == 0 then map[]
    else SegmentImage(data, h, n - 1)[PagePath(h, n - 1) := CopyIn(ZeroPage(), Source(data, h, n - 1))]
  }

  ghost function Image(data: seq<bv8>, hs: seq<Phdr>, n: nat): map<Path, Page>
    requires Loadable(data, hs) && n <= |hs|
  {
    if n == 0 then map[]
    else if hs[n - 1].ptype != PT_LOAD then Image(data, hs, n - 1)
    else Image(data, hs, n - 1) + SegmentImage(data, hs[n - 1], Pages(hs[n - 1]))
  }

  // Below 2^47 a path identifies a page.
  lemma PathIdentifiesPage(a: nat, b: nat)
    requires a < 0x8000_0000_0000 && b < 0x8000_0000_0000
    ensures PathOf(a) == PathOf(b) <==> a / 4096 == b / 4096
    ensures PathOf(a).i4 < 256
  {
    IndicesArePageNumber(a);
    IndicesArePageNumber(b);
    LowPageNumber(a);
    LowPageNumber(b);
    if a / 4096 == b / 4096 { SamePageSamePath(a, b); }
  }

  lemma LowPageNumber(a: nat)
    requires a < 0x8000_0000_0000
    ensures PageNumber(a) == a / 4096 && PgdIndex(a) < 256
  {
  }

  lemma SamePageSamePath(a: nat, b: nat)
    requires a / 4096 == b / 4096
    ensures PathOf(a) == PathOf(b)
  {
    assert a / 0x20_0000 == a / 4096 / 512 && b / 0x20_0000 == b / 4096 / 512;
    assert a / 0x4000_0000 == a / 0x20_0000 / 512 && b / 0x4000_0000 == b / 0x20_0000 / 512;
    assert a / 0x80_0000_0000 == a / 0x4000_0000 / 512 && b / 0x80_0000_0000 == b / 0x4000_0000 / 512;
  }

  lemma {:induction false} SegmentImagePages(data: seq<bv8>, h: Phdr, n: nat, q: Path)
    requires h.offset + h.filesz <= |data|
    ensures q in SegmentImage(data, h, n) <==> exists j :: 0 <= j < n && q == PagePath(h, j)
  {
    if n > 0 {
      SegmentImagePages(data, h, n - 1, q);
      assert q == PagePath(h, n - 1) ==> q in SegmentImage(data, h, n);
    }
  }

  lemma PagesOfSegment(data: seq<bv8>, h: Phdr, j: nat)
    requires ValidSegment(data, h) && j < Pages(h)
    ensures h.vaddr + j * 4096 < 0x8000_0000_0000 && (h.vaddr + j * 4096) / 4096 == h.vaddr / 4096 + j
    ensures PagePath(h, j).i4 < 256 && PagePath(h, j) != PathOf(0xB8000)
  {
    PagesIff(h, j);
    if h.vaddr + h.memsz <= 0xB8000 { PageBefore(h, j, 0xB8000); }
    PathIdentifiesPage(h.vaddr + j * 4096, 0xB8000);
  }

  // A page of a segment that ends before a page boundary ends before it too.
  lemma PageBefore(h: Phdr, j: nat, end: nat)
    requires h.vaddr % 4096 == 0 && end % 4096 == 0 && h.vaddr + h.memsz <= end && j < Pages(h)
    ensures h.vaddr + j * 4096 + 4096 <= end
  {
    PagesEnd(h, end);
    assert (j + 1) * 4096 <= Pages(h) * 4096;
  }

  lemma PagesDiffer(data: seq<bv8>, g: Phdr, j: nat, h: Phdr, k: nat)
    requires ValidSegment(data, g) && ValidSegment(data, h) && j < Pages(g) && k < Pages(h)
    requires Apart(g, h) || (g == h && j != k)
    ensures PagePath(g, j) != PagePath(h, k)
  {
    PagesOfSegment(data, g, j);
    PagesOfSegment(data, h, k);
    PathIdentifiesPage(g.vaddr + j * 4096, h.vaddr + k * 4096);
    if g.vaddr + g.memsz <= h.vaddr { PageBefore(g, j, h.vaddr); }
    if h.vaddr + h.memsz <= g.vaddr { PageBefore(h, k, g.vaddr); }
  }

  // The image holds page j of segment i, with that page's bytes, once i has been loaded.
  lemma {:induction false} ImageHas(data: seq<bv8>, hs: seq<Phdr>, n: nat, i: nat, j: nat)
    requires Loadable(data, hs) && i < n <= |hs| && hs[i].ptype == PT_LOAD && j < Pages(hs[i])
    ensures PagePath(hs[i], j) in Image(data, hs, n)
    ensures Image(data, hs, n)[PagePath(hs[i], j)] == CopyIn(ZeroPage(), Source(data, hs[i], j))
    decreases n
  {
    if i == n - 1 {
      SegmentImageHas(data, hs[i], Pages(hs[i]), j);
    } else {
      ImageHas(data, hs, n - 1, i, j);
      if hs[n - 1].ptype == PT_LOAD { OutsideSegment(data, hs[n - 1], Pages(hs[n - 1]), hs[i], j); }
    }
  }

  lemma OutsideSegment(data: seq<bv8>, h: Phdr, n: nat, g: Phdr, j: nat)
    requires ValidSegment(data, g) && ValidSegment(data, h) && j < Pages(g) && n <= Pages(h)
    requires Apart(g, h) || Apart(h, g) || (g == h && n <= j)
    ensures PagePath(g, j) !in SegmentImage(data, h, n)
  {
    SegmentImagePages(data, h, n, PagePath(g, j));
    if k :| 0 <= k < n && PagePath(g, j) == PagePath(h, k) {
      PagesDiffer(data, g, j, h, k);
    }
  }

  lemma {:induction false} SegmentImageHas(data: seq<bv8>, h: Phdr, n: nat, j: nat)
    requires ValidSegment(data, h) && j < n <= Pages(h)
    ensures PagePath(h, j) in SegmentImage(data, h, n)
    ensures SegmentImage(data, h, n)[PagePath(h, j)] == CopyIn(ZeroPage(), Source(data, h, j))
    decreases n
  {
    if j < n - 1 {
      SegmentImageHas(data, h, n - 1, j);
      assert PagePath(h, j) != PagePath(h, n - 1) by { PagesDiffer(data, h, j, h, n - 1); }
      SegmentImageKeeps(data, h, n, PagePath(h, j), CopyIn(ZeroPage(), Source(data, h, j)));
    } else {
      SegmentImageGains(data, h, n, PagePath(h, j), CopyIn(ZeroPage(), Source(data, h, j)));
    }
  }

  lemma SegmentImageKeeps(data: seq<bv8>, h: Phdr, n: nat, q: Path, page: Page)
    requires h.offset + h.filesz <= |data| && n > 0 && q != PagePath(h, n - 1)
    requires q in SegmentImage(data, h, n - 1) && SegmentImage(data, h, n - 1)[q] == page
    ensures q in SegmentImage(data, h, n) && SegmentImage(data, h, n)[q] == page
  {
  }

  lemma SegmentImageGains(data: seq<bv8>, h: Phdr, n: nat, q: Path, page: Page)
    requires h.offset + h.filesz <= |data| && n > 0
    requires q == PagePath(h, n - 1) && page == CopyIn(ZeroPage(), Source(data, h, n - 1))
    ensures q in SegmentImage(data, h, n) && SegmentImage(data, h, n)[q] == page
  {
  }

  // Nothing else is in the image.
  lemma {:induction false} ImageOnly(data: seq<bv8>, hs: seq<Phdr>, n: nat, q: Path)
    requires Loadable(data, hs) && n <= |hs| && q in Image(data, hs, n)
    ensures exists i, j :: 0 <= i < n && hs[i].ptype == PT_LOAD && 0 <= j < Pages(hs[i]) && q == PagePath(hs[i], j)
    decreases n
  {
    if hs[n - 1].ptype == PT_LOAD && q in SegmentImage(data, hs[n - 1], Pages(hs[n - 1])) {
      SegmentImagePages(data, hs[n - 1], Pages(hs[n - 1]), q);
    } else {
      ImageOnly(data, hs, n - 1, q);
    }
  }

  // A page about to be loaded is new.
  lemma PageIsNew(data: seq<bv8>, hs: seq<Phdr>, i: nat, j: nat)
    requires Loadable(data, hs) && i < |hs| && hs[i].ptype == PT_LOAD && j < Pages(hs[i])
    ensures PagePath(hs[i], j) !in PartImage(data, hs, i, j)
    ensures PagePath(hs[i], j).i4 < 256 && PagePath(hs[i], j) != PathOf(0xB8000)
  {
    PagesOfSegment(data, hs[i], j);
    OutsideSegment(data, hs[i], j, hs[i], j);
    if PagePath(hs[i], j) in Image(data, hs, i) {
      ImageOnly(data, hs, i, PagePath(hs[i], j));
      var i', j' :|
        && 0 <= i' < i && hs[i'].ptype == PT_LOAD && 0 <= j' < Pages(hs[i'])
        && PagePath(hs[i], j) == PagePath(hs[i'], j');
      PagesDiffer(data, hs[i'], j', hs[i], j);
    }
  }

  // The image with j pages of segment i.
  ghost function PartImage(data: seq<bv8>, hs: seq<Phdr>, i: nat, j: nat): map<Path, Page>
    requires Loadable(data, hs) && i < |hs| && hs[i].ptype == PT_LOAD
  {
    Image(data, hs, i) + SegmentImage(data, hs[i], j)
  }

  lemma PartImageNext(data: seq<bv8>, hs: seq<Phdr>, i: nat, j: nat)
    requires Loadable(data, hs) && i < |hs| && hs[i].ptype == PT_LOAD
    ensures PartImage(data, hs, i, j + 1) ==
      PartImage(data, hs, i, j)[PagePath(hs[i], j) := CopyIn(ZeroPage(), Source(data, hs[i], j))]
  {
  }

  lemma PartImageEnds(data: seq<bv8>, hs: seq<Phdr>, i: nat)
    requires Loadable(data, hs) && i < |hs| && hs[i].ptype == PT_LOAD
    ensures PartImage(data, hs, i, 0) == Image(data, hs, i)
    ensures PartImage(data, hs, i, Pages(hs[i])) == Image(data, hs, i + 1)
  {
  }

  // The pages of a part of the image are pages of the whole.
  lemma PartOfImage(data: seq<bv8>, hs: seq<Phdr>, i: nat, j: nat, q: Path)
    requires Loadable(data, hs) && i < |hs| && hs[i].ptype == PT_LOAD && j < Pages(hs[i])
    requires q in PartImage(data, hs, i, j) || q == PagePath(hs[i], j)
    ensures q in Image(data, hs, |hs|)
  {
    if q in Image(data, hs, i) {
      ImageOnly(data, hs, i, q);
      var i', j' :| 0 <= i' < i && hs[i'].ptype == PT_LOAD && 0 <= j' < Pages(hs[i']) && q == PagePath(hs[i'], j');
      ImageHas(data, hs, |hs|, i', j');
    } else if q == PagePath(hs[i], j) {
      ImageHas(data, hs, |hs|, i, j);
    } else {
      SegmentImagePages(data, hs[i], j, q);
      var j' :| 0 <= j' < j && q == PagePath(hs[i], j');
      ImageHas(data, hs, |hs|, i, j');
    }
  }

  // There are too few frames for the program.
  ghost predicate Short(b: Before, data: seq<bv8>, hs: seq<Phdr>)
    requires Loadable(data, hs)
  {
    CountFree(b.mem.used) < Need(Image(data, hs, |hs|).Keys)
  }

  lemma ShortOfPart(b: Before, data: seq<bv8>, hs: seq<Phdr>, i: nat, j: nat)
    requires Loadable(data, hs) && i < |hs| && hs[i].ptype == PT_LOAD && j < Pages(hs[i])
    requires CountFree(b.mem.used) < Need(PartImage(data, hs, i, j).Keys + {PagePath(hs[i], j)})
    ensures Short(b, data, hs)
  {
    var part := PartImage(data, hs, i, j).Keys + {PagePath(hs[i], j)};
    forall q | q in part
      ensures q in Image(data, hs, |hs|)
    {
      PartOfImage(data, hs, i, j, q);
    }
    NeedFewer(part, Image(data, hs, |hs|).Keys);
  }

  // ---- the loops

  // The file part lies in the file, and the page count does not wrap.
  predicate InFile(data: seq<bv8>, h: Phdr) {
    h.offset + h.filesz <= |data| && h.memsz + 4095 < 0x1_0000_0000_0000_0000
  }

  // Pages j and on, up to n, of a segment.
  function LoadPages(m: Mem, root: nat, data: seq<bv8>, h: Phdr, j: nat, n: nat): (r: Option<Mem>)
    requires ValidMem(m) && root < FRAMES && InFile(data, h) && j <= n
    ensures r.Some? ==> ValidMem(r.value)
    decreases n - j
  {
    if j == n then Some(m)
    else
      match LoadPage(m, root, PagePath(h, j), Source(data, h, j))
      case None => None
      case Some(m') => LoadPages(m', root, data, h, j + 1, n)
  }

  // Headers i and on.
  function LoadFrom(m: Mem, root: nat, data: seq<bv8>, hs: seq<Phdr>, i: nat): (r: Option<Mem>)
    requires ValidMem(m) && root < FRAMES && i <= |hs|
    requires forall h :: h in hs && h.ptype == PT_LOAD ==> InFile(data, h)
    ensures r.Some? ==> ValidMem(r.value)
    decreases |hs| - i
  {
    if i == |hs| then Some(m)
    else if hs[i].ptype != PT_LOAD then LoadFrom(m, root, data, hs, i + 1)
    else
      match LoadPages(m, root, data, hs[i], 0, Pages(hs[i]))
      case None => None
      case Some(m') => LoadFrom(m', root, data, hs, i + 1)
  }

  // `image` has been built, with some roles of the tables.
  ghost predicate Ready(b: Before, m: Mem, root: nat, image: map<Path, Page>) {
    exists nodes: map<nat, Node> :: Built(b, m, nodes, root, image)
  }

  // The pages of a segment extend the image by that segment, or there are too few frames.
  lemma {:induction false} SegmentBuilt(b: Before, m: Mem, root: nat, data: seq<bv8>, hs: seq<Phdr>, i: nat, h: Phdr,
                                        j: nat, n: nat, image: map<Path, Page>, r: Option<Mem>)
    requires Loadable(data, hs) && i < |hs| && h == hs[i] && h.ptype == PT_LOAD && InFile(data, h)
    requires n == Pages(h) && j <= n && ValidMem(m) && root < FRAMES
    requires image == PartImage(data, hs, i, j) && Ready(b, m, root, image)
    requires r == LoadPages(m, root, data, h, j, n)
    ensures r.None? ==> Short(b, data, hs)
    ensures r.Some? ==> Ready(b, r.value, root, PartImage(data, hs, i, n))
    decreases n - j
  {
    if j < n {
      var r1, image', j' := PageBuilt(b, m, root, data, hs, i, h, j, n, image, r);
      if r1.Some? { SegmentBuilt(b, r1.value, root, data, hs, i, h, j', n, image', r); }
    }
  }

  lemma {:induction false} LoadPagesStep(m: Mem, root: nat, data: seq<bv8>, h: Phdr, j: nat, n: nat, r: Option<Mem>)
    requires ValidMem(m) && root < FRAMES && InFile(data, h) && j < n
    requires LoadPage(m, root, PagePath(h, j), Source(data, h, j)) == r
    ensures r.None? ==> LoadPages(m, root, data, h, j, n).None?
    ensures r.Some? ==> LoadPages(m, root, data, h, j, n) == LoadPages(r.value, root, data, h, j + 1, n)
  {
  }

  // One page, and what is left to load after it.
  lemma PageBuilt(b: Before, m: Mem, root: nat, data: seq<bv8>, hs: seq<Phdr>, i: nat, h: Phdr, j: nat, n: nat,
                  image: map<Path, Page>, r: Option<Mem>)
    returns (r1: Option<Mem>, image': map<Path, Page>, j': nat)
    requires Loadable(data, hs) && i < |hs| && h == hs[i] && h.ptype == PT_LOAD && InFile(data, h)
    requires n == Pages(h) && j < n && ValidMem(m) && root < FRAMES
    requires image == PartImage(data, hs, i, j) && Ready(b, m, root, image)
    requires r == LoadPages(m, root, data, h, j, n)
    ensures j' == j + 1 && image' == PartImage(data, hs, i, j')
    ensures r1.None? ==> r.None? && Short(b, data, hs)
    ensures r1.Some? ==>
      && ValidMem(r1.value) && Ready(b, r1.value, root, image')
      && r == LoadPages(r1.value, root, data, h, j', n)
  {
    j' := j + 1;
    r1, image' := PageReady(b, m, root, data, hs, i, j, image);
    LoadPagesStep(m, root, data, h, j, n, r1);
  }

  lemma PageReady(b: Before, m: Mem, root: nat, data: seq<bv8>, hs: seq<Phdr>, i: nat, j: nat, image: map<Path, Page>)
    returns (r: Option<Mem>, image': map<Path, Page>)
    requires Loadable(data, hs) && i < |hs| && hs[i].ptype == PT_LOAD && j < Pages(hs[i])
    requires ValidMem(m) && root < FRAMES && image == PartImage(data, hs, i, j) && Ready(b, m, root, image)
    ensures r == LoadPage(m, root, PagePath(hs[i], j), Source(data, hs[i], j))
    ensures image' == PartImage(data, hs, i, j + 1)
    ensures r.None? ==> Short(b, data, hs)
    ensures r.Some? ==> ValidMem(r.value) && Ready(b, r.value, root, image')
  {
    var nodes: map<nat, Node> :| Built(b, m, nodes, root, image);
    var q, src := PagePath(hs[i], j), Source(data, hs[i], j);
    r := LoadPage(m, root, q, src);
    PageIsNew(data, hs, i, j);
    PartImageNext(data, hs, i, j);
    image' := image[q := CopyIn(ZeroPage(), src)];
    if r.None? {
      ShortOfPage(b, m, nodes, root, image, q, src);
      ShortOfPart(b, data, hs, i, j);
    } else {
      var nodes' := BuildPage(b, m, nodes, root, image, q, src, r.value);
    }
  }

  // The headers build the whole image, or there are too few frames.
  lemma {:induction false} ImageBuilt(b: Before, m: Mem, root: nat, data: seq<bv8>, hs: seq<Phdr>, i: nat,
                                      image: map<Path, Page>, r: Option<Mem>)
    requires Loadable(data, hs) && i <= |hs| && ValidMem(m) && root < FRAMES
    requires forall h :: h in hs && h.ptype == PT_LOAD ==> InFile(data, h)
    requires image == Image(data, hs, i) && Ready(b, m, root, image) && r == LoadFrom(m, root, data, hs, i)
    ensures r.None? ==> Short(b, data, hs)
    ensures r.Some? ==> Ready(b, r.value, root, Image(data, hs, |hs|))
    decreases |hs| - i
  {
    if i < |hs| {
      var r1, image', i' := HeaderBuilt(b, m, root, data, hs, i, image, r);
      if r1.Some? { ImageBuilt(b, r1.value, root, data, hs, i', image', r); }
    }
  }

  // One header, and what is left to load after it.
  lemma HeaderBuilt(b: Before, m: Mem, root: nat, data: seq<bv8>, hs: seq<Phdr>, i: nat, image: map<Path, Page>,
                    r: Option<Mem>)
    returns (r1: Option<Mem>, image': map<Path, Page>, i': nat)
    requires Loadable(data, hs) && i < |hs| && ValidMem(m) && root < FRAMES
    requires forall h :: h in hs && h.ptype == PT_LOAD ==> InFile(data, h)
    requires image == Image(data, hs, i) && Ready(b, m, root, image) && r == LoadFrom(m, root, data, hs, i)
    ensures i' == i + 1 && image' == Image(data, hs, i')
    ensures r1.None? ==> r.None? && Short(b, data, hs)
    ensures r1.Some? ==>
      && ValidMem(r1.value) && Ready(b, r1.value, root, image')
      && r == LoadFrom(r1.value, root, data, hs, i')
  {
    i', r1, image' := i + 1, Some(m), Image(data, hs, i + 1);
    if hs[i].ptype == PT_LOAD {
      PartImageEnds(data, hs, i);
      var n := Pages(hs[i]);
      r1 := LoadPages(m, root, data, hs[i], 0, n);
      SegmentBuilt(b, m, root, data, hs, i, hs[i], 0, n, PartImage(data, hs, i, 0), r1);
    }
  }

  lemma LoadableInFile(data: seq<bv8>, hs: seq<Phdr>)
    requires Loadable(data, hs)
    ensures forall h :: h in hs && h.ptype == PT_LOAD ==> InFile(data, h)
  {
  }
}
