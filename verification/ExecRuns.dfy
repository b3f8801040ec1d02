/** exec and fork together, and exec as steps of the paging code. */
module ExecRuns {
  import opened Wrappers
  import opened FrameAlloc
  import opened Paging
  import opened CloneSpace
  import opened Outside
  import opened Elf
  import opened Loader
  import opened Program
  import opened SharedKernel

  // ---- a program that forks

  // Cloning gives the child every lower-half page of the parent, and leaves the parent's.
  lemma ClonedPage(m: Mem, nodes: map<nat, Node>, cur: nat, m': Mem, nodes': map<nat, Node>, child: nat, va: nat)
    requires Cloned(m, nodes, cur, m', nodes', child) && PathOf(va).i4 < 256
    ensures PageAt(m'.ram, child, va) == PageAt(m.ram, cur, va) == PageAt(m'.ram, cur, va)
  {
    CloneTranslations(m, nodes, cur, m', nodes', child);
    MappedNotFree(m, nodes, cur, 4, PathOf(va));
  }

  // exec_user_program and then sys_fork: the child reads the segments as the program does, and
  // the program still does.
  lemma ForkedSegmentReads(data: seq<bv8>, hs: seq<Phdr>, m: Mem, nodes: map<nat, Node>, root: nat,
                           m': Mem, nodes': map<nat, Node>, child: nat, i: nat, o: nat)
    requires Loadable(data, hs) && Loaded(m, nodes, root, Image(data, hs, |hs|))
    requires Cloned(m, nodes, root, m', nodes', child)
    requires i < |hs| && hs[i].ptype == PT_LOAD && OnPage(hs[i], o)
    ensures ReadByte(m'.ram, child, hs[i].vaddr + o) == Some(SegmentByte(data, hs[i], o))
    ensures ReadByte(m'.ram, root, hs[i].vaddr + o) == Some(SegmentByte(data, hs[i], o))
  {
    SegmentReads(data, hs, m, nodes, root, i, o);
    SegmentLow(data, hs, i, o);
    ClonedPage(m, nodes, root, m', nodes', child, hs[i].vaddr + o);
  }

  lemma SegmentLow(data: seq<bv8>, hs: seq<Phdr>, i: nat, o: nat)
    requires Loadable(data, hs) && i < |hs| && hs[i].ptype == PT_LOAD && OnPage(hs[i], o)
    ensures PathOf(hs[i].vaddr + o).i4 < 256
  {
    var h, j := hs[i], o / 4096;
    PagesIff(h, j);
    PagesOfSegment(data, h, j);
    OffsetInPage(h.vaddr, j, o);
    SamePageSamePath(h.vaddr + o, h.vaddr + j * 4096);
  }

  // ---- exec as steps of a run

  // Lines 76-79: create, switch, map the VGA page.
  lemma StartIsSteps(s: Sys, m1: Mem, root: nat, m2: Mem) returns (s1: Sys, s2: Sys, s3: Sys)
    requires Good(s) && !Free(s.mem, VGA_FRAME) && CreateSpace(s.mem, s.cur) == Some(Grant(m1, root))
    requires MapPage(m1, root, PathOf(0xB8000), VGA_FRAME, VGA_PAGE) == Some(m2)
    ensures SharedKernel.Step(s, Create, s1) && Good(s1) && SharedKernel.Step(s1, Switch(root), s2) && Good(s2)
    ensures SharedKernel.Step(s2, Map(PathOf(0xB8000), VGA_FRAME, VGA_PAGE), s3) && s3.mem == m2 && s3.cur == root
  {
    CreateSpaceLookup(s.mem, s.nodes, s.cur);
    CreateNoDangling(s.mem, s.nodes, s.cur, m1, root);
    s1 := Sys(m1, s.nodes[root := Root], s.cur);
    s2 := s1.(cur := root);
    PathIdentifiesPage(0xB8000, 0);
    var p := PathOf(0xB8000);
    s3 := Sys(m2, NodesMap(m1, s2.nodes, root, 4, p, VGA_PAGE.user), root);
  }

  // Lines 89-97: take a frame, map it, store to it.
  lemma LoadPageIsSteps(s: Sys, q: Path, src: seq<bv8>, m': Mem) returns (s1: Sys, s2: Sys, s3: Sys)
    requires Good(s) && Clear(s.mem.ram, s.cur, 4, q) && |src| <= 4096 && LoadPage(s.mem, s.cur, q, src) == Some(m')
    ensures SharedKernel.Step(s, Take, s1) && Good(s1)
    ensures SharedKernel.Step(s1, Map(q, Alloc(s.mem).value.frame, USER_PAGE), s2) && Good(s2)
    ensures SharedKernel.Step(s2, Store(Alloc(s.mem).value.frame, m'.ram[Alloc(s.mem).value.frame]), s3) && s3.mem == m'
  {
    var g := Alloc(s.mem).value;
    TakeNoDangling(s.mem, s.nodes);
    LookupSame(s.mem.ram, g.mem.ram, s.mem, s.nodes, s.cur, 4, q);
    s1 := s.(mem := g.mem);
    var mapped, nodes' := MapEffects(g.mem, s.nodes, s.cur, q, g.frame, USER_PAGE);
    MapNoDangling(g.mem, s.nodes, s.cur, q, g.frame, USER_PAGE, mapped, nodes');
    s2 := Sys(mapped, nodes', s.cur);
    s3 := Sys(m', nodes', s.cur);
  }
}
