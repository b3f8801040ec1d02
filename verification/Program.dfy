/** The address space that a loaded program finds: what exec_user_program promises it. */
module Program {
  import opened Elf
  import opened Pgtable
  import opened PageContents
  import opened Wrappers
  import opened FrameAlloc
  import opened Paging
  import opened Access
  import opened Loader

  // The 4 KiB page that a virtual address reads from.
  function PageAt(ram: Ram, root: nat, va: nat): Option<Page>
    requires root < FRAMES
  {
    var l := Lookup(ram, root, 4, PathOf(va));
    if l.Mapped? && l.level == 1 then Some(ram[l.word.frame]) else None
  }

  // Offset o lies on a page of the segment: the page begins below its end.
  predicate OnPage(h: Phdr, o: nat) { o / 4096 * 4096 < h.memsz }

  lemma SegmentPage(data: seq<bv8>, hs: seq<Phdr>, m: Mem, nodes: map<nat, Node>, root: nat, i: nat, o: nat)
    requires Loadable(data, hs) && Loaded(m, nodes, root, Image(data, hs, |hs|))
    requires i < |hs| && hs[i].ptype == PT_LOAD && OnPage(hs[i], o)
    ensures PageAt(m.ram, root, hs[i].vaddr + o) == Some(CopyIn(ZeroPage(), Source(data, hs[i], o / 4096)))
  {
    var h, j := hs[i], o / 4096;
    PagesIff(h, j);
    ImageHas(data, hs, |hs|, i, j);
    PagesOfSegment(data, h, j);
    OffsetInPage(h.vaddr, j, o);
    SamePageSamePath(h.vaddr + o, h.vaddr + j * 4096);
    assert LoadedAt(m, nodes, root, Image(data, hs, |hs|), PagePath(h, j));
  }

  // The byte that a virtual address reads as, off huge pages.
  function ReadByte(ram: Ram, root: nat, va: nat): Option<bv8>
    requires root < FRAMES
  {
    match PageAt(ram, root, va) case None => None case Some(page) => Some(PageBytes(page)[va % 4096])
  }

  // Byte o of a segment: the file's byte, or zero past the file's part of it.
  function SegmentByte(data: seq<bv8>, h: Phdr, o: nat): bv8
    requires h.offset + h.filesz <= |data|
  {
    if o < h.filesz then data[h.offset + o] else 0
  }

  // A loaded segment reads as the headers describe it.
  lemma SegmentReads(data: seq<bv8>, hs: seq<Phdr>, m: Mem, nodes: map<nat, Node>, root: nat, i: nat, o: nat)
    requires Loadable(data, hs) && Loaded(m, nodes, root, Image(data, hs, |hs|))
    requires i < |hs| && hs[i].ptype == PT_LOAD && OnPage(hs[i], o)
    ensures ReadByte(m.ram, root, hs[i].vaddr + o) == Some(SegmentByte(data, hs[i], o))
  {
    SegmentBounds(data, hs, i);
    SegmentPage(data, hs, m, nodes, root, i, o);
    SegmentByteReads(data, hs[i], m.ram, root, o, hs[i].vaddr + o);
  }

  lemma SegmentByteReads(data: seq<bv8>, h: Phdr, ram: Ram, root: nat, o: nat, va: nat)
    requires root < FRAMES && h.offset + h.filesz <= |data| && h.vaddr % 4096 == 0 && va == h.vaddr + o
    requires PageAt(ram, root, va) == Some(CopyIn(ZeroPage(), Source(data, h, o / 4096)))
    ensures ReadByte(ram, root, va) == Some(SegmentByte(data, h, o))
  {
    var page := SourceByte(data, h, o);
    PageReads(ram, root, h, o, va, page, SegmentByte(data, h, o));
  }

  lemma SegmentBounds(data: seq<bv8>, hs: seq<Phdr>, i: nat)
    requires Loadable(data, hs) && i < |hs| && hs[i].ptype == PT_LOAD
    ensures hs[i].vaddr % 4096 == 0 && hs[i].offset + hs[i].filesz <= |data|
  {
  }

  lemma PageReads(ram: Ram, root: nat, h: Phdr, o: nat, va: nat, page: Page, b: bv8)
    requires root < FRAMES && h.vaddr % 4096 == 0 && va == h.vaddr + o
    requires PageAt(ram, root, va) == Some(page) && PageBytes(page)[o % 4096] == b
    ensures ReadByte(ram, root, va) == Some(b)
  {
    OffsetInPage(h.vaddr, o / 4096, o);
    PageReadsAt(ram, root, va, page, o % 4096, b);
  }

  lemma PageReadsAt(ram: Ram, root: nat, va: nat, page: Page, at: nat, b: bv8)
    requires root < FRAMES && PageAt(ram, root, va) == Some(page) && va % 4096 == at && PageBytes(page)[at] == b
    ensures ReadByte(ram, root, va) == Some(b)
  {
  }

  lemma SourceByte(data: seq<bv8>, h: Phdr, o: nat) returns (page: Page)
    requires h.offset + h.filesz <= |data|
    ensures page == CopyIn(ZeroPage(), Source(data, h, o / 4096))
    ensures PageBytes(page)[o % 4096] == SegmentByte(data, h, o)
  {
    page := CopyIn(ZeroPage(), Source(data, h, o / 4096));
    CopyInByte(Source(data, h, o / 4096), o % 4096, SegmentByte(data, h, o)) by {
      assert o == o / 4096 * 4096 + o % 4096;
    }
  }

  lemma OffsetInPage(vaddr: nat, j: nat, o: nat)
    requires vaddr % 4096 == 0 && j == o / 4096
    ensures (vaddr + o) / 4096 == (vaddr + j * 4096) / 4096 && (vaddr + o) % 4096 == o % 4096
  {
  }

  // ---- where

  // Segments of type 1 are loaded (gABI chapter 5).
  predicate ToLoad(h: Phdr) { h.ptype == 1 }

  // Page q holds byte o of the segment.
  predicate Holds(q: Path, h: Phdr, o: nat) { o < h.memsz && q == PathOf(h.vaddr + o) }

  // Page q holds a byte of a loadable segment.
  ghost predicate InProgram(hs: seq<Phdr>, q: Path) {
    exists i, o :: 0 <= i < |hs| && ToLoad(hs[i]) && Holds(q, hs[i], o)
  }

  // The image has exactly the pages that hold a byte of a segment.
  lemma InProgramIff(data: seq<bv8>, hs: seq<Phdr>, q: Path)
    requires Loadable(data, hs)
    ensures q in Image(data, hs, |hs|) <==> InProgram(hs, q)
  {
    if q in Image(data, hs, |hs|) {
      ImageOnly(data, hs, |hs|, q);
      var i, j :| 0 <= i < |hs| && hs[i].ptype == PT_LOAD && 0 <= j < Pages(hs[i]) && q == PagePath(hs[i], j);
      PageHolds(hs[i], j, j * 4096, q);
    }
    if i, o :| 0 <= i < |hs| && ToLoad(hs[i]) && Holds(q, hs[i], o) {
      SegmentBounds(data, hs, i);
      var j := HeldOnPage(hs[i], o, q);
      ImageHas(data, hs, |hs|, i, j);
    }
  }

  // A page of a segment holds its first byte, and a byte is held by a page of its segment.
  lemma PageHolds(h: Phdr, j: nat, o: nat, q: Path)
    requires j < Pages(h) && o == j * 4096 && q == PagePath(h, j)
    ensures Holds(q, h, o)
  {
    PagesIff(h, j);
    PagePathIs(h, j, h.vaddr + o);
  }

  lemma HeldOnPage(h: Phdr, o: nat, q: Path) returns (j: nat)
    requires Holds(q, h, o) && h.vaddr % 4096 == 0
    ensures j < Pages(h) && q == PagePath(h, j)
  {
    j := o / 4096;
    PagesIff(h, j);
    OffsetInPage(h.vaddr, j, o);
    SamePageSamePath(h.vaddr + o, h.vaddr + j * 4096);
  }

  // The lower half maps the pages of the segments, the VGA page, and nothing else.
  lemma LowerHalfIsImage(data: seq<bv8>, hs: seq<Phdr>, m: Mem, nodes: map<nat, Node>, root: nat, q: Path)
    requires Loadable(data, hs) && Loaded(m, nodes, root, Image(data, hs, |hs|)) && q.i4 < 256
    ensures Lookup(m.ram, root, 4, q).Mapped? <==> q == PathOf(0xB8000) || InProgram(hs, q)
  {
    assert LoadedAt(m, nodes, root, Image(data, hs, |hs|), q);
    InProgramIff(data, hs, q);
  }

  // ---- and how

  // User mode reaches exactly the pages of the segments, and may write and execute all of them.
  lemma ProgramAccess(data: seq<bv8>, hs: seq<Phdr>, m: Mem, nodes: map<nat, Node>, root: nat, r: Right, q: Path)
    requires Loadable(data, hs) && Loaded(m, nodes, root, Image(data, hs, |hs|)) && q.i4 < 256
    requires UserPages(m, root, Image(data, hs, |hs|)) && Opened(m, root)
    ensures UserCan(m.ram, root, 4, q) <==> InProgram(hs, q)
    ensures InProgram(hs, q) ==> Can(r, m.ram, root, 4, q)
  {
    InProgramIff(data, hs, q);
    assert LoadedAt(m, nodes, root, Image(data, hs, |hs|), q);
    CanIff(r, m.ram, root, 4, q);
  }

  // ---- all of it

  ghost predicate ReadsAs(data: seq<bv8>, hs: seq<Phdr>, ram: Ram, root: nat, i: nat, o: nat)
    requires root < FRAMES && i < |hs| && hs[i].offset + hs[i].filesz <= |data|
  {
    ReadByte(ram, root, hs[i].vaddr + o) == Some(SegmentByte(data, hs[i], o))
  }

  ghost predicate ReachedAs(hs: seq<Phdr>, ram: Ram, root: nat, q: Path)
    requires root < FRAMES
  {
    && (Lookup(ram, root, 4, q).Mapped? <==> q == PathOf(0xB8000) || InProgram(hs, q))
    && (UserCan(ram, root, 4, q) <==> InProgram(hs, q))
    && (InProgram(hs, q) ==> Can(ToWrite, ram, root, 4, q) && Can(ToFetch, ram, root, 4, q))
  }

  // Every byte of every segment reads as the headers say, user mode may read, write and execute
  // exactly the pages of the segments, and the only other page is that of the VGA text buffer, at
  // its physical address.
  ghost predicate AsDescribed(data: seq<bv8>, hs: seq<Phdr>, ram: Ram, root: nat)
    requires root < FRAMES && Loadable(data, hs)
  {
    && (forall i, o :: 0 <= i < |hs| && ToLoad(hs[i]) && 0 <= o < hs[i].memsz ==>
        ReadsAs(data, hs, ram, root, i, o))
    && (forall q: Path :: q.i4 < 256 ==> ReachedAs(hs, ram, root, q))
    && VgaReached(ram, root)
  }

  // The kernel may write to the VGA page, and it is the page of that physical address.
  ghost predicate VgaReached(ram: Ram, root: nat)
    requires root < FRAMES
  {
    var l := Lookup(ram, root, 4, PathOf(0xB8000));
    l.Mapped? && l.level == 1 && l.word.frame * 4096 == 0xB8000 && Can(ToWrite, ram, root, 4, PathOf(0xB8000))
  }

  lemma BuiltAsDescribed(b: Before, data: seq<bv8>, hs: seq<Phdr>, m: Mem, nodes: map<nat, Node>, root: nat)
    requires Loadable(data, hs) && Built(b, m, nodes, root, Image(data, hs, |hs|))
    ensures AsDescribed(data, hs, m.ram, root)
  {
    forall i, o | 0 <= i < |hs| && ToLoad(hs[i]) && 0 <= o < hs[i].memsz
      ensures ReadsAs(data, hs, m.ram, root, i, o)
    {
      SegmentReads(data, hs, m, nodes, root, i, o);
    }
    forall q: Path | q.i4 < 256
      ensures ReachedAs(hs, m.ram, root, q)
    {
      LowerHalfIsImage(data, hs, m, nodes, root, q);
      ProgramAccess(data, hs, m, nodes, root, ToWrite, q);
      ProgramAccess(data, hs, m, nodes, root, ToFetch, q);
    }
    VgaStays(data, hs, m, nodes, root);
  }

  lemma VgaStays(data: seq<bv8>, hs: seq<Phdr>, m: Mem, nodes: map<nat, Node>, root: nat)
    requires Loadable(data, hs) && Loaded(m, nodes, root, Image(data, hs, |hs|)) && Opened(m, root)
    ensures VgaReached(m.ram, root)
  {
    var q := PathOf(0xB8000);
    PathIdentifiesPage(0xB8000, 0);
    assert LoadedAt(m, nodes, root, Image(data, hs, |hs|), q);
    if q in Image(data, hs, |hs|) {
      ImageOnly(data, hs, |hs|, q);
      var i, j :| 0 <= i < |hs| && hs[i].ptype == PT_LOAD && 0 <= j < Pages(hs[i]) && q == PagePath(hs[i], j);
      PagesOfSegment(data, hs[i], j);
    }
    CanIff(ToWrite, m.ram, root, 4, q);
  }
}
