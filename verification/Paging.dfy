/** Four-level paging over the allocated frames: arch/mm/init.c.

The tables are ordinary frames of physical memory. `Lookup` is the translation that the
processor performs (section 4.5 of the Intel SDM, volume 3A); `MapPage` and `Walk` are the
kernel's own table code. `Shape` says which frames are tables and that each table hangs from
exactly one entry, except that PML4 tables may share the tables of the upper half. */
module Paging {
  import opened Pgtable
  import opened Wrappers
  import opened FrameAlloc

  // ---- translation

  // The four table indices of a page; level 4 selects the PML4 entry.
  datatype RawPath = Path(i4: nat, i3: nat, i2: nat, i1: nat)
  type Path = p: RawPath | p.i4 < 512 && p.i3 < 512 && p.i2 < 512 && p.i1 < 512 witness Path(0, 0, 0, 0)

  function PathOf(va: nat): Path {
    Path(PgdIndex(va), PudIndex(va), PmdIndex(va), PteIndex(va))
  }

  function Index(p: Path, k: nat): (i: nat)
    requires 1 <= k <= 4
    ensures i < 512
  {
    match k case 4 => p.i4 case 3 => p.i3 case 2 => p.i2 case _ => p.i1
  }

  // `level` is 1 for a 4 KiB page, 2 for 2 MiB and 3 for 1 GiB.
  datatype Leaf = NoPage | Mapped(level: nat, word: Word)

  predicate IsTable(k: nat, w: Word) {
    w.flags.present && k > 1 && (k == 4 || !w.flags.huge)
  }

  function Lookup(ram: Ram, f: nat, k: nat, p: Path): Leaf
    requires f < FRAMES && 1 <= k <= 4
    decreases k
  {
    var w := ram[f][Index(p, k)];
    if !w.flags.present then NoPage
    else if IsTable(k, w) then Lookup(ram, w.frame, k - 1, p)
    else Mapped(k, w)
  }

  // The page table (level 1) that holds the entry of p, when there is one.
  function TableOf(ram: Ram, f: nat, k: nat, p: Path): Option<nat>
    requires f < FRAMES && 1 <= k <= 4
    decreases k
  {
    var w := ram[f][Index(p, k)];
    if k == 1 then Some(f)
    else if IsTable(k, w) then TableOf(ram, w.frame, k - 1, p)
    else None
  }

  // No 1 GiB or 2 MiB entry lies on the way to p.
  predicate Clear(ram: Ram, f: nat, k: nat, p: Path)
    requires f < FRAMES && 1 <= k <= 4
  {
    var l := Lookup(ram, f, k, p);
    l.NoPage? || l.level == 1
  }

  // ---- which frames are tables

  // What a frame is for. A table below a PML4 records the entry that it hangs from; tables
  // of the upper half record only the PML4 index, so several PML4 tables may share them.
  datatype Node =
    | Root
    | Pdpt(root: nat, i: nat)
    | KernelPdpt(i: nat)
    | Pd(pdpt: nat, i: nat)
    | Pt(pd: nat, i: nat)
    | Data(pt: nat, i: nat)

  function Level(n: Node): nat {
    match n
    case Root => 4
    case Pdpt(_, _) => 3 case KernelPdpt(_) => 3
    case Pd(_, _) => 2
    case Pt(_, _) => 1
    case Data(_, _) => 0
  }

  // The role of a frame that entry i of table f points to.
  function Child(n: Node, f: nat, i: nat): Node {
    match n
    case Root => if i < 256 then Pdpt(f, i) else KernelPdpt(i)
    case Pdpt(_, _) => Pd(f, i)
    case KernelPdpt(_) => Pd(f, i)
    case Pd(_, _) => Pt(f, i)
    case Pt(_, _) => Data(f, i)
    case Data(_, _) => n
  }

  lemma ChildLevel(n: Node, g: nat, i: nat)
    requires Level(n) >= 1
    ensures Level(Child(n, g, i)) == Level(n) - 1
  {
  }

  ghost predicate Shape(m: Mem, nodes: map<nat, Node>) {
    && ValidMem(m)
    && (forall f :: f in nodes ==> f < |m.used| && m.used[f])
    && (forall f, i :: f in nodes && 0 <= i < 512 ==> Linked(m.ram, nodes, f, i))
  }

  ghost predicate Linked(ram: Ram, nodes: map<nat, Node>, f: nat, i: nat)
    requires f in nodes && f < FRAMES && i < 512
  {
    var w := ram[f][i];
    IsTable(Level(nodes[f]), w) ==> w.frame in nodes && nodes[w.frame] == Child(nodes[f], f, i)
  }

  ghost predicate IsRoot(nodes: map<nat, Node>, r: nat) { r in nodes && nodes[r].Root? }

  // ---- arch_map_page

  function WriteWord(ram: Ram, f: nat, i: nat, w: Word): Ram
    requires f < FRAMES && i < 512
  {
    ram[f := ram[f][i := w]]
  }

  // One level of arch_map_page: allocate the missing table, or add the user bit.
  function EnsureTable(m: Mem, f: nat, i: nat, user: bool): (r: Option<Mem>)
    requires ValidMem(m) && f < FRAMES && i < 512
    ensures r.Some? ==> ValidMem(r.value)
  {
    if m.ram[f][i].flags.present then
      Some(Memory(WriteWord(m.ram, f, i, OrUser(m.ram[f][i], user)), m.used))
    else
      match Alloc(m)
      case None => None
      case Some(g) => Some(Memory(WriteWord(g.mem.ram, f, i, TableWord(g.frame, user)), g.mem.used))
  }

  // The tables from level k down to level 1, then the entry itself.
  function MapFrom(m: Mem, f: nat, k: nat, p: Path, frame: nat, flags: Flags): (r: Option<Mem>)
    requires ValidMem(m) && f < FRAMES && 1 <= k <= 4 && frame < FRAMES
    ensures r.Some? ==> ValidMem(r.value)
    decreases k
  {
    if k == 1 then Some(Memory(WriteWord(m.ram, f, p.i1, LeafWord(frame, flags)), m.used))
    else
      match EnsureTable(m, f, Index(p, k), flags.user)
      case None => None
      case Some(m') => MapFrom(m', m'.ram[f][Index(p, k)].frame, k - 1, p, frame, flags)
  }

  function MapPage(m: Mem, root: nat, p: Path, frame: nat, flags: Flags): Option<Mem>
    requires ValidMem(m) && root < FRAMES && frame < FRAMES
  {
    MapFrom(m, root, 4, p, frame, flags)
  }

  // walk_page_table from level k: the table and index of the entry, following present bits.
  function Walk(ram: Ram, f: nat, k: nat, p: Path): Option<(nat, nat)>
    requires f < FRAMES && 1 <= k <= 4
    decreases k
  {
    if k == 1 then Some((f, p.i1))
    else if !ram[f][Index(p, k)].flags.present then None
    else Walk(ram, ram[f][Index(p, k)].frame, k - 1, p)
  }

  // Off huge pages the walk finds the entry that the processor would use.
  lemma {:induction false} WalkFindsEntry(ram: Ram, f: nat, k: nat, p: Path)
    requires f < FRAMES && 1 <= k <= 4 && Clear(ram, f, k, p)
    ensures match Walk(ram, f, k, p)
      case None => Lookup(ram, f, k, p).NoPage? && TableOf(ram, f, k, p).None?
      case Some((t, i)) =>
        && t < FRAMES && i == p.i1 && TableOf(ram, f, k, p) == Some(t)
        && Lookup(ram, f, k, p) == if ram[t][i].flags.present then Mapped(1, ram[t][i]) else NoPage
    decreases k
  {
    if k > 1 && ram[f][Index(p, k)].flags.present {
      WalkFindsEntry(ram, ram[f][Index(p, k)].frame, k - 1, p);
    }
  }

  // Under a 2 MiB entry it returns the address of a word of the big page, which is no entry at all.
  lemma {:induction false} WalkUnderHuge(ram: Ram, f: nat, k: nat, p: Path, w: Word)
    requires f < FRAMES && 2 <= k <= 4 && Lookup(ram, f, k, p) == Mapped(2, w)
    ensures Walk(ram, f, k, p) == Some((w.frame, p.i1)) && TableOf(ram, f, k, p).None?
    decreases k
  {
    if k > 2 { WalkUnderHuge(ram, ram[f][Index(p, k)].frame, k - 1, p, w); }
  }

  // ---- one level keeps every translation

  ghost function NodesAfter(m: Mem, nodes: map<nat, Node>, f: nat, i: nat): map<nat, Node>
    requires ValidMem(m) && f in nodes && f < FRAMES && i < 512
  {
    if m.ram[f][i].flags.present || Alloc(m).None? then nodes
    else nodes[Alloc(m).value.frame := Child(nodes[f], f, i)]
  }

  lemma EnsureTableShape(m: Mem, nodes: map<nat, Node>, f: nat, i: nat, user: bool)
    requires Shape(m, nodes) && f in nodes && i < 512 && 2 <= Level(nodes[f])
    requires m.ram[f][i].flags.present ==> IsTable(Level(nodes[f]), m.ram[f][i])
    requires EnsureTable(m, f, i, user).Some?
    ensures Shape(EnsureTable(m, f, i, user).value, NodesAfter(m, nodes, f, i))
    ensures IsTable(Level(nodes[f]), EnsureTable(m, f, i, user).value.ram[f][i])
  {
    var m' := EnsureTable(m, f, i, user).value;
    var nodes' := NodesAfter(m, nodes, f, i);
    forall g, j | g in nodes' && 0 <= j < 512
      ensures Linked(m'.ram, nodes', g, j)
    {
      if g in nodes { assert Linked(m.ram, nodes, g, j); }
    }
  }

  lemma {:induction false} EnsureTableKeeps(m: Mem, nodes: map<nat, Node>, f: nat, i: nat, user: bool, g: nat, k: nat,
                                            q: Path)
    requires Shape(m, nodes) && f in nodes && i < 512 && 2 <= Level(nodes[f])
    requires m.ram[f][i].flags.present ==> IsTable(Level(nodes[f]), m.ram[f][i])
    requires EnsureTable(m, f, i, user).Some?
    requires g in nodes && 1 <= k == Level(nodes[g])
    ensures Lookup(EnsureTable(m, f, i, user).value.ram, g, k, q) == Lookup(m.ram, g, k, q)
    decreases k
  {
    assert Linked(m.ram, nodes, g, Index(q, k));
    var w := m.ram[g][Index(q, k)];
    if IsTable(k, w) { EnsureTableKeeps(m, nodes, f, i, user, w.frame, k - 1, q); }
  }

  lemma LeafWriteShape(m: Mem, nodes: map<nat, Node>, f: nat, i: nat, w: Word)
    requires Shape(m, nodes) && f in nodes && i < 512 && Level(nodes[f]) == 1
    ensures Shape(Memory(WriteWord(m.ram, f, i, w), m.used), nodes)
  {
    forall g, j | g in nodes && 0 <= j < 512
      ensures Linked(WriteWord(m.ram, f, i, w), nodes, g, j)
    {
      assert Linked(m.ram, nodes, g, j);
    }
  }

  // Writing a page-table entry changes the translations that reach that entry, and no other.
  lemma {:induction false} LeafWriteKeeps(m: Mem, nodes: map<nat, Node>, f: nat, i: nat, w: Word, g: nat, k: nat,
                                          q: Path)
    requires Shape(m, nodes) && f in nodes && i < 512 && Level(nodes[f]) == 1
    requires g in nodes && 1 <= k == Level(nodes[g])
    ensures var ram := WriteWord(m.ram, f, i, w);
      && TableOf(ram, g, k, q) == TableOf(m.ram, g, k, q)
      && Lookup(ram, g, k, q) == if TableOf(m.ram, g, k, q) == Some(f) && q.i1 == i
                                 then (if w.flags.present then Mapped(1, w) else NoPage)
                                 else Lookup(m.ram, g, k, q)
    decreases k
  {
    assert Linked(m.ram, nodes, g, Index(q, k));
    var e := m.ram[g][Index(q, k)];
    if IsTable(k, e) { LeafWriteKeeps(m, nodes, f, i, w, e.frame, k - 1, q); }
  }

  // ---- arch_map_page refines a flat map

  ghost function NodesMap(m: Mem, nodes: map<nat, Node>, f: nat, k: nat, p: Path, user: bool): map<nat, Node>
    requires ValidMem(m) && f in nodes && f < FRAMES && 1 <= k <= 4
    decreases k
  {
    if k == 1 || EnsureTable(m, f, Index(p, k), user).None? then nodes
    else
      var m' := EnsureTable(m, f, Index(p, k), user).value;
      var nodes' := NodesAfter(m, nodes, f, Index(p, k));
      var f' := m'.ram[f][Index(p, k)].frame;
      if f' in nodes' then NodesMap(m', nodes', f', k - 1, p, user) else nodes'
  }

  // Roles are only added, and only for frames that were free.
  ghost predicate Grows(m: Mem, nodes: map<nat, Node>, nodes': map<nat, Node>) {
    && (forall g :: g in nodes ==> g in nodes' && nodes'[g] == nodes[g])
    && (forall g :: g in nodes' && g !in nodes ==> Free(m, g))
  }

  // One level frees nothing and writes no frame in use but the table itself.
  lemma EnsureTakes(m: Mem, f: nat, i: nat, user: bool)
    requires ValidMem(m) && f < FRAMES && i < 512 && EnsureTable(m, f, i, user).Some?
    ensures var m' := EnsureTable(m, f, i, user).value;
      && (forall g :: Free(m', g) ==> Free(m, g))
      && (forall g :: 0 <= g < FRAMES && g != f && !Free(m, g) ==> m'.ram[g] == m.ram[g])
  {
  }

  lemma NodesMapStep(m: Mem, nodes: map<nat, Node>, f: nat, k: nat, p: Path, user: bool, m': Mem, f': nat)
    requires ValidMem(m) && f in nodes && f < FRAMES && 2 <= k <= 4 && EnsureTable(m, f, Index(p, k), user) == Some(m')
    requires f' == m'.ram[f][Index(p, k)].frame && f' in NodesAfter(m, nodes, f, Index(p, k))
    ensures NodesMap(m, nodes, f, k, p, user) == NodesMap(m', NodesAfter(m, nodes, f, Index(p, k)), f', k - 1, p, user)
  {
  }

  // What one level of MapFrom hands to the next.
  lemma EnsureStep(m: Mem, nodes: map<nat, Node>, f: nat, k: nat, p: Path, frame: nat, flags: Flags)
    returns (m': Mem, nodes': map<nat, Node>, f': nat)
    requires Shape(m, nodes) && f in nodes && 2 <= k == Level(nodes[f]) && frame < FRAMES
    requires Clear(m.ram, f, k, p) && EnsureTable(m, f, Index(p, k), flags.user).Some?
    ensures EnsureTable(m, f, Index(p, k), flags.user) == Some(m') && nodes' == NodesAfter(m, nodes, f, Index(p, k))
    ensures Shape(m', nodes') && Grows(m, nodes, nodes') && f' in nodes' && Level(nodes'[f']) == k - 1
    ensures MapFrom(m, f, k, p, frame, flags) == MapFrom(m', f', k - 1, p, frame, flags)
    ensures NodesMap(m, nodes, f, k, p, flags.user) == NodesMap(m', nodes', f', k - 1, p, flags.user)
    ensures Clear(m'.ram, f', k - 1, p)
    ensures IsTable(k, m'.ram[f][Index(p, k)]) && m'.ram[f][Index(p, k)].frame == f'
    ensures forall g :: Free(m', g) ==> Free(m, g)
    ensures forall g :: 0 <= g < FRAMES && g != f && !Free(m, g) ==> m'.ram[g] == m.ram[g]
  {
    var i := Index(p, k);
    assert Linked(m.ram, nodes, f, i);
    EnsureTableShape(m, nodes, f, i, flags.user);
    m' := EnsureTable(m, f, i, flags.user).value;
    nodes' := NodesAfter(m, nodes, f, i);
    f' := m'.ram[f][i].frame;
    assert Linked(m'.ram, nodes', f, i);
    ChildLevel(nodes[f], f, i);
    NodesMapStep(m, nodes, f, k, p, flags.user, m', f');
    EnsureTakes(m, f, i, flags.user);
    EnsureTableKeeps(m, nodes, f, i, flags.user, f, k, p);
  }

  lemma {:induction false} MapFromShape(m: Mem, nodes: map<nat, Node>, f: nat, k: nat, p: Path, frame: nat,
                                        flags: Flags)
    requires Shape(m, nodes) && f in nodes && 1 <= k == Level(nodes[f]) && frame < FRAMES
    requires Clear(m.ram, f, k, p) && MapFrom(m, f, k, p, frame, flags).Some?
    ensures Shape(MapFrom(m, f, k, p, frame, flags).value, NodesMap(m, nodes, f, k, p, flags.user))
    ensures Grows(m, nodes, NodesMap(m, nodes, f, k, p, flags.user))
    decreases k
  {
    if k == 1 {
      LeafWriteShape(m, nodes, f, p.i1, LeafWord(frame, flags));
    } else {
      var m', nodes', f' := EnsureStep(m, nodes, f, k, p, frame, flags);
      MapFromShape(m', nodes', f', k - 1, p, frame, flags);
    }
  }

  // Mapping from level k down leaves the tables above, their siblings and data frames alone.
  lemma {:induction false} MapFromUpper(m: Mem, nodes: map<nat, Node>, f: nat, k: nat, p: Path, frame: nat,
                                        flags: Flags, g: nat)
    requires Shape(m, nodes) && f in nodes && 1 <= k == Level(nodes[f]) && frame < FRAMES
    requires Clear(m.ram, f, k, p) && MapFrom(m, f, k, p, frame, flags).Some?
    requires g < FRAMES && !Free(m, g) && g != f && (g in nodes ==> Level(nodes[g]) == 0 || Level(nodes[g]) >= k)
    ensures MapFrom(m, f, k, p, frame, flags).value.ram[g] == m.ram[g]
    decreases k
  {
    if k > 1 {
      var m', nodes', f' := EnsureStep(m, nodes, f, k, p, frame, flags);
      MapFromUpper(m', nodes', f', k - 1, p, frame, flags, g);
    }
  }

  // The page table that the mapping writes to.
  lemma {:induction false} MapFromTable(m: Mem, nodes: map<nat, Node>, f: nat, k: nat, p: Path, frame: nat,
                                        flags: Flags)
    returns (t: nat)
    requires Shape(m, nodes) && f in nodes && 1 <= k == Level(nodes[f]) && frame < FRAMES
    requires Clear(m.ram, f, k, p) && MapFrom(m, f, k, p, frame, flags).Some?
    ensures var m' := MapFrom(m, f, k, p, frame, flags).value;
      TableOf(m'.ram, f, k, p) == Some(t) && t < FRAMES && m'.ram[t][p.i1] == LeafWord(frame, flags)
      && Lookup(m'.ram, f, k, p) == Mapped(1, LeafWord(frame, flags))
    decreases k
  {
    if k == 1 {
      t := f;
    } else {
      var m', nodes', f' := EnsureStep(m, nodes, f, k, p, frame, flags);
      t := MapFromTable(m', nodes', f', k - 1, p, frame, flags);
      MapFromUpper(m', nodes', f', k - 1, p, frame, flags, f);
    }
  }

  // Every other translation is as it was.
  lemma {:induction false} MapFromKeeps(m: Mem, nodes: map<nat, Node>, f: nat, k: nat, p: Path, frame: nat,
                                        flags: Flags,
                                        g: nat, j: nat, q: Path)
    requires Shape(m, nodes) && f in nodes && 1 <= k == Level(nodes[f]) && frame < FRAMES
    requires Clear(m.ram, f, k, p) && MapFrom(m, f, k, p, frame, flags).Some?
    requires g in nodes && 1 <= j == Level(nodes[g])
    ensures var m' := MapFrom(m, f, k, p, frame, flags).value;
      Lookup(m'.ram, g, j, q) ==
      if TableOf(m'.ram, g, j, q) == TableOf(m'.ram, f, k, p) && q.i1 == p.i1 then Mapped(1, LeafWord(frame, flags))
      else Lookup(m.ram, g, j, q)
    decreases k
  {
    if k == 1 {
      LeafWriteKeeps(m, nodes, f, p.i1, LeafWord(frame, flags), g, j, q);
    } else {
      var m', nodes', f' := EnsureStep(m, nodes, f, k, p, frame, flags);
      MapFromKeeps(m', nodes', f', k - 1, p, frame, flags, g, j, q);
      MapFromUpper(m', nodes', f', k - 1, p, frame, flags, f);
      EnsureTableKeeps(m, nodes, f, Index(p, k), flags.user, g, j, q);
    }
  }

  // A page table is reached by one path only, from one PML4 unless it serves the upper half.
  lemma TableIdentifiesPath(m: Mem, nodes: map<nat, Node>, r: nat, p: Path, s: nat, q: Path)
    requires Shape(m, nodes) && IsRoot(nodes, r) && IsRoot(nodes, s)
    requires TableOf(m.ram, r, 4, p).Some? && TableOf(m.ram, r, 4, p) == TableOf(m.ram, s, 4, q)
    ensures p.(i1 := 0) == q.(i1 := 0)
    ensures r == s || (p.i4 >= 256 && m.ram[r][p.i4].frame == m.ram[s][p.i4].frame)
  {
    var f3, f2, f1 := TablePath(m, nodes, r, p);
    var g3, g2, g1 := TablePath(m, nodes, s, q);
  }

  lemma TablePath(m: Mem, nodes: map<nat, Node>, r: nat, p: Path) returns (f3: nat, f2: nat, f1: nat)
    requires Shape(m, nodes) && IsRoot(nodes, r) && TableOf(m.ram, r, 4, p).Some?
    ensures TableOf(m.ram, r, 4, p) == Some(f1) && f3 == m.ram[r][p.i4].frame
    ensures f1 in nodes && nodes[f1] == Pt(f2, p.i2)
    ensures f2 in nodes && nodes[f2] == Pd(f3, p.i3)
    ensures f3 in nodes && nodes[f3] == Child(Root, r, p.i4)
  {
    assert Linked(m.ram, nodes, r, p.i4);
    f3 := m.ram[r][p.i4].frame;
    assert Linked(m.ram, nodes, f3, p.i3);
    f2 := m.ram[f3][p.i3].frame;
    assert Linked(m.ram, nodes, f2, p.i2);
    f1 := m.ram[f2][p.i2].frame;
  }

  // arch_map_page is an update of the flat map from pages to entries.
  lemma MapRefinesFlatMap(m: Mem, nodes: map<nat, Node>, root: nat, p: Path, frame: nat, flags: Flags, q: Path)
    requires Shape(m, nodes) && IsRoot(nodes, root) && frame < FRAMES
    requires Clear(m.ram, root, 4, p) && MapPage(m, root, p, frame, flags).Some?
    ensures var m' := MapPage(m, root, p, frame, flags).value;
      Lookup(m'.ram, root, 4, q) == if q == p then Mapped(1, LeafWord(frame, flags)) else Lookup(m.ram, root, 4, q)
  {
    var _ := MapFromTable(m, nodes, root, 4, p, frame, flags);
    MapFromKeeps(m, nodes, root, 4, p, frame, flags, root, 4, q);
    if q != p { MapOtherTable(m, nodes, root, p, frame, flags, q); }
  }

  // One level gives out exactly the frame of a table it adds.
  lemma EnsureGives(m: Mem, nodes: map<nat, Node>, f: nat, i: nat, user: bool)
    requires Shape(m, nodes) && f in nodes && i < 512 && EnsureTable(m, f, i, user).Some?
    ensures var m', nodes' := EnsureTable(m, f, i, user).value, NodesAfter(m, nodes, f, i);
      |m'.used| == |m.used| && forall x :: Free(m', x) <==> Free(m, x) && x !in nodes'
  {
  }

  // Mapping gives frames out and takes none back.
  lemma {:induction false} MapTakesOnly(m: Mem, nodes: map<nat, Node>, f: nat, k: nat, p: Path, frame: nat,
                                        flags: Flags)
    requires Shape(m, nodes) && f in nodes && 1 <= k == Level(nodes[f]) && frame < FRAMES
    requires Clear(m.ram, f, k, p) && MapFrom(m, f, k, p, frame, flags).Some?
    ensures var m', nodes' := MapFrom(m, f, k, p, frame, flags).value, NodesMap(m, nodes, f, k, p, flags.user);
      |m'.used| == |m.used| && forall x :: Free(m', x) <==> Free(m, x) && x !in nodes'
    decreases k
  {
    if k > 1 {
      var m', nodes', f' := EnsureStep(m, nodes, f, k, p, frame, flags);
      EnsureGives(m, nodes, f, Index(p, k), flags.user);
      MapFromShape(m', nodes', f', k - 1, p, frame, flags);
      MapTakesOnly(m', nodes', f', k - 1, p, frame, flags);
    }
  }

  // All that arch_map_page does, for its callers.
  lemma MapEffects(m: Mem, nodes: map<nat, Node>, root: nat, p: Path, frame: nat, flags: Flags)
    returns (m': Mem, nodes': map<nat, Node>)
    requires Shape(m, nodes) && IsRoot(nodes, root) && frame < FRAMES
    requires Clear(m.ram, root, 4, p) && MapPage(m, root, p, frame, flags).Some?
    ensures MapPage(m, root, p, frame, flags) == Some(m') && nodes' == NodesMap(m, nodes, root, 4, p, flags.user)
    ensures Shape(m', nodes') && Grows(m, nodes, nodes') && |m'.used| == |m.used|
    ensures forall q ::
      Lookup(m'.ram, root, 4, q) == if q == p then Mapped(1, LeafWord(frame, flags)) else Lookup(m.ram, root, 4, q)
    ensures forall f :: 0 <= f < FRAMES && f !in nodes && !Free(m, f) ==> m'.ram[f] == m.ram[f]
    ensures forall x :: Free(m', x) <==> Free(m, x) && x !in nodes'
  {
    m' := MapPage(m, root, p, frame, flags).value;
    nodes' := NodesMap(m, nodes, root, 4, p, flags.user);
    MapFromShape(m, nodes, root, 4, p, frame, flags);
    MapTakesOnly(m, nodes, root, 4, p, frame, flags);
    forall q
      ensures Lookup(m'.ram, root, 4, q) ==
        if q == p then Mapped(1, LeafWord(frame, flags)) else Lookup(m.ram, root, 4, q)
    {
      MapRefinesFlatMap(m, nodes, root, p, frame, flags, q);
    }
    forall f | 0 <= f < FRAMES && f !in nodes && !Free(m, f)
      ensures m'.ram[f] == m.ram[f]
    {
      MapFromUpper(m, nodes, root, 4, p, frame, flags, f);
    }
  }

  // A second address space sees the new page exactly when it holds the table that the page
  // went under, which only the upper half allows; nothing else changes for it.
  lemma MapSeenByOthers(m: Mem, nodes: map<nat, Node>, root: nat, p: Path, frame: nat, flags: Flags, s: nat, q: Path)
    requires Shape(m, nodes) && IsRoot(nodes, root) && IsRoot(nodes, s) && s != root && frame < FRAMES
    requires Clear(m.ram, root, 4, p) && MapPage(m, root, p, frame, flags).Some?
    ensures var m' := MapPage(m, root, p, frame, flags).value;
      && m'.ram[s] == m.ram[s]
      && Lookup(m'.ram, s, 4, q) ==
         if q == p && p.i4 >= 256 && m.ram[s][p.i4].flags.present && m.ram[s][p.i4].frame == m'.ram[root][p.i4].frame
         then Mapped(1, LeafWord(frame, flags)) else Lookup(m.ram, s, 4, q)
  {
    var m' := MapPage(m, root, p, frame, flags).value;
    var nodes' := NodesMap(m, nodes, root, 4, p, flags.user);
    MapFromShape(m, nodes, root, 4, p, frame, flags);
    var t := MapFromTable(m, nodes, root, 4, p, frame, flags);
    MapFromUpper(m, nodes, root, 4, p, frame, flags, s);
    MapFromKeeps(m, nodes, root, 4, p, frame, flags, s, 4, q);
    if TableOf(m'.ram, s, 4, q) == Some(t) {
      TableIdentifiesPath(m', nodes', root, p, s, q);
    }
  }

  // ---- user access

  // A user-mode access succeeds only if every entry on the way has the user bit.
  predicate UserCan(ram: Ram, f: nat, k: nat, p: Path)
    requires f < FRAMES && 1 <= k <= 4
    decreases k
  {
    var w := ram[f][Index(p, k)];
    w.flags.present && w.flags.user && (IsTable(k, w) ==> UserCan(ram, w.frame, k - 1, p))
  }

  // No table withholds the user bit from page q.
  predicate UserClosed(ram: Ram, root: nat, q: Path)
    requires root < FRAMES
  {
    UserLeaf(Lookup(ram, root, 4, q)) ==> UserCan(ram, root, 4, q)
  }

  predicate UserLeaf(l: Leaf) { l.Mapped? && l.word.flags.user }

  lemma {:induction false} EnsureTableUser(m: Mem, nodes: map<nat, Node>, f: nat, i: nat, user: bool, g: nat, k: nat,
                                           q: Path)
    requires Shape(m, nodes) && f in nodes && i < 512 && 2 <= Level(nodes[f])
    requires EnsureTable(m, f, i, user).Some?
    requires g in nodes && 1 <= k == Level(nodes[g]) && UserCan(m.ram, g, k, q)
    ensures UserCan(EnsureTable(m, f, i, user).value.ram, g, k, q)
    decreases k
  {
    assert Linked(m.ram, nodes, g, Index(q, k));
    var w := m.ram[g][Index(q, k)];
    if IsTable(k, w) { EnsureTableUser(m, nodes, f, i, user, w.frame, k - 1, q); }
  }

  lemma {:induction false} LeafWriteUser(m: Mem, nodes: map<nat, Node>, f: nat, i: nat, w: Word, g: nat, k: nat,
                                         q: Path)
    requires Shape(m, nodes) && f in nodes && i < 512 && Level(nodes[f]) == 1
    requires g in nodes && 1 <= k == Level(nodes[g]) && UserCan(m.ram, g, k, q)
    requires TableOf(m.ram, g, k, q) == Some(f) && q.i1 == i ==> w.flags.present && w.flags.user
    ensures UserCan(WriteWord(m.ram, f, i, w), g, k, q)
    decreases k
  {
    assert Linked(m.ram, nodes, g, Index(q, k));
    var e := m.ram[g][Index(q, k)];
    if IsTable(k, e) { LeafWriteUser(m, nodes, f, i, w, e.frame, k - 1, q); }
  }

  // Mapping never takes user access away from another page.
  lemma {:induction false} MapFromUser(m: Mem, nodes: map<nat, Node>, f: nat, k: nat, p: Path, frame: nat, flags: Flags,
                                       g: nat, j: nat, q: Path)
    requires Shape(m, nodes) && f in nodes && 1 <= k == Level(nodes[f]) && frame < FRAMES
    requires Clear(m.ram, f, k, p) && MapFrom(m, f, k, p, frame, flags).Some?
    requires g in nodes && 1 <= j == Level(nodes[g]) && UserCan(m.ram, g, j, q)
    requires var m' := MapFrom(m, f, k, p, frame, flags).value;
      TableOf(m'.ram, g, j, q) != TableOf(m'.ram, f, k, p) || q.i1 != p.i1
    ensures UserCan(MapFrom(m, f, k, p, frame, flags).value.ram, g, j, q)
    decreases k
  {
    if k == 1 {
      LeafWriteKeeps(m, nodes, f, p.i1, LeafWord(frame, flags), g, j, q);
      LeafWriteUser(m, nodes, f, p.i1, LeafWord(frame, flags), g, j, q);
    } else {
      var m', nodes', f' := EnsureStep(m, nodes, f, k, p, frame, flags);
      EnsureTableUser(m, nodes, f, Index(p, k), flags.user, g, j, q);
      MapFromUpper(m', nodes', f', k - 1, p, frame, flags, f);
      MapFromUser(m', nodes', f', k - 1, p, frame, flags, g, j, q);
    }
  }

  // The user bit is set at all four levels of a page mapped with it.
  lemma {:induction false} MapGivesUser(m: Mem, nodes: map<nat, Node>, f: nat, k: nat, p: Path, frame: nat,
                                        flags: Flags)
    requires Shape(m, nodes) && f in nodes && 1 <= k == Level(nodes[f]) && frame < FRAMES && flags.user
    requires Clear(m.ram, f, k, p) && MapFrom(m, f, k, p, frame, flags).Some?
    ensures UserCan(MapFrom(m, f, k, p, frame, flags).value.ram, f, k, p)
    decreases k
  {
    if k > 1 {
      var m', nodes', f' := EnsureStep(m, nodes, f, k, p, frame, flags);
      MapFromUpper(m', nodes', f', k - 1, p, frame, flags, f);
      MapGivesUser(m', nodes', f', k - 1, p, frame, flags);
    }
  }

  // User access after arch_map_page: the new page has what its flags ask for, and every other page
  // from which no table withholds the user bit has what it had.
  lemma MapUserAccess(m: Mem, nodes: map<nat, Node>, root: nat, p: Path, frame: nat, flags: Flags, q: Path)
    requires Shape(m, nodes) && IsRoot(nodes, root) && frame < FRAMES && UserClosed(m.ram, root, q)
    requires Clear(m.ram, root, 4, p) && MapPage(m, root, p, frame, flags).Some?
    ensures var m' := MapPage(m, root, p, frame, flags).value;
      && UserClosed(m'.ram, root, q)
      && UserCan(m'.ram, root, 4, q) == if q == p then flags.user else UserCan(m.ram, root, 4, q)
  {
    var m' := MapPage(m, root, p, frame, flags).value;
    MapRefinesFlatMap(m, nodes, root, p, frame, flags, q);
    UserCanIsLeaf(m'.ram, root, 4, q);
    if q == p {
      if flags.user { MapGivesUser(m, nodes, root, 4, p, frame, flags); }
    } else if UserCan(m.ram, root, 4, q) {
      MapOtherTable(m, nodes, root, p, frame, flags, q);
      MapFromUser(m, nodes, root, 4, p, frame, flags, root, 4, q);
    }
  }

  lemma MapOtherTable(m: Mem, nodes: map<nat, Node>, root: nat, p: Path, frame: nat, flags: Flags, q: Path)
    requires Shape(m, nodes) && IsRoot(nodes, root) && frame < FRAMES && p != q
    requires Clear(m.ram, root, 4, p) && MapPage(m, root, p, frame, flags).Some?
    ensures var m' := MapPage(m, root, p, frame, flags).value;
      TableOf(m'.ram, root, 4, q) != TableOf(m'.ram, root, 4, p) || q.i1 != p.i1
  {
    var m' := MapPage(m, root, p, frame, flags).value;
    MapFromShape(m, nodes, root, 4, p, frame, flags);
    var t := MapFromTable(m, nodes, root, 4, p, frame, flags);
    if TableOf(m'.ram, root, 4, q) == Some(t) {
      TableIdentifiesPath(m', NodesMap(m, nodes, root, 4, p, flags.user), root, p, root, q);
    }
  }

  // Changes outside the tables do not matter to user access.
  lemma {:induction false} UserSame(m: Mem, nodes: map<nat, Node>, ram: Ram, f: nat, k: nat, q: Path)
    requires Shape(m, nodes) && f in nodes && 1 <= k == Level(nodes[f])
    requires forall x :: x in nodes && !nodes[x].Data? ==> ram[x] == m.ram[x]
    ensures UserCan(ram, f, k, q) == UserCan(m.ram, f, k, q)
    decreases k
  {
    assert Linked(m.ram, nodes, f, Index(q, k));
    var w := m.ram[f][Index(q, k)];
    if IsTable(k, w) { UserSame(m, nodes, ram, w.frame, k - 1, q); }
  }

  lemma {:induction false} UserCanIsLeaf(ram: Ram, f: nat, k: nat, q: Path)
    requires f < FRAMES && 1 <= k <= 4
    ensures UserCan(ram, f, k, q) ==> UserLeaf(Lookup(ram, f, k, q))
    decreases k
  {
    var w := ram[f][Index(q, k)];
    if IsTable(k, w) { UserCanIsLeaf(ram, w.frame, k - 1, q); }
  }

  // ---- when the kernel halts

  // Tables that a mapping has to add.
  function Missing(ram: Ram, f: nat, k: nat, p: Path): nat
    requires f < FRAMES && 1 <= k <= 4
    decreases k
  {
    if k == 1 then 0
    else if !ram[f][Index(p, k)].flags.present then k - 1
    else Missing(ram, ram[f][Index(p, k)].frame, k - 1, p)
  }

  // arch_map_page halts exactly when fewer frames are free than tables are missing.
  lemma {:induction false} MapHaltsWhenShort(m: Mem, nodes: map<nat, Node>, f: nat, k: nat, p: Path, frame: nat,
                                             flags: Flags)
    requires Shape(m, nodes) && f in nodes && 1 <= k == Level(nodes[f]) && frame < FRAMES && Clear(m.ram, f, k, p)
    ensures MapFrom(m, f, k, p, frame, flags).None? <==> CountFree(m.used) < Missing(m.ram, f, k, p)
    decreases k
  {
    if k > 1 {
      if EnsureTable(m, f, Index(p, k), flags.user).None? {
        EnsureHalts(m, f, Index(p, k), flags.user);
      } else {
        var m', nodes', f' := EnsureStep(m, nodes, f, k, p, frame, flags);
        MapHaltsWhenShort(m', nodes', f', k - 1, p, frame, flags);
        MissingStep(m, nodes, f, k, p, frame, flags);
      }
    }
  }

  lemma EnsureHalts(m: Mem, f: nat, i: nat, user: bool)
    requires ValidMem(m) && f < FRAMES && i < 512 && EnsureTable(m, f, i, user).None?
    ensures CountFree(m.used) == 0 && !m.ram[f][i].flags.present
  {
    CountFreeZero(m.used);
    assert forall j :: 0 <= j < |m.used| ==> !Free(m, j);
  }

  lemma MissingStep(m: Mem, nodes: map<nat, Node>, f: nat, k: nat, p: Path, frame: nat, flags: Flags)
    requires Shape(m, nodes) && f in nodes && 2 <= k == Level(nodes[f]) && frame < FRAMES && Clear(m.ram, f, k, p)
    requires EnsureTable(m, f, Index(p, k), flags.user).Some?
    ensures var m' := EnsureTable(m, f, Index(p, k), flags.user).value;
      CountFree(m'.used) - Missing(m'.ram, m'.ram[f][Index(p, k)].frame, k - 1, p) ==
        CountFree(m.used) - Missing(m.ram, f, k, p)
  {
    var i := Index(p, k);
    var m' := EnsureTable(m, f, i, flags.user).value;
    var f' := m'.ram[f][i].frame;
    assert Linked(m.ram, nodes, f, i);
    if m.ram[f][i].flags.present {
      MissingSame(m, nodes, f, m', f', k - 1, p);
    } else {
      CountFreeUpdate(m.used, f', true);
      MissingEmpty(m'.ram, f', k - 1, p);
    }
  }

  lemma MissingEmpty(ram: Ram, f: nat, k: nat, p: Path)
    requires f < FRAMES && 1 <= k <= 4 && ram[f] == ZeroPage()
    ensures Missing(ram, f, k, p) == k - 1
  {
  }

  lemma {:induction false} MissingSame(m: Mem, nodes: map<nat, Node>, f: nat, m': Mem, g: nat, k: nat, p: Path)
    requires Shape(m, nodes) && f in nodes && g in nodes && 1 <= k == Level(nodes[g]) < Level(nodes[f])
    requires forall x :: x in nodes && x != f ==> m'.ram[x] == m.ram[x]
    requires Clear(m.ram, g, k, p)
    ensures Missing(m'.ram, g, k, p) == Missing(m.ram, g, k, p)
    decreases k
  {
    assert Linked(m.ram, nodes, g, Index(p, k));
    var w := m.ram[g][Index(p, k)];
    if k > 1 && w.flags.present { MissingSame(m, nodes, f, m', w.frame, k - 1, p); }
  }

  // ---- a 2 MiB entry on the way

  // arch_map_page tests only the present bit, so it takes a 2 MiB page for a page table: the
  // translation stays as it was and a word of the page's first frame is overwritten.
  lemma {:induction false} MapUnderHuge(m: Mem, nodes: map<nat, Node>, f: nat, k: nat, p: Path, frame: nat,
                                        flags: Flags, w: Word)
    requires Shape(m, nodes) && f in nodes && 2 <= k == Level(nodes[f]) && frame < FRAMES
    requires Lookup(m.ram, f, k, p) == Mapped(2, w) && w.frame !in nodes
    ensures MapFrom(m, f, k, p, frame, flags).Some?
    ensures var m' := MapFrom(m, f, k, p, frame, flags).value;
      && Lookup(m'.ram, f, k, p) == Mapped(2, OrUser(w, flags.user))
      && m'.ram[w.frame][p.i1] == LeafWord(frame, flags)
      && forall x :: x in nodes && x != f && Level(nodes[x]) >= k ==> m'.ram[x] == m.ram[x]
    decreases k
  {
    var i := Index(p, k);
    assert Linked(m.ram, nodes, f, i);
    if k == 2 {
      assert MapFrom(m, f, 2, p, frame, flags) ==
             MapFrom(EnsureTable(m, f, i, flags.user).value, w.frame, 1, p, frame, flags);
    } else {
      EnsureTableShape(m, nodes, f, i, flags.user);
      EnsureTableKeeps(m, nodes, f, i, flags.user, f, k, p);
      var m' := EnsureTable(m, f, i, flags.user).value;
      MapUnderHuge(m', nodes, m'.ram[f][i].frame, k - 1, p, frame, flags, w);
    }
  }

  // So the mapping takes effect exactly when no 2 MiB entry covers the page.
  lemma MapTakesEffectIff(m: Mem, nodes: map<nat, Node>, root: nat, p: Path, frame: nat, flags: Flags)
    requires Shape(m, nodes) && IsRoot(nodes, root) && frame < FRAMES && MapPage(m, root, p, frame, flags).Some?
    requires var l := Lookup(m.ram, root, 4, p); l.Mapped? ==> l.level == 1 || (l.level == 2 && l.word.frame !in nodes)
    ensures var m' := MapPage(m, root, p, frame, flags).value;
      Lookup(m'.ram, root, 4, p) == Mapped(1, LeafWord(frame, flags)) <==> Clear(m.ram, root, 4, p)
  {
    if Clear(m.ram, root, 4, p) {
      MapRefinesFlatMap(m, nodes, root, p, frame, flags, p);
    } else {
      MapUnderHuge(m, nodes, root, 4, p, frame, flags, Lookup(m.ram, root, 4, p).word);
    }
  }
}
