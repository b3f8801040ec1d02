/** What the paging code leaves alone.

`Undisturbed` compares two states of memory: nothing that was mapped has moved, except at paths
that were open to change, and every frame that was in use and held no table has its contents.
`SoleEntry` says that one page-table entry at most refers to a frame, so that clearing that entry
and freeing the frame leaves no entry dangling. */
module Outside {
  import opened Pgtable
  import opened Wrappers
  import opened FrameAlloc
  import opened Paging
  import opened CloneSpace

  ghost predicate Undisturbed(m0: Mem, nodes0: map<nat, Node>, m: Mem, nodes: map<nat, Node>, open: iset<Path>) {
    && Shape(m0, nodes0) && Shape(m, nodes) && Grows(m0, nodes0, nodes)
    && (forall r, q :: IsRoot(nodes0, r) && q !in open ==> Lookup(m.ram, r, 4, q) == Lookup(m0.ram, r, 4, q))
    && (forall x :: 0 <= x < FRAMES && x !in nodes0 && !Free(m0, x) ==> m.ram[x] == m0.ram[x])
  }

  ghost predicate OnlyTaken(m0: Mem, m: Mem) { forall x :: Free(m, x) ==> Free(m0, x) }

  // A store to a frame that was free at the start.
  lemma UndisturbedStore(m0: Mem, nodes0: map<nat, Node>, m: Mem, nodes: map<nat, Node>, open: iset<Path>, x: nat,
                         m': Mem)
    requires Undisturbed(m0, nodes0, m, nodes, open) && x < FRAMES && x !in nodes && Free(m0, x)
    requires Shape(m', nodes) && forall y :: 0 <= y < FRAMES && y != x ==> m'.ram[y] == m.ram[y]
    ensures Undisturbed(m0, nodes0, m', nodes, open)
  {
    forall r, q | IsRoot(nodes0, r) && q !in open
      ensures Lookup(m'.ram, r, 4, q) == Lookup(m0.ram, r, 4, q)
    {
      LookupSame(m.ram, m'.ram, m, nodes, r, 4, q);
    }
  }

  // Taking a frame.
  lemma TakeShape(m: Mem, nodes: map<nat, Node>)
    requires Shape(m, nodes) && Alloc(m).Some?
    ensures Shape(Alloc(m).value.mem, nodes) && Alloc(m).value.frame !in nodes
  {
    var g := Alloc(m).value;
    forall f, i | f in nodes && 0 <= i < 512
      ensures Linked(g.mem.ram, nodes, f, i)
    {
      assert Linked(m.ram, nodes, f, i);
    }
  }

  lemma UndisturbedTake(m0: Mem, nodes0: map<nat, Node>, m: Mem, nodes: map<nat, Node>, open: iset<Path>)
    requires Undisturbed(m0, nodes0, m, nodes, open) && OnlyTaken(m0, m) && Alloc(m).Some?
    ensures Undisturbed(m0, nodes0, Alloc(m).value.mem, nodes, open) && OnlyTaken(m0, Alloc(m).value.mem)
  {
    var g := Alloc(m).value;
    TakeShape(m, nodes);
    UndisturbedStore(m0, nodes0, m, nodes, open, g.frame, g.mem);
  }

  // create_new_address_space.
  lemma UndisturbedCreate(m: Mem, nodes: map<nat, Node>, cur: nat, m': Mem, root: nat)
    requires Shape(m, nodes) && IsRoot(nodes, cur) && CreateSpace(m, cur) == Some(Grant(m', root))
    ensures Undisturbed(m, nodes, m', nodes[root := Root], iset{}) && OnlyTaken(m, m') && root !in nodes
  {
    CreateSpaceLookup(m, nodes, cur);
  }

  // arch_map_page under a space made since the start, or at an open path.
  lemma UndisturbedMap(m0: Mem, nodes0: map<nat, Node>, m: Mem, nodes: map<nat, Node>, open: iset<Path>,
                       root: nat, p: Path, frame: nat, flags: Flags, m': Mem, nodes': map<nat, Node>)
    requires Undisturbed(m0, nodes0, m, nodes, open) && OnlyTaken(m0, m)
    requires IsRoot(nodes, root) && frame < FRAMES && Clear(m.ram, root, 4, p)
    requires p in open || (root !in nodes0 && p.i4 < 256)
    requires MapPage(m, root, p, frame, flags) == Some(m') && nodes' == NodesMap(m, nodes, root, 4, p, flags.user)
    ensures Undisturbed(m0, nodes0, m', nodes', open) && OnlyTaken(m0, m')
  {
    var m1, nodes1 := MapEffects(m, nodes, root, p, frame, flags);
    forall r, q | IsRoot(nodes0, r) && q !in open
      ensures Lookup(m'.ram, r, 4, q) == Lookup(m0.ram, r, 4, q)
    {
      if r != root { MapSeenByOthers(m, nodes, root, p, frame, flags, r, q); }
    }
  }

  // Clearing the page-table entry of an open path.
  lemma UndisturbedClear(m0: Mem, nodes0: map<nat, Node>, m: Mem, nodes: map<nat, Node>, open: iset<Path>,
                         root: nat, p: Path, t: nat, m': Mem)
    requires Undisturbed(m0, nodes0, m, nodes, open)
    requires IsRoot(nodes, root) && p in open && t < FRAMES && TableOf(m.ram, root, 4, p) == Some(t)
    requires Shape(m', nodes) && m'.ram == WriteWord(m.ram, t, p.i1, ZERO)
    ensures Undisturbed(m0, nodes0, m', nodes, open)
  {
    var f3, f2, f1 := TablePath(m, nodes, root, p);
    forall r, q | IsRoot(nodes0, r) && q !in open
      ensures Lookup(m'.ram, r, 4, q) == Lookup(m0.ram, r, 4, q)
    {
      LeafWriteKeeps(m, nodes, t, p.i1, ZERO, r, 4, q);
      if TableOf(m.ram, r, 4, q) == Some(t) { TableIdentifiesPath(m, nodes, root, p, r, q); }
    }
  }

  // ---- one entry per frame

  // Entry j of the page table f refers to frame x.
  ghost predicate Refers(m: Mem, nodes: map<nat, Node>, f: nat, j: nat, x: nat)
    requires Shape(m, nodes)
  {
    f in nodes && nodes[f].Pt? && j < 512 && m.ram[f][j].flags.present && m.ram[f][j].frame == x
  }

  ghost predicate SoleEntry(m: Mem, nodes: map<nat, Node>, x: nat)
    requires Shape(m, nodes)
  {
    forall f, j, f', j' :: Refers(m, nodes, f, j, x) && Refers(m, nodes, f', j', x) ==> f == f' && j == j'
  }

  lemma EnsureEntries(m: Mem, nodes: map<nat, Node>, f: nat, i: nat, user: bool, g: nat, j: nat)
    requires Shape(m, nodes) && f in nodes && i < 512 && 2 <= Level(nodes[f]) && EnsureTable(m, f, i, user).Some?
    requires var nodes' := NodesAfter(m, nodes, f, i); g in nodes' && g < FRAMES && nodes'[g].Pt? && j < 512
    requires EnsureTable(m, f, i, user).value.ram[g][j].flags.present
    ensures g in nodes && nodes[g].Pt? && EnsureTable(m, f, i, user).value.ram[g][j] == m.ram[g][j]
  {
  }

  // After a mapping, a page-table entry is the new one at slot (t, p.i1) or was there before.
  lemma {:induction false} MapEntries(m: Mem, nodes: map<nat, Node>, f: nat, k: nat, p: Path, frame: nat, flags: Flags)
    returns (t: nat)
    requires Shape(m, nodes) && f in nodes && 1 <= k == Level(nodes[f]) && frame < FRAMES
    requires Clear(m.ram, f, k, p) && MapFrom(m, f, k, p, frame, flags).Some?
    ensures var m', nodes' := MapFrom(m, f, k, p, frame, flags).value, NodesMap(m, nodes, f, k, p, flags.user);
      && Shape(m', nodes')
      && forall g: nat, j: nat :: EntryKept(m, nodes, m', nodes', t, p.i1, LeafWord(frame, flags), g, j)
    decreases k
  {
    var m', nodes' := MapFrom(m, f, k, p, frame, flags).value, NodesMap(m, nodes, f, k, p, flags.user);
    MapFromShape(m, nodes, f, k, p, frame, flags);
    if k == 1 {
      t := f;
    } else {
      var m1, nodes1, f1 := EnsureStep(m, nodes, f, k, p, frame, flags);
      t := MapEntries(m1, nodes1, f1, k - 1, p, frame, flags);
      forall g: nat, j: nat
        ensures EntryKept(m, nodes, m', nodes', t, p.i1, LeafWord(frame, flags), g, j)
      {
        EntryStep(m, nodes, f, Index(p, k), flags.user, m1, nodes1, m', nodes', t, p.i1, LeafWord(frame, flags), g, j);
      }
    }
  }

  lemma EntryStep(m: Mem, nodes: map<nat, Node>, f: nat, i: nat, user: bool, m1: Mem, nodes1: map<nat, Node>,
                  m': Mem, nodes': map<nat, Node>, t: nat, at: nat, w: Word, g: nat, j: nat)
    requires Shape(m, nodes) && f in nodes && i < 512 && 2 <= Level(nodes[f])
    requires EnsureTable(m, f, i, user) == Some(m1) && nodes1 == NodesAfter(m, nodes, f, i)
    requires Shape(m1, nodes1) && Shape(m', nodes') && EntryKept(m1, nodes1, m', nodes', t, at, w, g, j)
    ensures EntryKept(m, nodes, m', nodes', t, at, w, g, j)
  {
    if g in nodes1 && nodes1[g].Pt? && j < 512 && m1.ram[g][j].flags.present {
      EnsureEntries(m, nodes, f, i, user, g, j);
    }
  }

  ghost predicate EntryKept(m: Mem, nodes: map<nat, Node>, m': Mem, nodes': map<nat, Node>, t: nat, i: nat, w: Word,
                            g: nat, j: nat)
    requires Shape(m, nodes) && Shape(m', nodes')
  {
    g in nodes' && nodes'[g].Pt? && j < 512 && m'.ram[g][j].flags.present ==>
      (g == t && j == i && m'.ram[g][j] == w) || (g in nodes && nodes[g].Pt? && m'.ram[g][j] == m.ram[g][j])
  }

  lemma MapNoDangling(m: Mem, nodes: map<nat, Node>, root: nat, p: Path, frame: nat, flags: Flags, m': Mem,
                      nodes': map<nat, Node>)
    requires Shape(m, nodes) && NoDangling(m, nodes) && IsRoot(nodes, root) && frame < FRAMES && !Free(m, frame)
    requires Clear(m.ram, root, 4, p) && MapPage(m, root, p, frame, flags) == Some(m')
    requires nodes' == NodesMap(m, nodes, root, 4, p, flags.user)
    ensures Shape(m', nodes') && NoDangling(m', nodes')
  {
    var t := MapEntries(m, nodes, root, 4, p, frame, flags);
    MapTakesOnly(m, nodes, root, 4, p, frame, flags);
    forall f, j | f in nodes' && nodes'[f].Pt? && 0 <= j < 512 && m'.ram[f][j].flags.present
      ensures !Free(m', m'.ram[f][j].frame)
    {
      assert EntryKept(m, nodes, m', nodes', t, p.i1, LeafWord(frame, flags), f, j);
    }
  }

  // Mapping keeps the entries of other frames sole, and makes one for a frame that had none.
  lemma MapSoleEntry(m: Mem, nodes: map<nat, Node>, root: nat, p: Path, frame: nat, flags: Flags, m': Mem,
                     nodes': map<nat, Node>, x: nat)
    requires Shape(m, nodes) && IsRoot(nodes, root) && frame < FRAMES
    requires if x == frame then forall f, j :: !Refers(m, nodes, f, j, x) else SoleEntry(m, nodes, x)
    requires Clear(m.ram, root, 4, p) && MapPage(m, root, p, frame, flags) == Some(m')
    requires nodes' == NodesMap(m, nodes, root, 4, p, flags.user)
    ensures Shape(m', nodes') && SoleEntry(m', nodes', x)
  {
    var t := MapEntries(m, nodes, root, 4, p, frame, flags);
    var w := LeafWord(frame, flags);
    forall f, j, f', j' | Refers(m', nodes', f, j, x) && Refers(m', nodes', f', j', x)
      ensures f == f' && j == j'
    {
      assert EntryKept(m, nodes, m', nodes', t, p.i1, w, f, j) && EntryKept(m, nodes, m', nodes', t, p.i1, w, f', j');
      if x == frame {
        assert !Refers(m, nodes, f, j, x) && !Refers(m, nodes, f', j', x);
      } else {
        assert Refers(m, nodes, f, j, x) && Refers(m, nodes, f', j', x);
      }
    }
  }

  // A free frame is referred to by no entry, and taking it changes no table.
  lemma TakeNoDangling(m: Mem, nodes: map<nat, Node>)
    requires Shape(m, nodes) && NoDangling(m, nodes) && Alloc(m).Some?
    ensures var g := Alloc(m).value;
      && Shape(g.mem, nodes) && NoDangling(g.mem, nodes)
      && forall f, j :: !Refers(g.mem, nodes, f, j, g.frame)
  {
    TakeShape(m, nodes);
  }

  lemma CreateNoDangling(m: Mem, nodes: map<nat, Node>, cur: nat, m': Mem, root: nat)
    requires Shape(m, nodes) && NoDangling(m, nodes) && IsRoot(nodes, cur)
    requires CreateSpace(m, cur) == Some(Grant(m', root))
    ensures Shape(m', nodes[root := Root]) && NoDangling(m', nodes[root := Root])
  {
    CreateSpaceLookup(m, nodes, cur);
  }

  lemma TakeSoleEntry(m: Mem, nodes: map<nat, Node>, x: nat)
    requires Shape(m, nodes) && SoleEntry(m, nodes, x) && Alloc(m).Some?
    ensures Shape(Alloc(m).value.mem, nodes) && SoleEntry(Alloc(m).value.mem, nodes, x)
  {
    var g := Alloc(m).value;
    TakeShape(m, nodes);
    forall f, j, f', j' | Refers(g.mem, nodes, f, j, x) && Refers(g.mem, nodes, f', j', x)
      ensures f == f' && j == j'
    {
      assert Refers(m, nodes, f, j, x) && Refers(m, nodes, f', j', x);
    }
  }

  // Clearing the one entry of a frame and freeing the frame leaves nothing dangling.
  lemma ClearNoDangling(m: Mem, nodes: map<nat, Node>, t: nat, i: nat, x: nat, m': Mem)
    requires Shape(m, nodes) && NoDangling(m, nodes) && SoleEntry(m, nodes, x) && Refers(m, nodes, t, i, x)
    requires x < |m.used|
    requires Shape(m', nodes) && m'.ram == WriteWord(m.ram, t, i, ZERO) && m'.used == m.used[x := false]
    ensures NoDangling(m', nodes)
  {
    forall f, j | f in nodes && nodes[f].Pt? && 0 <= j < 512 && m'.ram[f][j].flags.present
      ensures !Free(m', m'.ram[f][j].frame)
    {
      assert m'.ram[f][j] == m.ram[f][j];
      assert Refers(m, nodes, f, j, x) ==> f == t && j == i;
    }
  }

  lemma ClearSoleEntry(m: Mem, nodes: map<nat, Node>, t: nat, i: nat, m': Mem, x: nat)
    requires Shape(m, nodes) && SoleEntry(m, nodes, x) && t < FRAMES && i < 512
    requires Shape(m', nodes) && m'.ram == WriteWord(m.ram, t, i, ZERO)
    ensures SoleEntry(m', nodes, x)
  {
    forall f, j, f', j' | Refers(m', nodes, f, j, x) && Refers(m', nodes, f', j', x)
      ensures f == f' && j == j'
    {
      assert Refers(m, nodes, f, j, x) && Refers(m, nodes, f', j', x);
    }
  }
}
