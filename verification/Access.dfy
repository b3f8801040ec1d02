/** What the processor lets an access do: an access to a page needs its right at every level.

User access, which arch_map_page may add to tables that exist, is in the module Paging. */
module Access {
  import opened Pgtable
  import opened FrameAlloc
  import opened Paging

  datatype Right = ToWrite | ToFetch

  // The writable bit, or the absence of the no-execute bit (bit 63).
  predicate Grants(w: Word, r: Right) {
    match r
    case ToWrite => w.flags.writable
    case ToFetch => w.flags.rest & 0x8_0000 == 0
  }

  // An access succeeds only if every entry on the way grants it.
  predicate Can(r: Right, ram: Ram, f: nat, k: nat, p: Path)
    requires f < FRAMES && 1 <= k <= 4
    decreases k
  {
    var w := ram[f][Index(p, k)];
    w.flags.present && Grants(w, r) && (IsTable(k, w) ==> Can(r, ram, w.frame, k - 1, p))
  }

  // No table on the way withholds the right.
  predicate Open(r: Right, ram: Ram, f: nat, k: nat, p: Path)
    requires f < FRAMES && 1 <= k <= 4
    decreases k
  {
    var w := ram[f][Index(p, k)];
    IsTable(k, w) ==> Grants(w, r) && Open(r, ram, w.frame, k - 1, p)
  }

  predicate LeafGrants(l: Leaf, r: Right) { l.Mapped? && Grants(l.word, r) }

  // An access succeeds exactly when the page is mapped with the right and no table withholds it.
  lemma {:induction false} CanIff(r: Right, ram: Ram, f: nat, k: nat, p: Path)
    requires f < FRAMES && 1 <= k <= 4
    ensures Can(r, ram, f, k, p) <==> LeafGrants(Lookup(ram, f, k, p), r) && Open(r, ram, f, k, p)
    decreases k
  {
    var w := ram[f][Index(p, k)];
    if IsTable(k, w) { CanIff(r, ram, w.frame, k - 1, p); }
  }

  // ---- mapping

  lemma TableGrants(r: Right, frame: nat, user: bool)
    requires frame < FRAMES
    ensures Grants(TableWord(frame, user), r)
  {
  }

  // A table that is added is empty and withholds nothing; one that exists keeps its bits.
  lemma {:induction false} EnsureOpen(r: Right, m: Mem, nodes: map<nat, Node>, f: nat, i: nat, user: bool,
                                      g: nat, k: nat, q: Path)
    requires Shape(m, nodes) && f in nodes && i < 512 && 2 <= Level(nodes[f])
    requires m.ram[f][i].flags.present ==> IsTable(Level(nodes[f]), m.ram[f][i])
    requires EnsureTable(m, f, i, user).Some? && g in nodes && 1 <= k == Level(nodes[g])
    ensures Open(r, EnsureTable(m, f, i, user).value.ram, g, k, q) == Open(r, m.ram, g, k, q)
    decreases k
  {
    assert Linked(m.ram, nodes, g, Index(q, k));
    var w := m.ram[g][Index(q, k)];
    if IsTable(k, w) {
      EnsureOpen(r, m, nodes, f, i, user, w.frame, k - 1, q);
    } else if g == f && Index(q, k) == i {
      var t := Alloc(m).value.frame;
      TableGrants(r, t, user);
      assert Open(r, EnsureTable(m, f, i, user).value.ram, t, k - 1, q);
    }
  }

  lemma {:induction false} LeafWriteOpen(r: Right, m: Mem, nodes: map<nat, Node>, f: nat, i: nat, w: Word,
                                         g: nat, k: nat, q: Path)
    requires Shape(m, nodes) && f in nodes && i < 512 && Level(nodes[f]) == 1
    requires g in nodes && 1 <= k == Level(nodes[g])
    ensures Open(r, WriteWord(m.ram, f, i, w), g, k, q) == Open(r, m.ram, g, k, q)
    decreases k
  {
    assert Linked(m.ram, nodes, g, Index(q, k));
    var e := m.ram[g][Index(q, k)];
    if IsTable(k, e) { LeafWriteOpen(r, m, nodes, f, i, w, e.frame, k - 1, q); }
  }

  // Mapping a page withholds nothing from any page.
  lemma {:induction false} MapOpen(r: Right, m: Mem, nodes: map<nat, Node>, f: nat, k: nat, p: Path, frame: nat,
                                   flags: Flags, g: nat, j: nat, q: Path)
    requires Shape(m, nodes) && f in nodes && 1 <= k == Level(nodes[f]) && frame < FRAMES
    requires Clear(m.ram, f, k, p) && MapFrom(m, f, k, p, frame, flags).Some?
    requires g in nodes && 1 <= j == Level(nodes[g])
    ensures Open(r, MapFrom(m, f, k, p, frame, flags).value.ram, g, j, q) == Open(r, m.ram, g, j, q)
    decreases k
  {
    if k == 1 {
      LeafWriteOpen(r, m, nodes, f, p.i1, LeafWord(frame, flags), g, j, q);
    } else {
      var m', nodes', f' := EnsureStep(m, nodes, f, k, p, frame, flags);
      EnsureOpen(r, m, nodes, f, Index(p, k), flags.user, g, j, q);
      MapOpen(r, m', nodes', f', k - 1, p, frame, flags, g, j, q);
    }
  }

  // After arch_map_page the page can be accessed exactly when its flags grant it and no table that
  // was there withholds it, and every other page exactly when it could before.
  lemma MapAccess(r: Right, m: Mem, nodes: map<nat, Node>, root: nat, p: Path, frame: nat, flags: Flags, q: Path)
    requires Shape(m, nodes) && IsRoot(nodes, root) && frame < FRAMES
    requires Clear(m.ram, root, 4, p) && MapPage(m, root, p, frame, flags).Some?
    ensures Can(r, MapPage(m, root, p, frame, flags).value.ram, root, 4, q) ==
      if q == p then Grants(LeafWord(frame, flags), r) && Open(r, m.ram, root, 4, p) else Can(r, m.ram, root, 4, q)
  {
    var m' := MapPage(m, root, p, frame, flags).value;
    MapRefinesFlatMap(m, nodes, root, p, frame, flags, q);
    MapOpen(r, m, nodes, root, 4, p, frame, flags, root, 4, q);
    CanIff(r, m'.ram, root, 4, q);
    CanIff(r, m.ram, root, 4, q);
  }

  // Changes outside the tables do not matter.
  lemma {:induction false} OpenSame(r: Right, m: Mem, nodes: map<nat, Node>, ram: Ram, f: nat, k: nat, q: Path)
    requires Shape(m, nodes) && f in nodes && 1 <= k == Level(nodes[f])
    requires forall x :: x in nodes && !nodes[x].Data? ==> ram[x] == m.ram[x]
    ensures Open(r, ram, f, k, q) == Open(r, m.ram, f, k, q)
    decreases k
  {
    assert Linked(m.ram, nodes, f, Index(q, k));
    var w := m.ram[f][Index(q, k)];
    if IsTable(k, w) { OpenSame(r, m, nodes, ram, w.frame, k - 1, q); }
  }
}
