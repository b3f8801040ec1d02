/** How many frames mapping takes: what a run of arch_map_page calls needs before it halts.

`Missing` (module Paging) counts the tables that one mapping has to add. Here is what a mapping
leaves missing for every other page, and from it the cost of mapping many. */
module FrameCosts {
  import opened Pgtable
  import opened Wrappers
  import opened FrameAlloc
  import opened Paging
  import opened CloneSpace
  import opened Outside

  function Min(a: nat, b: nat): nat { if a <= b then a else b }

  // ---- one mapping

  // A mapping that does not halt takes exactly the missing tables.
  lemma {:induction false} MapCost(m: Mem, nodes: map<nat, Node>, f: nat, k: nat, p: Path, frame: nat, flags: Flags)
    requires Shape(m, nodes) && f in nodes && 1 <= k == Level(nodes[f]) && frame < FRAMES
    requires Clear(m.ram, f, k, p) && MapFrom(m, f, k, p, frame, flags).Some?
    ensures CountFree(MapFrom(m, f, k, p, frame, flags).value.used) + Missing(m.ram, f, k, p) == CountFree(m.used)
    decreases k
  {
    if k > 1 {
      var m', nodes', f' := EnsureStep(m, nodes, f, k, p, frame, flags);
      MissingStep(m, nodes, f, k, p, frame, flags);
      MapCost(m', nodes', f', k - 1, p, frame, flags);
    }
  }

  lemma {:induction false} MissingKept(m: Mem, nodes: map<nat, Node>, ram: Ram, f: nat, k: nat, p: Path)
    requires Shape(m, nodes) && f in nodes && 1 <= k == Level(nodes[f]) && Clear(m.ram, f, k, p)
    requires forall x :: x in nodes && !nodes[x].Data? ==> ram[x] == m.ram[x]
    ensures Missing(ram, f, k, p) == Missing(m.ram, f, k, p)
    decreases k
  {
    assert Linked(m.ram, nodes, f, Index(p, k));
    var w := m.ram[f][Index(p, k)];
    if k > 1 && w.flags.present { MissingKept(m, nodes, ram, w.frame, k - 1, p); }
  }

  // alloc_page and arch_map_page.
  function TakeAndMap(m: Mem, root: nat, p: Path, flags: Flags): Option<Mem>
    requires ValidMem(m) && root < FRAMES
  {
    match Alloc(m)
    case None => None
    case Some(g) => MapPage(g.mem, root, p, g.frame, flags)
  }

  // Taking a frame and mapping it halts exactly when fewer frames are free than it takes: one, and
  // the missing tables.
  lemma TakeAndMapCost(m: Mem, nodes: map<nat, Node>, root: nat, p: Path, flags: Flags)
    requires Shape(m, nodes) && IsRoot(nodes, root) && Clear(m.ram, root, 4, p)
    ensures var r := TakeAndMap(m, root, p, flags);
      && (r.None? <==> CountFree(m.used) < 1 + Missing(m.ram, root, 4, p))
      && (r.Some? ==> CountFree(r.value.used) + 1 + Missing(m.ram, root, 4, p) == CountFree(m.used))
  {
    TakeCost(m);
    if Alloc(m).Some? {
      var g := Alloc(m).value;
      TakeShape(m, nodes);
      LookupSame(m.ram, g.mem.ram, m, nodes, root, 4, p);
      MissingKept(m, nodes, g.mem.ram, root, 4, p);
      MapHaltsWhenShort(g.mem, nodes, root, 4, p, g.frame, flags);
      if MapPage(g.mem, root, p, g.frame, flags).Some? { MapCost(g.mem, nodes, root, 4, p, g.frame, flags); }
    }
  }

  // ---- what a mapping leaves missing for others

  // The tables below level k on the way to q that are not on the way to p.
  function Parting(q: Path, p: Path, k: nat): (n: nat)
    requires 1 <= k <= 4
    ensures n <= k - 1
    decreases k
  {
    if k == 1 then 0 else if Index(q, k) != Index(p, k) then k - 1 else Parting(q, p, k - 1)
  }

  // The way from table g of level k to q passes table f.
  predicate Passes(ram: Ram, g: nat, k: nat, q: Path, f: nat)
    requires g < FRAMES && 1 <= k <= 4
    decreases k
  {
    f == g || (IsTable(k, ram[g][Index(q, k)]) && Passes(ram, ram[g][Index(q, k)].frame, k - 1, q, f))
  }

  lemma {:induction false} PassesDown(m: Mem, nodes: map<nat, Node>, g: nat, k: nat, q: Path, f: nat)
    requires Shape(m, nodes) && g in nodes && 1 <= k == Level(nodes[g]) && Passes(m.ram, g, k, q, f)
    ensures f in nodes && (f == g || Level(nodes[f]) < k)
    decreases k
  {
    assert Linked(m.ram, nodes, g, Index(q, k));
    if f != g {
      ChildLevel(nodes[g], g, Index(q, k));
      PassesDown(m, nodes, m.ram[g][Index(q, k)].frame, k - 1, q, f);
    }
  }

  // A way that passes a table below a table of level at most 3 passes that one, or begins below it.
  lemma {:induction false} PassesParent(m: Mem, nodes: map<nat, Node>, g: nat, k: nat, q: Path, f: nat, i: nat, t: nat)
    requires Shape(m, nodes) && g in nodes && 1 <= k == Level(nodes[g]) && Passes(m.ram, g, k, q, t) && t != g
    requires f in nodes && 2 <= Level(nodes[f]) <= 3 && i < 512 && t in nodes && nodes[t] == Child(nodes[f], f, i)
    ensures Passes(m.ram, g, k, q, f)
    decreases k
  {
    assert Linked(m.ram, nodes, g, Index(q, k));
    var w := m.ram[g][Index(q, k)];
    ChildLevel(nodes[g], g, Index(q, k));
    if w.frame != t { PassesParent(m, nodes, w.frame, k - 1, q, f, i, t); }
  }

  // Adding a table at f does not matter to ways that do not pass f.
  lemma {:induction false} EnsureElsewhere(m: Mem, nodes: map<nat, Node>, f: nat, i: nat, user: bool, g: nat, k: nat,
                                           q: Path)
    requires Shape(m, nodes) && f in nodes && i < 512 && EnsureTable(m, f, i, user).Some?
    requires g in nodes && 1 <= k == Level(nodes[g]) && Clear(m.ram, g, k, q) && !Passes(m.ram, g, k, q, f)
    ensures var m' := EnsureTable(m, f, i, user).value;
      && Missing(m'.ram, g, k, q) == Missing(m.ram, g, k, q) && Clear(m'.ram, g, k, q)
      && forall t :: Passes(m'.ram, g, k, q, t) ==> Passes(m.ram, g, k, q, t)
    decreases k
  {
    assert Linked(m.ram, nodes, g, Index(q, k));
    var w := m.ram[g][Index(q, k)];
    if k > 1 && w.flags.present { EnsureElsewhere(m, nodes, f, i, user, w.frame, k - 1, q); }
  }

  lemma {:induction false} LeafElsewhere(m: Mem, nodes: map<nat, Node>, f: nat, i: nat, e: Word, g: nat, k: nat,
                                         q: Path)
    requires Shape(m, nodes) && f in nodes && i < 512 && Level(nodes[f]) == 1
    requires g in nodes && 1 <= k == Level(nodes[g]) && Clear(m.ram, g, k, q)
    ensures Missing(WriteWord(m.ram, f, i, e), g, k, q) == Missing(m.ram, g, k, q)
    decreases k
  {
    assert Linked(m.ram, nodes, g, Index(q, k));
    var w := m.ram[g][Index(q, k)];
    if k > 1 && w.flags.present { LeafElsewhere(m, nodes, f, i, e, w.frame, k - 1, q); }
  }

  // A mapping below table f does not matter to ways that do not pass f.
  lemma {:induction false} MapElsewhere(m: Mem, nodes: map<nat, Node>, f: nat, k: nat, p: Path, frame: nat,
                                        flags: Flags, g: nat, j: nat, q: Path)
    requires Shape(m, nodes) && f in nodes && 1 <= k == Level(nodes[f]) <= 3 && frame < FRAMES
    requires Clear(m.ram, f, k, p) && MapFrom(m, f, k, p, frame, flags).Some?
    requires g in nodes && k <= j == Level(nodes[g]) && Clear(m.ram, g, j, q) && !Passes(m.ram, g, j, q, f)
    ensures Missing(MapFrom(m, f, k, p, frame, flags).value.ram, g, j, q) == Missing(m.ram, g, j, q)
    decreases k
  {
    if k == 1 {
      LeafElsewhere(m, nodes, f, p.i1, LeafWord(frame, flags), g, j, q);
    } else {
      var m', nodes', f' := EnsureStep(m, nodes, f, k, p, frame, flags);
      EnsureElsewhere(m, nodes, f, Index(p, k), flags.user, g, j, q);
      assert Linked(m'.ram, nodes', f, Index(p, k));
      if Passes(m'.ram, g, j, q, f') { PassesParent(m', nodes', g, j, q, f, Index(p, k), f'); }
      MapElsewhere(m', nodes', f', k - 1, p, frame, flags, g, j, q);
    }
  }

  // After mapping p, what is missing on the way to q is what was missing, or what lies past the
  // point where q leaves the way to p, whichever is less.
  lemma {:induction false} MissingAfter(m: Mem, nodes: map<nat, Node>, f: nat, k: nat, p: Path, frame: nat,
                                        flags: Flags, q: Path)
    requires Shape(m, nodes) && f in nodes && 1 <= k == Level(nodes[f]) && frame < FRAMES
    requires Clear(m.ram, f, k, p) && Clear(m.ram, f, k, q) && MapFrom(m, f, k, p, frame, flags).Some?
    ensures Missing(MapFrom(m, f, k, p, frame, flags).value.ram, f, k, q) ==
      Min(Missing(m.ram, f, k, q), Parting(q, p, k))
    decreases k
  {
    if k > 1 {
      var m1, nodes1, f1 := EnsureStep(m, nodes, f, k, p, frame, flags);
      MapFromUpper(m1, nodes1, f1, k - 1, p, frame, flags, f);
      if Index(q, k) == Index(p, k) {
        MissingBelow(m, nodes, f, k, p, flags.user, m1, f1, q);
        MissingAfter(m1, nodes1, f1, k - 1, p, frame, flags, q);
      } else {
        MissingBeside(m, nodes, f, k, p, frame, flags, m1, nodes1, f1, q);
      }
    }
  }

  // The part of the way below the table that the step provides.
  lemma MissingBelow(m: Mem, nodes: map<nat, Node>, f: nat, k: nat, p: Path, user: bool, m1: Mem, f1: nat, q: Path)
    requires Shape(m, nodes) && f in nodes && 2 <= k == Level(nodes[f]) && Index(q, k) == Index(p, k)
    requires EnsureTable(m, f, Index(p, k), user) == Some(m1) && f1 == m1.ram[f][Index(p, k)].frame
    requires Clear(m.ram, f, k, q)
    ensures Clear(m1.ram, f1, k - 1, q)
    ensures Missing(m1.ram, f1, k - 1, q) ==
      if m.ram[f][Index(p, k)].flags.present then Missing(m.ram, f, k, q) else k - 2
    ensures !m.ram[f][Index(p, k)].flags.present ==> Missing(m.ram, f, k, q) == k - 1
  {
    assert Linked(m.ram, nodes, f, Index(p, k));
    if m.ram[f][Index(p, k)].flags.present {
      ChildLevel(nodes[f], f, Index(p, k));
      MissingSame(m, nodes, f, m1, f1, k - 1, q);
      EnsureTableKeeps(m, nodes, f, Index(p, k), user, f1, k - 1, q);
    } else {
      MissingEmpty(m1.ram, f1, k - 1, q);
    }
  }

  // The part of a way that leaves at this table.
  lemma MissingBeside(m: Mem, nodes: map<nat, Node>, f: nat, k: nat, p: Path, frame: nat, flags: Flags,
                      m1: Mem, nodes1: map<nat, Node>, f1: nat, q: Path)
    requires Shape(m, nodes) && f in nodes && 2 <= k == Level(nodes[f]) && frame < FRAMES && Index(q, k) != Index(p, k)
    requires EnsureTable(m, f, Index(p, k), flags.user) == Some(m1) && f1 == m1.ram[f][Index(p, k)].frame
    requires Shape(m1, nodes1) && f1 in nodes1 && Level(nodes1[f1]) == k - 1 && Clear(m1.ram, f1, k - 1, p)
    requires IsTable(k, m1.ram[f][Index(p, k)]) && (forall x :: x in nodes ==> x in nodes1 && nodes1[x] == nodes[x])
    requires MapFrom(m1, f1, k - 1, p, frame, flags).Some? && Clear(m.ram, f, k, q)
    requires MapFrom(m1, f1, k - 1, p, frame, flags).value.ram[f] == m1.ram[f]
    ensures Missing(MapFrom(m1, f1, k - 1, p, frame, flags).value.ram, f, k, q) == Missing(m.ram, f, k, q)
  {
    var w := m.ram[f][Index(q, k)];
    if w.flags.present {
      BesideKept(m, nodes, f, k, p, flags.user, m1, nodes1, f1, q, w.frame);
      if Passes(m1.ram, w.frame, k - 1, q, f1) { PassesDown(m1, nodes1, w.frame, k - 1, q, f1); }
      MapElsewhere(m1, nodes1, f1, k - 1, p, frame, flags, w.frame, k - 1, q);
    }
  }

  lemma BesideKept(m: Mem, nodes: map<nat, Node>, f: nat, k: nat, p: Path, user: bool,
                   m1: Mem, nodes1: map<nat, Node>, f1: nat, q: Path, g: nat)
    requires Shape(m, nodes) && f in nodes && 2 <= k == Level(nodes[f]) && Index(q, k) != Index(p, k)
    requires EnsureTable(m, f, Index(p, k), user) == Some(m1) && f1 == m1.ram[f][Index(p, k)].frame
    requires Shape(m1, nodes1) && IsTable(k, m1.ram[f][Index(p, k)])
    requires forall x :: x in nodes ==> x in nodes1 && nodes1[x] == nodes[x]
    requires m.ram[f][Index(q, k)].flags.present && g == m.ram[f][Index(q, k)].frame && Clear(m.ram, f, k, q)
    ensures g in nodes1 && Level(nodes1[g]) == k - 1 && g != f1 && Clear(m1.ram, g, k - 1, q)
    ensures Missing(m1.ram, g, k - 1, q) == Missing(m.ram, g, k - 1, q)
  {
    assert Linked(m.ram, nodes, f, Index(q, k));
    ChildLevel(nodes[f], f, Index(q, k));
    assert Linked(m1.ram, nodes1, f, Index(p, k));
    MissingSame(m, nodes, f, m1, g, k - 1, q);
    EnsureTableKeeps(m, nodes, f, Index(p, k), user, g, k - 1, q);
  }

  // ---- the tables of a set of pages

  function Tops(s: set<Path>): set<nat> { set p | p in s :: p.i4 }

  function Uppers(s: set<Path>): set<(nat, nat)> { set p | p in s :: (p.i4, p.i3) }

  function Middles(s: set<Path>): set<(nat, nat, nat)> { set p | p in s :: (p.i4, p.i3, p.i2) }

  // One table for each distinct beginning of a path.
  function Tables(s: set<Path>): nat { |Tops(s)| + |Uppers(s)| + |Middles(s)| }

  // The tables that page p needs beside those of s.
  function New(s: set<Path>, p: Path): nat {
    (if p.i4 in Tops(s) then 0 else 1) + (if (p.i4, p.i3) in Uppers(s) then 0 else 1)
      + (if (p.i4, p.i3, p.i2) in Middles(s) then 0 else 1)
  }

  lemma TablesNext(s: set<Path>, p: Path)
    ensures Tables(s + {p}) == Tables(s) + New(s, p)
  {
    assert Tops(s + {p}) == Tops(s) + {p.i4};
    assert Uppers(s + {p}) == Uppers(s) + {(p.i4, p.i3)};
    assert Middles(s + {p}) == Middles(s) + {(p.i4, p.i3, p.i2)};
    OneMore(Tops(s), p.i4);
    OneMore(Uppers(s), (p.i4, p.i3));
    OneMore(Middles(s), (p.i4, p.i3, p.i2));
  }

  lemma OneMore<T>(a: set<T>, x: T)
    ensures |a + {x}| == |a| + if x in a then 0 else 1
  {
    if x in a { assert a + {x} == a; }
  }

  lemma {:induction false} Fewer<T>(a: set<T>, b: set<T>)
    requires a <= b
    ensures |a| <= |b|
  {
    assert b == a + (b - a);
  }

  lemma TablesFewer(s: set<Path>, t: set<Path>)
    requires s <= t
    ensures Tables(s) <= Tables(t)
  {
    Fewer(Tops(s), Tops(t));
    Fewer(Uppers(s), Uppers(t));
    Fewer(Middles(s), Middles(t));
  }

  // A mapped page p leaves to q what q does not share with it.
  lemma NewNext(s: set<Path>, p: Path, q: Path)
    ensures New(s + {p}, q) == Min(New(s, q), Parting(q, p, 4))
  {
    assert Tops(s + {p}) == Tops(s) + {p.i4};
    assert Uppers(s + {p}) == Uppers(s) + {(p.i4, p.i3)};
    assert Middles(s + {p}) == Middles(s) + {(p.i4, p.i3, p.i2)};
    PartingIs(q, p);
    if (q.i4, q.i3, q.i2) in Middles(s) { assert (q.i4, q.i3) in Uppers(s); }
    if (q.i4, q.i3) in Uppers(s) { assert q.i4 in Tops(s); }
  }

  lemma PartingIs(q: Path, p: Path)
    ensures Parting(q, p, 4) ==
      if q.i4 != p.i4 then 3 else if q.i3 != p.i3 then 2 else if q.i2 != p.i2 then 1 else 0
  {
    assert Parting(q, p, 2) == if q.i2 != p.i2 then 1 else 0;
    assert Parting(q, p, 3) == if q.i3 != p.i3 then 2 else Parting(q, p, 2);
  }

  // The lower half of `root` has exactly the tables of the pages s.
  ghost predicate Tabled(ram: Ram, root: nat, s: set<Path>)
    requires root < FRAMES
  {
    forall q: Path :: q.i4 < 256 ==> Missing(ram, root, 4, q) == New(s, q)
  }

  lemma TabledMap(m: Mem, nodes: map<nat, Node>, root: nat, s: set<Path>, p: Path, frame: nat, flags: Flags, m': Mem)
    requires Shape(m, nodes) && IsRoot(nodes, root) && frame < FRAMES && Tabled(m.ram, root, s) && p.i4 < 256
    requires forall q: Path :: q.i4 < 256 ==> Clear(m.ram, root, 4, q)
    requires MapPage(m, root, p, frame, flags) == Some(m')
    ensures Tabled(m'.ram, root, s + {p})
  {
    forall q: Path | q.i4 < 256
      ensures Missing(m'.ram, root, 4, q) == New(s + {p}, q)
    {
      MissingAfter(m, nodes, root, 4, p, frame, flags, q);
      NewNext(s, p, q);
    }
  }

  lemma TabledKept(m: Mem, nodes: map<nat, Node>, ram: Ram, root: nat, s: set<Path>)
    requires Shape(m, nodes) && IsRoot(nodes, root) && Tabled(m.ram, root, s)
    requires forall q: Path :: q.i4 < 256 ==> Clear(m.ram, root, 4, q)
    requires forall x :: x in nodes && !nodes[x].Data? ==> ram[x] == m.ram[x]
    ensures Tabled(ram, root, s)
  {
    forall q: Path | q.i4 < 256
      ensures Missing(ram, root, 4, q) == New(s, q)
    {
      MissingKept(m, nodes, ram, root, 4, q);
    }
  }

  lemma TabledEmpty(ram: Ram, root: nat)
    requires root < FRAMES && forall i :: 0 <= i < 256 ==> !ram[root][i].flags.present
    ensures Tabled(ram, root, {})
  {
    forall q: Path | q.i4 < 256
      ensures Missing(ram, root, 4, q) == New({}, q)
    {
      assert !ram[root][Index(q, 4)].flags.present;
    }
  }
}
