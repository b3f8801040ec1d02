/** Copying an address space: clone_address_space and create_new_address_space of
arch/mm/init.c.

`CopyOf` says what a copied subtree is; `CloneInv` is what holds at every point of the four
nested loops. The loops themselves are in the module Mmu. */
module CloneSpace {
  import opened Pgtable
  import opened Wrappers
  import opened FrameAlloc
  import opened Paging

  // ---- create_new_address_space

  // A fresh PML4: the upper half copied, the lower half empty.
  function UpperHalf(page: Page): (r: Page)
    ensures forall i :: 0 <= i < 512 ==> r[i] == if i < 256 then ZERO else page[i]
  {
    seq(512, i requires 0 <= i < 512 => if i < 256 then ZERO else page[i])
  }

  function CreateSpace(m: Mem, cur: nat): (r: Option<Grant>)
    requires ValidMem(m) && cur < FRAMES
    ensures r.Some? ==> ValidMem(r.value.mem) && Free(m, r.value.frame)
  {
    match Alloc(m)
    case None => None
    case Some(g) => Some(Grant(Memory(g.mem.ram[g.frame := UpperHalf(g.mem.ram[cur])], g.mem.used), g.frame))
  }

  // Changes outside the tables are invisible to every translation.
  lemma {:induction false} LookupSame(ram: Ram, ram': Ram, m: Mem, nodes: map<nat, Node>, f: nat, k: nat, q: Path)
    requires Shape(m, nodes) && ram == m.ram && f in nodes && 1 <= k == Level(nodes[f])
    requires forall x :: x in nodes && !nodes[x].Data? ==> ram'[x] == ram[x]
    ensures Lookup(ram', f, k, q) == Lookup(ram, f, k, q)
    decreases k
  {
    assert Linked(m.ram, nodes, f, Index(q, k));
    var w := ram[f][Index(q, k)];
    if IsTable(k, w) { LookupSame(ram, ram', m, nodes, w.frame, k - 1, q); }
  }

  // The new space has an empty lower half and the upper half of the current one; every
  // existing space translates as before.
  lemma CreateSpaceLookup(m: Mem, nodes: map<nat, Node>, cur: nat)
    requires Shape(m, nodes) && IsRoot(nodes, cur) && CreateSpace(m, cur).Some?
    ensures var g := CreateSpace(m, cur).value;
      && Shape(g.mem, nodes[g.frame := Root])
      && (forall r, q :: IsRoot(nodes, r) ==> Lookup(g.mem.ram, r, 4, q) == Lookup(m.ram, r, 4, q))
      && (forall q: Path :: Lookup(g.mem.ram, g.frame, 4, q) == if q.i4 < 256 then NoPage else Lookup(m.ram, cur, 4, q))
  {
    var g := CreateSpace(m, cur).value;
    var nodes' := nodes[g.frame := Root];
    assert g.frame !in nodes;
    forall f, i | f in nodes' && 0 <= i < 512
      ensures Linked(g.mem.ram, nodes', f, i)
    {
      assert Linked(m.ram, nodes, if f == g.frame then cur else f, i);
    }
    forall r, q | IsRoot(nodes, r) {
      LookupSame(m.ram, g.mem.ram, m, nodes, r, 4, q);
    }
    forall q: Path
      ensures Lookup(g.mem.ram, g.frame, 4, q) == if q.i4 < 256 then NoPage else Lookup(m.ram, cur, 4, q)
    {
      assert Linked(m.ram, nodes, cur, q.i4);
      var w := m.ram[cur][q.i4];
      if q.i4 >= 256 && IsTable(4, w) { LookupSame(m.ram, g.mem.ram, m, nodes, w.frame, 3, q); }
    }
  }

  // ---- clone_address_space

  // Entry i of the copy g of table f: absent entries are zero, tables are copied to a private
  // table, 4 KiB pages to a private frame with the same contents, huge entries as they are.
  ghost predicate CopiedEntry(base: Mem, ram: Ram, nodes: map<nat, Node>, f: nat, g: nat, k: nat, i: nat)
    requires f < FRAMES && g < FRAMES && g in nodes && 1 <= k <= 4 && i < 512
    decreases k, 0
  {
    var e, e' := base.ram[f][i], ram[g][i];
    if !e.flags.present then e' == ZERO
    else if k > 1 && !IsTable(k, e) then e' == e
    else
      && e'.flags == e.flags
      && Free(base, e'.frame)
      && e'.frame in nodes && nodes[e'.frame] == Child(nodes[g], g, i)
      && if k == 1 then ram[e'.frame] == base.ram[e.frame] else CopyOf(base, ram, nodes, e.frame, e'.frame, k - 1)
  }

  ghost predicate CopyOf(base: Mem, ram: Ram, nodes: map<nat, Node>, f: nat, g: nat, k: nat)
    requires f < FRAMES && g < FRAMES && g in nodes && 1 <= k <= 4
    decreases k, 1
  {
    forall i :: 0 <= i < 512 ==> CopiedEntry(base, ram, nodes, f, g, k, i)
  }

  // No page-table entry refers to a free frame.
  ghost predicate NoDangling(m: Mem, nodes: map<nat, Node>)
    requires Shape(m, nodes)
  {
    forall f, i :: f in nodes && nodes[f].Pt? && 0 <= i < 512 && m.ram[f][i].flags.present ==>
      !Free(m, m.ram[f][i].frame)
  }

  // `base` is the state at the start of the clone, m a state inside it: exactly the frames with
  // a new role have been taken, nothing that was in use has changed, and new page tables refer to
  // frames that were free.
  ghost predicate CloneInv(base: Mem, nodes0: map<nat, Node>, m: Mem, nodes: map<nat, Node>) {
    && Shape(base, nodes0) && Shape(m, nodes)
    && NoDangling(base, nodes0) && NoDangling(m, nodes)
    && |m.used| == |base.used|
    && Grows(base, nodes0, nodes)
    && (forall x :: Free(m, x) <==> Free(base, x) && x !in nodes)
    && (forall x :: 0 <= x < FRAMES && !Free(base, x) ==> m.ram[x] == base.ram[x])
    && (forall f, i :: f in nodes && f !in nodes0 && nodes[f].Pt? && 0 <= i < 512 && m.ram[f][i].flags.present ==>
          Free(base, m.ram[f][i].frame))
  }

  // Table f of the original has been copied to the private table g up to entry i. The upper half
  // of a PML4 is copied before this begins.
  ghost predicate CopiedTo(base: Mem, m: Mem, nodes: map<nat, Node>, f: nat, g: nat, k: nat, i: nat)
    requires f < FRAMES && g < FRAMES && g in nodes && 1 <= k <= 4 && i <= 512
  {
    && (forall j :: 0 <= j < i ==> CopiedEntry(base, m.ram, nodes, f, g, k, j))
    && (forall j :: i <= j < 512 ==> m.ram[g][j] == if k == 4 && j >= 256 then base.ram[f][j] else ZERO)
  }

  // m' differs from m on the roles of m only at g.
  ghost predicate OnlyTouches(m: Mem, nodes: map<nat, Node>, m': Mem, nodes': map<nat, Node>, g: nat)
    requires Shape(m, nodes)
  {
    && (forall x :: x in nodes ==> x in nodes' && nodes'[x] == nodes[x])
    && (forall x :: x in nodes && x != g ==> m'.ram[x] == m.ram[x])
    && (forall x :: IsRoot(nodes', x) ==> x in nodes)
  }

  // A finished copy stays one while tables above it are still being filled.
  lemma {:induction false} CopyStable(base: Mem, m: Mem, nodes: map<nat, Node>, m': Mem, nodes': map<nat, Node>, f: nat,
                                      g: nat, k: nat, ex: nat)
    requires Shape(m, nodes) && OnlyTouches(m, nodes, m', nodes', ex)
    requires f < FRAMES && g in nodes && 1 <= k == Level(nodes[g]) && ex in nodes && Level(nodes[ex]) > k
    requires CopyOf(base, m.ram, nodes, f, g, k)
    ensures CopyOf(base, m'.ram, nodes', f, g, k)
    decreases k
  {
    forall i | 0 <= i < 512
      ensures CopiedEntry(base, m'.ram, nodes', f, g, k, i)
    {
      assert CopiedEntry(base, m.ram, nodes, f, g, k, i);
      var e, e' := base.ram[f][i], m.ram[g][i];
      if e.flags.present && IsTable(k, e) {
        CopyStable(base, m, nodes, m', nodes', e.frame, e'.frame, k - 1, ex);
      }
    }
  }

  // Entries already copied survive a change of a later entry and new roles below it.
  lemma EntriesStable(base: Mem, m: Mem, nodes: map<nat, Node>, m': Mem, nodes': map<nat, Node>, f: nat, g: nat, k: nat,
                      i: nat)
    requires Shape(m, nodes) && OnlyTouches(m, nodes, m', nodes', g)
    requires f < FRAMES && g in nodes && 1 <= k == Level(nodes[g]) && i < 512
    requires CopiedTo(base, m, nodes, f, g, k, i)
    requires forall j :: 0 <= j < 512 && j != i ==> m'.ram[g][j] == m.ram[g][j]
    requires CopiedEntry(base, m'.ram, nodes', f, g, k, i)
    ensures CopiedTo(base, m', nodes', f, g, k, i + 1)
  {
    forall j | 0 <= j < i
      ensures CopiedEntry(base, m'.ram, nodes', f, g, k, j)
    {
      assert CopiedEntry(base, m.ram, nodes, f, g, k, j);
      var e, e' := base.ram[f][j], m.ram[g][j];
      if e.flags.present && IsTable(k, e) {
        CopyStable(base, m, nodes, m', nodes', e.frame, e'.frame, k - 1, g);
      }
    }
  }

  // Taking a frame for entry i of g and pointing the entry at it, keeping the flags of e.
  function Attach(m: Mem, g: nat, i: nat, e: Word, page: Page): (r: Option<Grant>)
    requires ValidMem(m) && g < FRAMES && i < 512
    ensures r.Some? ==> ValidMem(r.value.mem)
  {
    match Alloc(m)
    case None => None
    case Some(a) =>
      var ram := WriteWord(a.mem.ram[a.frame := page], g, i, Retarget(e, a.frame));
      Some(Grant(Memory(ram, a.mem.used), a.frame))
  }

  lemma AttachShape(m: Mem, nodes: map<nat, Node>, g: nat, k: nat, i: nat, e: Word, page: Page)
    requires Shape(m, nodes) && NoDangling(m, nodes) && g in nodes && 1 <= k == Level(nodes[g]) && i < 512
    requires Attach(m, g, i, e, page).Some?
    requires k > 1 ==> IsTable(k, e) && page == ZeroPage()
    ensures var a := Attach(m, g, i, e, page).value; var nodes' := nodes[a.frame := Child(nodes[g], g, i)];
      Shape(a.mem, nodes') && NoDangling(a.mem, nodes')
  {
    var a := Attach(m, g, i, e, page).value;
    var nodes' := nodes[a.frame := Child(nodes[g], g, i)];
    forall f, j | f in nodes' && 0 <= j < 512
      ensures Linked(a.mem.ram, nodes', f, j)
    {
      if f in nodes { assert Linked(m.ram, nodes, f, j); }
    }
  }

  lemma AttachKeeps(base: Mem, nodes0: map<nat, Node>, m: Mem, nodes: map<nat, Node>, g: nat, k: nat, i: nat, e: Word,
                    page: Page)
    requires CloneInv(base, nodes0, m, nodes) && g in nodes && Free(base, g) && 1 <= k == Level(nodes[g]) && i < 512
    requires Attach(m, g, i, e, page).Some?
    requires k > 1 ==> IsTable(k, e) && page == ZeroPage()
    ensures var a := Attach(m, g, i, e, page).value; var nodes' := nodes[a.frame := Child(nodes[g], g, i)];
      && CloneInv(base, nodes0, a.mem, nodes')
      && OnlyTouches(m, nodes, a.mem, nodes', g)
      && a.frame !in nodes && Free(base, a.frame) && a.mem.ram[a.frame] == page
      && a.mem.ram[g] == m.ram[g][i := Retarget(e, a.frame)]
  {
    AttachShape(m, nodes, g, k, i, e, page);
  }

  // Copying a huge entry, or nothing, keeps the invariant.
  lemma PlainEntryKeeps(base: Mem, nodes0: map<nat, Node>, m: Mem, nodes: map<nat, Node>, g: nat, i: nat, e: Word)
    requires CloneInv(base, nodes0, m, nodes) && g in nodes && Free(base, g) && i < 512
    requires !IsTable(Level(nodes[g]), e) && (nodes[g].Pt? ==> !e.flags.present)
    ensures CloneInv(base, nodes0, Memory(WriteWord(m.ram, g, i, e), m.used), nodes)
    ensures OnlyTouches(m, nodes, Memory(WriteWord(m.ram, g, i, e), m.used), nodes, g)
  {
    forall f, j | f in nodes && 0 <= j < 512
      ensures Linked(WriteWord(m.ram, g, i, e), nodes, f, j)
    {
      assert Linked(m.ram, nodes, f, j);
    }
  }

  // Before table f is copied to the private, still empty table g.
  ghost predicate CopyReady(base: Mem, nodes0: map<nat, Node>, m: Mem, nodes: map<nat, Node>, f: nat, g: nat, k: nat) {
    && CloneInv(base, nodes0, m, nodes)
    && f in nodes0 && Level(nodes0[f]) == k
    && g in nodes && Level(nodes[g]) == k && Free(base, g) && m.ram[g] == ZeroPage()
  }

  // The loop over table f, which began in m0 with the roles `roles`, stands at entry i in m.
  ghost predicate Copying(base: Mem, nodes0: map<nat, Node>, m0: Mem, roles: map<nat, Node>, m: Mem,
                          nodes: map<nat, Node>,
                          f: nat, g: nat, k: nat, i: nat)
  {
    && Shape(m0, roles) && CloneInv(base, nodes0, m, nodes)
    && f in nodes0 && Level(nodes0[f]) == k
    && g in roles && g in nodes && 1 <= k == Level(nodes[g]) && Free(base, g) && i <= 512
    && OnlyTouches(m0, roles, m, nodes, g)
    && CopiedTo(base, m, nodes, f, g, k, i)
  }

  // The loop moves on once entry i is a copy and nothing else that had a role has changed.
  lemma CopyingNext(base: Mem, nodes0: map<nat, Node>, m0: Mem, roles: map<nat, Node>, m: Mem, nodes: map<nat, Node>,
                    m': Mem, nodes': map<nat, Node>, f: nat, g: nat, k: nat, i: nat)
    requires Copying(base, nodes0, m0, roles, m, nodes, f, g, k, i) && i < 512
    requires CloneInv(base, nodes0, m', nodes') && OnlyTouches(m, nodes, m', nodes', g)
    requires forall j :: 0 <= j < 512 && j != i ==> m'.ram[g][j] == m.ram[g][j]
    requires CopiedEntry(base, m'.ram, nodes', f, g, k, i)
    ensures Copying(base, nodes0, m0, roles, m', nodes', f, g, k, i + 1)
  {
    EntriesStable(base, m, nodes, m', nodes', f, g, k, i);
  }

  // After it: only g and new frames were written, and g is the copy.
  ghost predicate CopyDone(base: Mem, nodes0: map<nat, Node>, m: Mem, nodes: map<nat, Node>, m': Mem,
                           nodes': map<nat, Node>,
                           f: nat, g: nat, k: nat)
  {
    && Shape(m, nodes) && f < FRAMES && g in nodes && 1 <= k <= 4
    && CloneInv(base, nodes0, m', nodes')
    && OnlyTouches(m, nodes, m', nodes', g)
    && CopyOf(base, m'.ram, nodes', f, g, k)
  }

  lemma CopyingStarts(base: Mem, nodes0: map<nat, Node>, m: Mem, nodes: map<nat, Node>, f: nat, g: nat, k: nat)
    requires CopyReady(base, nodes0, m, nodes, f, g, k) && 1 <= k < 4
    ensures Copying(base, nodes0, m, nodes, m, nodes, f, g, k, 0)
  {
  }

  lemma CopyingEnds(base: Mem, nodes0: map<nat, Node>, m0: Mem, roles: map<nat, Node>, m: Mem, nodes: map<nat, Node>,
                    f: nat, g: nat, k: nat)
    requires Copying(base, nodes0, m0, roles, m, nodes, f, g, k, 512)
    ensures CopyDone(base, nodes0, m0, roles, m, nodes, f, g, k)
  {
  }

  // No 1 GiB entry in a page-directory-pointer table.
  predicate NoGiant(page: Page) {
    forall j :: 0 <= j < 512 && page[j].flags.present ==> !page[j].flags.huge
  }

  ghost predicate NoGiantBelow(ram: Ram, root: nat)
    requires root < FRAMES
  {
    forall i :: 0 <= i < 256 && ram[root][i].flags.present ==> NoGiant(ram[ram[root][i].frame])
  }

  // The copy of a PML4 begins with the upper half in place and the lower half empty.
  lemma RootStarted(base: Mem, nodes0: map<nat, Node>, cur: nat, m: Mem, child: nat) returns (nodes: map<nat, Node>)
    requires Shape(base, nodes0) && NoDangling(base, nodes0) && IsRoot(nodes0, cur)
    requires CreateSpace(base, cur) == Some(Grant(m, child))
    ensures nodes == nodes0[child := Root]
    ensures Copying(base, nodes0, m, nodes, m, nodes, cur, child, 4, 0)
  {
    CreateSpaceLookup(base, nodes0, cur);
    nodes := nodes0[child := Root];
  }

  // One iteration of the page loop: a private frame with the old contents.
  lemma PageCopied(base: Mem, nodes0: map<nat, Node>, m0: Mem, roles: map<nat, Node>, m: Mem, nodes: map<nat, Node>,
                   f: nat, g: nat, i: nat, m1: Mem, t: nat) returns (nodes1: map<nat, Node>)
    requires Copying(base, nodes0, m0, roles, m, nodes, f, g, 1, i) && i < 512
    requires base.ram[f][i].flags.present
    requires Attach(m, g, i, base.ram[f][i], base.ram[base.ram[f][i].frame]) == Some(Grant(m1, t))
    ensures Copying(base, nodes0, m0, roles, m1, nodes1, f, g, 1, i + 1)
  {
    var e := base.ram[f][i];
    AttachKeeps(base, nodes0, m, nodes, g, 1, i, e, base.ram[e.frame]);
    nodes1 := nodes[t := Child(nodes[g], g, i)];
    CopyingNext(base, nodes0, m0, roles, m, nodes, m1, nodes1, f, g, 1, i);
  }

  lemma BelowTable(m: Mem, nodes: map<nat, Node>, f: nat, i: nat)
    requires Shape(m, nodes) && f in nodes && i < 512 && IsTable(Level(nodes[f]), m.ram[f][i])
    ensures m.ram[f][i].frame in nodes && Level(nodes[m.ram[f][i].frame]) == Level(nodes[f]) - 1
  {
    assert Linked(m.ram, nodes, f, i);
  }

  // From m to m1 the new table t has been attached at entry i.
  ghost predicate Attached(base: Mem, nodes0: map<nat, Node>, m0: Mem, roles: map<nat, Node>, m: Mem,
                           nodes: map<nat, Node>, f: nat, g: nat, k: nat, i: nat, m1: Mem, nodes1: map<nat, Node>,
                           t: nat) {
    && Copying(base, nodes0, m0, roles, m, nodes, f, g, k, i) && i < 512
    && IsTable(k, base.ram[f][i]) && Free(base, t)
    && t !in nodes && nodes1 == nodes[t := Child(nodes[g], g, i)] && OnlyTouches(m, nodes, m1, nodes1, g)
    && m1.ram[g] == m.ram[g][i := Retarget(base.ram[f][i], t)]
  }

  // A table has been attached at entry i and is ready to be filled.
  lemma TableAttached(base: Mem, nodes0: map<nat, Node>, m0: Mem, roles: map<nat, Node>, m: Mem, nodes: map<nat, Node>,
                      f: nat, g: nat, k: nat, i: nat, m1: Mem, t: nat) returns (nodes1: map<nat, Node>)
    requires Copying(base, nodes0, m0, roles, m, nodes, f, g, k, i) && i < 512
    requires IsTable(k, base.ram[f][i])
    requires Attach(m, g, i, base.ram[f][i], ZeroPage()) == Some(Grant(m1, t))
    ensures Attached(base, nodes0, m0, roles, m, nodes, f, g, k, i, m1, nodes1, t)
    ensures CopyReady(base, nodes0, m1, nodes1, base.ram[f][i].frame, t, k - 1)
  {
    AttachKeeps(base, nodes0, m, nodes, g, k, i, base.ram[f][i], ZeroPage());
    nodes1 := nodes[t := Child(nodes[g], g, i)];
    BelowTable(base, nodes0, f, i);
    ChildLevel(nodes[g], g, i);
  }

  // One iteration of a table loop: m1 has the new table t attached, m2 has it filled.
  lemma TableCopied(base: Mem, nodes0: map<nat, Node>, m0: Mem, roles: map<nat, Node>, m: Mem, nodes: map<nat, Node>,
                    f: nat, g: nat, k: nat, i: nat, m1: Mem, nodes1: map<nat, Node>, m2: Mem, nodes2: map<nat, Node>,
                    t: nat)
    requires Attached(base, nodes0, m0, roles, m, nodes, f, g, k, i, m1, nodes1, t)
    requires CopyDone(base, nodes0, m1, nodes1, m2, nodes2, base.ram[f][i].frame, t, k - 1)
    ensures Copying(base, nodes0, m0, roles, m2, nodes2, f, g, k, i + 1)
  {
    CopyingNext(base, nodes0, m0, roles, m, nodes, m2, nodes2, f, g, k, i);
  }

  // One iteration over an absent entry, which leaves the zero in place.
  lemma AbsentCopied(base: Mem, nodes0: map<nat, Node>, m0: Mem, roles: map<nat, Node>, m: Mem, nodes: map<nat, Node>,
                     f: nat, g: nat, k: nat, i: nat)
    requires Copying(base, nodes0, m0, roles, m, nodes, f, g, k, i) && i < if k == 4 then 256 else 512
    requires !base.ram[f][i].flags.present
    ensures Copying(base, nodes0, m0, roles, m, nodes, f, g, k, i + 1)
  {
  }

  // One iteration over a 2 MiB entry, which is copied as it is.
  lemma HugeCopied(base: Mem, nodes0: map<nat, Node>, m0: Mem, roles: map<nat, Node>, m: Mem, nodes: map<nat, Node>,
                   f: nat, g: nat, i: nat)
    requires Copying(base, nodes0, m0, roles, m, nodes, f, g, 2, i) && i < 512
    requires base.ram[f][i].flags.present && base.ram[f][i].flags.huge
    ensures var m' := Memory(WriteWord(m.ram, g, i, base.ram[f][i]), m.used);
      Copying(base, nodes0, m0, roles, m', nodes, f, g, 2, i + 1)
  {
    PlainEntryKeeps(base, nodes0, m, nodes, g, i, base.ram[f][i]);
    var m' := Memory(WriteWord(m.ram, g, i, base.ram[f][i]), m.used);
    CopyingNext(base, nodes0, m0, roles, m, nodes, m', nodes, f, g, 2, i);
  }

  // ---- what a clone costs

  // The frames that copying an entry of level k takes: one for a 4 KiB page or a table, and what
  // the table's own entries take. Absent and huge entries take none.
  ghost function EntryCost(ram: Ram, e: Word, k: nat): nat
    requires 1 <= k <= 4
    decreases k, 0, 0
  {
    if !e.flags.present || (k > 1 && !IsTable(k, e)) then 0
    else if k == 1 then 1
    else 1 + TableCost(ram, ram[e.frame], k - 1)
  }

  ghost function TableCost(ram: Ram, es: seq<Word>, k: nat): nat
    requires 1 <= k <= 4
    decreases k, 1, |es|
  {
    if es == [] then 0 else TableCost(ram, es[..|es| - 1], k) + EntryCost(ram, es[|es| - 1], k)
  }

  // One frame for the PML4, and what its lower half takes.
  ghost function CloneCost(ram: Ram, root: nat): nat
    requires root < FRAMES
  {
    1 + TableCost(ram, ram[root][..256], 4)
  }

  lemma TableCostNext(ram: Ram, es: seq<Word>, i: nat, k: nat)
    requires 1 <= k <= 4 && i < |es|
    ensures TableCost(ram, es[..i + 1], k) == TableCost(ram, es[..i], k) + EntryCost(ram, es[i], k)
  {
    assert es[..i + 1][..i] == es[..i];
  }

  lemma {:induction false} TableCostPart(ram: Ram, es: seq<Word>, i: nat, k: nat)
    requires 1 <= k <= 4 && i <= |es|
    ensures TableCost(ram, es[..i], k) <= TableCost(ram, es, k)
    decreases |es| - i
  {
    if i == |es| {
      assert es[..i] == es;
    } else {
      TableCostNext(ram, es, i, k);
      TableCostPart(ram, es, i + 1, k);
    }
  }

  // Copying the entries es took free0 - free frames.
  ghost predicate Spent(ram: Ram, es: seq<Word>, k: nat, free0: nat, free: nat)
    requires 1 <= k <= 4
  {
    free + TableCost(ram, es, k) == free0
  }

  lemma SpentNext(ram: Ram, es: seq<Word>, i: nat, k: nat, free0: nat, free: nat, free': nat)
    requires 1 <= k <= 4 && i < |es| && Spent(ram, es[..i], k, free0, free)
    requires free' + EntryCost(ram, es[i], k) == free
    ensures Spent(ram, es[..i + 1], k, free0, free')
  {
    TableCostNext(ram, es, i, k);
  }

  // With too few frames for entry i there are too few for the whole table.
  lemma ShortAt(ram: Ram, es: seq<Word>, i: nat, k: nat, free0: nat, free: nat)
    requires 1 <= k <= 4 && i < |es| && Spent(ram, es[..i], k, free0, free)
    requires free < EntryCost(ram, es[i], k)
    ensures free0 < TableCost(ram, es, k)
  {
    TableCostNext(ram, es, i, k);
    TableCostPart(ram, es, i + 1, k);
  }

  lemma TakeCost(m: Mem)
    requires ValidMem(m)
    ensures Alloc(m).None? ==> CountFree(m.used) == 0
    ensures Alloc(m).Some? ==> CountFree(Alloc(m).value.mem.used) + 1 == CountFree(m.used)
  {
    if Alloc(m).None? {
      CountFreeZero(m.used);
      assert forall f :: 0 <= f < |m.used| ==> !Free(m, f);
    } else {
      CountFreeUpdate(m.used, Alloc(m).value.frame, true);
    }
  }

  // ---- what a clone is

  // m' is m after clone_address_space under the PML4 cur returned the PML4 `child`.
  ghost predicate Cloned(m: Mem, nodes: map<nat, Node>, cur: nat, m': Mem, nodes': map<nat, Node>, child: nat) {
    && CloneInv(m, nodes, m', nodes')
    && IsRoot(nodes, cur) && IsRoot(nodes', child) && Free(m, child)
    && (forall r :: IsRoot(nodes', r) ==> r == child || IsRoot(nodes, r))
    && (forall i :: 0 <= i < 256 ==> CopiedEntry(m, m'.ram, nodes', cur, child, 4, i))
    && (forall i :: 256 <= i < 512 ==> m'.ram[child][i] == m.ram[cur][i])
  }

  lemma LowerCloned(base: Mem, nodes0: map<nat, Node>, cur: nat, m0: Mem, roles: map<nat, Node>, m: Mem,
                    nodes: map<nat, Node>, child: nat)
    requires IsRoot(nodes0, cur) && roles == nodes0[child := Root]
    requires Copying(base, nodes0, m0, roles, m, nodes, cur, child, 4, 256)
    ensures Cloned(base, nodes0, cur, m, nodes, child)
  {
  }

  // What the child sees at q, given what the parent saw.
  ghost predicate LeafCopied(m: Mem, m': Mem, nodes': map<nat, Node>, l: Leaf, l': Leaf, t: Option<nat>, i: nat) {
    if l.Mapped? && l.level == 1 then
      && l'.Mapped? && l' == Mapped(1, Retarget(l.word, l'.word.frame))
      && m'.ram[l'.word.frame] == m.ram[l.word.frame]
      && Free(m, l'.word.frame)
      && t.Some? && l'.word.frame in nodes' && nodes'[l'.word.frame] == Data(t.value, i)
    else l' == l
  }

  lemma {:induction false} CopyLookup(m: Mem, nodes: map<nat, Node>, m': Mem, nodes': map<nat, Node>, f: nat, g: nat,
                                      k: nat, q: Path)
    requires CloneInv(m, nodes, m', nodes') && f < FRAMES && g in nodes' && 1 <= k == Level(nodes'[g])
    requires CopiedEntry(m, m'.ram, nodes', f, g, k, Index(q, k))
    ensures LeafCopied(m, m', nodes', Lookup(m.ram, f, k, q), Lookup(m'.ram, g, k, q), TableOf(m'.ram, g, k, q), q.i1)
    decreases k
  {
    var e, e' := m.ram[f][Index(q, k)], m'.ram[g][Index(q, k)];
    if e.flags.present && IsTable(k, e) {
      assert CopiedEntry(m, m'.ram, nodes', e.frame, e'.frame, k - 1, Index(q, k - 1));
      CopyLookup(m, nodes, m', nodes', e.frame, e'.frame, k - 1, q);
    }
  }

  // The child translates the lower half to private copies and the upper half as the parent;
  // every existing space translates as before.
  lemma CloneTranslations(m: Mem, nodes: map<nat, Node>, cur: nat, m': Mem, nodes': map<nat, Node>, child: nat)
    requires Cloned(m, nodes, cur, m', nodes', child)
    ensures forall q: Path :: q.i4 < 256 ==>
      LeafCopied(m, m', nodes', Lookup(m.ram, cur, 4, q), Lookup(m'.ram, child, 4, q),
                 TableOf(m'.ram, child, 4, q), q.i1)
    ensures forall q: Path :: q.i4 >= 256 ==> Lookup(m'.ram, child, 4, q) == Lookup(m.ram, cur, 4, q)
    ensures forall r, q :: IsRoot(nodes, r) ==> Lookup(m'.ram, r, 4, q) == Lookup(m.ram, r, 4, q)
  {
    forall q: Path | q.i4 < 256 {
      CopyLookup(m, nodes, m', nodes', cur, child, 4, q);
    }
    forall r, q | IsRoot(nodes, r) {
      LookupSame(m.ram, m'.ram, m, nodes, r, 4, q);
    }
    forall q: Path | q.i4 >= 256
      ensures Lookup(m'.ram, child, 4, q) == Lookup(m.ram, cur, 4, q)
    {
      assert Linked(m.ram, nodes, cur, q.i4);
      var w := m.ram[cur][q.i4];
      if IsTable(4, w) { LookupSame(m.ram, m'.ram, m, nodes, w.frame, 3, q); }
    }
  }

  // ---- isolation

  // Page q of the space r is a 4 KiB page in frame x.
  predicate InFrame(ram: Ram, r: nat, q: Path, x: nat)
    requires r < FRAMES
  {
    var l := Lookup(ram, r, 4, q); l.Mapped? && l.level == 1 && l.word.frame == x
  }

  // A 4 KiB page that a space maps is not in a free frame.
  lemma {:induction false} MappedNotFree(m: Mem, nodes: map<nat, Node>, f: nat, k: nat, q: Path)
    requires Shape(m, nodes) && NoDangling(m, nodes) && f in nodes && 1 <= k == Level(nodes[f])
    ensures var l := Lookup(m.ram, f, k, q); l.Mapped? && l.level == 1 ==> !Free(m, l.word.frame)
    decreases k
  {
    assert Linked(m.ram, nodes, f, Index(q, k));
    var w := m.ram[f][Index(q, k)];
    if IsTable(k, w) { MappedNotFree(m, nodes, w.frame, k - 1, q); }
  }

  // The frame behind a lower-half page of the child is mapped nowhere else, in any space.
  lemma ClonePagesPrivate(m: Mem, nodes: map<nat, Node>, cur: nat, m': Mem, nodes': map<nat, Node>, child: nat,
                          q: Path, x: nat, r: nat, q': Path)
    requires Cloned(m, nodes, cur, m', nodes', child)
    requires q.i4 < 256 && InFrame(m'.ram, child, q, x)
    requires IsRoot(nodes', r) && InFrame(m'.ram, r, q', x)
    ensures r == child && q' == q
  {
    CloneTranslations(m, nodes, cur, m', nodes', child);
    if r != child {
      MappedNotFree(m, nodes, r, 4, q');
    } else if q'.i4 >= 256 {
      MappedNotFree(m, nodes, cur, 4, q');
    } else {
      TableIdentifiesPath(m', nodes', child, q, child, q');
    }
  }
}
