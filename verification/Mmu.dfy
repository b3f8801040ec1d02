/** The table code of arch/mm/init.c as the kernel runs it: table words written in place,
the loops of create_new_address_space and clone_address_space, cr3 and current_pgd. */
module Mmu {
  import opened Pgtable
  import opened Wrappers
  import opened FrameAlloc
  import opened Paging
  import opened CloneSpace

  class Mmu {
    const pm: PhysMemory
    var cr3: nat
    var currentPgd: Option<nat>

    // Before arch_paging_init current_pgd is null; from then on it follows cr3.
    ghost predicate Valid()
      reads this, pm, pm.bitmap
    {
      pm.Valid() && cr3 < FRAMES && (currentPgd.Some? ==> currentPgd.value == cr3)
    }

    ghost function View(): Mem
      reads this, pm
    {
      pm.View()
    }

    constructor (pm: PhysMemory, cr3: nat)
      requires pm.Valid() && cr3 < FRAMES
      ensures Valid() && this.pm == pm && this.cr3 == cr3 && currentPgd == None
    {
      this.pm := pm;
      this.cr3 := cr3;
      currentPgd := None;
    }

    method SwitchAddressSpace(root: nat)
      requires Valid() && root < FRAMES
      modifies this
      ensures Valid() && cr3 == root && currentPgd == Some(root) && View() == old(View())
    {
      cr3 := root;
      currentPgd := Some(root);
    }

    method Store(f: nat, i: nat, w: Word)
      requires Valid() && f < FRAMES && i < 512
      modifies pm
      ensures Valid() && pm.ram == WriteWord(old(pm.ram), f, i, w) && View() == Memory(pm.ram, old(View()).used)
    {
      pm.ram := pm.ram[f := pm.ram[f][i := w]];
    }

    // Lines 30-36, 39-44 and 47-52; false when the allocation halts.
    method EnsureTable(f: nat, i: nat, user: bool) returns (ok: bool)
      requires Valid() && f < FRAMES && i < 512
      modifies pm, pm.bitmap
      ensures Valid()
      ensures Paging.EnsureTable(old(View()), f, i, user) == if ok then Some(View()) else None
      ensures !ok ==> CountFree(View().used) == 0
    {
      if !pm.ram[f][i].flags.present {
        var t := pm.AllocPage();
        if t.None? {
          NoneFree(View());
          return false;
        }
        Store(f, i, TableWord(t.value, user));
      } else {
        Store(f, i, OrUser(pm.ram[f][i], user));
      }
      ok := true;
    }

    // Lines 46-55, from the page-middle directory down.
    method MapInPmd(pmd: nat, va: nat, frame: nat, flags: Flags) returns (ok: bool)
      requires Valid() && pmd < FRAMES && frame < FRAMES
      modifies pm, pm.bitmap
      ensures Valid()
      ensures MapFrom(old(View()), pmd, 2, PathOf(va), frame, flags) == if ok then Some(View()) else None
      ensures !ok ==> CountFree(View().used) == 0
    {
      ok := EnsureTable(pmd, PmdIndex(va), flags.user);
      if !ok { return; }
      var pte := pm.ram[pmd][PmdIndex(va)].frame;
      Store(pte, PteIndex(va), LeafWord(frame, flags));
    }

    // Lines 38-55, from the page-upper directory down.
    method MapInPud(pud: nat, va: nat, frame: nat, flags: Flags) returns (ok: bool)
      requires Valid() && pud < FRAMES && frame < FRAMES
      modifies pm, pm.bitmap
      ensures Valid()
      ensures MapFrom(old(View()), pud, 3, PathOf(va), frame, flags) == if ok then Some(View()) else None
      ensures !ok ==> CountFree(View().used) == 0
    {
      ok := EnsureTable(pud, PudIndex(va), flags.user);
      if !ok { return; }
      var pmd := pm.ram[pud][PudIndex(va)].frame;
      ok := MapInPmd(pmd, va, frame, flags);
    }

    method ArchMapPage(va: nat, frame: nat, flags: Flags) returns (ok: bool)
      requires Valid() && frame < FRAMES
      modifies pm, pm.bitmap
      ensures Valid()
      ensures currentPgd.None? ==> ok && View() == old(View())
      ensures currentPgd.Some? ==>
        MapPage(old(View()), cr3, PathOf(va), frame, flags) == if ok then Some(View()) else None
      ensures !ok ==> CountFree(View().used) == 0
    {
      if currentPgd.None? { return true; }
      var pgd := currentPgd.value;
      ok := EnsureTable(pgd, PgdIndex(va), flags.user);
      if !ok { return; }
      var pud := pm.ram[pgd][PgdIndex(va)].frame;
      ok := MapInPud(pud, va, frame, flags);
    }

    // A page-table entry by its table and index; `None` is the null pointer.
    method WalkPageTable(va: nat) returns (r: Option<(nat, nat)>)
      requires Valid()
      ensures currentPgd.None? ==> r == None
      ensures currentPgd.Some? ==> r == Walk(pm.ram, cr3, 4, PathOf(va))
    {
      if currentPgd.None? { return None; }
      ghost var p := PathOf(va);
      var pgd := pm.ram[currentPgd.value][PgdIndex(va)];
      if !pgd.flags.present { return None; }
      var pud := pm.ram[pgd.frame][PudIndex(va)];
      assert Walk(pm.ram, cr3, 4, p) == Walk(pm.ram, pgd.frame, 3, p);
      if !pud.flags.present { return None; }
      var pmd := pm.ram[pud.frame][PmdIndex(va)];
      assert Walk(pm.ram, pgd.frame, 3, p) == Walk(pm.ram, pud.frame, 2, p);
      if !pmd.flags.present { return None; }
      r := Some((pmd.frame, PteIndex(va)));
    }

    // The loop shared by lines 134-136 and 87-89: entries 256..511.
    method CopyUpperHalf(root: nat)
      requires Valid() && root < FRAMES && root != cr3 && pm.ram[root] == ZeroPage()
      modifies pm
      ensures Valid() && View() == Memory(old(pm.ram)[root := UpperHalf(old(pm.ram)[cr3])], old(View()).used)
    {
      ghost var page := pm.ram[cr3];
      for i := 256 to 512
        invariant Valid() && View().used == old(View()).used
        invariant |pm.ram[root]| == 512 && pm.ram == old(pm.ram)[root := pm.ram[root]]
        invariant forall j :: 0 <= j < 512 ==> pm.ram[root][j] == if 256 <= j < i then page[j] else ZERO
      {
        Store(root, i, pm.ram[cr3][i]);
      }
      assert pm.ram[root] == UpperHalf(page);
    }

    method CreateNewAddressSpace() returns (root: Option<nat>)
      requires Valid() && !Free(View(), cr3)
      modifies pm, pm.bitmap
      ensures Valid()
      ensures CreateSpace(old(View()), cr3) == if root.Some? then Some(Grant(View(), root.value)) else None
      ensures root.None? ==> CountFree(View().used) == 0
    {
      root := pm.AllocPage();
      if root.None? { NoneFree(View()); return; }
      CopyUpperHalf(root.value);
    }
  
    // `new = alloc_page()`, the page copy when there is a source, and the entry that refers to it.
    method Attach(g: nat, i: nat, e: Word, source: Option<nat>) returns (t: Option<nat>)
      requires Valid() && g < FRAMES && i < 512
      requires source.Some? ==> source.value < FRAMES && !Free(View(), source.value)
      modifies pm, pm.bitmap
      ensures Valid()
      ensures var page := if source.Some? then old(pm.ram)[source.value] else ZeroPage();
        CloneSpace.Attach(old(View()), g, i, e, page) == if t.Some? then Some(Grant(View(), t.value)) else None
      ensures t.None? ==> CountFree(old(View()).used) == 0 == CountFree(View().used)
      ensures t.Some? ==> CountFree(View().used) + 1 == CountFree(old(View()).used)
    {
      TakeCost(View());
      t := pm.AllocPage();
      if t.None? { return; }
      if source.Some? {
        pm.ram := pm.ram[t.value := pm.ram[source.value]];
      } else {
        assert pm.ram[t.value := ZeroPage()] == pm.ram;
      }
      Store(g, i, Retarget(e, t.value));
    }

    // Lines 116-120: a private frame for page l, with the old contents.
    method ClonePage(oldPt: nat, newPt: nat, l: nat, ghost base: Mem, ghost nodes0: map<nat, Node>,
                     ghost m0: Mem, ghost roles: map<nat, Node>, ghost nodes: map<nat, Node>)
      returns (ok: bool, ghost nodes': map<nat, Node>)
      requires Valid() && Copying(base, nodes0, m0, roles, View(), nodes, oldPt, newPt, 1, l) && l < 512
      requires pm.ram[oldPt][l].flags.present
      modifies pm, pm.bitmap
      ensures Valid()
      ensures ok ==> Copying(base, nodes0, m0, roles, View(), nodes', oldPt, newPt, 1, l + 1)
      ensures ok ==> CountFree(View().used) + EntryCost(base.ram, base.ram[oldPt][l], 1) == CountFree(old(View()).used)
      ensures !ok ==>
        CountFree(old(View()).used) < EntryCost(base.ram, base.ram[oldPt][l], 1) && CountFree(View().used) == 0
    {
      ghost var m := View();
      var e := pm.ram[oldPt][l];
      assert pm.ram[oldPt] == base.ram[oldPt];
      assert !Free(base, e.frame) && pm.ram[e.frame] == base.ram[e.frame];
      var page := Attach(newPt, l, e, Some(e.frame));
      if page.None? { return false, nodes; }
      ok := true;
      nodes' := PageCopied(base, nodes0, m0, roles, m, nodes, oldPt, newPt, l, View(), page.value);
    }

    method ClonePtSlot(oldPt: nat, newPt: nat, l: nat, ghost base: Mem, ghost nodes0: map<nat, Node>,
                       ghost m0: Mem, ghost roles: map<nat, Node>, ghost nodes: map<nat, Node>)
      returns (ok: bool, ghost nodes': map<nat, Node>)
      requires Valid() && Copying(base, nodes0, m0, roles, View(), nodes, oldPt, newPt, 1, l) && l < 512
      modifies pm, pm.bitmap
      ensures Valid()
      ensures ok ==> Copying(base, nodes0, m0, roles, View(), nodes', oldPt, newPt, 1, l + 1)
      ensures ok ==> CountFree(View().used) + EntryCost(base.ram, base.ram[oldPt][l], 1) == CountFree(old(View()).used)
      ensures !ok ==>
        CountFree(old(View()).used) < EntryCost(base.ram, base.ram[oldPt][l], 1) && CountFree(View().used) == 0
    {
      ok, nodes' := true, nodes;
      assert pm.ram[oldPt] == base.ram[oldPt];
      if !pm.ram[oldPt][l].flags.present {
        AbsentCopied(base, nodes0, m0, roles, View(), nodes, oldPt, newPt, 1, l);
      } else {
        ok, nodes' := ClonePage(oldPt, newPt, l, base, nodes0, m0, roles, nodes);
      }
    }

    // The loop of lines 115-121: copy the pages of one page table.
    method ClonePt(oldPt: nat, newPt: nat, ghost base: Mem, ghost nodes0: map<nat, Node>, ghost nodes: map<nat, Node>)
      returns (ok: bool, ghost nodes': map<nat, Node>)
      requires Valid() && CopyReady(base, nodes0, View(), nodes, oldPt, newPt, 1)
      modifies pm, pm.bitmap
      ensures Valid()
      ensures ok ==> CopyDone(base, nodes0, old(View()), nodes, View(), nodes', oldPt, newPt, 1)
      ensures ok ==> CountFree(View().used) + TableCost(base.ram, base.ram[oldPt], 1) == CountFree(old(View()).used)
      ensures !ok ==>
        CountFree(old(View()).used) < TableCost(base.ram, base.ram[oldPt], 1) && CountFree(View().used) == 0
    {
      nodes' := nodes;
      ghost var m0, es := View(), base.ram[oldPt];
      ghost var m := m0;
      CopyingStarts(base, nodes0, m0, nodes, oldPt, newPt, 1);
      for l := 0 to 512
        invariant Valid() && m == View() && Copying(base, nodes0, m0, nodes, m, nodes', oldPt, newPt, 1, l)
        invariant Spent(base.ram, es[..l], 1, CountFree(m0.used), CountFree(m.used))
      {
        ok, nodes' := ClonePtSlot(oldPt, newPt, l, base, nodes0, m0, nodes, nodes');
        if !ok {
          ShortAt(base.ram, es, l, 1, CountFree(m0.used), CountFree(m.used));
          return;
        }
        SpentNext(base.ram, es, l, 1, CountFree(m0.used), CountFree(m.used), CountFree(View().used));
        m := View();
      }
      CopyingEnds(base, nodes0, m0, nodes, m, nodes', oldPt, newPt, 1);
      assert es[..512] == es;
      ok := true;
    }

    // Lines 110-121: a private page table for entry k of the page directory, with its pages.
    method ClonePdEntry(oldPd: nat, newPd: nat, k: nat, ghost base: Mem, ghost nodes0: map<nat, Node>,
                        ghost m0: Mem, ghost roles: map<nat, Node>, ghost nodes: map<nat, Node>)
      returns (ok: bool, ghost nodes': map<nat, Node>)
      requires Valid() && Copying(base, nodes0, m0, roles, View(), nodes, oldPd, newPd, 2, k) && k < 512
      requires IsTable(2, pm.ram[oldPd][k])
      modifies pm, pm.bitmap
      ensures Valid()
      ensures ok ==> Copying(base, nodes0, m0, roles, View(), nodes', oldPd, newPd, 2, k + 1)
      ensures ok ==> CountFree(View().used) + EntryCost(base.ram, base.ram[oldPd][k], 2) == CountFree(old(View()).used)
      ensures !ok ==>
        CountFree(old(View()).used) < EntryCost(base.ram, base.ram[oldPd][k], 2) && CountFree(View().used) == 0
    {
      ghost var m := View();
      var e := pm.ram[oldPd][k];
      assert pm.ram[oldPd] == base.ram[oldPd];
      var pt := Attach(newPd, k, e, None);
      if pt.None? { return false, nodes; }
      ghost var m1 := View();
      ghost var nodes1 := TableAttached(base, nodes0, m0, roles, m, nodes, oldPd, newPd, 2, k, m1, pt.value);
      ok, nodes' := ClonePt(e.frame, pt.value, base, nodes0, nodes1);
      if ok {
        TableCopied(base, nodes0, m0, roles, m, nodes, oldPd, newPd, 2, k, m1, nodes1, View(), nodes', pt.value);
      }
    }

    // Lines 106-123: entry k, absent, huge or a table.
    method ClonePdSlot(oldPd: nat, newPd: nat, k: nat, ghost base: Mem, ghost nodes0: map<nat, Node>,
                       ghost m0: Mem, ghost roles: map<nat, Node>, ghost nodes: map<nat, Node>)
      returns (ok: bool, ghost nodes': map<nat, Node>)
      requires Valid() && Copying(base, nodes0, m0, roles, View(), nodes, oldPd, newPd, 2, k) && k < 512
      modifies pm, pm.bitmap
      ensures Valid()
      ensures ok ==> Copying(base, nodes0, m0, roles, View(), nodes', oldPd, newPd, 2, k + 1)
      ensures ok ==> CountFree(View().used) + EntryCost(base.ram, base.ram[oldPd][k], 2) == CountFree(old(View()).used)
      ensures !ok ==>
        CountFree(old(View()).used) < EntryCost(base.ram, base.ram[oldPd][k], 2) && CountFree(View().used) == 0
    {
      ok, nodes' := true, nodes;
      assert pm.ram[oldPd] == base.ram[oldPd];
      var e := pm.ram[oldPd][k];
      if !e.flags.present {
        AbsentCopied(base, nodes0, m0, roles, View(), nodes, oldPd, newPd, 2, k);
      } else if e.flags.huge {
        HugeCopied(base, nodes0, m0, roles, View(), nodes, oldPd, newPd, k);
        Store(newPd, k, e);
      } else {
        ok, nodes' := ClonePdEntry(oldPd, newPd, k, base, nodes0, m0, roles, nodes);
      }
    }

    // The loop of lines 105-123: copy one page directory.
    method ClonePd(oldPd: nat, newPd: nat, ghost base: Mem, ghost nodes0: map<nat, Node>, ghost nodes: map<nat, Node>)
      returns (ok: bool, ghost nodes': map<nat, Node>)
      requires Valid() && CopyReady(base, nodes0, View(), nodes, oldPd, newPd, 2)
      modifies pm, pm.bitmap
      ensures Valid()
      ensures ok ==> CopyDone(base, nodes0, old(View()), nodes, View(), nodes', oldPd, newPd, 2)
      ensures ok ==> CountFree(View().used) + TableCost(base.ram, base.ram[oldPd], 2) == CountFree(old(View()).used)
      ensures !ok ==>
        CountFree(old(View()).used) < TableCost(base.ram, base.ram[oldPd], 2) && CountFree(View().used) == 0
    {
      nodes' := nodes;
      ghost var m0, es := View(), base.ram[oldPd];
      ghost var m := m0;
      CopyingStarts(base, nodes0, m0, nodes, oldPd, newPd, 2);
      for k := 0 to 512
        invariant Valid() && m == View() && Copying(base, nodes0, m0, nodes, m, nodes', oldPd, newPd, 2, k)
        invariant Spent(base.ram, es[..k], 2, CountFree(m0.used), CountFree(m.used))
      {
        ok, nodes' := ClonePdSlot(oldPd, newPd, k, base, nodes0, m0, nodes, nodes');
        if !ok {
          ShortAt(base.ram, es, k, 2, CountFree(m0.used), CountFree(m.used));
          return;
        }
        SpentNext(base.ram, es, k, 2, CountFree(m0.used), CountFree(m.used), CountFree(View().used));
        m := View();
      }
      CopyingEnds(base, nodes0, m0, nodes, m, nodes', oldPd, newPd, 2);
      assert es[..512] == es;
      ok := true;
    }

    // Lines 100-124: a private page directory for entry j.
    method ClonePdptEntry(oldPdpt: nat, newPdpt: nat, j: nat, ghost base: Mem, ghost nodes0: map<nat, Node>,
                          ghost m0: Mem, ghost roles: map<nat, Node>, ghost nodes: map<nat, Node>)
      returns (ok: bool, ghost nodes': map<nat, Node>)
      requires Valid() && Copying(base, nodes0, m0, roles, View(), nodes, oldPdpt, newPdpt, 3, j) && j < 512
      requires IsTable(3, pm.ram[oldPdpt][j])
      modifies pm, pm.bitmap
      ensures Valid()
      ensures ok ==> Copying(base, nodes0, m0, roles, View(), nodes', oldPdpt, newPdpt, 3, j + 1)
      ensures ok ==>
        CountFree(View().used) + EntryCost(base.ram, base.ram[oldPdpt][j], 3) == CountFree(old(View()).used)
      ensures !ok ==>
        CountFree(old(View()).used) < EntryCost(base.ram, base.ram[oldPdpt][j], 3) && CountFree(View().used) == 0
    {
      ghost var m := View();
      var e := pm.ram[oldPdpt][j];
      assert pm.ram[oldPdpt] == base.ram[oldPdpt];
      var pd := Attach(newPdpt, j, e, None);
      if pd.None? { return false, nodes; }
      ghost var m1 := View();
      ghost var nodes1 := TableAttached(base, nodes0, m0, roles, m, nodes, oldPdpt, newPdpt, 3, j, m1, pd.value);
      ok, nodes' := ClonePd(e.frame, pd.value, base, nodes0, nodes1);
      if ok {
        TableCopied(base, nodes0, m0, roles, m, nodes, oldPdpt, newPdpt, 3, j, m1, nodes1, View(), nodes', pd.value);
      }
    }

    // The loop of lines 98-125. It has no test for 1 GiB entries.
    method ClonePdpt(oldPdpt: nat, newPdpt: nat, ghost base: Mem, ghost nodes0: map<nat, Node>,
                     ghost nodes: map<nat, Node>)
      returns (ok: bool, ghost nodes': map<nat, Node>)
      requires Valid() && CopyReady(base, nodes0, View(), nodes, oldPdpt, newPdpt, 3) && NoGiant(base.ram[oldPdpt])
      modifies pm, pm.bitmap
      ensures Valid()
      ensures ok ==> CopyDone(base, nodes0, old(View()), nodes, View(), nodes', oldPdpt, newPdpt, 3)
      ensures ok ==>
        CountFree(View().used) + TableCost(base.ram, base.ram[oldPdpt], 3) == CountFree(old(View()).used)
      ensures !ok ==>
        CountFree(old(View()).used) < TableCost(base.ram, base.ram[oldPdpt], 3) && CountFree(View().used) == 0
    {
      nodes' := nodes;
      ghost var m0, es := View(), base.ram[oldPdpt];
      ghost var m := m0;
      CopyingStarts(base, nodes0, m0, nodes, oldPdpt, newPdpt, 3);
      for j := 0 to 512
        invariant Valid() && m == View() && Copying(base, nodes0, m0, nodes, m, nodes', oldPdpt, newPdpt, 3, j)
        invariant Spent(base.ram, es[..j], 3, CountFree(m0.used), CountFree(m.used))
      {
        assert pm.ram[oldPdpt] == es;
        if !pm.ram[oldPdpt][j].flags.present {
          AbsentCopied(base, nodes0, m0, nodes, m, nodes', oldPdpt, newPdpt, 3, j);
        } else {
          ok, nodes' := ClonePdptEntry(oldPdpt, newPdpt, j, base, nodes0, m0, nodes, nodes');
          if !ok {
            ShortAt(base.ram, es, j, 3, CountFree(m0.used), CountFree(m.used));
            return;
          }
        }
        SpentNext(base.ram, es, j, 3, CountFree(m0.used), CountFree(m.used), CountFree(View().used));
        m := View();
      }
      CopyingEnds(base, nodes0, m0, nodes, m, nodes', oldPdpt, newPdpt, 3);
      assert es[..512] == es;
      ok := true;
    }

    // Lines 92-126: a private page-directory-pointer table for entry i of the PML4.
    method CloneRootEntry(child: nat, i: nat, ghost base: Mem, ghost nodes0: map<nat, Node>,
                          ghost m0: Mem, ghost roles: map<nat, Node>, ghost nodes: map<nat, Node>)
      returns (ok: bool, ghost nodes': map<nat, Node>)
      requires Valid() && Copying(base, nodes0, m0, roles, View(), nodes, cr3, child, 4, i) && i < 256
      requires pm.ram[cr3][i].flags.present && NoGiantBelow(base.ram, cr3)
      modifies pm, pm.bitmap
      ensures Valid()
      ensures ok ==> Copying(base, nodes0, m0, roles, View(), nodes', cr3, child, 4, i + 1)
      ensures ok ==> CountFree(View().used) + EntryCost(base.ram, base.ram[cr3][i], 4) == CountFree(old(View()).used)
      ensures !ok ==>
        CountFree(old(View()).used) < EntryCost(base.ram, base.ram[cr3][i], 4) && CountFree(View().used) == 0
    {
      ghost var m := View();
      var e := pm.ram[cr3][i];
      assert pm.ram[cr3] == base.ram[cr3];
      var pdpt := Attach(child, i, e, None);
      if pdpt.None? { return false, nodes; }
      ghost var m1 := View();
      ghost var nodes1 := TableAttached(base, nodes0, m0, roles, m, nodes, cr3, child, 4, i, m1, pdpt.value);
      ok, nodes' := ClonePdpt(e.frame, pdpt.value, base, nodes0, nodes1);
      if ok {
        TableCopied(base, nodes0, m0, roles, m, nodes, cr3, child, 4, i, m1, nodes1, View(), nodes', pdpt.value);
      }
    }

    // The loop of lines 91-126 over the lower half of the PML4.
    method CloneLower(child: nat, ghost base: Mem, ghost nodes0: map<nat, Node>, ghost roles: map<nat, Node>)
      returns (ok: bool, ghost nodes': map<nat, Node>)
      requires Valid() && Copying(base, nodes0, View(), roles, View(), roles, cr3, child, 4, 0)
      requires NoGiantBelow(base.ram, cr3)
      modifies pm, pm.bitmap
      ensures Valid()
      ensures ok ==> Copying(base, nodes0, old(View()), roles, View(), nodes', cr3, child, 4, 256)
      ensures ok ==>
        CountFree(View().used) + TableCost(base.ram, base.ram[cr3][..256], 4) == CountFree(old(View()).used)
      ensures !ok ==>
        CountFree(old(View()).used) < TableCost(base.ram, base.ram[cr3][..256], 4) && CountFree(View().used) == 0
    {
      nodes' := roles;
      ghost var m0, es := View(), base.ram[cr3][..256];
      ghost var m := m0;
      for i := 0 to 256
        invariant Valid() && m == View() && Copying(base, nodes0, m0, roles, m, nodes', cr3, child, 4, i)
        invariant Spent(base.ram, es[..i], 4, CountFree(m0.used), CountFree(m.used))
      {
        assert pm.ram[cr3] == base.ram[cr3] && es[i] == base.ram[cr3][i];
        if !pm.ram[cr3][i].flags.present {
          AbsentCopied(base, nodes0, m0, roles, m, nodes', cr3, child, 4, i);
        } else {
          ok, nodes' := CloneRootEntry(child, i, base, nodes0, m0, roles, nodes');
          if !ok {
            ShortAt(base.ram, es, i, 4, CountFree(m0.used), CountFree(m.used));
            return;
          }
        }
        SpentNext(base.ram, es, i, 4, CountFree(m0.used), CountFree(m.used), CountFree(View().used));
        m := View();
      }
      assert es[..256] == es;
      ok := true;
    }

    // clone_address_space; `None` is the out-of-memory halt.
    method CloneAddressSpace(ghost nodes: map<nat, Node>) returns (child: Option<nat>, ghost nodes': map<nat, Node>)
      requires Valid() && Shape(View(), nodes) && NoDangling(View(), nodes) && IsRoot(nodes, cr3)
      requires NoGiantBelow(pm.ram, cr3)
      modifies pm, pm.bitmap
      ensures Valid()
      ensures child.Some? ==> Cloned(old(View()), nodes, cr3, View(), nodes', child.value)
      ensures child.Some? ==> CountFree(View().used) + CloneCost(old(pm.ram), cr3) == CountFree(old(View()).used)
      ensures child.None? ==>
        CountFree(old(View()).used) < CloneCost(old(pm.ram), cr3) && CountFree(View().used) == 0
    {
      ghost var base := View();
      nodes' := nodes;
      TakeCost(base);
      child := CreateNewAddressSpace();
      if child.None? { return; }
      ghost var m0 := View();
      ghost var roles := RootStarted(base, nodes, cr3, m0, child.value);
      var ok;
      ok, nodes' := CloneLower(child.value, base, nodes, roles);
      if ok {
        LowerCloned(base, nodes, cr3, m0, roles, View(), nodes', child.value);
      } else {
        child := None;
      }
    }
  }

  lemma NoneFree(m: Mem)
    requires ValidMem(m) && Alloc(m).None?
    ensures CountFree(m.used) == 0
  {
    CountFreeZero(m.used);
    assert forall f :: 0 <= f < |m.used| ==> !Free(m, f);
  }
}
