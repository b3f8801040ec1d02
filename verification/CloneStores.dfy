/** Stores after a clone: what the parent and the child write stays their own.

A store replaces the contents of one 4 KiB page, named by a PML4 and a path, in the frame that
the page tables give at that moment. A store through a page that is not mapped faults and does
nothing. User code reaches no page tables, so no store lands on one. */
module CloneStores {
  import opened Pgtable
  import opened Wrappers
  import opened FrameAlloc
  import opened Paging
  import opened CloneSpace

  datatype Put = Put(root: nat, q: Path, page: Page)

  // The frame that a store reaches.
  function Target(ram: Ram, p: Put): Option<nat>
    requires p.root < FRAMES
  {
    var l := Lookup(ram, p.root, 4, p.q);
    if l.Mapped? && l.level == 1 then Some(l.word.frame) else None
  }

  predicate Rooted(puts: seq<Put>) { forall i :: 0 <= i < |puts| ==> puts[i].root < FRAMES }

  function PutOne(ram: Ram, p: Put): Ram
    requires p.root < FRAMES
  {
    match Target(ram, p) case None => ram case Some(x) => ram[x := p.page]
  }

  function After(ram: Ram, puts: seq<Put>): Ram
    requires Rooted(puts)
  {
    if puts == [] then ram else PutOne(After(ram, puts[..|puts| - 1]), puts[|puts| - 1])
  }

  predicate NoTable(nodes: map<nat, Node>, x: nat) { x in nodes ==> nodes[x].Data? }

  // The stores go through existing spaces and reach no table.
  ghost predicate Allowed(m: Mem, nodes: map<nat, Node>, puts: seq<Put>) {
    && Rooted(puts)
    && forall i :: 0 <= i < |puts| ==>
         IsRoot(nodes, puts[i].root) && (Target(m.ram, puts[i]).Some? ==> NoTable(nodes, Target(m.ram, puts[i]).value))
  }

  ghost predicate SameTables(m: Mem, nodes: map<nat, Node>, ram: Ram)
    requires Shape(m, nodes)
  {
    forall x :: x in nodes && !nodes[x].Data? ==> ram[x] == m.ram[x]
  }

  // The last page stored onto frame x, or what it held before.
  function LastOnto(ram: Ram, puts: seq<Put>, x: nat, first: Page): Page
    requires Rooted(puts)
  {
    if puts == [] then first
    else
      var k := |puts| - 1;
      if Target(ram, puts[k]) == Some(x) then puts[k].page else LastOnto(ram, puts[..k], x, first)
  }

  // The last page stored through page q of space r, or what it held before.
  function LastThrough(puts: seq<Put>, r: nat, q: Path, first: Page): Page {
    if puts == [] then first
    else
      var k := |puts| - 1;
      if puts[k].root == r && puts[k].q == q then puts[k].page else LastThrough(puts[..k], r, q, first)
  }

  // The stores but those through the lower half of one space.
  function Except(puts: seq<Put>, child: nat): seq<Put> {
    if puts == [] then []
    else
      var k := |puts| - 1;
      Except(puts[..k], child) + if puts[k].root == child && puts[k].q.i4 < 256 then [] else [puts[k]]
  }

  // ---- no store moves a page

  lemma SameTarget(m: Mem, nodes: map<nat, Node>, ram: Ram, p: Put)
    requires Shape(m, nodes) && SameTables(m, nodes, ram) && IsRoot(nodes, p.root)
    ensures Target(ram, p) == Target(m.ram, p)
  {
    LookupSame(m.ram, ram, m, nodes, p.root, 4, p.q);
  }

  lemma {:induction false} TablesKept(m: Mem, nodes: map<nat, Node>, puts: seq<Put>)
    requires Shape(m, nodes) && Allowed(m, nodes, puts)
    ensures SameTables(m, nodes, After(m.ram, puts))
  {
    if puts != [] {
      var k := |puts| - 1;
      TablesKept(m, nodes, puts[..k]);
      SameTarget(m, nodes, After(m.ram, puts[..k]), puts[k]);
    }
  }

  // After any stores every space translates as before.
  lemma TranslationsKept(m: Mem, nodes: map<nat, Node>, puts: seq<Put>, r: nat, q: Path)
    requires Shape(m, nodes) && Allowed(m, nodes, puts) && IsRoot(nodes, r)
    ensures Lookup(After(m.ram, puts), r, 4, q) == Lookup(m.ram, r, 4, q)
  {
    TablesKept(m, nodes, puts);
    LookupSame(m.ram, After(m.ram, puts), m, nodes, r, 4, q);
  }

  // A frame holds the last page stored onto it.
  lemma {:induction false} ContentsAfter(m: Mem, nodes: map<nat, Node>, puts: seq<Put>, x: nat)
    requires Shape(m, nodes) && Allowed(m, nodes, puts) && x < FRAMES
    ensures After(m.ram, puts)[x] == LastOnto(m.ram, puts, x, m.ram[x])
  {
    if puts != [] {
      var k := |puts| - 1;
      ContentsAfter(m, nodes, puts[..k], x);
      TablesKept(m, nodes, puts[..k]);
      SameTarget(m, nodes, After(m.ram, puts[..k]), puts[k]);
    }
  }

  // ---- the two halves of isolation

  // When one page alone is in frame x, a store reaches x exactly through that page.
  lemma {:induction false} OntoIsThrough(ram: Ram, puts: seq<Put>, x: nat, first: Page, r: nat, q: Path)
    requires Rooted(puts)
    requires forall i :: 0 <= i < |puts| ==> (Target(ram, puts[i]) == Some(x) <==> puts[i].root == r && puts[i].q == q)
    ensures LastOnto(ram, puts, x, first) == LastThrough(puts, r, q, first)
  {
    if puts != [] { OntoIsThrough(ram, puts[..|puts| - 1], x, first, r, q); }
  }

  // When no page of the child's lower half is in frame x, its stores do not matter to x.
  lemma {:induction false} OntoExcept(ram: Ram, puts: seq<Put>, x: nat, first: Page, child: nat)
    requires Rooted(puts)
    requires forall i :: 0 <= i < |puts| && puts[i].root == child && puts[i].q.i4 < 256 ==>
      Target(ram, puts[i]) != Some(x)
    ensures Rooted(Except(puts, child))
    ensures LastOnto(ram, Except(puts, child), x, first) == LastOnto(ram, puts, x, first)
  {
    if puts != [] {
      var k := |puts| - 1;
      OntoExcept(ram, puts[..k], x, first, child);
      var rest := Except(puts[..k], child);
      if puts[k].root == child && puts[k].q.i4 < 256 {
        assert Except(puts, child) == rest + [] == rest;
      } else {
        assert Except(puts, child) == rest + [puts[k]];
        OntoNext(ram, rest, puts[k], x, first);
      }
    }
  }

  lemma OntoNext(ram: Ram, puts: seq<Put>, p: Put, x: nat, first: Page)
    requires Rooted(puts) && p.root < FRAMES
    ensures Rooted(puts + [p])
    ensures LastOnto(ram, puts + [p], x, first) ==
      if Target(ram, p) == Some(x) then p.page else LastOnto(ram, puts, x, first)
  {
    var all := puts + [p];
    assert all[..|puts|] == puts && all[|puts|] == p;
  }

  // After a clone and any sequence of stores by anyone: no page has moved, and every lower-half
  // page of the child holds the last page stored through it, or the copy of the parent's page as
  // it was at the clone.
  lemma ChildKeepsItsOwn(m: Mem, nodes: map<nat, Node>, cur: nat, m': Mem, nodes': map<nat, Node>, child: nat,
                         puts: seq<Put>, q: Path, x: nat)
    requires Cloned(m, nodes, cur, m', nodes', child) && Allowed(m', nodes', puts)
    requires q.i4 < 256 && x < FRAMES && InFrame(m'.ram, child, q, x)
    ensures InFrame(After(m'.ram, puts), child, q, x)
    ensures Lookup(m.ram, cur, 4, q).Mapped?
    ensures After(m'.ram, puts)[x] == LastThrough(puts, child, q, m.ram[Lookup(m.ram, cur, 4, q).word.frame])
  {
    CloneTranslations(m, nodes, cur, m', nodes', child);
    TranslationsKept(m', nodes', puts, child, q);
    ContentsAfter(m', nodes', puts, x);
    forall i | 0 <= i < |puts|
      ensures Target(m'.ram, puts[i]) == Some(x) <==> puts[i].root == child && puts[i].q == q
    {
      if Target(m'.ram, puts[i]) == Some(x) {
        ClonePagesPrivate(m, nodes, cur, m', nodes', child, q, x, puts[i].root, puts[i].q);
      }
    }
    OntoIsThrough(m'.ram, puts, x, m'.ram[x], child, q);
  }

  // Every page of every other space, and of the upper half, holds what it would hold had the
  // child never stored through its lower half.
  lemma OthersKeepTheirs(m: Mem, nodes: map<nat, Node>, cur: nat, m': Mem, nodes': map<nat, Node>, child: nat,
                         puts: seq<Put>, r: nat, q: Path, x: nat)
    requires Cloned(m, nodes, cur, m', nodes', child) && Allowed(m', nodes', puts)
    requires IsRoot(nodes', r) && (r != child || q.i4 >= 256) && x < FRAMES && InFrame(m'.ram, r, q, x)
    ensures InFrame(After(m'.ram, puts), r, q, x) && Rooted(Except(puts, child))
    ensures After(m'.ram, puts)[x] == After(m'.ram, Except(puts, child))[x] ==
      LastOnto(m'.ram, Except(puts, child), x, m.ram[x])
  {
    TranslationsKept(m', nodes', puts, r, q);
    forall i | 0 <= i < |puts| && puts[i].root == child && puts[i].q.i4 < 256
      ensures Target(m'.ram, puts[i]) != Some(x)
    {
      if Target(m'.ram, puts[i]) == Some(x) {
        ClonePagesPrivate(m, nodes, cur, m', nodes', child, puts[i].q, x, r, q);
      }
    }
    OntoExcept(m'.ram, puts, x, m'.ram[x], child);
    ExceptAllowed(m', nodes', puts, child);
    ContentsAfter(m', nodes', puts, x);
    ContentsAfter(m', nodes', Except(puts, child), x);
    ParentPageKept(m, nodes, cur, m', nodes', child, r, q, x);
  }

  // In particular, a parent's page that is mapped once holds the last page stored through it.
  lemma ParentKeepsItsOwn(m: Mem, nodes: map<nat, Node>, cur: nat, m': Mem, nodes': map<nat, Node>, child: nat,
                          puts: seq<Put>, q: Path, x: nat)
    requires Cloned(m, nodes, cur, m', nodes', child) && Allowed(m', nodes', puts)
    requires q.i4 < 256 && x < FRAMES && InFrame(m.ram, cur, q, x)
    requires forall r, q' :: IsRoot(nodes, r) && InFrame(m.ram, r, q', x) ==> r == cur && q' == q
    ensures InFrame(After(m'.ram, puts), cur, q, x)
    ensures After(m'.ram, puts)[x] == LastThrough(puts, cur, q, m.ram[x])
  {
    CloneTranslations(m, nodes, cur, m', nodes', child);
    TranslationsKept(m', nodes', puts, cur, q);
    ContentsAfter(m', nodes', puts, x);
    ParentPageKept(m, nodes, cur, m', nodes', child, cur, q, x);
    forall i | 0 <= i < |puts|
      ensures Target(m'.ram, puts[i]) == Some(x) <==> puts[i].root == cur && puts[i].q == q
    {
      if Target(m'.ram, puts[i]) == Some(x) {
        OnePage(m, nodes, cur, m', nodes', child, q, x, puts[i].root, puts[i].q);
      }
    }
    OntoIsThrough(m'.ram, puts, x, m'.ram[x], cur, q);
  }

  lemma OnePage(m: Mem, nodes: map<nat, Node>, cur: nat, m': Mem, nodes': map<nat, Node>, child: nat, q: Path, x: nat,
                r: nat, q': Path)
    requires Cloned(m, nodes, cur, m', nodes', child) && q.i4 < 256 && InFrame(m.ram, cur, q, x)
    requires forall r, q' :: IsRoot(nodes, r) && InFrame(m.ram, r, q', x) ==> r == cur && q' == q
    requires IsRoot(nodes', r) && InFrame(m'.ram, r, q', x)
    ensures r == cur && q' == q
  {
    CloneTranslations(m, nodes, cur, m', nodes', child);
    if r == child {
      if q'.i4 < 256 {
        MappedNotFree(m, nodes, cur, 4, q);
      } else {
        assert InFrame(m.ram, cur, q', x);
      }
    } else {
      assert InFrame(m.ram, r, q', x);
    }
  }

  lemma ParentPageKept(m: Mem, nodes: map<nat, Node>, cur: nat, m': Mem, nodes': map<nat, Node>, child: nat, r: nat,
                       q: Path, x: nat)
    requires Cloned(m, nodes, cur, m', nodes', child)
    requires IsRoot(nodes', r) && (r != child || q.i4 >= 256) && x < FRAMES && InFrame(m'.ram, r, q, x)
    ensures m'.ram[x] == m.ram[x]
  {
    CloneTranslations(m, nodes, cur, m', nodes', child);
    MappedNotFree(m, nodes, if r == child then cur else r, 4, q);
  }

  lemma {:induction false} ExceptAllowed(m: Mem, nodes: map<nat, Node>, puts: seq<Put>, child: nat)
    requires Allowed(m, nodes, puts)
    ensures Allowed(m, nodes, Except(puts, child))
  {
    if puts != [] { ExceptAllowed(m, nodes, puts[..|puts| - 1], child); }
  }
}
