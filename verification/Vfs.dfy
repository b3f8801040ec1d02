/** Path resolution: vfs_open of fs/vfs.c and kstrcmp of lib/string.c. */
module Vfs {
  import opened Wrappers

  // `id` stands for the dentry's address.
  datatype Dentry = Dentry(id: nat, name: string, children: seq<Dentry>)

  // ---- what a path means

  // The pieces between slashes, where `cur` has already been read of the first.
  function Split(path: string, cur: string): seq<string>
    decreases |path|
  {
    if path == [] then [cur]
    else if path[0] == '/' then [cur] + Split(path[1..], [])
    else Split(path[1..], cur + [path[0]])
  }

  function NonEmpty(names: seq<string>): seq<string> {
    if names == [] then [] else (if names[0] == [] then [] else [names[0]]) + NonEmpty(names[1..])
  }

  function Components(path: string): seq<string> { NonEmpty(Split(path, [])) }

  // The first child with the name.
  function Child(d: Dentry, name: string, from: nat): Option<Dentry>
    requires from <= |d.children|
    decreases |d.children| - from
  {
    if from == |d.children| then None
    else if d.children[from].name == name then Some(d.children[from])
    else Child(d, name, from + 1)
  }

  function Resolve(d: Dentry, names: seq<string>): Option<Dentry>
    decreases |names|
  {
    if names == [] then Some(d)
    else match Child(d, names[0], 0) case None => None case Some(c) => Resolve(c, names[1..])
  }

  // c is the child at the least index with the name.
  ghost predicate FirstNamed(d: Dentry, name: string, c: Dentry) {
    exists k :: 0 <= k < |d.children| && d.children[k] == c && FirstAt(d, name, k)
  }

  predicate FirstAt(d: Dentry, name: string, k: nat)
    requires k < |d.children|
  {
    d.children[k].name == name && forall j :: 0 <= j < k ==> d.children[j].name != name
  }

  predicate NoneNamed(d: Dentry, name: string) { forall k :: 0 <= k < |d.children| ==> d.children[k].name != name }

  // A child is found exactly when one has the name, and it is the first that has.
  lemma ChildIff(d: Dentry, name: string, c: Dentry)
    ensures Child(d, name, 0).None? <==> NoneNamed(d, name)
    ensures Child(d, name, 0) == Some(c) <==> FirstNamed(d, name, c)
  {
    ChildFrom(d, name, 0);
    if k :| 0 <= k < |d.children| && d.children[k] == c && FirstAt(d, name, k) {
      assert !NoneNamed(d, name);
    }
  }

  lemma {:induction false} ChildFrom(d: Dentry, name: string, from: nat)
    requires from <= |d.children| && forall j :: 0 <= j < from ==> d.children[j].name != name
    ensures match Child(d, name, from)
      case None => NoneNamed(d, name)
      case Some(c) => exists k :: 0 <= k < |d.children| && d.children[k] == c && FirstAt(d, name, k)
    decreases |d.children| - from
  {
    if from < |d.children| {
      if d.children[from].name == name { assert FirstAt(d, name, from); } else { ChildFrom(d, name, from + 1); }
    }
  }

  // A way down from d by the names: each dentry is the first child with its name.
  ghost predicate Way(d: Dentry, names: seq<string>, way: seq<Dentry>) {
    && |way| == |names| + 1 && way[0] == d
    && forall i :: 0 <= i < |names| ==> FirstNamed(way[i], names[i], way[i + 1])
  }

  // The names lead from d to e.
  ghost predicate Leads(d: Dentry, names: seq<string>, e: Dentry) {
    exists way :: Way(d, names, way) && way[|names|] == e
  }

  // The names lead to a dentry without a child of the next name.
  ghost predicate Stuck(d: Dentry, names: seq<string>) {
    exists k, e :: 0 <= k < |names| && Leads(d, names[..k], e) && NoneNamed(e, names[k])
  }

  lemma LeadsOn(d: Dentry, name: string, names: seq<string>, c: Dentry, e: Dentry)
    requires FirstNamed(d, name, c)
    ensures Leads(d, [name] + names, e) <==> Leads(c, names, e)
  {
    var all := [name] + names;
    if way :| Way(c, names, way) && way[|names|] == e {
      var way' := [d] + way;
      forall i | 0 <= i < |all|
        ensures FirstNamed(way'[i], all[i], way'[i + 1])
      {
        if i > 0 { assert FirstNamed(way[i - 1], names[i - 1], way[i]); }
      }
      assert Way(d, all, way');
    }
    if way :| Way(d, all, way) && way[|all|] == e {
      assert FirstNamed(way[0], all[0], way[1]);
      ChildIff(d, name, c);
      ChildIff(d, name, way[1]);
      var way' := way[1..];
      forall i | 0 <= i < |names|
        ensures FirstNamed(way'[i], names[i], way'[i + 1])
      {
        assert FirstNamed(way[i + 1], all[i + 1], way[i + 2]);
      }
      assert Way(c, names, way');
    }
  }

  lemma LeadsNowhere(d: Dentry)
    ensures forall e :: Leads(d, [], e) <==> e == d
  {
    assert Way(d, [], [d]);
  }

  // A walk ends exactly where the names lead, and fails exactly when they get stuck.
  ghost predicate Ends(d: Dentry, names: seq<string>, r: Option<Dentry>) {
    (forall e :: r == Some(e) <==> Leads(d, names, e)) && (r.None? <==> Stuck(d, names))
  }

  lemma {:induction false} ResolveIff(d: Dentry, names: seq<string>)
    ensures Ends(d, names, Resolve(d, names))
    decreases |names|
  {
    if names == [] {
      LeadsNowhere(d);
    } else {
      var name, rest := names[0], names[1..];
      assert names == [name] + rest;
      match Child(d, name, 0)
      case None => StuckHere(d, names);
      case Some(c) =>
        ChildIff(d, name, c);
        ResolveIff(c, rest);
        forall e
          ensures Resolve(d, names) == Some(e) <==> Leads(d, names, e)
        {
          LeadsOn(d, name, rest, c, e);
        }
        StuckLater(d, name, rest, c);
    }
  }

  lemma StuckHere(d: Dentry, names: seq<string>)
    requires names != [] && Child(d, names[0], 0).None?
    ensures Stuck(d, names) && forall e :: !Leads(d, names, e)
  {
    ChildIff(d, names[0], d);
    LeadsNowhere(d);
    assert names[..0] == [];
    assert Leads(d, names[..0], d);
    forall e
      ensures !Leads(d, names, e)
    {
      if way :| Way(d, names, way) && way[|names|] == e {
        assert FirstNamed(way[0], names[0], way[1]);
        ChildIff(d, names[0], way[1]);
      }
    }
  }

  lemma StuckLater(d: Dentry, name: string, names: seq<string>, c: Dentry)
    requires FirstNamed(d, name, c)
    ensures Stuck(d, [name] + names) <==> Stuck(c, names)
  {
    var all := [name] + names;
    if k, e :| 0 <= k < |names| && Leads(c, names[..k], e) && NoneNamed(e, names[k]) {
      LeadsOn(d, name, names[..k], c, e);
      assert all[..k + 1] == [name] + names[..k];
      assert Leads(d, all[..k + 1], e) && NoneNamed(e, all[k + 1]);
    }
    assert all[..0] == [];
    if k, e :| 0 <= k < |all| && Leads(d, all[..k], e) && NoneNamed(e, all[k]) {
      if k == 0 {
        LeadsNowhere(d);
      } else {
        assert all[..k] == [name] + names[..k - 1];
        LeadsOn(d, name, names[..k - 1], c, e);
        assert Leads(c, names[..k - 1], e) && NoneNamed(e, names[k - 1]);
      }
    }
  }

  // ---- the code

  // A C string without its terminator.
  predicate CString(s: string) { '\0' !in s }

  function CharAt(s: string, i: nat): char { if i < |s| then s[i] else '\0' }

  // The strings agree up to i, and a ends or they differ there.
  predicate PartAt(a: string, b: string, i: nat) {
    i <= |a| && i <= |b| && a[..i] == b[..i] && (i == |a| || CharAt(a, i) != CharAt(b, i))
  }

  // Zero exactly for equal strings, and otherwise the difference at the first place where they part.
  method KStrCmp(a: string, b: string) returns (r: int)
    requires CString(a) && CString(b)
    ensures r == 0 <==> a == b
    ensures exists i :: PartAt(a, b, i) && r == CharAt(a, i) as int - CharAt(b, i) as int
  {
    assert forall j :: 0 <= j < |b| ==> b[j] in b && b[j] != '\0';
    var i := 0;
    while CharAt(a, i) != '\0' && CharAt(a, i) == CharAt(b, i)
      invariant i <= |a| && i <= |b| && a[..i] == b[..i]
      decreases |a| - i
    {
      assert a[i] in a;
      i := i + 1;
    }
    if CharAt(a, i) == CharAt(b, i) {
      assert a == a[..i] && b == b[..i];
    }
    assert PartAt(a, b, i);
    r := CharAt(a, i) as int - CharAt(b, i) as int;
  }

  // All names in the tree are C strings.
  predicate Named(d: Dentry) { forall c :: c in d.children ==> CString(c.name) && Named(c) }

  // The loops of lines 31-37 and 50-56.
  method FindChild(d: Dentry, name: string) returns (r: Option<Dentry>)
    requires Named(d) && CString(name)
    ensures r == Child(d, name, 0)
    ensures if r.None? then NoneNamed(d, name) else Named(r.value) && FirstNamed(d, name, r.value)
  {
    ChildFrom(d, name, 0);
    for j := 0 to |d.children|
      invariant Child(d, name, j) == Child(d, name, 0)
    {
      var c := d.children[j];
      assert c in d.children;
      var cmp := KStrCmp(c.name, name);
      if cmp == 0 { return Some(c); }
    }
    r := None;
  }

  // Every piece, with `cur` before the first, fits the 64-byte name buffer with its terminator.
  predicate Fits(path: string, cur: string) {
    forall i :: 0 <= i < |Split(path, cur)| ==> |Split(path, cur)[i]| < 64
  }

  // Lines 20-58: the walk from d along the path after its first slash.
  method WalkPath(d: Dentry, path: string) returns (r: Option<Dentry>)
    requires Named(d) && CString(path) && path != [] && Fits(path[1..], [])
    ensures r == Resolve(d, Components(path[1..]))
  {
    var name := new char[64];
    var current, i, at := d, 0, 1;
    ghost var goal := Resolve(d, Components(path[1..]));
    assert name[..0] == [];
    while at < |path|
      invariant 1 <= at <= |path| && i < 64 && Named(current)
      invariant Fits(path[at..], name[..i]) && CString(name[..i])
      invariant Resolve(current, NonEmpty(Split(path[at..], name[..i]))) == goal
    {
      var rest := path[at..];
      assert path[at] in path && rest[1..] == path[at + 1..];
      FitsStep(rest, name[..i]);
      if path[at] == '/' {
        WalkPiece(current, name[..i], Split(rest[1..], []));
        ghost var cur := name[..i];
        name[i] := '\0';
        assert name[..i] == cur;
        if i > 0 {
          var found := FindChild(current, name[..i]);
          if found.None? { return None; }
          current := found.value;
        }
        i := 0;
        assert name[..i] == [];
      } else {
        ghost var cur := name[..i];
        name[i] := path[at];
        i := i + 1;
        assert name[..i] == cur + [path[at]];
      }
      at := at + 1;
    }
    WalkPiece(current, name[..i], []);
    ghost var last := name[..i];
    assert Split([], last) == [last] + [];
    name[i] := '\0';
    assert name[..i] == last;
    if i > 0 {
      var found := FindChild(current, name[..i]);
      return found;
    }
    r := Some(current);
  }

  // vfs_open; the result stands for the dentry of the opened file.
  method VfsOpen(root: Option<Dentry>, path: string) returns (r: Option<Dentry>)
    requires root.Some? ==> Named(root.value)
    requires CString(path) && (path != [] ==> Fits(path[1..], []))
    ensures root.None? || path == [] || path[0] != '/' ==> r.None?
    ensures root.Some? && path != [] && path[0] == '/' ==> Ends(root.value, Components(path[1..]), r)
  {
    if root.None? || CharAt(path, 0) != '/' { return None; }
    r := WalkPath(root.value, path);
    ResolveIff(root.value, Components(path[1..]));
  }

  lemma ResolveStep(d: Dentry, name: string, names: seq<string>)
    ensures Resolve(d, [name] + names) == match Child(d, name, 0) case None => None case Some(c) => Resolve(c, names)
  {
    assert ([name] + names)[1..] == names;
  }

  // An empty piece is skipped, any other is a step down.
  lemma WalkPiece(d: Dentry, piece: string, rest: seq<string>)
    ensures var after := NonEmpty([piece] + rest);
      if piece == [] then Resolve(d, after) == Resolve(d, NonEmpty(rest))
      else Resolve(d, after) == match Child(d, piece, 0) case None => None case Some(c) => Resolve(c, NonEmpty(rest))
  {
    NonEmptyStep(piece, rest);
    ResolveStep(d, piece, NonEmpty(rest));
    assert [] + NonEmpty(rest) == NonEmpty(rest);
  }

  lemma NonEmptyStep(name: string, names: seq<string>)
    ensures NonEmpty([name] + names) == (if name == [] then [] else [name]) + NonEmpty(names)
  {
    assert ([name] + names)[1..] == names;
  }

  lemma FitsStep(path: string, cur: string)
    requires path != [] && Fits(path, cur)
    ensures path[0] == '/' ==> |cur| < 64 && Fits(path[1..], [])
    ensures path[0] != '/' ==> |cur| < 63 && Fits(path[1..], cur + [path[0]])
  {
    if path[0] == '/' {
      var rest := Split(path[1..], []);
      assert forall i :: 0 <= i < |rest| ==> rest[i] == Split(path, cur)[i + 1];
    } else {
      FirstPiece(path[1..], cur + [path[0]]);
    }
  }

  // The first piece is at least what has been read of it.
  lemma {:induction false} FirstPiece(path: string, cur: string)
    ensures |Split(path, cur)| > 0 && cur <= Split(path, cur)[0]
    decreases |path|
  {
    if path != [] && path[0] != '/' { FirstPiece(path[1..], cur + [path[0]]); }
  }

  // ---- slashes

  lemma {:induction false} SplitAt(a: string, b: string, cur: string)
    ensures Split(a + "/" + b, cur) == Split(a, cur) + Split(b, [])
    decreases |a|
  {
    var s := a + "/" + b;
    if a == [] {
      assert s[0] == '/' && s[1..] == b;
    } else {
      assert s[1..] == a[1..] + "/" + b;
      if a[0] == '/' {
        SplitAt(a[1..], b, []);
      } else {
        SplitAt(a[1..], b, cur + [a[0]]);
      }
    }
  }

  lemma {:induction false} NonEmptyAppend(a: seq<string>, b: seq<string>)
    ensures NonEmpty(a + b) == NonEmpty(a) + NonEmpty(b)
    decreases |a|
  {
    if a == [] {
      assert a + b == b;
    } else {
      assert (a + b)[1..] == a[1..] + b;
      NonEmptyAppend(a[1..], b);
    }
  }

  // A slash separates and does nothing else: repeated, leading and trailing ones never matter.
  lemma ComponentsAt(a: string, b: string)
    ensures Components(a + "/" + b) == Components(a) + Components(b)
  {
    SplitAt(a, b, []);
    NonEmptyAppend(Split(a, []), Split(b, []));
  }

  lemma EmptyPath()
    ensures Components([]) == []
  {
    var none: string := [];
    assert Split(none, none) == [none] + [];
    NonEmptyStep(none, []);
  }

  lemma ExtraSlashes(a: string, b: string)
    ensures Components(a + "/" + ("/" + b)) == Components(a + "/" + b)
    ensures Components(a + "/") == Components(a)
  {
    assert [] + "/" + b == "/" + b && a + "/" + [] == a + "/";
    ComponentsAt([], b);
    ComponentsAt(a, "/" + b);
    ComponentsAt(a, b);
    ComponentsAt(a, []);
    EmptyPath();
  }

  // ---- opening by the names on the way down

  predicate NameOk(name: string) { name != [] && '/' !in name }

  // "/a/b/c"
  function Join(names: seq<string>): string {
    if names == [] then [] else Join(names[..|names| - 1]) + "/" + names[|names| - 1]
  }

  lemma {:induction false} SplitName(name: string, cur: string)
    requires '/' !in name
    ensures Split(name, cur) == [cur + name]
    decreases |name|
  {
    if name == [] {
      assert cur + name == cur;
    } else {
      assert name[0] in name;
      SplitName(name[1..], cur + [name[0]]);
      assert cur + [name[0]] + name[1..] == cur + name;
    }
  }

  lemma {:induction false} JoinComponents(names: seq<string>)
    requires forall i :: 0 <= i < |names| ==> NameOk(names[i])
    ensures Components(Join(names)) == names
  {
    if names == [] {
      EmptyPath();
    } else {
      var k := |names| - 1;
      JoinComponents(names[..k]);
      ComponentsAt(Join(names[..k]), names[k]);
      SplitName(names[k], []);
      assert [] + names[k] == names[k];
      NonEmptyStep(names[k], []);
      assert [names[k]] + [] == [names[k]];
      assert names == names[..k] + [names[k]];
    }
  }

  // chain[0] is where the walk starts; each next dentry is a child of the one before.
  ghost predicate Descent(chain: seq<Dentry>) {
    && |chain| > 0
    && (forall i, j :: 0 <= i && j == i + 1 < |chain| ==> chain[j] in chain[i].children && NameOk(chain[j].name))
    && (forall i :: 0 <= i < |chain| ==> DistinctNames(chain[i]))
  }

  predicate DistinctNames(d: Dentry) {
    forall i, j :: 0 <= i < j < |d.children| ==> d.children[i].name != d.children[j].name
  }

  function Names(chain: seq<Dentry>): seq<string>
    requires |chain| > 0
  {
    seq(|chain| - 1, i requires 0 <= i < |chain| - 1 => chain[i + 1].name)
  }

  lemma {:induction false} ChildFound(d: Dentry, k: nat, from: nat)
    requires DistinctNames(d) && from <= k < |d.children|
    ensures Child(d, d.children[k].name, from) == Some(d.children[k])
    decreases k - from
  {
    if from < k { ChildFound(d, k, from + 1); }
  }

  lemma {:induction false} DescentResolves(chain: seq<Dentry>)
    requires Descent(chain)
    ensures Resolve(chain[0], Names(chain)) == Some(chain[|chain| - 1])
    decreases |chain|
  {
    if |chain| > 1 {
      var k :| 0 <= k < |chain[0].children| && chain[0].children[k] == chain[1];
      ChildFound(chain[0], k, 0);
      var rest := chain[1..];
      assert forall i :: 0 <= i < |rest| ==> rest[i] == chain[i + 1];
      assert Descent(rest) by {
        forall i, j | 0 <= i && j == i + 1 < |rest|
          ensures rest[j] in rest[i].children && NameOk(rest[j].name)
        {
          var i', j' := i + 1, j + 1;
          assert chain[j'] in chain[i'].children && NameOk(chain[j'].name);
        }
      }
      DescentResolves(rest);
      assert Names(chain) == [chain[1].name] + Names(rest);
      ResolveStep(chain[0], chain[1].name, Names(rest));
    }
  }

  // Joining the names down a chain of dentries names the end of the chain.
  lemma PathOfDescent(chain: seq<Dentry>)
    requires Descent(chain) && |chain| > 1
    ensures var path := Join(Names(chain));
      path[0] == '/' && Resolve(chain[0], Components(path[1..])) == Some(chain[|chain| - 1])
  {
    var names := Names(chain);
    forall i | 0 <= i < |names| ensures NameOk(names[i]) {
      var j := i + 1;
      assert chain[j] in chain[i].children && names[i] == chain[j].name;
    }
    JoinComponents(names);
    DescentResolves(chain);
    JoinStartsWithSlash(names);
    var path := Join(names);
    var rest := path[1..];
    assert path == [] + "/" + rest;
    ComponentsAt([], rest);
    EmptyPath();
    assert Components(path) == Components(rest);
  }

  lemma {:induction false} JoinStartsWithSlash(names: seq<string>)
    requires names != []
    ensures |Join(names)| > 0 && Join(names)[0] == '/'
  {
    if |names| > 1 { JoinStartsWithSlash(names[..|names| - 1]); }
  }
}
