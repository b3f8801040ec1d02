/** Intrusive circular lists: include/relis/list.h.

A list is a ring of `ListHead` objects through a sentinel. `Ring(head, s)` says that the ring
at `head` holds exactly the nodes of `s`, in order; each operation is proved against a
sequence operation. */
module Lists {
  class ListHead {
    var next: ListHead?
    var prev: ListHead?
    const task: nat  // the task that contains this node, as list_entry recovers it

    constructor (task: nat)
      ensures this.task == task && next == null && prev == null
    {
      this.task := task;
      next, prev := null, null;
    }
  }

  // Position i of the ring; the sentinel is at both ends.
  ghost function At(head: ListHead, s: seq<ListHead>, i: nat): ListHead
    requires i <= |s| + 1
  {
    if i == 0 || i == |s| + 1 then head else s[i - 1]
  }

  ghost predicate Ring(head: ListHead, s: seq<ListHead>)
    reads head, s
  {
    && head !in s && (forall i, j :: 0 <= i < j < |s| ==> s[i] != s[j])
    && (forall i :: 0 <= i <= |s| ==> At(head, s, i).next == At(head, s, i + 1))
    && (forall i :: 1 <= i <= |s| + 1 ==> At(head, s, i).prev == At(head, s, i - 1))
  }

  method InitListHead(list: ListHead)
    modifies list
    ensures Ring(list, [])
  {
    list.next := list;
    list.prev := list;
  }

  method ListAdd(node: ListHead, head: ListHead, ghost s: seq<ListHead>)
    requires Ring(head, s) && node != head && node !in s
    modifies node, head, s
    ensures Ring(head, [node] + s)
  {
    ghost var s' := [node] + s;
    assert head == At(head, s, 0) && head.next == At(head, s, 1);
    node.next := head.next;
    node.prev := head;
    head.next.prev := node;
    head.next := node;
    assert forall i :: 2 <= i <= |s'| + 1 ==> At(head, s', i) == At(head, s, i - 1);
  }

  method ListAddTail(node: ListHead, head: ListHead, ghost s: seq<ListHead>)
    requires Ring(head, s) && node != head && node !in s
    modifies node, head, s
    ensures Ring(head, s + [node])
  {
    ghost var s' := s + [node];
    assert head == At(head, s, |s| + 1);
    assert head.prev == At(head, s, |s|);
    node.prev := head.prev;
    node.next := head;
    head.prev.next := node;
    head.prev := node;
    assert forall i :: 0 <= i <= |s| ==> At(head, s', i) == At(head, s, i);
  }

  method ListDel(entry: ListHead, ghost head: ListHead, ghost s: seq<ListHead>, ghost k: nat)
    requires Ring(head, s) && k < |s| && s[k] == entry
    modifies head, s
    ensures Ring(head, s[..k] + s[k + 1..])
    ensures entry.next == null && entry.prev == null
  {
    ghost var s' := s[..k] + s[k + 1..];
    assert entry == At(head, s, k + 1);
    assert entry.prev == At(head, s, k) && entry.next == At(head, s, k + 2);
    entry.prev.next := entry.next;
    entry.next.prev := entry.prev;
    entry.next := null;
    entry.prev := null;
    assert forall i :: 0 <= i <= k ==> At(head, s', i) == At(head, s, i);
    assert forall i :: k < i <= |s'| + 1 ==> At(head, s', i) == At(head, s, i + 1);
  }

  method ListEmpty(head: ListHead, ghost s: seq<ListHead>) returns (empty: bool)
    requires Ring(head, s)
    ensures empty <==> s == []
  {
    assert head == At(head, s, 0) && head.next == At(head, s, 1);
    empty := head.next == head;
  }

  // list_del of the first node, then list_add_tail of it.
  method RotateFirst(head: ListHead, ghost s: seq<ListHead>) returns (first: ListHead)
    requires Ring(head, s) && s != []
    modifies head, s
    ensures first == s[0] && Ring(head, s[1..] + [first])
  {
    assert head == At(head, s, 0) && head.next == At(head, s, 1);
    first := head.next;
    ListDel(first, head, s, 0);
    assert s[..0] + s[1..] == s[1..];
    assert first !in s[1..];
    ListAddTail(first, head, s[1..]);
  }
}
