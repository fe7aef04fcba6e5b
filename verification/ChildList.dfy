/** deps/cJSON.c: the child list of an array or object. Items are linked both ways, the first one's prev is the
    last one, the last one's next is null; items are added, inserted, detached and replaced in place. */
module ChildList {

  class Node {
    var next: Node?
    var prev: Node?
    var child: Node?

    constructor ()
      ensures next == null && prev == null && child == null
    {
      next, prev, child := null, null, null;
    }
  }

  function Last(s: seq<Node>): Node
    requires s != []
  {
    s[|s| - 1]
  }

  ghost predicate Distinct(s: seq<Node>) {
    forall i, j :: 0 <= i < j < |s| ==> s[i] != s[j]
  }

  /** What next and prev of the i-th item have to be */
  function Next(s: seq<Node>, i: nat): Node? {
    if i + 1 < |s| then s[i + 1] else null
  }

  function Prev(s: seq<Node>, i: nat): Node
    requires i < |s|
  {
    if i > 0 then s[i - 1] else Last(s)
  }

  ghost predicate Linked(s: seq<Node>, i: nat)
    requires i < |s|
    reads s[i]
  {
    s[i].next == Next(s, i) && s[i].prev == Prev(s, i)
  }

  /** The children of a node are exactly the items of s, in order. */
  ghost predicate Children(parent: Node, s: seq<Node>)
    reads parent, s
  {
    && parent !in s && Distinct(s)
    && parent.child == (if s == [] then null else s[0])
    && forall i :: 0 <= i < |s| ==> Linked(s, i)
  }

  lemma Links(parent: Node, s: seq<Node>)
    requires Children(parent, s)
    ensures forall i :: 0 <= i < |s| ==> s[i].next == Next(s, i)
    ensures forall i :: 0 <= i < |s| ==> s[i].prev == Prev(s, i)
  {
    forall i | 0 <= i < |s| ensures s[i].next == Next(s, i) && s[i].prev == Prev(s, i) {
      assert Linked(s, i);
    }
  }

  /** A node has one sequence of children. */
  lemma {:induction false} ChildrenUnique(parent: Node, s: seq<Node>, t: seq<Node>)
    requires Children(parent, s) && Children(parent, t)
    ensures s == t
  {
    if s != [] && t != [] {
      SamePrefix(parent, s, t, |s| - 1);
      SamePrefix(parent, t, s, |t| - 1);
      assert |s| == |t|;
      forall i | 0 <= i < |s| ensures s[i] == t[i] {
        SamePrefix(parent, s, t, i);
      }
    }
  }

  lemma {:induction false} SamePrefix(parent: Node, s: seq<Node>, t: seq<Node>, i: nat)
    requires Children(parent, s) && Children(parent, t) && i < |s| && t != []
    ensures i < |t| && s[i] == t[i]
  {
    if i > 0 {
      SamePrefix(parent, s, t, i - 1);
      assert Linked(s, i - 1) && Linked(t, i - 1);
    }
  }

  /** What one comes across on the way from the first child along next */
  ghost predicate Path(parent: Node, p: seq<Node>)
    reads parent, p
  {
    p != [] && parent.child == p[0] && forall i :: 0 <= i < |p| - 1 ==> p[i].next == p[i + 1]
  }

  lemma {:induction false} OnPath(parent: Node, p: seq<Node>, t: seq<Node>, i: nat)
    requires Children(parent, t) && Path(parent, p) && i < |p|
    ensures i < |t| && t[i] == p[i] && p[i].next == Next(t, i) && p[i].prev == Prev(t, i)
  {
    if i > 0 {
      OnPath(parent, p, t, i - 1);
      assert p[i - 1].next == p[i];
    }
    assert Linked(t, i);
  }

  /** The list of a parent begins with every path. */
  lemma ListHasPath(parent: Node, p: seq<Node>, t: seq<Node>)
    requires Children(parent, t) && Path(parent, p)
    ensures p <= t && Distinct(p) && parent !in p && (Last(p).next == null ==> t == p)
  {
    forall i | 0 <= i < |p| ensures i < |t| && t[i] == p[i] && p[i].next == Next(t, i) {
      OnPath(parent, p, t, i);
    }
    OnPath(parent, p, t, |p| - 1);
  }

  /** A path that meets a node twice belongs to no list, nor does one that comes back to the parent. */
  lemma NoList(parent: Node, p: seq<Node>, i: nat)
    requires Path(parent, p) && i < |p| - 1 && Last(p) == p[i]
    ensures forall t :: !Children(parent, t)
  {
    forall t | Children(parent, t) ensures false {
      ListHasPath(parent, p, t);
    }
  }

  lemma ToParent(parent: Node, s: seq<Node>, k: nat)
    requires k < |s| && parent.child == (if k == 0 then parent else s[0]) && (k > 0 ==> s[k - 1].next == parent)
    requires forall i :: 0 <= i < k - 1 ==> s[i].next == s[i + 1]
    ensures forall t :: !Children(parent, t)
  {
    var p := s[..k] + [parent];
    forall t | Children(parent, t) ensures false {
      ListHasPath(parent, p, t);
    }
  }

  /** Nor does one with a node that is not linked back to the one before, be it the last for the first. */
  lemma NotLinkedBack(parent: Node, p: seq<Node>, i: nat)
    requires Path(parent, p) && i < |p| && (i > 0 || Last(p).next == null) && p[i].prev != Prev(p, i)
    ensures forall t :: !Children(parent, t)
  {
    forall t | Children(parent, t) ensures false {
      ListHasPath(parent, p, t);
      OnPath(parent, p, t, i);
    }
  }

  /** get_array_item */
  method GetArrayItem(parent: Node, index: nat, ghost s: seq<Node>) returns (r: Node?)
    requires Children(parent, s)
    ensures r == if index < |s| then s[index] else null
  {
    r := parent.child;
    var left := index;
    ghost var i := 0;
    while r != null && left > 0
      invariant i <= |s| && 0 <= left <= index && i + left == index
      invariant r == if i < |s| then s[i] else null
    {
      left := left - 1;
      assert Linked(s, i);
      r := r.next;
      i := i + 1;
    }
  }

  /** suffix_object */
  method SuffixObject(prev: Node, item: Node)
    modifies prev`next, item`prev
    ensures prev.next == item && item.prev == prev
  {
    prev.next := item;
    item.prev := prev;
  }

  /** add_item_to_array: the item becomes the last child. Its own next is left as it is, so the parent has a list
      afterwards exactly when the item was no child and linked to nothing, or the list was empty. */
  method AddItemToArray(parent: Node, item: Node, ghost s: seq<Node>) returns (ok: bool)
    requires Children(parent, s)
    modifies parent`child, item`next, item`prev, s`next, s`prev
    ensures ok <==> item != parent
    ensures !ok ==> Children(parent, s)
    ensures ok && item !in s && (s == [] || old(item.next) == null) ==> Children(parent, s + [item])
    ensures ok && (item in s || (s != [] && old(item.next) != null)) ==> forall t :: !Children(parent, t)
  {
    if parent == item {
      return false;
    }
    ok := true;
    var child := parent.child;
    if child == null {
      parent.child := item;
      item.prev := item;
      item.next := null;
    } else {
      Links(parent, s);
      if child.prev != null {
        var last := child.prev;
        SuffixObject(last, item);
        parent.child.prev := item;
        if item !in s && item.next == null {
          Appended(parent, s, item);
        } else {
          NotAppended(parent, s, item);
        }
      }
    }
  }

  /** Appending an item that is a child already closes a circle; one that is followed by others is not the last. */
  lemma NotAppended(parent: Node, s: seq<Node>, item: Node)
    requires Distinct(s) && s != [] && (item in s || item.next != null)
    requires parent.child == s[0] && s[0].prev == item && Last(s).next == item
    requires forall i :: 0 <= i < |s| - 1 ==> s[i].next == Next(s, i)
    ensures forall t :: !Children(parent, t)
  {
    var p := s + [item];
    if item in s {
      var k :| 0 <= k < |s| && s[k] == item;
      NoList(parent, p, k);
    } else {
      forall t | Children(parent, t) ensures false {
        OnPath(parent, p, t, 0);
        OnPath(parent, p, t, |s|);
      }
    }
  }

  lemma Appended(parent: Node, s: seq<Node>, item: Node)
    requires parent !in s && Distinct(s) && item !in s && item != parent && s != []
    requires parent.child == s[0] && s[0].prev == item && Last(s).next == item && item.prev == Last(s)
    requires forall i :: 0 < i < |s| ==> s[i].prev == Prev(s, i)
    requires forall i :: 0 <= i < |s| - 1 ==> s[i].next == Next(s, i)
    requires item.next == null
    ensures Children(parent, s + [item])
  {
    var t := s + [item];
    forall i | 0 <= i < |t| ensures Linked(t, i) {
      assert t[i] == if i < |s| then s[i] else item;
      assert Next(t, i) == if i + 1 < |s| then s[i + 1] else if i + 1 == |s| then item else null;
      assert Prev(t, i) == if i == 0 then item else s[i - 1];
    }
  }

  /** The item stands in the list of another node, which has none of the parent's children. */
  ghost predicate Foreign(parent: Node, s: seq<Node>, item: Node, other: Node, u: seq<Node>)
    reads other, u
  {
    Children(other, u) && other != parent && item in u && Apart(s, u)
  }

  ghost predicate Apart(s: seq<Node>, u: seq<Node>) {
    (forall i :: 0 <= i < |u| ==> u[i] !in s) && (forall i :: 0 <= i < |s| ==> s[i] !in u)
  }

  /** cJSON_DetachItemViaPointer: the item leaves the list and points nowhere. An item of another list leaves that one,
      and both lists survive if it was neither the first nor the last there; the parent's does not survive the last, the
      other neither of them. (With no child of its own the parent must not be given the last.) */
  method DetachItemViaPointer(parent: Node, item: Node?, ghost s: seq<Node>, ghost other: Node, ghost u: seq<Node>)
    returns (r: Node?)
    requires Children(parent, s)
    requires item != null ==>
      item in s || (item.prev == null && item != parent.child) || Foreign(parent, s, item, other, u)
    requires s == [] && item != null && Foreign(parent, s, item, other, u) ==> item.next != null
    modifies parent`child, s`next, s`prev, u`next, u`prev
    ensures r == if item != null && (item in s || old(item.prev) != null) then item else null
    ensures r == null ==> Children(parent, s)
    ensures r != null ==> r.next == null && r.prev == null
    ensures forall k :: 0 <= k < |s| && s[k] == item ==> Children(parent, s[..k] + s[k + 1..])
    ensures item != null && item !in s && old(Foreign(parent, s, item, other, u)) ==>
      forall k :: 0 <= k < |u| && u[k] == item ==>
        && (if k + 1 < |u| then Children(parent, s) else forall t :: !Children(parent, t))
        && (if 0 < k < |u| - 1 then Children(other, u[..k] + u[k + 1..]) else forall t :: !Children(other, t))
  {
    ghost var k := 0;
    if item != null && item in s {
      k :| 0 <= k < |s| && s[k] == item;
      assert Linked(s, k);
    } else if item != null && Foreign(parent, s, item, other, u) {
      k :| 0 <= k < |u| && u[k] == item;
      assert Linked(u, k);
    }
    if item == null || (item != parent.child && item.prev == null) {
      return null;
    }
    DetachLinked(parent, item, s, other, u, k, item in s);
    r := item;
  }

  /** What it does with item k of the parent's list s, or of the other's list u */
  method DetachLinked(parent: Node, item: Node, ghost s: seq<Node>, ghost other: Node, ghost u: seq<Node>, ghost k: nat,
                      ghost mine: bool)
    requires Children(parent, s)
    requires if mine then k < |s| && s[k] == item
             else Foreign(parent, s, item, other, u) && k < |u| && u[k] == item && (s == [] ==> k + 1 < |u|)
    modifies parent`child, s`next, s`prev, u`next, u`prev
    ensures item.next == null && item.prev == null
    ensures mine ==> Children(parent, s[..k] + s[k + 1..])
    ensures !mine ==> if k + 1 < |u| then Children(parent, s) else forall t :: !Children(parent, t)
    ensures !mine ==> if 0 < k < |u| - 1 then Children(other, u[..k] + u[k + 1..]) else forall t :: !Children(other, t)
  {
    Links(parent, s);
    ghost var first, was, v := parent.child, LastOf(parent), s;
    if !mine {
      Links(other, u);
      v := u;
    }
    Unlink(parent, item, v, k, s);
    if mine {
      GoneHere(parent, s, k, first, was);
    } else {
      GoneThere(parent, s, other, u, k, first, was);
    }
  }

  /** Where the parent looks for its last item */
  function LastOf(parent: Node): Node?
    reads parent, parent.child
  {
    if parent.child == null then null else parent.child.prev
  }

  /** What Unlink leaves of list v: the links around item k. First was the parent's first child, was its last one. */
  ghost predicate Unlinked(v: seq<Node>, k: nat, first: Node?, was: Node?)
    requires k < |v|
    reads v, first
  {
    && v[k].next == null && v[k].prev == null
    && (forall i :: 0 <= i < |v| && i != k ==> v[i].next == if first != v[k] && v[i] == Prev(v, k) then Next(v, k) else Next(v, i))
    && (forall i :: 0 <= i < |v| && i != k && v[i] != first ==> v[i].prev == if i == k + 1 then Prev(v, k) else Prev(v, i))
    && (first != null && first != v[k] ==> first.prev == if k == |v| - 1 then Prev(v, k) else was)
  }

  /** What it leaves of a list w apart from v */
  ghost predicate AllBut(w: seq<Node>, first: Node?)
    reads w
  {
    forall i :: 0 <= i < |w| ==> w[i].next == Next(w, i) && (w[i] != first ==> w[i].prev == Prev(w, i))
  }

  lemma GoneHere(parent: Node, s: seq<Node>, k: nat, first: Node?, was: Node?)
    requires k < |s| && parent !in s && Distinct(s) && first == s[0] && was == Last(s)
    requires parent.child == (if k == 0 then Next(s, 0) else first) && Unlinked(s, k, first, was)
    ensures Children(parent, s[..k] + s[k + 1..])
  {
    Removed(parent, s, k);
  }

  lemma GoneThere(parent: Node, s: seq<Node>, other: Node, u: seq<Node>, k: nat, first: Node?, was: Node?)
    requires parent !in s && Distinct(s) && parent.child == first && Apart(s, u) && AllBut(s, first)
    requires if s == [] then first == null && k + 1 < |u| else first == s[0] && was == Last(s)
    requires k < |u| && Distinct(u) && other !in u && other.child == u[0] && Unlinked(u, k, first, was)
    ensures if k + 1 < |u| then Children(parent, s) else forall t :: !Children(parent, t)
    ensures if 0 < k < |u| - 1 then Children(other, u[..k] + u[k + 1..]) else forall t :: !Children(other, t)
  {
    LeftAlone(parent, s, if k == |u| - 1 then Prev(u, k) else null);
    RemovedThere(other, u, k);
  }

  /** Its pointer surgery, for item k of any list v; a list w apart from v keeps its links but for the parent's child. */
  method Unlink(parent: Node, item: Node, ghost v: seq<Node>, ghost k: nat, ghost w: seq<Node>)
    requires k < |v| && Distinct(v) && v[k] == item && (parent.child == item ==> k == 0)
    requires forall i :: 0 <= i < |v| ==> v[i].next == Next(v, i)
    requires forall i :: 0 <= i < |v| ==> v[i].prev == Prev(v, i)
    requires parent.child != item && k == |v| - 1 ==> parent.child != null
    requires parent.child != null && parent.child in v ==> parent.child == v[0]
    requires w != v ==> Apart(w, v) && AllBut(w, null)
    modifies parent`child, v`next, v`prev, (if parent.child == null then {} else {parent.child})`prev
    ensures parent.child == if old(parent.child) == item then Next(v, 0) else old(parent.child)
    ensures Unlinked(v, k, old(parent.child), old(LastOf(parent)))
    ensures w != v ==> AllBut(w, old(parent.child))
  {
    Close(parent, item, v, k);
    assert forall i :: 0 <= i < |v| && i != k ==> v[i] != item;
    Forget(item);
    forall i | 0 <= i < |w| && w != v
      ensures w[i].next == Next(w, i) && (w[i] != old(parent.child) ==> w[i].prev == Prev(w, i))
    {
      assert w[i] !in v;
    }
  }

  method Forget(item: Node)
    modifies item`next, item`prev
    ensures item.next == null && item.prev == null
  {
    item.prev := null;
    item.next := null;
  }

  /** The list is closed behind the item, which still has its own links. */
  method Close(parent: Node, item: Node, ghost v: seq<Node>, ghost k: nat)
    requires k < |v| && Distinct(v) && v[k] == item && (parent.child == item ==> k == 0)
    requires forall i :: 0 <= i < |v| ==> v[i].next == Next(v, i)
    requires forall i :: 0 <= i < |v| ==> v[i].prev == Prev(v, i)
    requires parent.child != item && k == |v| - 1 ==> parent.child != null
    requires parent.child != null && parent.child in v ==> parent.child == v[0]
    modifies parent`child, v`next, v`prev, (if parent.child == null then {} else {parent.child})`prev
    ensures parent.child == if old(parent.child) == item then Next(v, 0) else old(parent.child)
    ensures forall i :: 0 <= i < |v| ==>
      v[i].next == if old(parent.child) != item && v[i] == Prev(v, k) then Next(v, k) else Next(v, i)
    ensures forall i :: 0 <= i < |v| && v[i] != old(parent.child) ==>
      v[i].prev == if i == k + 1 then Prev(v, k) else Prev(v, i)
    ensures var c := old(parent.child);
      c != null && c != item ==> c.prev == if k == |v| - 1 then Prev(v, k) else old(parent.child.prev)
  {
    ghost var c := parent.child;
    Bridge(parent, item, v, k);
    assert item.next == Next(v, k) && item.prev == Prev(v, k);
    assert c != null && c in v ==> c.prev == old(parent.child.prev);
    if item == parent.child {
      parent.child := item.next;
    } else if item.next == null {
      parent.child.prev := item.prev;
    }
  }

  /** The items before and behind are linked to each other. */
  method Bridge(parent: Node, item: Node, ghost v: seq<Node>, ghost k: nat)
    requires k < |v| && Distinct(v) && v[k] == item
    requires forall i :: 0 <= i < |v| ==> v[i].next == Next(v, i)
    requires forall i :: 0 <= i < |v| ==> v[i].prev == Prev(v, i)
    modifies v`next, v`prev
    ensures forall i :: 0 <= i < |v| ==>
      v[i].next == if parent.child != item && v[i] == Prev(v, k) then Next(v, k) else Next(v, i)
    ensures forall i :: 0 <= i < |v| ==> v[i].prev == if i == k + 1 then Prev(v, k) else Prev(v, i)
  {
    if item != parent.child {
      item.prev.next := item.next;
    }
    if item.next != null {
      item.next.prev := item.prev;
    }
  }

  /** What an item leaves behind when it is detached through another parent */
  lemma RemovedThere(other: Node, u: seq<Node>, k: nat)
    requires k < |u| && Distinct(u) && other !in u && other.child == u[0]
    requires u[k].next == null && u[k].prev == null
    requires forall i :: 0 <= i < |u| && i != k ==> u[i].next == if u[i] == Prev(u, k) then Next(u, k) else Next(u, i)
    requires forall i :: 0 <= i < |u| && i != k ==> u[i].prev == if i == k + 1 then Prev(u, k) else Prev(u, i)
    ensures if 0 < k < |u| - 1 then Children(other, u[..k] + u[k + 1..]) else forall t :: !Children(other, t)
  {
    if k == 0 {
      NotLinkedBack(other, [u[0]], 0);
    } else if k == |u| - 1 {
      NotLinkedBack(other, u[..k], 0);
    } else {
      Removed(other, u, k);
    }
  }

  /** The parent's own list, in which at most the first item's prev has changed */
  lemma LeftAlone(parent: Node, s: seq<Node>, last: Node?)
    requires parent !in s && Distinct(s) && parent.child == (if s == [] then null else s[0])
    requires last != null ==> s != [] && last !in s
    requires forall i :: 0 <= i < |s| ==> s[i].next == Next(s, i)
    requires forall i :: 0 <= i < |s| ==> s[i].prev == if i == 0 && last != null then last else Prev(s, i)
    ensures if last == null then Children(parent, s) else forall t :: !Children(parent, t)
  {
    if last == null {
      Relink(parent, s);
    } else {
      NotLinkedBack(parent, s, 0);
    }
  }

  /** What a detachment leaves of the links */
  lemma Removed(parent: Node, s: seq<Node>, k: nat)
    requires k < |s| && parent !in s && Distinct(s)
    requires parent.child == (if k > 0 then s[0] else if |s| > 1 then s[1] else null)
    requires forall i :: 0 <= i < |s| && i != k && i + 1 != k ==> s[i].next == Next(s, i)
    requires k > 0 ==> s[k - 1].next == (if k + 1 < |s| then s[k + 1] else null)
    requires forall i :: 0 <= i < |s| && i != k && i != k + 1 && i != 0 ==> s[i].prev == Prev(s, i)
    requires k + 1 < |s| ==> s[k + 1].prev == (if k > 0 then s[k - 1] else Last(s))
    requires k > 0 ==> s[0].prev == (if k == |s| - 1 then s[k - 1] else Last(s))
    ensures Children(parent, s[..k] + s[k + 1..])
  {
    var t := s[..k] + s[k + 1..];
    RemovedDistinct(s, k);
    forall i | 0 <= i < |t| ensures Linked(t, i) {
      if i < k {
        assert t[i] == s[i] && (i + 1 < |t| ==> t[i + 1] == if i + 1 < k then s[i + 1] else s[i + 2]);
        assert i > 0 ==> t[i - 1] == s[i - 1];
      } else {
        assert t[i] == s[i + 1] && (i + 1 < |t| ==> t[i + 1] == s[i + 2]);
        assert i > 0 ==> t[i - 1] == if i > k then s[i] else s[i - 1];
      }
    }
  }

  lemma RemovedDistinct(s: seq<Node>, k: nat)
    requires k < |s| && Distinct(s)
    ensures var t := s[..k] + s[k + 1..];
      Distinct(t) && (t != [] ==> Last(t) == if k + 1 == |s| then s[k - 1] else Last(s))
  {
    var t := s[..k] + s[k + 1..];
    forall i, j | 0 <= i < j < |t| ensures t[i] != t[j] {
      assert t[i] == s[if i < k then i else i + 1] && t[j] == s[if j < k then j else j + 1];
    }
  }

  /** cJSON_DetachItemFromArray */
  method DetachItemFromArray(parent: Node, which: int, ghost s: seq<Node>) returns (r: Node?)
    requires Children(parent, s)
    modifies parent`child, s`next, s`prev
    ensures r == if 0 <= which < |s| then s[which] else null
    ensures Children(parent, if 0 <= which < |s| then s[..which] + s[which + 1..] else s)
    ensures r != null ==> r.next == null && r.prev == null
  {
    if which < 0 {
      return null;
    }
    var item := GetArrayItem(parent, which, s);
    r := DetachItemViaPointer(parent, item, s, parent, []);
  }

  /** cJSON_InsertItemInArray: at a position, or behind the last item. An item that is a child already, or the parent
      itself, leaves no list. */
  method InsertItemInArray(parent: Node, which: int, newItem: Node, ghost s: seq<Node>) returns (ok: bool)
    requires Children(parent, s)
    modifies parent`child, newItem`next, newItem`prev, s`next, s`prev
    ensures ok <==> which >= 0 && (which >= |s| ==> newItem != parent)
    ensures !ok ==> Children(parent, s)
    ensures ok && newItem !in s && newItem != parent && (which < |s| || s == [] || old(newItem.next) == null) ==>
      Children(parent, if which < |s| then s[..which] + [newItem] + s[which..] else s + [newItem])
    ensures ok && (newItem in s || newItem == parent || (which >= |s| > 0 && old(newItem.next) != null)) ==> forall t :: !Children(parent, t)
  {
    if which < 0 {
      return false;
    }
    var after := GetArrayItem(parent, which, s);
    if after == null {
      ok := AddItemToArray(parent, newItem, s);
      return;
    }
    assert Linked(s, which);
    if after != parent.child && after.prev == null {
      return false;
    }
    InsertBefore(parent, after, newItem, s, which);
    ok := true;
  }

  /** Insertion before an item that exists */
  method InsertBefore(parent: Node, after: Node, newItem: Node, ghost s: seq<Node>, ghost which: nat)
    requires Children(parent, s) && which < |s| && s[which] == after
    modifies parent`child, newItem`next, newItem`prev, s`next, s`prev
    ensures newItem !in s && newItem != parent ==> Children(parent, s[..which] + [newItem] + s[which..])
    ensures newItem in s || newItem == parent ==> forall t :: !Children(parent, t)
  {
    Links(parent, s);
    LinkBefore(parent, after, newItem, s, which);
    if newItem == parent {
      ToParent(parent, s, which);
    } else if newItem in s {
      ghost var k :| 0 <= k < |s| && s[k] == newItem;
      InsertedTwice(parent, s, which, k);
    } else {
      Inserted(parent, s, which, newItem);
    }
  }

  /** Its pointer surgery */
  method LinkBefore(parent: Node, after: Node, newItem: Node, ghost s: seq<Node>, ghost which: nat)
    requires which < |s| && Distinct(s) && s[which] == after && parent.child == s[0]
    requires forall i :: 0 <= i < |s| ==> s[i].next == Next(s, i)
    requires forall i :: 0 <= i < |s| ==> s[i].prev == Prev(s, i)
    modifies parent`child, newItem`next, newItem`prev, s`next, s`prev
    ensures parent.child == if which == 0 then newItem else s[0]
    ensures which > 0 ==> s[which - 1].next == newItem
    ensures newItem.next == if which > 0 && s[which - 1] == newItem then newItem else after
    ensures forall i :: 0 <= i < |s| && i + 1 != which && s[i] != newItem ==> s[i].next == Next(s, i)
    ensures newItem != after ==> newItem.prev == if which > 0 then s[which - 1] else Last(s)
    ensures newItem !in s ==> after.prev == newItem
    ensures newItem !in s ==> forall i :: 0 <= i < |s| && i != which ==> s[i].prev == Prev(s, i)
  {
    PointAt(after, newItem);
    if after == parent.child {
      parent.child := newItem;
    } else {
      newItem.prev.next := newItem;
    }
  }

  /** The links between the new item and the one behind it */
  method PointAt(after: Node, newItem: Node)
    modifies newItem`next, newItem`prev, after`prev
    ensures newItem.next == after && after.prev == newItem
    ensures newItem != after ==> newItem.prev == old(after.prev)
  {
    newItem.next := after;
    newItem.prev := after.prev;
    after.prev := newItem;
  }

  lemma InsertedTwice(parent: Node, s: seq<Node>, which: nat, k: nat)
    requires which < |s| && k < |s| && Distinct(s)
    requires parent.child == if which == 0 then s[k] else s[0]
    requires which > 0 ==> s[which - 1].next == s[k]
    requires s[k].next == if which == k + 1 then s[k] else s[which]
    requires forall i :: 0 <= i < |s| && i + 1 != which && i != k ==> s[i].next == Next(s, i)
    requires k + 1 < which ==> s[k].prev == s[which - 1]
    ensures forall t :: !Children(parent, t)
  {
    if which <= k {
      Circle(parent, s, which, k);
    } else if which == k + 1 {
      NoList(parent, s[..which] + [s[k]], k);
    } else {
      Shortcut(parent, s, k, which, Last(s));
    }
  }

  /** From the item before place i to item k, and on from item i or the one behind it to item k again */
  lemma Circle(parent: Node, s: seq<Node>, i: nat, k: nat)
    requires i <= k < |s| && parent.child == if i == 0 then s[k] else s[0]
    requires i > 0 ==> s[i - 1].next == s[k]
    requires s[k].next == s[i]
    requires forall m :: 0 <= m < k && m + 1 != i ==> s[m].next == s[m + 1]
    ensures forall t :: !Children(parent, t)
  {
    NoList(parent, s[..i] + [s[k]] + s[i..k + 1], i);
  }

  /** From item k straight to item i, while item k points back elsewhere */
  lemma Shortcut(parent: Node, s: seq<Node>, k: nat, i: nat, last: Node)
    requires k + 1 < i <= |s| && Distinct(s) && parent.child == s[0]
    requires s[k].next == (if i < |s| then s[i] else null) && s[k].prev == s[i - 1]
    requires forall m :: 0 <= m < |s| && m != k && m + 1 != i ==> s[m].next == Next(s, m)
    requires last == if i < |s| then Last(s) else s[k]
    requires k > 0 || s[k].prev != last
    ensures forall t :: !Children(parent, t)
  {
    var p := s[..k + 1] + s[i..];
    assert Last(p) == last && Last(p).next == null;
    NotLinkedBack(parent, p, k);
  }

  lemma Inserted(parent: Node, s: seq<Node>, k: nat, item: Node)
    requires k < |s| && parent !in s && Distinct(s) && item !in s && item != parent
    requires parent.child == (if k == 0 then item else s[0])
    requires item.next == s[k] && item.prev == (if k > 0 then s[k - 1] else Last(s)) && s[k].prev == item
    requires forall i :: 0 <= i < |s| && i + 1 != k ==> s[i].next == Next(s, i)
    requires k > 0 ==> s[k - 1].next == item
    requires forall i :: 0 <= i < |s| && i != k ==> s[i].prev == Prev(s, i)
    ensures Children(parent, s[..k] + [item] + s[k..])
  {
    var t := s[..k] + [item] + s[k..];
    InsertedDistinct(s, k, item);
    forall i | 0 <= i < |t| ensures Linked(t, i) {
      InsertedAt(s, k, item, i);
    }
  }

  lemma InsertedAt(s: seq<Node>, k: nat, item: Node, i: nat)
    requires k < |s| && i <= |s|
    ensures var t := s[..k] + [item] + s[k..];
      && t[i] == (if i < k then s[i] else if i == k then item else s[i - 1])
      && Next(t, i) == (if i + 1 < k then s[i + 1] else if i + 1 == k then item else if i == k then s[k] else Next(s, i - 1))
      && Prev(t, i) == (if i == 0 then Last(s) else if i <= k then s[i - 1] else if i == k + 1 then item else s[i - 2])
  {
  }

  lemma InsertedDistinct(s: seq<Node>, k: nat, item: Node)
    requires k < |s| && Distinct(s) && item !in s
    ensures Distinct(s[..k] + [item] + s[k..]) && Last(s[..k] + [item] + s[k..]) == Last(s)
  {
    var t := s[..k] + [item] + s[k..];
    forall i, j | 0 <= i < j < |t| ensures t[i] != t[j] {
      assert t[i] == (if i < k then s[i] else if i == k then item else s[i - 1]);
      assert t[j] == (if j < k then s[j] else if j == k then item else s[j - 1]);
    }
  }

  /** cJSON_ReplaceItemViaPointer: the replacement takes the item's place. The item's memory is then released. A
      replacement that is another child already, or the parent itself, leaves no list, with one exception: the first
      child in place of the last of three or more stays as the only child, and the ones between are lost. In the list of
      another node a fresh replacement takes the item's place if that was neither the first nor the last; the parent's
      list does not survive the last, the other neither of them. For an item in no list the parent loses its own. */
  method ReplaceItemViaPointer(parent: Node, item: Node?, replacement: Node?, ghost s: seq<Node>, ghost other: Node,
                               ghost u: seq<Node>)
    returns (ok: bool)
    requires Children(parent, s)
    requires item != null ==> item in s || Foreign(parent, s, item, other, u) || Loose(item)
    modifies parent`child, s`next, s`prev, u`next, u`prev
    modifies (if item == null then {} else {item})`next, (if item == null then {} else {item})`prev
    modifies (if replacement == null then {} else {replacement})`next
    modifies (if replacement == null then {} else {replacement})`prev
    ensures ok <==> item != null && replacement != null && s != []
    ensures !ok || (replacement == item && item !in s) ==> Children(parent, s)
    ensures ok && item in s && (replacement == item || (replacement !in s && replacement != parent)) ==>
      forall k :: 0 <= k < |s| && s[k] == item ==> Children(parent, s[k := replacement])
    ensures ok && item in s && replacement == parent ==> forall t :: !Children(parent, t)
    ensures ok && item in s && replacement in s && replacement != item ==>
      if FirstForLast(s, item, replacement) then Children(parent, [replacement]) else forall t :: !Children(parent, t)
    ensures ok && replacement != item ==> item.next == null && item.prev == null
    ensures ok && item !in s && old(Foreign(parent, s, item, other, u)) && Fresh(replacement, parent, s, other, u) ==>
      forall k :: 0 <= k < |u| && u[k] == item ==>
        && (if k + 1 < |u| then Children(parent, s) else forall t :: !Children(parent, t))
        && (if 0 < k < |u| - 1 then Children(other, u[k := replacement]) else forall t :: !Children(other, t))
    ensures ok && item !in s && old(Loose(item)) && Fresh(replacement, parent, s, other, u) && replacement != item ==>
      forall t :: !Children(parent, t)
  {
    if parent.child == null || replacement == null || item == null {
      return false;
    }
    ok := true;
    if replacement == item {
      assert forall k :: 0 <= k < |s| && s[k] == item ==> s[k := replacement] == s;
      return;
    }
    Splice(parent, item, replacement, s, other, u);
  }

  /** Linked to nothing */
  predicate Loose(item: Node)
    reads item
  {
    item.next == null && item.prev == null
  }

  ghost predicate Fresh(replacement: Node, parent: Node, s: seq<Node>, other: Node, u: seq<Node>) {
    replacement != parent && replacement != other && replacement !in s && replacement !in u
  }

  ghost predicate FirstForLast(s: seq<Node>, item: Node, replacement: Node) {
    |s| >= 3 && s[0] == replacement && Last(s) == item
  }

  /** Whose child an item is */
  datatype Home = Parents | Others | Nobodys

  /** The pointer surgery of the replacement */
  method Splice(parent: Node, item: Node, replacement: Node, ghost s: seq<Node>, ghost other: Node, ghost u: seq<Node>)
    requires Children(parent, s) && s != [] && replacement != item
    requires item in s || Foreign(parent, s, item, other, u) || Loose(item)
    modifies parent`child, replacement`next, replacement`prev, item`next, item`prev, s`next, s`prev, u`next, u`prev
    ensures item.next == null && item.prev == null
    ensures item in s && replacement !in s && replacement != parent ==>
      forall k :: 0 <= k < |s| && s[k] == item ==> Children(parent, s[k := replacement])
    ensures item in s && replacement == parent ==> forall t :: !Children(parent, t)
    ensures item in s && replacement in s ==>
      if FirstForLast(s, item, replacement) then Children(parent, [replacement]) else forall t :: !Children(parent, t)
    ensures item !in s && old(Foreign(parent, s, item, other, u)) && Fresh(replacement, parent, s, other, u) ==>
      forall k :: 0 <= k < |u| && u[k] == item ==>
        && (if k + 1 < |u| then Children(parent, s) else forall t :: !Children(parent, t))
        && (if 0 < k < |u| - 1 then Children(other, u[k := replacement]) else forall t :: !Children(other, t))
    ensures item !in s && old(Loose(item)) && Fresh(replacement, parent, s, other, u) ==> forall t :: !Children(parent, t)
  {
    ghost var k, home := 0, Nobodys;
    if item in s {
      home := Parents;
      k :| 0 <= k < |s| && s[k] == item;
    } else if Foreign(parent, s, item, other, u) {
      home := Others;
      k :| 0 <= k < |u| && u[k] == item;
      assert Linked(u, k);
    }
    SpliceLinked(parent, item, replacement, s, other, u, k, home);
  }

  /** What it does with item k of the parent's list s or of the other's list u, or with an item of none */
  method SpliceLinked(parent: Node, item: Node, replacement: Node, ghost s: seq<Node>, ghost other: Node,
                      ghost u: seq<Node>, ghost k: nat, ghost home: Home)
    requires Children(parent, s) && s != [] && replacement != item
    requires match home
      case Parents => k < |s| && s[k] == item
      case Others => Foreign(parent, s, item, other, u) && k < |u| && u[k] == item
      case Nobodys => item !in s && Loose(item)
    modifies parent`child, replacement`next, replacement`prev, item`next, item`prev, s`next, s`prev, u`next, u`prev
    ensures item.next == null && item.prev == null
    ensures home == Parents && replacement !in s && replacement != parent ==> Children(parent, s[k := replacement])
    ensures home == Parents && replacement == parent ==> forall t :: !Children(parent, t)
    ensures home == Parents && replacement in s ==>
      if FirstForLast(s, item, replacement) then Children(parent, [replacement]) else forall t :: !Children(parent, t)
    ensures home == Others && Fresh(replacement, parent, s, other, u) ==>
      && (if k + 1 < |u| then Children(parent, s) else forall t :: !Children(parent, t))
      && (if 0 < k < |u| - 1 then Children(other, u[k := replacement]) else forall t :: !Children(other, t))
    ensures home == Nobodys && Fresh(replacement, parent, s, other, u) ==> forall t :: !Children(parent, t)
  {
    Links(parent, s);
    ghost var first, was, v := parent.child, parent.child.prev, s;
    if home == Others {
      Links(other, u);
      v := u;
    } else if home == Nobodys {
      v := [];
    }
    ghost var loose := home == Nobodys;
    TakeLinks(item, replacement, v, k, loose, s);
    if parent.child == item {
      TakeFirst(parent, item, replacement, s);
    } else {
      TakeInner(parent, item, replacement, v, k, loose, s);
    }
    if home == Parents {
      if k > 0 && replacement != s[0] {
        InnerHere(s, k, replacement);
      }
      SplicedHere(parent, s, k, replacement);
    } else if Fresh(replacement, parent, s, other, u) {
      if home == Others {
        InnerThere(u, k, replacement, first, was);
        SplicedThere(other, u, k, replacement);
      }
      LeftAlone(parent, s, if loose || k == |u| - 1 then replacement else null);
    }
  }

  /** The links after item k of the parent's list v was replaced */
  ghost predicate Respliced(v: seq<Node>, k: nat, replacement: Node)
    requires k < |v|
    reads v, replacement
  {
    && v[k].next == null && v[k].prev == null
    && (forall i :: 0 <= i < |v| && i != k && v[i] != replacement ==>
          v[i].next == if i + 1 == k && Next(v, k) != replacement then replacement else Next(v, i))
    && (forall i :: 0 < i < |v| && i != k && v[i] != replacement ==> v[i].prev == if i == k + 1 then replacement else Prev(v, i))
    && (k > 0 && replacement !in v ==> v[0].prev == if k == |v| - 1 then replacement else Last(v))
    && replacement.next == (if k > 0 && Next(v, k) != replacement && v[k - 1] == replacement then replacement else Next(v, k))
    && replacement.prev == (if k == 0 then (if Next(v, k) == replacement || |v| == 1 then replacement else Last(v))
                            else if Next(v, k) == replacement || (k == |v| - 1 && v[0] == replacement) then replacement
                            else v[k - 1])
  }

  lemma SplicedHere(parent: Node, s: seq<Node>, k: nat, replacement: Node)
    requires k < |s| && Distinct(s) && parent !in s && replacement != s[k]
    requires parent.child == (if k == 0 then replacement else s[0]) && Respliced(s, k, replacement)
    ensures replacement !in s && replacement != parent ==> Children(parent, s[k := replacement])
    ensures replacement == parent ==> forall t :: !Children(parent, t)
    ensures replacement in s ==>
      if FirstForLast(s, s[k], replacement) then Children(parent, [replacement]) else forall t :: !Children(parent, t)
  {
    if replacement in s {
      UpdatedTwice(parent, s, k, replacement);
    } else if replacement == parent {
      ToParent(parent, s, k);
    } else {
      Updated(parent, s, k, replacement);
    }
  }

  /** The links after item k of another list u was replaced by a fresh one */
  ghost predicate SplicedIn(u: seq<Node>, k: nat, replacement: Node)
    requires k < |u|
    reads u, replacement
  {
    && u[k].next == null && u[k].prev == null
    && replacement.next == Next(u, k) && replacement.prev == Prev(u, k)
    && (forall i :: 0 <= i < |u| && i != k ==> u[i].next == if u[i] == Prev(u, k) then replacement else Next(u, i))
    && (forall i :: 0 <= i < |u| && i != k ==> u[i].prev == if i == k + 1 then replacement else Prev(u, i))
  }

  /** The first item is replaced. */
  method TakeFirst(parent: Node, item: Node, replacement: Node, ghost s: seq<Node>)
    requires s != [] && Distinct(s) && s[0] == item == parent.child && replacement != item && parent !in s
    requires Taken(s, 0, replacement)
    modifies parent`child, replacement`prev, item`next, item`prev
    ensures parent.child == replacement && Respliced(s, 0, replacement)
  {
    if parent.child.prev == parent.child {
      replacement.prev := replacement;
    }
    parent.child := replacement;
    Forget(item);
  }

  /** Another one is replaced, of the parent's list, of another one or of none. */
  method TakeInner(parent: Node, item: Node, replacement: Node, ghost v: seq<Node>, ghost k: nat, ghost loose: bool,
                   ghost w: seq<Node>)
    requires parent.child != null && parent.child != item && replacement != item
    requires if loose then Loose(replacement) && v == [] else k < |v| && Distinct(v) && v[k] == item && Taken(v, k, replacement)
    requires parent.child in v ==> parent.child == v[0] && parent !in v
    requires w != v && replacement !in w ==> Apart(w, v) && AllBut(w, null)
    modifies v`next, v`prev, replacement`next, replacement`prev, item`next, item`prev, {parent.child}`prev
    ensures item.next == null && item.prev == null
    ensures !loose ==> Inner(v, k, replacement, parent.child, old(parent.child.prev))
    ensures loose && parent.child != replacement ==> parent.child.prev == replacement
    ensures w != v && replacement !in w && item !in w ==> AllBut(w, parent.child)
  {
    PointForth(replacement, v, k, loose, w);
    if replacement.next == null {
      parent.child.prev := replacement;
    }
    Forget(item);
    forall i | 0 <= i < |w| && w != v && replacement !in w && item !in w
      ensures w[i].next == Next(w, i) && (w[i] != parent.child ==> w[i].prev == Prev(w, i))
    {
      assert w[i] !in v;
    }
  }

  /** What TakeInner leaves of list v; first is the parent's first child, was its prev before. */
  ghost predicate Inner(v: seq<Node>, k: nat, replacement: Node, first: Node, was: Node?)
    requires k < |v|
    reads v, replacement, first
  {
    var before := if Next(v, k) == replacement then replacement else Prev(v, k);
    var last := before != replacement && Next(v, k) == null;
    && v[k].next == null && v[k].prev == null
    && (forall i :: 0 <= i < |v| && i != k && v[i] != replacement ==>
          v[i].next == if v[i] == before then replacement else Next(v, i))
    && (forall i :: 0 <= i < |v| && i != k && v[i] != replacement && v[i] != first ==>
          v[i].prev == if i == k + 1 then replacement else Prev(v, i))
    && replacement.next == (if before == replacement then replacement else Next(v, k))
    && replacement.prev == (if replacement == first && last then replacement else before)
    && (first != replacement ==> first.prev == if last then replacement else was)
  }

  lemma InnerHere(v: seq<Node>, k: nat, replacement: Node)
    requires 0 < k < |v| && Distinct(v) && replacement != v[k] && Inner(v, k, replacement, v[0], Last(v))
    ensures Respliced(v, k, replacement)
  {
  }

  lemma InnerThere(u: seq<Node>, k: nat, replacement: Node, first: Node, was: Node?)
    requires k < |u| && first !in u && replacement !in u && first != replacement
    requires Inner(u, k, replacement, first, was)
    ensures SplicedIn(u, k, replacement) && first.prev == if k == |u| - 1 then replacement else was
  {
  }

  /** The item before points at the replacement. */
  method PointForth(replacement: Node, ghost v: seq<Node>, ghost k: nat, ghost loose: bool, ghost w: seq<Node>)
    requires if loose then Loose(replacement) && v == [] else k < |v| && Distinct(v) && Taken(v, k, replacement)
    requires w != v && replacement !in w ==> Apart(w, v) && AllBut(w, null)
    modifies v`next, replacement`next
    ensures replacement.next == if replacement.prev == replacement then replacement else old(replacement.next)
    ensures forall i :: 0 <= i < |v| && v[i] != replacement ==>
      v[i].next == if v[i] == replacement.prev then replacement else Next(v, i)
    ensures w != v && replacement !in w ==> AllBut(w, null)
  {
    if replacement.prev != null {
      replacement.prev.next := replacement;
    }
    forall i | 0 <= i < |w| && w != v && replacement !in w ensures w[i].next == Next(w, i) && w[i].prev == Prev(w, i) {
      assert w[i] !in v;
    }
  }

  /** What TakeLinks leaves */
  ghost predicate Taken(s: seq<Node>, k: nat, replacement: Node)
    requires k < |s|
    reads s, replacement
  {
    && replacement.next == Next(s, k)
    && replacement.prev == (if Next(s, k) == replacement then replacement else Prev(s, k))
    && (forall i :: 0 <= i < |s| && s[i] != replacement ==> s[i].next == Next(s, i))
    && (forall i :: 0 <= i < |s| && s[i] != replacement ==> s[i].prev == if i == k + 1 then replacement else Prev(s, i))
  }

  /** The replacement gets the item's links, and the next item points back at it. */
  method TakeLinks(item: Node, replacement: Node, ghost v: seq<Node>, ghost k: nat, ghost loose: bool, ghost w: seq<Node>)
    requires replacement != item && if loose then Loose(item) && v == [] else k < |v| && v[k] == item && Distinct(v)
    requires forall i :: 0 <= i < |v| ==> v[i].next == Next(v, i)
    requires forall i :: 0 <= i < |v| ==> v[i].prev == Prev(v, i)
    requires w != v ==> Apart(w, v) && AllBut(w, null)
    modifies replacement`next, replacement`prev, v`prev
    ensures if loose then Loose(replacement) else Taken(v, k, replacement)
    ensures w != v && replacement !in w ==> AllBut(w, null)
  {
    replacement.next := item.next;
    replacement.prev := item.prev;
    if replacement.next != null {
      replacement.next.prev := replacement;
    }
    forall i | 0 <= i < |w| && w != v && replacement !in w ensures w[i].next == Next(w, i) && w[i].prev == Prev(w, i) {
      assert w[i] !in v;
    }
  }

  /** What an item leaves behind when it is replaced through another parent */
  lemma SplicedThere(other: Node, u: seq<Node>, k: nat, replacement: Node)
    requires k < |u| && Distinct(u) && other !in u && other.child == u[0] && replacement !in u && replacement != other
    requires SplicedIn(u, k, replacement)
    ensures if 0 < k < |u| - 1 then Children(other, u[k := replacement]) else forall t :: !Children(other, t)
  {
    if k == 0 {
      NotLinkedBack(other, [u[0]], 0);
    } else if k == |u| - 1 {
      NotLinkedBack(other, u[..k] + [replacement], 0);
    } else {
      Updated(other, u, k, replacement);
    }
  }

  lemma UpdatedTwice(parent: Node, s: seq<Node>, k: nat, item: Node)
    requires k < |s| && Distinct(s) && parent !in s && item in s && item != s[k]
    requires parent.child == if k == 0 then item else s[0]
    requires s[k].next == null && s[k].prev == null
    requires forall i :: 0 <= i < |s| && i != k && s[i] != item ==> s[i].next == if i + 1 == k && Next(s, k) != item then item
                                                                          else Next(s, i)
    requires item.next == if k > 0 && Next(s, k) != item && s[k - 1] == item then item else Next(s, k)
    requires item.prev == if k == 0 then (if Next(s, k) == item then item else Last(s))
                          else if Next(s, k) == item || (k == |s| - 1 && s[0] == item) then item else s[k - 1]
    ensures if FirstForLast(s, s[k], item) then Children(parent, [item]) else forall t :: !Children(parent, t)
  {
    var j :| 0 <= j < |s| && s[j] == item;
    if k < j {
      LaterForEarlier(parent, s, k, j);
    } else if j + 1 == k {
      NoList(parent, s[..k] + [item], j);
    } else {
      EarlierForLater(parent, s, k, j);
    }
  }

  lemma LaterForEarlier(parent: Node, s: seq<Node>, k: nat, j: nat)
    requires k < j < |s| && parent.child == if k == 0 then s[j] else s[0]
    requires s[k].prev == null && s[j].next == s[k + 1]
    requires forall i :: 0 <= i < j && i != k ==> s[i].next == if i + 1 == k && j != k + 1 then s[j] else s[i + 1]
    ensures forall t :: !Children(parent, t)
  {
    if j > k + 1 {
      NoList(parent, s[..k] + [s[j]] + s[k + 1..j + 1], k);
    } else if k > 0 {
      NotLinkedBack(parent, s[..k + 1], k);
    } else {
      NoList(parent, [s[j], s[j]], 0);
    }
  }

  /** The items from behind the replacement to the replaced one are skipped. */
  lemma EarlierForLater(parent: Node, s: seq<Node>, k: nat, j: nat)
    requires j + 1 < k < |s| && Distinct(s) && parent !in s && parent.child == s[0]
    requires forall i :: 0 <= i < |s| && i != j && i != k && i + 1 != k ==> s[i].next == Next(s, i)
    requires s[j].next == Next(s, k) && s[j].prev == if k == |s| - 1 && j == 0 then s[0] else s[k - 1]
    ensures if FirstForLast(s, s[k], s[j]) then Children(parent, [s[j]]) else forall t :: !Children(parent, t)
  {
    if j == 0 && k == |s| - 1 {
      assert Linked([s[0]], 0);
    } else {
      var p := s[..j + 1] + s[k + 1..];
      assert Last(p) == (if k + 1 < |s| then Last(s) else s[j]) && Last(p).next == null;
      NotLinkedBack(parent, p, j);
    }
  }

  lemma Updated(parent: Node, s: seq<Node>, k: nat, item: Node)
    requires k < |s| && parent !in s && Distinct(s) && item !in s && item != parent
    requires parent.child == (if k == 0 then item else s[0])
    requires item.next == (if k + 1 < |s| then s[k + 1] else null)
    requires item.prev == (if k > 0 then s[k - 1] else if |s| == 1 then item else Last(s))
    requires forall i :: 0 <= i < |s| && i != k && i + 1 != k ==> s[i].next == Next(s, i)
    requires k > 0 ==> s[k - 1].next == item
    requires forall i :: 0 < i < |s| && i != k && i != k + 1 ==> s[i].prev == Prev(s, i)
    requires k + 1 < |s| ==> s[k + 1].prev == item
    requires k > 0 ==> s[0].prev == (if k == |s| - 1 then item else Last(s))
    ensures Children(parent, s[k := item])
  {
    var t := s[k := item];
    forall i | 0 <= i < |t| ensures Linked(t, i) {
      assert i != k ==> t[i] == s[i];
      assert Next(t, i) == if i + 1 == k then item else Next(s, i);
      assert Prev(t, i) == if i == k + 1 || (i == 0 && k == |s| - 1) then item else Prev(s, i);
    }
  }

  /** cJSON_ReplaceItemInArray */
  method ReplaceItemInArray(parent: Node, which: int, newItem: Node, ghost s: seq<Node>) returns (ok: bool)
    requires Children(parent, s)
    modifies parent`child, newItem`next, newItem`prev, s`next, s`prev
    ensures ok <==> 0 <= which < |s|
    ensures !ok ==> Children(parent, s)
    ensures ok && (newItem == s[which] || (newItem !in s && newItem != parent)) ==> Children(parent, s[which := newItem])
    ensures ok && newItem == parent ==> forall t :: !Children(parent, t)
    ensures ok && newItem in s && newItem != s[which] ==>
      if FirstForLast(s, s[which], newItem) then Children(parent, [newItem]) else forall t :: !Children(parent, t)
  {
    if which < 0 {
      return false;
    }
    var item := GetArrayItem(parent, which, s);
    ok := ReplaceItemViaPointer(parent, item, newItem, s, parent, []);
  }

  // ---- The operations on sequences --------------------------------------------------------------------------

  datatype Edit = Add(item: Node) | InsertAt(which: nat, item: Node) | DetachAt(which: nat) | ReplaceAt(which: nat, item: Node)

  /** Append, insert, remove, update */
  function Edited(s: seq<Node>, e: Edit): seq<Node> {
    match e
    case Add(item) => s + [item]
    case InsertAt(which, item) => if which < |s| then s[..which] + [item] + s[which..] else s + [item]
    case DetachAt(which) => if which < |s| then s[..which] + s[which + 1..] else s
    case ReplaceAt(which, item) => if which < |s| then s[which := item] else s
  }

  /** What was inserted can be detached again, and what was replaced put back. */
  lemma EditsUndone(s: seq<Node>, k: nat, item: Node)
    requires k <= |s|
    ensures Edited(Edited(s, InsertAt(k, item)), DetachAt(k)) == s
    ensures k < |s| ==> Edited(Edited(s, DetachAt(k)), InsertAt(k, s[k])) == s
    ensures k < |s| ==> Edited(Edited(s, ReplaceAt(k, item)), ReplaceAt(k, s[k])) == s
  {
    InsertUndone(s, k, item);
    if k < |s| {
      DetachUndone(s, k);
    }
  }

  lemma InsertUndone(s: seq<Node>, k: nat, item: Node)
    requires k <= |s|
    ensures Edited(Edited(s, InsertAt(k, item)), DetachAt(k)) == s
  {
    var t := s[..k] + [item] + s[k..];
    assert Edited(s, InsertAt(k, item)) == t;
    assert t[..k] == s[..k] && t[k + 1..] == s[k..];
    assert s[..k] + s[k..] == s;
  }

  lemma DetachUndone(s: seq<Node>, k: nat)
    requires k < |s|
    ensures Edited(Edited(s, DetachAt(k)), InsertAt(k, s[k])) == s
  {
    var t := s[..k] + s[k + 1..];
    assert t[..k] == s[..k] && t[k..] == s[k + 1..];
    assert s[..k] + [s[k]] + s[k + 1..] == s;
  }

  /** Each operation acts on the sequence of children, and a list that shares no node with it stays. */
  method AddApart(parent: Node, item: Node, ghost s: seq<Node>, other: Node, ghost u: seq<Node>)
    requires Children(parent, s) && item !in s && item != parent && item.next == null
    requires Children(other, u) && other != parent && forall n :: n in u ==> n != item && n !in s
    modifies parent`child, item`next, item`prev, s`next, s`prev
    ensures Children(parent, Edited(s, Add(item))) && Children(other, u)
  {
    Links(other, u);
    var r := AddItemToArray(parent, item, s);
    forall i | 0 <= i < |u| ensures u[i].next == Next(u, i) && u[i].prev == Prev(u, i) {
      assert u[i] in u;
    }
    Relink(other, u);
  }

  method InsertApart(parent: Node, which: nat, item: Node, ghost s: seq<Node>, other: Node, ghost u: seq<Node>)
    requires Children(parent, s) && item !in s && item != parent && item.next == null
    requires Children(other, u) && other != parent && forall n :: n in u ==> n != item && n !in s
    modifies parent`child, item`next, item`prev, s`next, s`prev
    ensures Children(parent, Edited(s, InsertAt(which, item))) && Children(other, u)
  {
    Links(other, u);
    var r := InsertItemInArray(parent, which, item, s);
    forall i | 0 <= i < |u| ensures u[i].next == Next(u, i) && u[i].prev == Prev(u, i) {
      assert u[i] in u;
    }
    Relink(other, u);
  }

  method DetachApart(parent: Node, which: nat, ghost s: seq<Node>, other: Node, ghost u: seq<Node>)
    requires Children(parent, s)
    requires Children(other, u) && other != parent && forall n :: n in u ==> n !in s
    modifies parent`child, s`next, s`prev
    ensures Children(parent, Edited(s, DetachAt(which))) && Children(other, u)
  {
    Links(other, u);
    var r := DetachItemFromArray(parent, which, s);
    forall i | 0 <= i < |u| ensures u[i].next == Next(u, i) && u[i].prev == Prev(u, i) {
      assert u[i] in u;
    }
    Relink(other, u);
  }

  method ReplaceApart(parent: Node, which: nat, item: Node, ghost s: seq<Node>, other: Node, ghost u: seq<Node>)
    requires Children(parent, s) && item !in s && item != parent && item.next == null
    requires Children(other, u) && other != parent && forall n :: n in u ==> n != item && n !in s
    modifies parent`child, item`next, item`prev, s`next, s`prev
    ensures Children(parent, Edited(s, ReplaceAt(which, item))) && Children(other, u)
  {
    Links(other, u);
    var r := ReplaceItemInArray(parent, which, item, s);
    forall i | 0 <= i < |u| ensures u[i].next == Next(u, i) && u[i].prev == Prev(u, i) {
      assert u[i] in u;
    }
    Relink(other, u);
  }

  lemma Relink(parent: Node, s: seq<Node>)
    requires parent !in s && Distinct(s) && parent.child == (if s == [] then null else s[0])
    requires forall i :: 0 <= i < |s| ==> s[i].next == Next(s, i) && s[i].prev == Prev(s, i)
    ensures Children(parent, s)
  {
  }
}
