/**
 The doubly linked list: nodes on the heap, linked both ways, rewritten in place.
 A list stands for the sequence of its nodes from head to tail; every operation is a sequence
 operation on it, and of the nodes it touches only the links of the neighbours change.
 */
module DLists {
  /** A pointer to what the user stores, and to what the user searches by. */
  type Data = int
  type Key = int

  datatype Option<T> = None | Some(value: T)

  class Element {
    var data: Data
    var prev: Element?
    var next: Element?

    constructor (data: Data)
      ensures this.data == data && prev == null && next == null
    {
      this.data := data;
      prev, next := null, null;
    }
  }

  // ---------------------------------------------------------------- sequences

  /** A sequence with something put in at place k. */
  function Insert<T>(s: seq<T>, k: nat, x: T): seq<T>
    requires k <= |s|
  {
    s[..k] + [x] + s[k..]
  }

  /** A sequence without its place k. */
  function Delete<T>(s: seq<T>, k: nat): seq<T>
    requires k < |s|
  {
    s[..k] + s[k + 1..]
  }

  function Reversed<T>(s: seq<T>): (r: seq<T>)
    ensures |r| == |s|
    ensures forall i :: 0 <= i < |s| ==> r[i] == s[|s| - 1 - i]
  {
    if s == [] then [] else [s[|s| - 1]] + Reversed(s[..|s| - 1])
  }

  lemma NothingReversed<T>()
    ensures Reversed<T>([]) == []
  {}

  /** Moving the last of the remaining elements to the end of a log. */
  lemma ReversedPrefix<T>(s: seq<T>, n: nat, log: seq<T>)
    requires n < |s|
    ensures s[..n + 1][..n] == s[..n] && s[..n + 1][n] == s[n]
    ensures log + Reversed(s[..n + 1]) == log + [s[n]] + Reversed(s[..n])
  {
    assert s[..n + 1][..n] == s[..n];
  }

  /** What insertion does, deletion undoes, and the other way round. */
  lemma InsertDelete<T>(s: seq<T>, k: nat, x: T)
    ensures k <= |s| ==> Delete(Insert(s, k, x), k) == s
    ensures k < |s| ==> Insert(Delete(s, k), k, s[k]) == s
  {}

  // ---------------------------------------------------------------- nodes

  ghost predicate Distinct(ns: seq<Element>) {
    forall i, j :: 0 <= i < j < |ns| ==> ns[i] != ns[j]
  }

  /** Each node points to its neighbours, and to nothing at the two ends. */
  ghost predicate Linked(ns: seq<Element>)
    reads ns
  {
    && (forall i {:trigger ns[i].prev} :: 0 <= i < |ns| ==> ns[i].prev == if i == 0 then null else ns[i - 1])
    && (forall i {:trigger ns[i].next} :: 0 <= i < |ns| ==> ns[i].next == if i == |ns| - 1 then null else ns[i + 1])
  }

  /** What the nodes store. */
  ghost function Values(ns: seq<Element>): (s: seq<Data>)
    reads ns
    ensures |s| == |ns| && forall i :: 0 <= i < |ns| ==> s[i] == ns[i].data
  {
    seq(|ns|, i requires 0 <= i < |ns| reads ns => ns[i].data)
  }

  /** The place of a node. */
  ghost function Place(ns: seq<Element>, e: Element): (i: nat)
    requires e in ns
    ensures i < |ns| && ns[i] == e
  {
    var i :| 0 <= i < |ns| && ns[i] == e; i
  }

  /** The first and the last node, if there are any. */
  ghost function First(ns: seq<Element>): Element? { if ns == [] then null else ns[0] }

  ghost function Last(ns: seq<Element>): Element? { if ns == [] then null else ns[|ns| - 1] }

  /** The node before place k, and the node at place k. */
  ghost function Before(ns: seq<Element>, k: nat): Element?
    requires k <= |ns|
  {
    if k == 0 then null else ns[k - 1]
  }

  ghost function From(ns: seq<Element>, k: nat): Element?
    requires k <= |ns|
  {
    if k == |ns| then null else ns[k]
  }

  /** e stands at place k and nowhere else; if there is no such place, nowhere. */
  ghost predicate OnlyAt(ns: seq<Element>, k: int, e: Element?) {
    forall i :: 0 <= i < |ns| ==> (ns[i] == e <==> i == k)
  }

  lemma LinksOf(ns: seq<Element>, k: nat)
    requires k < |ns| && Linked(ns) && Distinct(ns)
    ensures OnlyAt(ns, k - 1, ns[k].prev) && OnlyAt(ns, k, ns[k]) && OnlyAt(ns, k + 1, ns[k].next)
    ensures ns[k].prev == Before(ns, k) && ns[k].next == From(ns, k + 1)
    ensures ns[k].prev == null <==> k == 0
    ensures ns[k].next == null <==> k == |ns| - 1
  {}

  lemma OnlyOne(e: Element)
    requires e.prev == null && e.next == null
    ensures Distinct([e]) && Linked([e]) && Values([e]) == [e.data]
    ensures Insert([], 0, e) == [e] && Insert([], 0, e.data) == [e.data]
  {}

  lemma InsertEnd<T>(s: seq<T>, k: nat, x: T)
    requires k <= |s|
    ensures k == |s| ==> Insert(s, k, x) == s + [x]
    ensures k == 0 ==> Insert(s, k, x) == [x] + s
  {}

  lemma DeleteEnd<T>(s: seq<T>, k: nat)
    requires k < |s|
    ensures k == |s| - 1 ==> Delete(s, k) == s[..k]
  {}

  lemma HeadPlace(ns: seq<Element>, k: nat)
    requires k < |ns| && Distinct(ns)
    ensures ns[k] == First(ns) <==> k == 0
    ensures ns[k] == Last(ns) <==> k == |ns| - 1
  {}

  /** The links of the nodes, read off. */
  ghost function Prevs(ns: seq<Element>): (s: seq<Element?>)
    reads ns
    ensures |s| == |ns| && forall i :: 0 <= i < |ns| ==> s[i] == ns[i].prev
  {
    seq(|ns|, i requires 0 <= i < |ns| reads ns => ns[i].prev)
  }

  ghost function Nexts(ns: seq<Element>): (s: seq<Element?>)
    reads ns
    ensures |s| == |ns| && forall i :: 0 <= i < |ns| ==> s[i] == ns[i].next
  {
    seq(|ns|, i requires 0 <= i < |ns| reads ns => ns[i].next)
  }

  /** What the links of linked nodes were. */
  ghost predicate WereLinked(ns: seq<Element>, prevs: seq<Element?>, nexts: seq<Element?>) {
    && |prevs| == |nexts| == |ns|
    && (forall i :: 0 <= i < |ns| ==> prevs[i] == Before(ns, i))
    && (forall i :: 0 <= i < |ns| ==> nexts[i] == From(ns, i + 1))
  }

  lemma LinkedWere(ns: seq<Element>)
    requires Linked(ns)
    ensures WereLinked(ns, Prevs(ns), Nexts(ns))
  {}

  /** Since their links were prevs and nexts, just the nodes at the places left and right have been turned. */
  ghost predicate Turned(ns: seq<Element>, prevs: seq<Element?>, nexts: seq<Element?>, left: int, right: int,
                         l: Element?, r: Element?)
    requires |prevs| == |nexts| == |ns|
    reads ns
  {
    && (forall i {:trigger ns[i].prev} :: 0 <= i < |ns| ==> ns[i].prev == if i == right then l else prevs[i])
    && (forall i {:trigger ns[i].next} :: 0 <= i < |ns| ==> ns[i].next == if i == left then r else nexts[i])
  }

  lemma InsertedLinked(ns: seq<Element>, prevs: seq<Element?>, nexts: seq<Element?>, k: nat, e: Element)
    requires k <= |ns| && WereLinked(ns, prevs, nexts)
    requires Turned(ns, prevs, nexts, k - 1, k, e, e) && e.prev == Before(ns, k) && e.next == From(ns, k)
    ensures Linked(Insert(ns, k, e))
  {
    var ms := Insert(ns, k, e);
    assert forall i :: 0 <= i < |ms| ==> ms[i] == if i < k then ns[i] else if i == k then e else ns[i - 1];
  }

  lemma InsertedEnds(ns: seq<Element>, k: nat, e: Element)
    requires k <= |ns| && Distinct(ns) && e !in ns
    ensures Distinct(Insert(ns, k, e)) && |Insert(ns, k, e)| == |ns| + 1
    ensures First(Insert(ns, k, e)) == (if k == 0 then e else First(ns))
    ensures Last(Insert(ns, k, e)) == (if k == |ns| then e else Last(ns))
    ensures Values(Insert(ns, k, e)) == Insert(Values(ns), k, e.data)
  {}

  lemma DeletedLinked(ns: seq<Element>, prevs: seq<Element?>, nexts: seq<Element?>, k: nat)
    requires k < |ns| && WereLinked(ns, prevs, nexts)
    requires Turned(ns, prevs, nexts, k - 1, k + 1, Before(ns, k), From(ns, k + 1))
    ensures Linked(Delete(ns, k))
  {
    var ms := Delete(ns, k);
    assert forall i :: 0 <= i < |ms| ==> ms[i] == if i < k then ns[i] else ns[i + 1];
  }

  lemma DeletedEnds(ns: seq<Element>, k: nat)
    requires k < |ns| && Distinct(ns)
    ensures Distinct(Delete(ns, k)) && |Delete(ns, k)| == |ns| - 1
    ensures First(Delete(ns, k)) == (if k == 0 then From(ns, 1) else First(ns))
    ensures Last(Delete(ns, k)) == (if k == |ns| - 1 then Before(ns, k) else Last(ns))
    ensures Values(Delete(ns, k)) == Delete(Values(ns), k)
  {}

  // ---------------------------------------------------------------- the list

  class DList {
    var size: int
    var head: Element?
    var tail: Element?
    ghost var nodes: seq<Element>

    // The callbacks: whether there is one that destroys data, and the two that a search uses.
    var destroy: bool
    var key: Option<Data -> Key>
    var compare: Option<(Key, Key) -> int>

    /** The data the destroy callback was called with, in order. */
    var destroyed: seq<Data>

    ghost predicate Valid()
      reads this, nodes
    {
      && size == |nodes| && Distinct(nodes) && Linked(nodes)
      && head == First(nodes) && tail == Last(nodes)
    }

    /** `iDListInit`. */
    constructor (destroy: bool)
      ensures Valid() && nodes == [] && this.destroy == destroy && destroyed == []
      ensures key == None && compare == None
    {
      size, head, tail, nodes := 0, null, null, [];
      this.destroy, destroyed, key, compare := destroy, [], None, None;
    }

    /** `iDListInitSearch`. */
    method InitSearch(key: Option<Data -> Key>, compare: Option<(Key, Key) -> int>)
      modifies `key, `compare
      ensures this.key == key && this.compare == compare
    {
      this.key, this.compare := key, compare;
    }

    // -------------------------------------------------------------- walking

    /** The node reached from the head by k steps forward: the k-th of the sequence, then nothing. */
    ghost function FromHead(k: nat): (e: Element?)
      requires Valid() && k <= |nodes|
      reads this, nodes
      ensures e == if k < |nodes| then nodes[k] else null
    {
      if k == 0 then head else FromHead(k - 1).next
    }

    /** The node reached from the tail by k steps backward: the sequence in reverse, then nothing. */
    ghost function FromTail(k: nat): (e: Element?)
      requires Valid() && k <= |nodes|
      reads this, nodes
      ensures e == if k < |nodes| then nodes[|nodes| - 1 - k] else null
    {
      if k == 0 then tail else FromTail(k - 1).prev
    }

    /** The two walks meet the same nodes in opposite order. */
    lemma WalksReversed(k: nat)
      requires Valid() && k < |nodes|
      ensures FromTail(k) == FromHead(|nodes| - 1 - k) != null
      ensures FromTail(k) == Reversed(nodes)[k]
    {}

    // -------------------------------------------------------------- insertion

    /** `iDListInsertAfter`; `added` is the node that the source allocates. */
    method InsertAfter(element: Element?, data: Data) returns (r: int, ghost added: Element?)
      requires Valid()
      requires element != null && size != 0 ==> element in nodes
      modifies `size, `head, `tail, `nodes, nodes
      ensures Valid()
      ensures r == if element == null && old(size) != 0 then -1 else 0
      ensures r == -1 ==> nodes == old(nodes) && Values(nodes) == old(Values(nodes))
      ensures r == 0 ==>
        var k := if old(size) == 0 then 0 else Place(old(nodes), element) + 1;
        && added != null && fresh(added)
        && nodes == Insert(old(nodes), k, added) && Values(nodes) == Insert(old(Values(nodes)), k, data)
    {
      hide Linked, Values, Distinct;
      added := null;
      if element == null && size != 0 { return -1, null; }
      var e := new Element(data);
      added := e;
      ghost var ns := nodes;
      if size == 0 {
        head, tail := e, e;
        assert nodes == [] && Values(nodes) == [];
        OnlyOne(e);
        nodes := [e];
      } else {
        SpliceAfter(element, e, Place(ns, element) + 1);
      }
      size := size + 1;
      r := 0;
    }

    /** The new node e enters the list at place k, after `element`. */
    method SpliceAfter(element: Element, e: Element, ghost k: nat)
      requires Distinct(nodes) && Linked(nodes) && head == First(nodes) && tail == Last(nodes) && e !in nodes
      requires 0 < k <= |nodes| && nodes[k - 1] == element
      modifies `head, `tail, `nodes, nodes, e
      ensures Distinct(nodes) && Linked(nodes) && head == First(nodes) && tail == Last(nodes)
      ensures nodes == Insert(old(nodes), k, e) && |nodes| == |old(nodes)| + 1
      ensures Values(nodes) == Insert(old(Values(nodes)), k, old(e.data))
    {
      hide Linked, Insert, Values, Distinct, Turned, WereLinked, OnlyAt;
      ghost var prevs, nexts := Prevs(nodes), Nexts(nodes);
      LinksOf(nodes, k - 1);
      LinkedWere(nodes);
      LinkAfter(element, e, k);
      InsertedLinked(nodes, prevs, nexts, k, e);
      InsertedEnds(nodes, k, e);
      nodes := Insert(nodes, k, e);
    }

    /** The links of a new node after `element`, which stands at place k - 1. */
    method LinkAfter(element: Element, e: Element, ghost k: nat)
      requires 0 < k <= |nodes| && nodes[k - 1] == element && element.next == From(nodes, k)
      requires OnlyAt(nodes, k - 1, element) && OnlyAt(nodes, k, element.next) && e !in nodes
      modifies `tail, nodes, e
      ensures Turned(nodes, old(Prevs(nodes)), old(Nexts(nodes)), k - 1, k, e, e) && Values(nodes) == old(Values(nodes))
      ensures e.prev == element && e.next == From(nodes, k) && e.data == old(e.data)
      ensures tail == if k == |nodes| then e else old(tail)
    {
      hide Values, Prevs, Nexts;
      e.next := element.next;
      e.prev := element;
      if element.next == null {
        tail := e;
      } else {
        element.next.prev := e;
      }
      element.next := e;
    }

    /** `iDListInsertBefore`. */
    method InsertBefore(element: Element?, data: Data) returns (r: int, ghost added: Element?)
      requires Valid()
      requires element != null && size != 0 ==> element in nodes
      modifies `size, `head, `tail, `nodes, nodes
      ensures Valid()
      ensures r == if element == null && old(size) != 0 then -1 else 0
      ensures r == -1 ==> nodes == old(nodes) && Values(nodes) == old(Values(nodes))
      ensures r == 0 ==>
        var k := if old(size) == 0 then 0 else Place(old(nodes), element);
        && added != null && fresh(added)
        && nodes == Insert(old(nodes), k, added) && Values(nodes) == Insert(old(Values(nodes)), k, data)
    {
      hide Linked, Values, Distinct;
      added := null;
      if element == null && size != 0 { return -1, null; }
      var e := new Element(data);
      added := e;
      ghost var ns := nodes;
      if size == 0 {
        head, tail := e, e;
        assert nodes == [] && Values(nodes) == [];
        OnlyOne(e);
        nodes := [e];
      } else {
        SpliceBefore(element, e, Place(ns, element));
      }
      size := size + 1;
      r := 0;
    }

    /** The new node e enters the list at place k, before `element`. */
    method SpliceBefore(element: Element, e: Element, ghost k: nat)
      requires Distinct(nodes) && Linked(nodes) && head == First(nodes) && tail == Last(nodes) && e !in nodes
      requires k < |nodes| && nodes[k] == element
      modifies `head, `tail, `nodes, nodes, e
      ensures Distinct(nodes) && Linked(nodes) && head == First(nodes) && tail == Last(nodes)
      ensures nodes == Insert(old(nodes), k, e) && |nodes| == |old(nodes)| + 1
      ensures Values(nodes) == Insert(old(Values(nodes)), k, old(e.data))
    {
      hide Linked, Insert, Values, Distinct, Turned, WereLinked, OnlyAt;
      ghost var prevs, nexts := Prevs(nodes), Nexts(nodes);
      LinksOf(nodes, k);
      LinkedWere(nodes);
      LinkBefore(element, e, k);
      InsertedLinked(nodes, prevs, nexts, k, e);
      InsertedEnds(nodes, k, e);
      nodes := Insert(nodes, k, e);
    }

    /** The links of a new node before `element`, which stands at place k. */
    method LinkBefore(element: Element, e: Element, ghost k: nat)
      requires k < |nodes| && nodes[k] == element && element.prev == Before(nodes, k)
      requires OnlyAt(nodes, k - 1, element.prev) && OnlyAt(nodes, k, element) && e !in nodes
      modifies `head, nodes, e
      ensures Turned(nodes, old(Prevs(nodes)), old(Nexts(nodes)), k - 1, k, e, e) && Values(nodes) == old(Values(nodes))
      ensures e.prev == Before(nodes, k) && e.next == element && e.data == old(e.data)
      ensures head == if k == 0 then e else old(head)
    {
      hide Values, Prevs, Nexts;
      e.next := element;
      e.prev := element.prev;
      if element.prev == null {
        head := e;
      } else {
        element.prev.next := e;
      }
      element.prev := e;
    }

    /** `iDListAppend`. */
    method Append(data: Data) returns (r: int, ghost added: Element?)
      requires Valid()
      modifies `size, `head, `tail, `nodes, nodes
      ensures Valid() && r == 0 && added != null && fresh(added)
      ensures nodes == old(nodes) + [added] && Values(nodes) == old(Values(nodes)) + [data]
    {
      hide Linked, Values, Distinct;
      ghost var n := |nodes|;
      if n > 0 { HeadPlace(nodes, Place(nodes, tail)); }
      InsertEnd(Values(nodes), n, data);
      r, added := InsertAfter(tail, data);
      InsertEnd(old(nodes), n, added);
    }

    /** `iDListPrepend`. */
    method Prepend(data: Data) returns (r: int, ghost added: Element?)
      requires Valid()
      modifies `size, `head, `tail, `nodes, nodes
      ensures Valid() && r == 0 && added != null && fresh(added)
      ensures nodes == [added] + old(nodes) && Values(nodes) == [data] + old(Values(nodes))
    {
      hide Linked, Values, Distinct;
      if nodes != [] { HeadPlace(nodes, Place(nodes, head)); }
      InsertEnd(Values(nodes), 0, data);
      r, added := InsertBefore(head, data);
      InsertEnd(old(nodes), 0, added);
    }

    // -------------------------------------------------------------- removal

    /** `iDListRemove`; the removed node is freed, so nothing is said about it. */
    method Remove(element: Element?) returns (r: int, data: Data)
      requires Valid()
      requires element != null && size != 0 ==> element in nodes
      modifies `size, `head, `tail, `nodes, nodes
      ensures Valid()
      ensures r == if element == null || old(size) == 0 then -1 else 0
      ensures r == -1 ==> nodes == old(nodes) && Values(nodes) == old(Values(nodes))
      ensures r == 0 ==>
        var k := Place(old(nodes), element);
        && data == old(Values(nodes))[k]
        && nodes == Delete(old(nodes), k) && Values(nodes) == Delete(old(Values(nodes)), k)
    {
      hide Linked, Delete, Values, Distinct, Turned, WereLinked, OnlyAt;
      if element == null || size == 0 { return -1, 0; }
      ghost var ns, k := nodes, Place(nodes, element);
      data := element.data;
      ghost var prevs, nexts := Prevs(ns), Nexts(ns);
      LinksOf(ns, k);
      LinkedWere(ns);
      HeadPlace(ns, k);
      Unlink(element, k);
      DeletedLinked(ns, prevs, nexts, k);
      DeletedEnds(ns, k);
      nodes := Delete(ns, k);
      size := size - 1;
      r := 0;
    }

    /** The links of the neighbours of `element`, which stands at place k. */
    method Unlink(element: Element, ghost k: nat)
      requires k < |nodes| && nodes[k] == element && (element == head <==> k == 0)
      requires element.prev == Before(nodes, k) && element.next == From(nodes, k + 1)
      requires OnlyAt(nodes, k - 1, element.prev) && OnlyAt(nodes, k + 1, element.next)
      modifies `head, `tail, nodes
      ensures Turned(nodes, old(Prevs(nodes)), old(Nexts(nodes)), k - 1, k + 1, Before(nodes, k), From(nodes, k + 1))
      ensures Values(nodes) == old(Values(nodes))
      ensures head == if k == 0 then From(nodes, 1) else old(head)
      ensures tail == if k == |nodes| - 1 then Before(nodes, k) else old(tail)
    {
      hide Values, Prevs, Nexts;
      if element == head {
        head := element.next;
        if head == null {
          tail := null;
        } else {
          element.next.prev := null;
        }
      } else {
        element.prev.next := element.next;
        if element.next == null {
          tail := element.prev;
        } else {
          element.next.prev := element.prev;
        }
      }
    }

    /** The removal that `iDListDestroy` repeats. */
    method RemoveTail() returns (r: int, data: Data)
      requires Valid() && size > 0
      modifies `size, `head, `tail, `nodes, nodes
      ensures Valid() && r == 0 && size == old(size) - 1
      ensures nodes == old(nodes)[..size] && Values(nodes) == old(Values(nodes))[..size]
      ensures data == old(Values(nodes))[size]
    {
      hide Linked, Values, Distinct, Delete;
      HeadPlace(nodes, Place(nodes, tail));
      DeleteEnd(nodes, |nodes| - 1);
      DeleteEnd(Values(nodes), |nodes| - 1);
      r, data := Remove(tail);
    }

    /** `iDListDestroy`: every element is destroyed once, from the tail to the head. */
    method Destroy()
      requires Valid()
      modifies this, nodes
      ensures Valid() && nodes == [] && !destroy && key == None && compare == None
      ensures destroyed == old(destroyed) + if old(destroy) then Reversed(old(Values(nodes))) else []
    {
      hide Linked, Values, Distinct, Reversed;
      ghost var ns, vs := nodes, Values(nodes);
      assert ns[..size] == ns && vs[..size] == vs;
      while size > 0
        invariant Valid() && size <= |ns| && nodes == ns[..size] && Values(nodes) == vs[..size]
        invariant destroy == old(destroy)
        invariant destroy ==> destroyed + Reversed(vs[..size]) == old(destroyed) + Reversed(vs)
        invariant !destroy ==> destroyed == old(destroyed)
        decreases size
      {
        ghost var n := size - 1;
        ReversedPrefix(vs, n, destroyed);
        assert ns[..n + 1][..n] == ns[..n];
        var r, data := RemoveTail();
        if r == 0 && destroy { destroyed := destroyed + [data]; }
      }
      assert vs[..0] == [] && Reversed<Data>([]) == [] by { NothingReversed<Data>(); }
      size, head, tail, destroy, key, compare := 0, null, null, false, None, None;
    }

    // -------------------------------------------------------------- search

    /** Whether a search for k stops at what a node stores. */
    ghost predicate Hits(k: Key, d: Data)
      reads this
    {
      key.Some? && compare.Some? && compare.value(k, key.value(d)) == 0
    }

    /** `pxDListFindFirst`. */
    method FindFirst(k: Key) returns (found: Element?)
      requires Valid()
      ensures found == null <==> forall i :: 0 <= i < |nodes| ==> !Hits(k, Values(nodes)[i])
      ensures found != null ==> found in nodes && Hits(k, Values(nodes)[Place(nodes, found)])
      ensures found != null ==> forall j :: 0 <= j < Place(nodes, found) ==> !Hits(k, Values(nodes)[j])
      ensures found != null ==> key.Some? && compare.Some? && compare.value(k, key.value(found.data)) == 0
      ensures found == null && key.Some? && compare.Some? ==>
        forall i :: 0 <= i < |nodes| ==> compare.value(k, key.value(Values(nodes)[i])) != 0
    {
      found := null;
      if key.Some? && compare.Some? && size != 0 {
        var element := head;
        ghost var i := 0;
        while element != null
          invariant 0 <= i <= |nodes| && element == (if i < |nodes| then nodes[i] else null)
          invariant forall j :: 0 <= j < i ==> !Hits(k, Values(nodes)[j])
          decreases |nodes| - i
        {
          if compare.value(k, key.value(element.data)) == 0 {
            assert Hits(k, Values(nodes)[i]);
            return element;
          }
          element := element.next;
          i := i + 1;
        }
      }
    }
  }
}
