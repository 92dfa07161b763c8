/** The linked list of osip_list.c: nodes relinked in place, a count, and an iterator that can remove. */
module OsipList {
  import opened Options

  /** What an element pointer points to does not matter here. */
  type Elem = int

  // ---- the sequence a list stands for ----

  function InsertAt<T>(s: seq<T>, at: nat, x: T): (r: seq<T>)
    requires at <= |s|
  {
    s[..at] + [x] + s[at..]
  }

  function DeleteAt<T>(s: seq<T>, at: nat): (r: seq<T>)
    requires at < |s|
  {
    s[..at] + s[at + 1..]
  }

  /** Where osip_list_add inserts: -1 and everything from the length on is the end; any other negative position comes
      after the first element. */
  function Place(n: nat, pos: int): (r: nat)
    ensures r <= n
  {
    if n == 0 then 0
    else if pos == -1 || pos >= n then n
    else if pos < 0 then 1
    else pos
  }

  lemma {:induction false} Placed<T>(s: seq<T>, pos: int, x: T)
    ensures s == [] ==> InsertAt(s, Place(|s|, pos), x) == [x]
    ensures s != [] && (pos == -1 || pos >= |s|) ==> InsertAt(s, Place(|s|, pos), x) == s + [x]
    ensures 0 <= pos < |s| ==> InsertAt(s, Place(|s|, pos), x) == s[..pos] + [x] + s[pos..]
    ensures s != [] && pos < -1 ==> InsertAt(s, Place(|s|, pos), x) == s[..1] + [x] + s[1..]
  {
  }

  // ---- nodes ----

  class Node {
    var next: Node?
    var element: Elem

    constructor (element: Elem, next: Node?)
      ensures this.element == element && this.next == next
    {
      this.element := element;
      this.next := next;
    }
  }

  function NodeAt(nodes: seq<Node>, i: nat): (r: Node?)
  {
    if i < |nodes| then nodes[i] else null
  }

  /** From head on, the next pointers lead through these nodes and end. */
  ghost predicate Chain(head: Node?, nodes: seq<Node>)
    reads nodes
  {
    && head == NodeAt(nodes, 0)
    && (forall i | 0 <= i < |nodes| :: nodes[i].next == NodeAt(nodes, i + 1))
    && Distinct(nodes)
  }

  predicate Distinct(nodes: seq<Node>)
  {
    forall i, j | 0 <= i < j < |nodes| :: nodes[i] != nodes[j]
  }

  lemma {:induction false} DistinctFrom(nodes: seq<Node>, i: nat)
    requires Distinct(nodes) && i < |nodes|
    ensures forall j | 0 <= j < |nodes| && j != i :: nodes[j] != nodes[i]
  {
  }

  lemma {:induction false} DistinctInsert(nodes: seq<Node>, at: nat, x: Node)
    requires Distinct(nodes) && at <= |nodes| && x !in nodes
    ensures Distinct(InsertAt(nodes, at, x))
  {
    var r := InsertAt(nodes, at, x);
    forall i, j | 0 <= i < j < |r|
      ensures r[i] != r[j]
    {
    }
  }

  lemma {:induction false} DistinctDelete(nodes: seq<Node>, at: nat)
    requires Distinct(nodes) && at < |nodes|
    ensures Distinct(DeleteAt(nodes, at))
  {
  }

  class List {
    var nbElt: nat
    var node: Node?
    /** The nodes of the chain in order, and their elements. */
    ghost var nodes: seq<Node>
    ghost var contents: seq<Elem>

    ghost predicate Valid()
      reads this, nodes
    {
      && nbElt == |nodes| == |contents| && Chain(node, nodes)
      && forall i | 0 <= i < |nodes| :: nodes[i].element == contents[i]
    }

    /** osip_list_init. */
    constructor ()
      ensures Valid() && contents == [] && nodes == []
    {
      nbElt := 0;
      node := null;
      nodes := [];
      contents := [];
    }

    /** A new node before the first. */
    method InsertFirst(el: Elem)
      requires Valid()
      modifies this
      ensures Valid() && contents == InsertAt(old(contents), 0, el)
      ensures |nodes| > 0 && fresh(nodes[0]) && nodes == InsertAt(old(nodes), 0, nodes[0])
    {
      ghost var before := nodes;
      node := new Node(el, node);
      nbElt := nbElt + 1;
      DistinctInsert(nodes, 0, node);
      hide Distinct;
      nodes := InsertAt(nodes, 0, node);
      contents := InsertAt(contents, 0, el);
      forall j | 0 <= j < |nodes|
        ensures nodes[j].next == NodeAt(nodes, j + 1) && nodes[j].element == contents[j]
      {
        if j > 0 {
          assert nodes[j] == before[j - 1];
        }
      }
    }

    /** A new node after the i-th. */
    method InsertAfter(ntmp: Node, ghost i: nat, el: Elem)
      requires Valid() && i < nbElt && ntmp == nodes[i]
      modifies this, ntmp
      ensures Valid() && contents == InsertAt(old(contents), i + 1, el)
      ensures i + 1 < |nodes| && fresh(nodes[i + 1]) && nodes == InsertAt(old(nodes), i + 1, nodes[i + 1])
    {
      ghost var before := nodes;
      DistinctFrom(nodes, i);
      var x: Node := new Node(el, ntmp.next);
      ntmp.next := x;
      nbElt := nbElt + 1;
      DistinctInsert(nodes, i + 1, x);
      hide Distinct;
      nodes := InsertAt(nodes, i + 1, x);
      contents := InsertAt(contents, i + 1, el);
      forall j | 0 <= j < |nodes|
        ensures nodes[j].next == NodeAt(nodes, j + 1) && nodes[j].element == contents[j]
      {
        if j > i + 1 {
          assert nodes[j] == before[j - 1];
        }
      }
    }

    /** osip_list_add; allocation always succeeds here. */
    method Add(el: Elem, pos: int) returns (r: nat)
      requires Valid()
      modifies this, nodes
      ensures Valid() && r == nbElt
      ensures old(contents) == [] ==> contents == [el]
      ensures old(contents) != [] && (pos == -1 || pos >= |old(contents)|) ==> contents == old(contents) + [el]
      ensures 0 <= pos < |old(contents)| ==> contents == old(contents)[..pos] + [el] + old(contents)[pos..]
      ensures old(contents) != [] && pos < -1 ==> contents == old(contents)[..1] + [el] + old(contents)[1..]
      ensures exists x :: fresh(x) && nodes == InsertAt(old(nodes), Place(old(nbElt), pos), x)
    {
      hide Chain, InsertAt;
      Placed(contents, pos, el);
      if nbElt == 0 {
        InsertFirst(el);
        return nbElt;
      }
      var at := if pos == -1 || pos >= nbElt then nbElt else pos;
      if at == 0 {
        InsertFirst(el);
        return nbElt;
      }
      var ntmp, i := Walk(at);
      InsertAfter(ntmp, i, el);
      return nbElt;
    }

    /** The loop that walks to the node before position pos; it does not move for a negative one. */
    method Walk(pos: int) returns (ntmp: Node, i: nat)
      requires Valid() && nbElt > 0 && pos != 0 && pos <= nbElt
      ensures i == (if pos < 0 then 0 else pos - 1) && ntmp == nodes[i]
    {
      ntmp := node;
      i := 0;
      while pos > i + 1
        invariant i < nbElt && ntmp == nodes[i] && i == if pos < 0 then 0 else i
        invariant i <= if pos < 0 then 0 else pos - 1
      {
        i := i + 1;
        ntmp := ntmp.next;
      }
    }

    /** osip_list_get: None where the code returns NULL. */
    method Get(pos: int) returns (r: Option<Elem>)
      requires Valid()
      ensures r == if 0 <= pos < |contents| then Some(contents[pos]) else None
    {
      if pos < 0 || pos >= nbElt {
        return None;
      }
      var ntmp := node;
      var i := 0;
      while pos > i
        invariant 0 <= i <= pos && ntmp == nodes[i]
      {
        i := i + 1;
        ntmp := ntmp.next;
      }
      return Some(ntmp.element);
    }

    /** The first node goes. */
    method RemoveFirst()
      requires Valid() && nbElt > 0
      modifies this
      ensures Valid() && contents == DeleteAt(old(contents), 0) && nodes == DeleteAt(old(nodes), 0)
    {
      node := node.next;
      nbElt := nbElt - 1;
      nodes := nodes[1..];
      contents := contents[1..];
    }

    /** The node after the i-th goes. */
    method RemoveAfter(ntmp: Node, ghost i: nat)
      requires Valid() && i + 1 < nbElt && ntmp == nodes[i]
      modifies this, ntmp
      ensures Valid() && contents == DeleteAt(old(contents), i + 1) && nodes == DeleteAt(old(nodes), i + 1)
    {
      ghost var before := nodes;
      DistinctFrom(nodes, i);
      DistinctDelete(nodes, i + 1);
      hide Distinct;
      var remnode := ntmp.next;
      ntmp.next := remnode.next;
      nbElt := nbElt - 1;
      nodes := DeleteAt(nodes, i + 1);
      contents := DeleteAt(contents, i + 1);
      forall j | 0 <= j < |nodes|
        ensures nodes[j].next == NodeAt(nodes, j + 1) && nodes[j].element == contents[j]
      {
        if j > i {
          assert nodes[j] == before[j + 1];
        }
      }
    }

    /** osip_list_remove: the new count, or -1 (OSIP_UNDEFINED_ERROR) for a position outside the list. */
    method Remove(pos: int) returns (r: int)
      requires Valid()
      modifies this, nodes
      ensures Valid()
      ensures if 0 <= pos < |old(contents)| then
                r == nbElt && contents == DeleteAt(old(contents), pos) && nodes == DeleteAt(old(nodes), pos)
              else r == -1 && nodes == old(nodes) && contents == old(contents)
    {
      hide Chain, DeleteAt;
      if pos < 0 || pos >= nbElt {
        return -1;
      }
      if pos == 0 {
        RemoveFirst();
        return nbElt;
      }
      var ntmp, i := Walk(pos);
      RemoveAfter(ntmp, i);
      return nbElt;
    }
  }

  // ---- the iterator ----

  /** What the iterator's prev points to: the list's own field, or the next field of a node. */
  datatype Slot = HeadSlot | NextSlot(node: Node)

  function SlotBefore(nodes: seq<Node>, pos: nat): (r: Slot)
    requires pos <= |nodes|
  {
    if pos == 0 then HeadSlot else NextSlot(nodes[pos - 1])
  }

  class Iterator {
    var actual: Node?
    var prev: Slot
    var li: List?
    var pos: nat

    /** It has not been started. */
    constructor ()
      ensures actual == null
    {
      actual := null;
      prev := HeadSlot;
      li := null;
      pos := 0;
    }

    /** osip_list_iterator_has_elem. */
    predicate HasElem()
      reads this, li
    {
      actual != null && li != null && pos < li.nbElt
    }

    /** The iterator stands before position pos of the list l. */
    ghost predicate Stands(l: List)
      reads this, l, l.nodes
    {
      && li == l && l.Valid() && pos <= l.nbElt
      && actual == NodeAt(l.nodes, pos) && prev == SlotBefore(l.nodes, pos)
    }

    /** osip_list_get_first. */
    method GetFirst(l: List) returns (r: Option<Elem>)
      requires l.Valid()
      modifies this
      ensures r == if |l.contents| > 0 then Some(l.contents[0]) else None
      ensures if |l.contents| > 0 then Stands(l) && pos == 0 else actual == null
    {
      if 0 >= l.nbElt {
        actual := null;
        return None;
      }
      actual := l.node;
      prev := HeadSlot;
      li := l;
      pos := 0;
      return Some(l.node.element);
    }

    /** osip_list_get_next. */
    method GetNext() returns (r: Option<Elem>)
      requires li != null && Stands(li) && HasElem()
      modifies this
      ensures li == old(li) && Stands(li) && pos == old(pos) + 1
      ensures r == if pos < |li.contents| then Some(li.contents[pos]) else None
    {
      prev := NextSlot(actual);
      actual := actual.next;
      pos := pos + 1;
      if HasElem() {
        return Some(actual.element);
      }
      actual := null;
      return None;
    }

    /** osip_list_iterator_remove: the element the iterator stands before goes, and it stands before the next one. */
    method Remove() returns (r: Option<Elem>)
      requires li != null && Stands(li)
      modifies this, li, if prev.NextSlot? then {prev.node} else {}
      ensures li == old(li) && Stands(li) && pos == old(pos)
      ensures if pos < |old(li.contents)| then
                li.contents == DeleteAt(old(li.contents), pos) && li.nodes == DeleteAt(old(li.nodes), pos)
              else li.contents == old(li.contents) && li.nodes == old(li.nodes)
      ensures r == if pos < |li.contents| then Some(li.contents[pos]) else None
    {
      hide Chain;
      if HasElem() {
        match prev {
          case HeadSlot =>
            li.RemoveFirst();
            actual := li.node;
          case NextSlot(n) =>
            li.RemoveAfter(n, pos - 1);
            actual := n.next;
        }
        ChainAt(li.node, li.nodes, pos);
      }
      if HasElem() {
        return Some(actual.element);
      }
      return None;
    }
  }

  lemma {:induction false} ChainAt(head: Node?, nodes: seq<Node>, pos: nat)
    requires Chain(head, nodes) && pos <= |nodes|
    ensures NodeAt(nodes, pos) == if pos == 0 then head else nodes[pos - 1].next
  {
  }

  /** The elements that are not chosen, in order. */
  function Kept(s: seq<Elem>, chosen: seq<bool>): (r: seq<Elem>)
    requires |s| == |chosen|
  {
    if s == [] then []
    else Kept(s[..|s| - 1], chosen[..|s| - 1]) + if chosen[|s| - 1] then [] else [s[|s| - 1]]
  }

  /** The elements before position k have been looked at. */
  ghost predicate Walked(now: seq<Elem>, s: seq<Elem>, chosen: seq<bool>, k: nat, pos: nat)
    requires |s| == |chosen| && k <= |s|
  {
    now == Kept(s[..k], chosen[..k]) + s[k..] && pos == |Kept(s[..k], chosen[..k])|
  }

  lemma {:induction false} WalkStep(now: seq<Elem>, s: seq<Elem>, chosen: seq<bool>, k: nat, pos: nat)
    requires |s| == |chosen| && k < |s| && Walked(now, s, chosen, k, pos)
    ensures pos < |now|
    ensures if chosen[k] then Walked(DeleteAt(now, pos), s, chosen, k + 1, pos)
            else Walked(now, s, chosen, k + 1, pos + 1)
  {
    assert s[..k + 1][..k] == s[..k] && chosen[..k + 1][..k] == chosen[..k];
    var kept := Kept(s[..k], chosen[..k]);
    assert s[k..] == [s[k]] + s[k + 1..];
    assert now[pos] == s[k];
  }

  lemma {:induction false} WalkEnds(now: seq<Elem>, s: seq<Elem>, chosen: seq<bool>, k: nat, pos: nat)
    requires |s| == |chosen| && k <= |s| && Walked(now, s, chosen, k, pos)
    ensures |now| == pos + (|s| - k)
    ensures k == |s| ==> now == Kept(s, chosen)
  {
    assert s[..|s|] == s && chosen[..|s|] == chosen;
  }

  /** One turn of a walk: the element goes, or the iterator goes on. */
  method Turn(it: Iterator, l: List, out: bool, ghost frame: seq<Node>)
    requires it.Stands(l) && it.HasElem() && Among(l.nodes, frame)
    modifies it, l, frame
    ensures it.Stands(l) && Among(l.nodes, frame)
    ensures it.pos == old(it.pos) + if out then 0 else 1
    ensures old(it.pos) < |old(l.contents)|
    ensures l.contents == if out then DeleteAt(old(l.contents), it.pos) else old(l.contents)
  {
    hide DeleteAt, Chain, NodeAt, SlotBefore, Among;
    if out {
      DeleteSubset(l.nodes, it.pos, frame);
      if it.prev.NextSlot? {
        PrevAmong(it, l, frame);
      }
      var e := it.Remove();
    } else {
      var e := it.GetNext();
    }
  }

  /** A full walk that removes any chosen elements leaves exactly the others, in order, and a count that is right. */
  method RemoveChosen(l: List, chosen: seq<bool>)
    requires l.Valid() && |chosen| == |l.contents|
    modifies l, l.nodes
    ensures l.Valid() && l.contents == Kept(old(l.contents), chosen)
  {
    hide Kept, Walked, DeleteAt, SlotBefore, Among, List.Valid, Iterator.Stands, Iterator.HasElem;
    ghost var s, nodes := l.contents, l.nodes;
    CountIs(l);
    var it := new Iterator();
    var e := it.GetFirst(l);
    var k := 0;
    WalkStarts(s, chosen);
    AmongSelf(nodes);
    if l.nbElt == 0 {
      WalkEnds(l.contents, s, chosen, k, 0);
      return;
    }
    while it.HasElem()
      invariant fresh(it) && it.Stands(l)
      invariant k <= |s| && Walked(l.contents, s, chosen, k, it.pos)
      invariant Among(l.nodes, nodes)
      decreases |s| - k
    {
      WalkEnds(l.contents, s, chosen, k, it.pos);
      InFront(it, l);
      WalkStep(l.contents, s, chosen, k, it.pos);
      Turn(it, l, chosen[k], nodes);
      k := k + 1;
    }
    WalkEnds(l.contents, s, chosen, k, it.pos);
    NoMore(it, l);
  }

  lemma {:induction false} CountIs(l: List)
    requires l.Valid()
    ensures l.nbElt == |l.contents|
  {
  }

  lemma {:induction false} InFront(it: Iterator, l: List)
    requires it.Stands(l) && it.HasElem()
    ensures it.pos < |l.contents|
  {
  }

  lemma {:induction false} AmongSelf(nodes: seq<Node>)
    ensures Among(nodes, nodes)
  {
  }

  lemma {:induction false} PrevAmong(it: Iterator, l: List, frame: seq<Node>)
    requires it.Stands(l) && Among(l.nodes, frame) && it.prev.NextSlot?
    ensures it.prev.node in frame
  {
  }

  lemma {:induction false} NoMore(it: Iterator, l: List)
    requires it.Stands(l) && !it.HasElem()
    ensures l.Valid() && it.pos == |l.contents|
  {
  }

  lemma {:induction false} WalkStarts(s: seq<Elem>, chosen: seq<bool>)
    requires |s| == |chosen|
    ensures Walked(s, s, chosen, 0, 0)
  {
    assert Kept([], []) == [];
    assert s[..0] == [] && chosen[..0] == [];
  }

  lemma {:induction false} DeleteSubset(nodes: seq<Node>, at: nat, frame: seq<Node>)
    requires at < |nodes| && Among(nodes, frame)
    ensures Among(DeleteAt(nodes, at), frame)
  {
  }

  ghost predicate Among(a: seq<Node>, b: seq<Node>)
  {
    forall i | 0 <= i < |a| :: a[i] in b
  }
}
