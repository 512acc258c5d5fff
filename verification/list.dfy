/** The singly linked list of librfn/list.c, over nodes that are embedded in other objects. */
module List {
  import opened Sequences

  /** A node; key is what a comparator looks at in the object around it. */
  class Node<T> {
    var next: Node?<T>
    var key: T

    constructor (key: T)
      ensures next == null && this.key == key
    {
      next := null;
      this.key := key;
    }
  }

  /** The pointer held in a list's tail. After the only node has been removed through an iterator it
      is computed from the address of the head and does not point to any node. */
  datatype Tail<T> = NoTail | TailAt(node: Node<T>) | Fabricated

  /** An iterator's prevnext: the address of the list's head or of a node's next pointer. */
  datatype Slot<T> = HeadSlot | NextOf(node: Node<T>)

  ghost function NodeAt<T>(s: seq<Node<T>>, i: int): Node?<T> {
    if 0 <= i < |s| then s[i] else null
  }

  ghost predicate LinkedAt<T>(s: seq<Node<T>>, i: int)
    requires 0 <= i < |s|
    reads {s[i]}`next
  {
    s[i].next == NodeAt(s, i + 1)
  }

  ghost predicate Linked<T>(s: seq<Node<T>>)
    reads s`next
  {
    Distinct(s) && forall i {:trigger LinkedAt(s, i)} :: 0 <= i < |s| ==> LinkedAt(s, i)
  }

  class LinkedList<T> {
    var head: Node?<T>
    var tail: Tail<T>
    ghost var nodes: seq<Node<T>>

    constructor ()
      ensures Valid() && nodes == []
    {
      head, tail, nodes := null, NoTail, [];
    }

    ghost predicate Valid()
      reads this, nodes`next
    {
      && Linked(nodes)
      && head == NodeAt(nodes, 0)
      && (nodes != [] ==> tail == TailAt(nodes[|nodes| - 1]))
    }

    method Insert(node: Node<T>)
      requires Valid() && node !in nodes && node.next == null
      modifies this, nodes`next
      ensures Valid() && nodes == old(nodes) + [node]
    {
      ghost var s := nodes + [node];
      if head != null {
        assert LinkedAt(nodes, |nodes| - 1);
        tail.node.next := node;
      } else {
        head := node;
      }
      tail := TailAt(node);
      nodes := s;
      forall i | 0 <= i < |s| ensures LinkedAt(s, i) {
        assert i < old(|nodes|) ==> old(LinkedAt(nodes, i));
      }
    }

    method Push(node: Node<T>)
      requires Valid() && node !in nodes && node.next == null
      modifies this, node`next
      ensures Valid() && nodes == [node] + old(nodes)
    {
      ghost var s := [node] + nodes;
      if head != null {
        node.next := head;
      } else {
        tail := TailAt(node);
      }
      head := node;
      nodes := s;
      forall i | 0 <= i < |s| ensures LinkedAt(s, i) {
        assert i > 0 ==> old(LinkedAt(nodes, i - 1));
      }
    }

    method Extract() returns (node: Node?<T>)
      requires Valid()
      modifies this, nodes`next
      ensures Valid()
      ensures node == NodeAt(old(nodes), 0)
      ensures nodes == if node == null then [] else old(nodes)[1..]
      ensures node != null ==> node.next == null
    {
      if head == null {
        return null;
      }
      ghost var s := nodes[1..];
      assert LinkedAt(nodes, 0);
      node := head;
      head := node.next;
      node.next := null;
      nodes := s;
      forall i | 0 <= i < |s| ensures LinkedAt(s, i) {
        assert old(LinkedAt(nodes, i + 1));
      }
    }

    method Peek() returns (node: Node?<T>)
      requires Valid()
      ensures node == NodeAt(nodes, 0)
    {
      node := head;
    }

    method IsEmpty() returns (empty: bool)
      requires Valid()
      ensures empty <==> nodes == []
    {
      empty := head == null;
    }

    /** Insert a node before the first one that it compares less than. */
    method InsertSorted(node: Node<T>, nodecmp: (T, T) -> int)
      requires Valid() && node !in nodes && node.next == null
      modifies this, nodes`next, node`next
      ensures Valid() && nodes == old(InsertAt(nodes, node, InsertIx(nodecmp, node.key, Keys(nodes))))
    {
      if head == null {
        Insert(node);
        return;
      }
      if nodecmp(node.key, tail.node.key) >= 0 {
        Insert(node);
        return;
      }
      var iter := FindSorted(node, nodecmp);
      iter.Insert(node);
    }

    /** What list_insert_sorted does with the last node of its own list, if that does not compare less than
        itself: the assertion on its link holds, and the path for the tail links the node to itself. */
    method ReinsertTail(node: Node<T>, nodecmp: (T, T) -> int)
      requires Valid() && nodes != [] && node == nodes[|nodes| - 1] && nodecmp(node.key, node.key) >= 0
      modifies this, nodes`next
      ensures old(node.next) == null && node.next == node
      ensures head == old(head) && !Linked(nodes) && !Linked(nodes + [node])
    {
      assert LinkedAt(nodes, |nodes| - 1);
      if head != null && nodecmp(node.key, tail.node.key) >= 0 {
        tail.node.next := node;
        tail := TailAt(node);
      }
      SelfLinked(nodes, node);
      SelfLinked(nodes + [node], node);
    }

    /** The scan: it stops at the tail at the latest. */
    method FindSorted(node: Node<T>, nodecmp: (T, T) -> int) returns (iter: Iterator<T>)
      requires Valid() && nodes != [] && nodecmp(node.key, nodes[|nodes| - 1].key) < 0
      ensures fresh(iter) && iter.list == this && iter.Valid()
      ensures iter.pos == Scan(nodecmp, node.key, Keys(nodes))
    {
      iter := new Iterator.Iterate(this);
      var curr := head;
      while nodecmp(node.key, curr.key) >= 0
        invariant iter.list == this && iter.Valid() && iter.pos < |nodes| && curr == nodes[iter.pos]
        invariant Scan(nodecmp, node.key, Keys(nodes)) == iter.pos + Scan(nodecmp, node.key, Keys(nodes)[iter.pos..])
        decreases |nodes| - iter.pos
      {
        assert Keys(nodes)[iter.pos..][1..] == Keys(nodes)[iter.pos + 1..];
        curr := iter.Next();
        assert curr != null;
      }
    }

    /** Looks for a node; the iterator stops at it. */
    method Contains(node: Node<T>) returns (found: bool, iter: Iterator<T>)
      requires Valid()
      ensures fresh(iter) && iter.list == this && iter.Valid()
      ensures found <==> node in nodes
      ensures found ==> iter.pos < |nodes| && nodes[iter.pos] == node
    {
      iter := new Iterator.Iterate(this);
      var curr := head;
      while curr != null
        invariant iter.list == this && iter.Valid() && curr == NodeAt(nodes, iter.pos)
        invariant node !in nodes[..iter.pos]
        decreases |nodes| - iter.pos
      {
        if curr == node {
          return true, iter;
        }
        curr := iter.Next();
      }
      return false, iter;
    }

    method Remove(node: Node<T>) returns (found: bool)
      requires Valid()
      modifies this, nodes`next, node`next
      ensures Valid() && nodes == Without(old(nodes), node)
      ensures found <==> node in old(nodes)
      ensures node.next == if found then null else old(node.next)
    {
      var iter;
      found, iter := Contains(node);
      if found {
        WithoutAt(nodes, iter.pos);
        var _ := iter.Remove();
      } else {
        WithoutNone(nodes, node);
      }
    }
  }

  class Iterator<T> {
    var prevnext: Slot<T>
    var list: LinkedList<T>
    ghost var pos: nat

    ghost predicate Valid()
      reads this, list, list.nodes`next
    {
      && list.Valid()
      && pos <= |list.nodes|
      && prevnext == if pos == 0 then HeadSlot else NextOf(list.nodes[pos - 1])
    }

    /** list_iterate; the node it returns is the list's head. */
    constructor Iterate(list: LinkedList<T>)
      requires list.Valid()
      ensures Valid() && this.list == list && pos == 0
    {
      prevnext, this.list, pos := HeadSlot, list, 0;
    }

    /** The node that prevnext leads to. */
    method Current() returns (curr: Node?<T>)
      requires Valid()
      ensures curr == NodeAt(list.nodes, pos)
    {
      assert pos > 0 ==> LinkedAt(list.nodes, pos - 1);
      match prevnext
      case HeadSlot => curr := list.head;
      case NextOf(node) => curr := node.next;
    }

    /** Write through prevnext. */
    method SetCurrent(node: Node?<T>)
      requires Distinct(list.nodes) && pos <= |list.nodes|
      requires prevnext == if pos == 0 then HeadSlot else NextOf(list.nodes[pos - 1])
      modifies list`head, list.nodes`next
      ensures if pos == 0 then list.head == node else list.head == old(list.head)
      ensures forall i :: 0 <= i < |list.nodes| ==>
                list.nodes[i].next == if i == pos - 1 then node else old(list.nodes[i].next)
    {
      match prevnext
      case HeadSlot => list.head := node;
      case NextOf(n) => n.next := node;
    }

    method Next() returns (next: Node?<T>)
      requires Valid()
      modifies `prevnext, `pos
      ensures Valid() && next == NodeAt(list.nodes, pos)
      ensures pos == if old(pos) < |list.nodes| then old(pos) + 1 else old(pos)
    {
      var curr := Current();
      if curr != null {
        assert LinkedAt(list.nodes, pos);
        prevnext := NextOf(curr);
        pos := pos + 1;
        return curr.next;
      }
      return null;
    }

    /** Afterwards the iterator points to the new node. */
    method Insert(node: Node<T>)
      requires Valid() && node !in list.nodes
      modifies list, list.nodes`next, node`next
      ensures Valid()
      ensures list.nodes == old(list.nodes)[..pos] + [node] + old(list.nodes)[pos..]
    {
      ghost var s := list.nodes;
      LinkIn(node);
      InsertedLinked(s, pos, node);
      list.nodes := s[..pos] + [node] + s[pos..];
    }

    /** What the insertion does to the pointers. */
    method LinkIn(node: Node<T>)
      requires Valid() && node !in list.nodes
      modifies list`head, list`tail, list.nodes`next, node`next
      ensures list.head == if pos == 0 then node else list.nodes[0]
      ensures list.tail == if pos == |list.nodes| then TailAt(node) else old(list.tail)
      ensures node.next == NodeAt(list.nodes, pos)
      ensures forall i :: 0 <= i < |list.nodes| ==>
                list.nodes[i].next == if i == pos - 1 then node else NodeAt(list.nodes, i + 1)
    {
      var curr := Current();
      SuccessorsOf(list.nodes);
      SetCurrent(node);
      node.next := curr;
      if curr == null {
        list.tail := TailAt(node);
      }
    }

    /** Removes the current node and returns the one after it. */
    method Remove() returns (next: Node?<T>)
      requires Valid() && pos < |list.nodes|
      modifies list, list.nodes`next
      ensures Valid() && next == NodeAt(list.nodes, pos)
      ensures list.nodes == old(list.nodes)[..pos] + old(list.nodes)[pos + 1..]
      ensures old(list.nodes)[pos].next == null
    {
      ghost var s := list.nodes;
      ghost var rest := s[..pos] + s[pos + 1..];
      assert rest != [] ==> rest[|rest| - 1] == s[if pos == |s| - 1 then pos - 1 else |s| - 1];
      assert NodeAt(rest, 0) == NodeAt(s, if pos == 0 then 1 else 0);
      next := Unlink();
      RemovedLinked(s, pos);
      list.nodes := rest;
    }

    /** What the removal does to the pointers. */
    method Unlink() returns (next: Node?<T>)
      requires Valid() && pos < |list.nodes|
      modifies list`head, list`tail, list.nodes`next
      ensures next == NodeAt(list.nodes, pos + 1)
      ensures list.head == if pos == 0 then next else list.nodes[0]
      ensures pos < |list.nodes| - 1 ==> list.tail == TailAt(list.nodes[|list.nodes| - 1])
      ensures 0 < pos == |list.nodes| - 1 ==> list.tail == TailAt(list.nodes[pos - 1])
      ensures forall i :: 0 <= i < |list.nodes| ==>
                list.nodes[i].next == if i == pos then null
                                      else NodeAt(list.nodes, if i == pos - 1 then pos + 1 else i + 1)
    {
      var curr := Current();
      SuccessorsOf(list.nodes);
      RetractTail(curr);
      ghost var last := list.nodes[|list.nodes| - 1];
      assert pos < |list.nodes| - 1 ==> list.tail == TailAt(last);
      next := Bypass(curr);
    }

    /** The pointer to the current node is made to point to the next one. */
    method Bypass(curr: Node<T>) returns (next: Node?<T>)
      requires Distinct(list.nodes) && pos < |list.nodes| && curr == list.nodes[pos]
      requires prevnext == if pos == 0 then HeadSlot else NextOf(list.nodes[pos - 1])
      requires forall i :: 0 <= i < |list.nodes| ==> list.nodes[i].next == NodeAt(list.nodes, i + 1)
      modifies list`head, list.nodes`next
      ensures next == NodeAt(list.nodes, pos + 1) && list.tail == old(list.tail)
      ensures list.head == if pos == 0 then next else old(list.head)
      ensures forall i :: 0 <= i < |list.nodes| ==>
                list.nodes[i].next == if i == pos then null
                                      else NodeAt(list.nodes, if i == pos - 1 then pos + 1 else i + 1)
    {
      next := curr.next;
      SetCurrent(next);
      curr.next := null;
    }

    /** The tail moves back if its node is about to be removed. */
    method RetractTail(curr: Node<T>)
      requires Valid() && pos < |list.nodes| && curr == list.nodes[pos]
      modifies list`tail
      ensures pos < |list.nodes| - 1 ==> list.tail == TailAt(list.nodes[|list.nodes| - 1])
      ensures 0 < pos == |list.nodes| - 1 ==> list.tail == TailAt(list.nodes[pos - 1])
    {
      var prev := match prevnext case HeadSlot => Fabricated case NextOf(node) => TailAt(node);
      if list.tail == TailAt(curr) {
        list.tail := prev;
      }
    }
  }

  /** The assertion of the insertion functions fails for every node of a list but the last. */
  lemma QueuedLink<T>(s: seq<Node<T>>, k: nat)
    requires Linked(s) && k < |s|
    ensures s[k].next == null <==> k == |s| - 1
  {
    assert LinkedAt(s, k);
  }

  /** A node that is linked to itself is in no list. */
  lemma SelfLinked<T>(s: seq<Node<T>>, node: Node<T>)
    requires node.next == node && node in s
    ensures !Linked(s)
  {
    var k :| 0 <= k < |s| && s[k] == node;
    if Distinct(s) {
      assert NodeAt(s, k + 1) != node;
      assert !LinkedAt(s, k);
    }
  }

  lemma SuccessorsOf<T>(s: seq<Node<T>>)
    requires Linked(s)
    ensures forall i :: 0 <= i < |s| ==> s[i].next == NodeAt(s, i + 1)
  {
    forall i | 0 <= i < |s| ensures s[i].next == NodeAt(s, i + 1) {
      assert LinkedAt(s, i);
    }
  }

  /** A node linked in before index k. */
  lemma InsertedLinked<T>(s: seq<Node<T>>, k: nat, node: Node<T>)
    requires Distinct(s) && k <= |s| && node !in s && node.next == NodeAt(s, k)
    requires forall i :: 0 <= i < |s| ==> s[i].next == if i == k - 1 then node else NodeAt(s, i + 1)
    ensures Linked(s[..k] + [node] + s[k..])
  {
    var s' := s[..k] + [node] + s[k..];
    forall i | 0 <= i < |s'| ensures LinkedAt(s', i) {
      assert i > k ==> s'[i] == s[i - 1];
    }
  }

  /** The node at index k unlinked. */
  lemma RemovedLinked<T>(s: seq<Node<T>>, k: nat)
    requires Distinct(s) && k < |s|
    requires forall i :: 0 <= i < |s| && i != k ==> s[i].next == NodeAt(s, if i == k - 1 then k + 1 else i + 1)
    ensures Linked(s[..k] + s[k + 1..])
  {
    var s' := s[..k] + s[k + 1..];
    forall i | 0 <= i < |s'| ensures LinkedAt(s', i) {
      assert i >= k ==> s'[i] == s[i + 1];
    }
  }

  // ---------- sequences of nodes and of keys ----------

  ghost function Keys<T>(s: seq<Node<T>>): (keys: seq<T>)
    reads s
    ensures |keys| == |s|
  {
    seq(|s|, i requires 0 <= i < |s| reads s => s[i].key)
  }

  function InsertAt<A>(s: seq<A>, x: A, k: nat): seq<A>
    requires k <= |s|
  {
    s[..k] + [x] + s[k..]
  }

  /** How many keys a new one is compared with before it compares less. */
  function Scan<T>(nodecmp: (T, T) -> int, x: T, keys: seq<T>): (k: nat)
    ensures k <= |keys|
  {
    if keys == [] || nodecmp(x, keys[0]) < 0 then 0 else 1 + Scan(nodecmp, x, keys[1..])
  }

  /** Where list_insert_sorted puts a new key, for any comparator. */
  function InsertIx<T>(nodecmp: (T, T) -> int, x: T, keys: seq<T>): (k: nat)
    ensures k <= |keys|
  {
    if keys == [] || nodecmp(x, keys[|keys| - 1]) >= 0 then |keys| else Scan(nodecmp, x, keys)
  }

  /** The comparator orders the given keys, with ties. */
  ghost predicate Orders<T>(nodecmp: (T, T) -> int, keys: seq<T>) {
    && (forall a, b :: a in keys && b in keys ==> (nodecmp(a, b) < 0 <==> nodecmp(b, a) > 0))
    && (forall a, b, c :: a in keys && b in keys && c in keys && nodecmp(a, b) <= 0 && nodecmp(b, c) <= 0 ==>
          nodecmp(a, c) <= 0)
  }

  ghost predicate Sorted<T>(nodecmp: (T, T) -> int, keys: seq<T>) {
    forall i, j :: 0 <= i < j < |keys| ==> nodecmp(keys[i], keys[j]) <= 0
  }

  /** Stable insertion as a recursive definition. */
  function Insertion<T>(nodecmp: (T, T) -> int, x: T, keys: seq<T>): seq<T> {
    if keys == [] || nodecmp(x, keys[0]) < 0 then [x] + keys else [keys[0]] + Insertion(nodecmp, x, keys[1..])
  }

  /** The scan alone inserts stably, whatever the comparator. */
  lemma {:induction false} ScanIsInsertion<T>(nodecmp: (T, T) -> int, x: T, keys: seq<T>)
    ensures InsertAt(keys, x, Scan(nodecmp, x, keys)) == Insertion(nodecmp, x, keys)
  {
    if keys != [] && nodecmp(x, keys[0]) >= 0 {
      ScanIsInsertion(nodecmp, x, keys[1..]);
      var k := Scan(nodecmp, x, keys[1..]);
      assert InsertAt(keys, x, k + 1) == [keys[0]] + InsertAt(keys[1..], x, k);
    }
  }

  /** In a sorted list the scan stops exactly behind the keys that the new one does not precede. */
  lemma {:induction false} ScanPosition<T>(nodecmp: (T, T) -> int, x: T, keys: seq<T>)
    requires Orders(nodecmp, keys + [x]) && Sorted(nodecmp, keys)
    ensures forall i :: 0 <= i < |keys| ==> (i < Scan(nodecmp, x, keys) <==> nodecmp(x, keys[i]) >= 0)
  {
    if keys != [] {
      var a, rest := keys[0], keys[1..];
      assert forall b :: b in rest + [x] ==> b in keys + [x];
      assert a in keys + [x] && x in keys + [x];
      if nodecmp(x, a) >= 0 {
        ScanPosition(nodecmp, x, rest);
        forall i | 0 < i < |keys| ensures i < Scan(nodecmp, x, keys) <==> nodecmp(x, keys[i]) >= 0 {
          assert keys[i] == rest[i - 1];
        }
      } else {
        forall i | 0 < i < |keys| ensures nodecmp(x, keys[i]) < 0 {
          assert keys[i] in keys + [x] && nodecmp(a, keys[i]) <= 0;
          assert nodecmp(keys[i], x) <= 0 ==> nodecmp(a, x) <= 0;
        }
      }
    }
  }

  lemma InsertAtSorted<T>(nodecmp: (T, T) -> int, x: T, keys: seq<T>, k: nat)
    requires k <= |keys| && Sorted(nodecmp, keys)
    requires forall i :: 0 <= i < |keys| ==> if i < k then nodecmp(keys[i], x) <= 0 else nodecmp(x, keys[i]) <= 0
    ensures Sorted(nodecmp, InsertAt(keys, x, k))
  {
    var s := InsertAt(keys, x, k);
    forall i, j | 0 <= i < j < |s| ensures nodecmp(s[i], s[j]) <= 0 {
      assert s[i] == if i < k then keys[i] else if i == k then x else keys[i - 1];
      assert s[j] == if j < k then keys[j] else if j == k then x else keys[j - 1];
    }
  }

  /** list_insert_sorted is stable insertion for any order on the keys: its path for the tail agrees
      with the scan, the list stays sorted, and the new node comes last among its equals. */
  lemma InsertIxIsStable<T>(nodecmp: (T, T) -> int, x: T, keys: seq<T>)
    requires Orders(nodecmp, keys + [x]) && Sorted(nodecmp, keys)
    ensures InsertIx(nodecmp, x, keys) == Scan(nodecmp, x, keys)
    ensures InsertAt(keys, x, InsertIx(nodecmp, x, keys)) == Insertion(nodecmp, x, keys)
    ensures Sorted(nodecmp, Insertion(nodecmp, x, keys))
  {
    ScanIsInsertion(nodecmp, x, keys);
    ScanPosition(nodecmp, x, keys);
    var k := Scan(nodecmp, x, keys);
    assert InsertIx(nodecmp, x, keys) == k by {
      assert keys != [] && nodecmp(x, keys[|keys| - 1]) >= 0 ==> |keys| - 1 < k;
    }
    forall i | 0 <= i < |keys| ensures if i < k then nodecmp(keys[i], x) <= 0 else nodecmp(x, keys[i]) <= 0 {
      assert keys[i] in keys + [x] && x in keys + [x];
    }
    InsertAtSorted(nodecmp, x, keys, k);
  }

  /** A sequence without the first occurrence of an element. */
  function Without<A(==)>(s: seq<A>, x: A): seq<A> {
    if s == [] then [] else if s[0] == x then s[1..] else [s[0]] + Without(s[1..], x)
  }

  lemma {:induction false} WithoutAt<A>(s: seq<A>, k: nat)
    requires k < |s| && Distinct(s)
    ensures Without(s, s[k]) == s[..k] + s[k + 1..]
  {
    if k > 0 {
      assert s[1..][k - 1] == s[k];
      WithoutAt(s[1..], k - 1);
      assert [s[0]] + (s[1..][..k - 1] + s[1..][k..]) == s[..k] + s[k + 1..];
    }
  }

  lemma {:induction false} WithoutNone<A>(s: seq<A>, x: A)
    requires x !in s
    ensures Without(s, x) == s
  {
    if s != [] {
      WithoutNone(s[1..], x);
    }
  }
}
