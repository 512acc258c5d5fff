/** The iterators of librfn/bintree.c over trees that serve as lists. They never modify the tree. */
module BinTreeList {
  import opened BinTree
  import opened Sequences
  import opened TreeShape

  type Filter = Node -> bool

  /** bintree_traverse_list: nodes that are not list nodes are the items. */
  function TraverseList(t: Tree<Node>, isList: Filter): seq<Node> {
    if t.Nil? then []
    else if isList(t.root) then TraverseList(t.left, isList) + TraverseList(t.right, isList)
    else [t.root]
  }

  /** Whether bintree_iterate_list goes down on the left before it returns anything. */
  predicate StartsLeft(t: Tree<Node>, isList: Filter) {
    t.Bin? && isList(t.root) && t.left.Bin? && isList(t.left.root)
  }

  /** Every list node on the left spine has two children. */
  ghost predicate LeftSpine(t: Tree<Node>, isList: Filter) {
    && t.Bin? && isList(t.root) && t.right.Bin? && t.left.Bin?
    && (isList(t.left.root) ==> LeftSpine(t.left, isList))
  }

  /** Every list node on the right spine has two children. */
  ghost predicate RightSpine(t: Tree<Node>, isList: Filter) {
    t.Bin? && (isList(t.root) ==> t.left.Bin? && RightSpine(t.right, isList))
  }

  /** The spine that the iterator follows has no missing child. */
  ghost predicate Iterable(t: Tree<Node>, isList: Filter) {
    if StartsLeft(t, isList) then LeftSpine(t, isList) else RightSpine(t, isList)
  }

  /** A list that leans to the left: every list node has an item on its right. */
  ghost predicate LeftList(t: Tree<Node>, isList: Filter) {
    && t.Bin? && isList(t.root)
    && t.right.Bin? && !isList(t.right.root)
    && t.left.Bin? && (isList(t.left.root) ==> LeftList(t.left, isList))
  }

  /** A list that leans to the right, or a single item. */
  ghost predicate RightList(t: Tree<Node>, isList: Filter) {
    && t.Bin?
    && (isList(t.root) ==> t.left.Bin? && !isList(t.left.root) && RightList(t.right, isList))
  }

  // ---------- the left spine ----------

  ghost predicate OnSpine(t: Tree<Node>, isList: Filter, i: nat)
    decreases i
  {
    LeftSpine(t, isList) && (i > 0 ==> isList(t.left.root) && OnSpine(t.left, isList, i - 1))
  }

  /** The i-th list node from the top, with its subtree. */
  ghost function Spine(t: Tree<Node>, isList: Filter, i: nat): (s: Tree<Node>)
    requires OnSpine(t, isList, i)
    ensures LeftSpine(s, isList)
    decreases i
  {
    if i == 0 then t else Spine(t.left, isList, i - 1)
  }

  lemma {:induction false} SpineStep(t: Tree<Node>, isList: Filter, i: nat)
    requires OnSpine(t, isList, i)
    ensures isList(Spine(t, isList, i).left.root) <==> OnSpine(t, isList, i + 1)
    ensures OnSpine(t, isList, i + 1) ==> Spine(t, isList, i + 1) == Spine(t, isList, i).left
    ensures i > 0 ==> OnSpine(t, isList, i - 1)
    decreases i
  {
    if i > 0 {
      SpineStep(t.left, isList, i - 1);
    }
  }

  lemma {:induction false} SpineHolds(t: Tree<Node>, isList: Filter, i: nat)
    requires OnSpine(t, isList, i) && Holds(t)
    ensures Holds(Spine(t, isList, i))
    decreases i
  {
    if i > 0 {
      SpineHolds(t.left, isList, i - 1);
    }
  }

  /** A spine node's position in order is the size of its left subtree, so the spine nodes differ. */
  lemma {:induction false} SpinePosition(t: Tree<Node>, isList: Filter, i: nat)
    requires OnSpine(t, isList, i)
    ensures Size(Spine(t, isList, i)) + i <= Size(t)
    ensures InOrder(t)[Size(Spine(t, isList, i).left)] == Spine(t, isList, i).root
    decreases i
  {
    if i > 0 {
      SpinePosition(t.left, isList, i - 1);
    }
  }

  lemma {:induction false} SpineSizes(t: Tree<Node>, isList: Filter, i: nat, j: nat)
    requires i <= j && OnSpine(t, isList, i) && OnSpine(t, isList, j)
    ensures i < j ==> Size(Spine(t, isList, j).left) < Size(Spine(t, isList, i).left)
    decreases i
  {
    if i > 0 {
      SpineSizes(t.left, isList, i - 1, j - 1);
    } else if j > 0 {
      SpinePosition(t.left, isList, j - 1);
    }
  }

  lemma SpineDistinct(t: Tree<Node>, isList: Filter, i: nat, j: nat)
    requires Distinct(InOrder(t)) && OnSpine(t, isList, i) && OnSpine(t, isList, j)
    requires Spine(t, isList, i).root == Spine(t, isList, j).root
    ensures i == j
  {
    SpinePosition(t, isList, i);
    SpinePosition(t, isList, j);
    if i < j {
      SpineSizes(t, isList, i, j);
    } else if j < i {
      SpineSizes(t, isList, j, i);
    }
  }

  /** The nodes to the right of the spine from its i-th node up to the top. */
  ghost function Upwards(t: Tree<Node>, isList: Filter, i: nat): seq<Node>
    requires OnSpine(t, isList, i)
    decreases i
  {
    (if i == 0 then [] else Upwards(t.left, isList, i - 1)) + [t.right.root]
  }

  lemma {:induction false} UpwardsStep(t: Tree<Node>, isList: Filter, i: nat)
    requires OnSpine(t, isList, i)
    ensures i == 0 ==> Upwards(t, isList, i) == [Spine(t, isList, i).right.root]
    ensures i > 0 ==> OnSpine(t, isList, i - 1) &&
                      Upwards(t, isList, i) == [Spine(t, isList, i).right.root] + Upwards(t, isList, i - 1)
    decreases i
  {
    SpineStep(t, isList, i);
    if i > 0 {
      UpwardsStep(t.left, isList, i - 1);
    }
  }

  /** The list is what lies below the i-th spine node on the left, then the items upwards. */
  lemma {:induction false} TraverseFromSpine(t: Tree<Node>, isList: Filter, i: nat)
    requires LeftList(t, isList) && OnSpine(t, isList, i)
    ensures TraverseList(t, isList) == TraverseList(Spine(t, isList, i).left, isList) + Upwards(t, isList, i)
    decreases i
  {
    assert TraverseList(t.right, isList) == [t.right.root];
    if i > 0 {
      TraverseFromSpine(t.left, isList, i - 1);
    }
  }

  // ---------- what the iterators return ----------

  /** Down the left spine, the node below it, then the nodes on its right upwards. */
  ghost function LeftItems(t: Tree<Node>, isList: Filter): seq<Node>
    requires LeftSpine(t, isList)
  {
    (if isList(t.left.root) then LeftItems(t.left, isList) else [t.left.root]) + [t.right.root]
  }

  /** The left children on the right spine, and the node at its end. */
  ghost function RightItems(t: Tree<Node>, isList: Filter): seq<Node>
    requires RightSpine(t, isList)
  {
    if isList(t.root) then [t.left.root] + RightItems(t.right, isList) else [t.root]
  }

  ghost function Returned(t: Tree<Node>, isList: Filter): seq<Node>
    requires Iterable(t, isList)
  {
    if StartsLeft(t, isList) then LeftItems(t, isList) else RightItems(t, isList)
  }

  lemma {:induction false} LeftItemsFromSpine(t: Tree<Node>, isList: Filter, i: nat)
    requires OnSpine(t, isList, i) && !isList(Spine(t, isList, i).left.root)
    ensures LeftItems(t, isList) == [Spine(t, isList, i).left.root] + Upwards(t, isList, i)
    decreases i
  {
    if i > 0 {
      LeftItemsFromSpine(t.left, isList, i - 1);
    }
  }

  /** Items are never list nodes. */
  lemma {:induction false} ItemsOnly(t: Tree<Node>, isList: Filter)
    ensures forall k :: 0 <= k < |TraverseList(t, isList)| ==> !isList(TraverseList(t, isList)[k])
  {
    if t.Bin? && isList(t.root) {
      ItemsOnly(t.left, isList);
      ItemsOnly(t.right, isList);
    }
  }

  lemma {:induction false} LeftItemsExact(t: Tree<Node>, isList: Filter)
    requires LeftSpine(t, isList)
    ensures LeftList(t, isList) ==> LeftItems(t, isList) == TraverseList(t, isList)
    ensures !LeftList(t, isList) ==>
              exists k :: 0 <= k < |LeftItems(t, isList)| && isList(LeftItems(t, isList)[k])
  {
    var items := LeftItems(t, isList);
    assert items[|items| - 1] == t.right.root;
    if isList(t.left.root) {
      LeftItemsExact(t.left, isList);
      var below := LeftItems(t.left, isList);
      assert forall k :: 0 <= k < |below| ==> items[k] == below[k];
    }
  }

  lemma {:induction false} RightItemsExact(t: Tree<Node>, isList: Filter)
    requires RightSpine(t, isList)
    ensures RightList(t, isList) ==> RightItems(t, isList) == TraverseList(t, isList)
    ensures !RightList(t, isList) ==>
              exists k :: 0 <= k < |RightItems(t, isList)| && isList(RightItems(t, isList)[k])
  {
    if isList(t.root) {
      RightItemsExact(t.right, isList);
      var items, below := RightItems(t, isList), RightItems(t.right, isList);
      assert items[0] == t.left.root;
      assert forall k :: 0 <= k < |below| ==> items[k + 1] == below[k];
    }
  }

  /** The iterators return what the recursive traversal visits exactly for the lists that lean to one
      side. In all others they return some list node. */
  lemma ReturnedIffLeaning(t: Tree<Node>, isList: Filter)
    requires Iterable(t, isList)
    ensures Returned(t, isList) == TraverseList(t, isList) <==> LeftList(t, isList) || RightList(t, isList)
  {
    ItemsOnly(t, isList);
    if StartsLeft(t, isList) {
      LeftItemsExact(t, isList);
    } else {
      RightItemsExact(t, isList);
      if LeftList(t, isList) {
        assert RightList(t.right, isList) && RightList(t, isList);
      }
    }
  }

  // ---------- the iterators ----------

  datatype Kind = ListLeft | ListRight

  class ListIterator {
    var next: Kind
    var filter: Filter
    var curr: Node?
    var parent: Node?
    ghost var t: Tree<Node>     // the tree
    ghost var i: nat            // left-leaning: how far down the spine curr is
    ghost var rest: Tree<Node>  // right-leaning: the subtree at curr
    ghost var todo: seq<Node>   // the items still to be returned

    constructor (filter: Filter) {
      this.filter := filter;
      next, curr, parent := ListRight, null, null;
      t, i, rest, todo := Nil, 0, Nil, [];
    }

    ghost predicate Valid()
      reads this, Nodes(t), Nodes(rest)
    {
      match next
      case ListLeft =>
        && Holds(t) && Distinct(InOrder(t))
        && (if curr == null then todo == []
            else
              && OnSpine(t, filter, i)
              && curr == Spine(t, filter, i).root
              && parent == t.root
              && todo == Upwards(t, filter, i))
      case ListRight =>
        && Holds(rest)
        && curr == RootNode(rest)
        && (if rest.Nil? then todo == [] else RightSpine(rest, filter) && todo == RightItems(rest, filter))
    }

    /** Walk from the top until the node below is the given one, which is not the top itself. */
    static method Above(top: Node, curr: Node, filter: Filter, ghost t: Tree<Node>, ghost i: nat)
      returns (parent: Node, ghost j: nat)
      requires Holds(t) && Distinct(InOrder(t)) && OnSpine(t, filter, i) && i > 0
      requires curr == Spine(t, filter, i).root && top == t.root
      ensures j == i - 1 && OnSpine(t, filter, j) && parent == Spine(t, filter, j).root
    {
      parent, j := top, 0;
      while parent.Left().ptr != curr
        invariant Holds(t) && j < i && OnSpine(t, filter, j)
        invariant parent == Spine(t, filter, j).root && parent.live
        decreases i - j
      {
        SpineHolds(t, filter, j);
        StepDown(t, filter, j, i);
        parent, j := parent.Left().ptr, j + 1;
        SpineHolds(t, filter, j);
      }
      SpineHolds(t, filter, j);
      StepDown(t, filter, j, i);
      SpineDistinct(t, filter, j + 1, i);
    }

    method ListLeftNext() returns (r: Node?)
      requires Valid() && next == ListLeft
      modifies `curr, `i, `todo
      ensures Valid()
      ensures if old(todo) == [] then r == null && todo == [] else r == old(todo)[0] && todo == old(todo)[1..]
    {
      if curr == null {
        return null;
      }
      assert allocated(Nodes(t));
      SpineHolds(t, filter, i);
      UpwardsStep(t, filter, i);
      r := curr.Right();
      if curr == parent {
        SpineDistinct(t, filter, i, 0);
        curr, todo := null, [];
      } else {
        ghost var j;
        curr, j := Above(parent, curr, filter, t, i);
        i, todo := j, todo[1..];
      }
    }

    method ListRightNext() returns (r: Node?)
      requires Valid() && next == ListRight
      modifies `curr, `rest, `todo
      ensures Valid()
      ensures if old(todo) == [] then r == null && todo == [] else r == old(todo)[0] && todo == old(todo)[1..]
    {
      if curr == null || !filter(curr) {
        r := curr;
        curr, rest, todo := null, Nil, [];
      } else {
        assert allocated(Nodes(rest.right)) && Holds(rest.right) && RightSpine(rest.right, filter);
        assert todo == [rest.left.root] + RightItems(rest.right, filter);
        r := curr.Left().ptr;
        curr, rest, todo := curr.Right(), rest.right, todo[1..];
      }
    }

    method Next() returns (r: Node?)
      requires Valid()
      modifies `curr, `i, `rest, `todo
      ensures Valid()
      ensures if old(todo) == [] then r == null && todo == [] else r == old(todo)[0] && todo == old(todo)[1..]
    {
      match next
      case ListLeft => r := ListLeftNext();
      case ListRight => r := ListRightNext();
    }

    /** Walk down the left spine to the last list node. */
    static method Bottom(tree: Node, filter: Filter, ghost t: Tree<Node>) returns (bottom: Node, ghost i: nat)
      requires tree == RootNode(t) && Holds(t) && LeftSpine(t, filter) && filter(t.left.root)
      ensures OnSpine(t, filter, i) && bottom == Spine(t, filter, i).root && !filter(Spine(t, filter, i).left.root)
    {
      bottom, i := tree, 0;
      while true
        invariant Holds(t) && OnSpine(t, filter, i) && bottom == Spine(t, filter, i).root && bottom.live
        invariant filter(Spine(t, filter, i).left.root)
        decreases Spine(t, filter, i)
      {
        SpineHolds(t, filter, i);
        SpineStep(t, filter, i);
        bottom, i := bottom.Left().ptr, i + 1;
        if !filter(bottom.Left().ptr) {
          break;
        }
      }
    }

    /** Start a walk from the bottom of the left spine. */
    method StartLeft(tree: Node, bottom: Node, ghost t: Tree<Node>, ghost i: nat) returns (r: Node?)
      requires tree == RootNode(t) && Holds(t) && Distinct(InOrder(t))
      requires OnSpine(t, filter, i) && bottom == Spine(t, filter, i).root && !filter(Spine(t, filter, i).left.root)
      modifies `next, `parent, `curr, `t, `i, `todo, `rest
      ensures Valid() && [r] + todo == LeftItems(t, filter)
    {
      assert allocated(Nodes(t));
      LeftItemsFromSpine(t, filter, i);
      SpineHolds(t, filter, i);
      r := bottom.Left().ptr;
      next, parent, curr := ListLeft, tree, bottom;
      this.t, this.i, todo, rest := t, i, Upwards(t, filter, i), Nil;
    }

    /** Returns the first node; the iterator is left with the others to return. */
    method IterateList(tree: Node, ghost t: Tree<Node>) returns (r: Node?)
      requires tree == RootNode(t) && Holds(t) && Distinct(InOrder(t)) && Iterable(t, filter)
      modifies this
      ensures filter == old(filter) && Valid()
      ensures [r] + todo == Returned(t, filter)
    {
      assert allocated(Nodes(t));
      if filter(tree) && tree.Left().ptr != null && filter(tree.Left().ptr) {
        var bottom;
        ghost var i;
        bottom, i := Bottom(tree, filter, t);
        r := StartLeft(tree, bottom, t, i);
      } else {
        next, curr := ListRight, tree;
        this.t, rest, todo := Nil, t, RightItems(t, filter);
        r := ListRightNext();
      }
    }
  }

  lemma {:induction false} SpineAbove(t: Tree<Node>, isList: Filter, j: nat, i: nat)
    requires OnSpine(t, isList, i) && j <= i
    ensures OnSpine(t, isList, j)
    decreases i
  {
    if j > 0 {
      SpineAbove(t.left, isList, j - 1, i - 1);
    }
  }

  /** Above a spine node, the node one step down is on the spine, too. */
  lemma StepDown(t: Tree<Node>, isList: Filter, j: nat, i: nat)
    requires OnSpine(t, isList, i) && OnSpine(t, isList, j) && j < i
    ensures OnSpine(t, isList, j + 1) && Spine(t, isList, j + 1) == Spine(t, isList, j).left
  {
    SpineStep(t, isList, j);
    SpineAbove(t, isList, j + 1, i);
  }
}
