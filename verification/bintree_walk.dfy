/** Callers' loops over the constant-space iterators: what they see and what they leave behind. */
module BinTreeWalk {
  import opened BinTree
  import opened FlatTree
  import opened Sequences
  import opened TreeShape
  import opened Wrappers

  /** Nothing is tagged unless the iterator uses the tags itself. */
  ghost predicate Clean(iter: Iterator)
    reads iter, iter.f.nodes
  {
    !iter.next.PostOrderIter? ==> Untagged(iter.f)
  }

  /** The node in hand is the last one visited; null means that the walk is over. */
  ghost predicate InHand(iter: Iterator, r: Node?, log: seq<Node>)
    reads iter
  {
    if r == null
    then iter.done == |log| == |iter.order| && (!iter.next.PostOrderIter? ==> iter.q == |iter.f.nodes|)
    else iter.done == |log| + 1 <= |iter.order| && iter.order[|log|].node == Some(r)
  }

  method StepOn(iter: Iterator, r: Node, log: seq<Node>) returns (next: Node?, longer: seq<Node>)
    requires iter.Valid() && Clean(iter) && InHand(iter, r, log) && Logged(log, iter.order)
    modifies iter`curr, iter`parent, iter`q, iter`c, iter`done, iter.f.nodes`left, iter.f.nodes`right
    ensures iter.Valid() && Clean(iter) && longer == log + [r]
    ensures InHand(iter, next, longer) && Logged(longer, iter.order)
  {
    longer := log + [r];
    ghost var at;
    next, at := iter.Next();
  }

  /** At the end the heap holds the tree again. */
  lemma Restored(iter: Iterator, t: Tree<Node>)
    requires iter.Valid() && Clean(iter) && iter.f == Flatten(t) && iter.root == RootIx(t) && iter.d == 0
    requires iter.done == |iter.order| && (!iter.next.PostOrderIter? ==> iter.q == |iter.f.nodes|)
    ensures Holds(t)
  {
    match iter.next
    case PostOrderIter => MarkedEnd(t);
    case _ => MorrisEnd(t, iter.c);
  }

  /** The loop of a caller that keeps what bintree_next returns. */
  method Walk(iter: Iterator, first: Node?, ghost t: Tree<Node>) returns (log: seq<Node>)
    requires iter.Valid() && Clean(iter) && iter.f == Flatten(t) && iter.root == RootIx(t) && iter.d == 0
    requires InHand(iter, first, [])
    modifies iter`curr, iter`parent, iter`q, iter`c, iter`done, iter.f.nodes`left, iter.f.nodes`right
    ensures |log| == |iter.order| && Logged(log, iter.order) && Holds(t)
  {
    log := [];
    var r := first;
    while r != null
      invariant iter.Valid() && Clean(iter) && InHand(iter, r, log) && Logged(log, iter.order)
      decreases |iter.order| - |log|
    {
      r, log := StepOn(iter, r, log);
    }
    Restored(iter, t);
  }

  method FirstInOrder(iter: Iterator, tree: Node?, ghost t: Tree<Node>) returns (r: Node?)
    requires tree == RootNode(t) && Holds(t) && Distinct(InOrder(t))
    modifies iter, InOrder(t)`right
    ensures iter.Valid() && Clean(iter) && iter.f == Flatten(t) && iter.root == RootIx(t) && iter.d == 0
    ensures iter.order == NonNull(TraverseInOrder(t, None, 0)) && InHand(iter, r, [])
  {
    ghost var f := Flatten(t);
    assert allocated(f.nodes);
    HoldsUntagged(t);
    r := iter.IterateInOrder(tree, t);
    assert Untagged(f);
  }

  method FirstPreOrder(iter: Iterator, tree: Node?, ghost t: Tree<Node>) returns (r: Node?)
    requires tree == RootNode(t) && Holds(t) && Distinct(InOrder(t))
    modifies iter, InOrder(t)`right
    ensures iter.Valid() && Clean(iter) && iter.f == Flatten(t) && iter.root == RootIx(t) && iter.d == 0
    ensures iter.order == NonNull(TraversePreOrder(t, None, 0)) && InHand(iter, r, [])
  {
    ghost var f := Flatten(t);
    assert allocated(f.nodes);
    HoldsUntagged(t);
    r := iter.IteratePreOrder(tree, t);
    assert Untagged(f);
  }

  /** In-order iteration returns the nodes that the recursive traversal visits, in the same order, and
      restores the tree. */
  method WalkInOrder(tree: Node?, ghost t: Tree<Node>) returns (log: seq<Node>)
    requires tree == RootNode(t) && Holds(t) && Distinct(InOrder(t))
    modifies InOrder(t)`left, InOrder(t)`right
    ensures |log| == |NonNull(TraverseInOrder(t, None, 0))|
    ensures Logged(log, NonNull(TraverseInOrder(t, None, 0))) && Holds(t)
  {
    assert allocated(Nodes(t));
    var iter := new Iterator();
    var r := FirstInOrder(iter, tree, t);
    log := Walk(iter, r, t);
  }

  method WalkPreOrder(tree: Node?, ghost t: Tree<Node>) returns (log: seq<Node>)
    requires tree == RootNode(t) && Holds(t) && Distinct(InOrder(t))
    modifies InOrder(t)`left, InOrder(t)`right
    ensures |log| == |NonNull(TraversePreOrder(t, None, 0))|
    ensures Logged(log, NonNull(TraversePreOrder(t, None, 0))) && Holds(t)
  {
    assert allocated(Nodes(t));
    var iter := new Iterator();
    var r := FirstPreOrder(iter, tree, t);
    log := Walk(iter, r, t);
  }

  /** What post-order iteration shows its caller: the node, its parent, and the subtree below it as it was. */
  ghost predicate Shows(iter: Iterator, r: Node, at: int, t: Tree<Node>, visit: Visit<Node>)
    reads iter, Nodes(t)
  {
    && visit.node == Some(r) && visit.parent == ToOption(iter.parent)
    && 0 <= at < Size(t) && InOrder(t)[at] == r
    && RootNode(SubtreeAt(t, at)) == r && SubtreeHeld(t, at)
  }

  ghost predicate SubtreeHeld(t: Tree<Node>, at: int)
    requires 0 <= at < Size(t)
    reads Nodes(t)
  {
    NodesOfSubtree(t, at);
    Holds(SubtreeAt(t, at))
  }

  lemma {:induction false} NodesOfSubtree(t: Tree<Node>, at: int)
    requires 0 <= at < Size(t)
    ensures Nodes(SubtreeAt(t, at)) <= Nodes(t)
    decreases t
  {
    var s := Size(t.left);
    NodesOfParts(t);
    if at < s {
      NodesOfSubtree(t.left, at);
    } else if at > s {
      NodesOfSubtree(t.right, at - s - 1);
    }
  }

  function ToOption(n: Node?): Option<Node> {
    if n == null then None else Some(n)
  }

  /** The state of a post-order walk after some visits. */
  ghost predicate PostWalk(iter: Iterator, t: Tree<Node>)
    reads iter, iter.f.nodes
  {
    && iter.next.PostOrderIter? && iter.PostOrderValid()
    && iter.f == Flatten(t) && iter.root == RootIx(t) && iter.d == 0
    && iter.order == NonNull(TraversePostOrder(t, None, 0))
  }

  lemma Showing(iter: Iterator, r: Node, at: int, t: Tree<Node>)
    requires PostWalk(iter, t) && 0 < iter.done <= |iter.order| && iter.VisitedAt(r, at)
    requires iter.order[iter.done - 1].node == Some(r) && iter.order[iter.done - 1].parent == ToOption(iter.parent)
    ensures Shows(iter, r, at, t, iter.order[iter.done - 1])
  {
    MarkedSubtree(t, iter.done - 1, at);
  }

  /** The nodes and parents of the first visits. */
  ghost predicate LoggedPairs(log: seq<(Node, Node?)>, order: seq<Visit<Node>>) {
    && |log| <= |order|
    && forall i :: 0 <= i < |log| ==> order[i].node == Some(log[i].0) && order[i].parent == ToOption(log[i].1)
  }

  /** The walk goes on with the node in hand, or is over. */
  ghost predicate PostInHand(iter: Iterator, r: Node?, at: int, t: Tree<Node>, log: seq<(Node, Node?)>)
    reads iter, Nodes(t)
  {
    && LoggedPairs(log, iter.order)
    && if r == null then iter.done == |log| == |iter.order|
       else iter.done == |log| + 1 <= |iter.order| && Shows(iter, r, at, t, iter.order[|log|])
  }

  method FirstPostOrder(iter: Iterator, tree: Node?, ghost t: Tree<Node>) returns (r: Node?, ghost at: int)
    requires tree == RootNode(t) && Holds(t) && Distinct(InOrder(t))
    modifies iter, InOrder(t)`left, InOrder(t)`right
    ensures PostWalk(iter, t) && PostInHand(iter, r, at, t, [])
  {
    r, at := iter.IteratePostOrder(tree, t);
    if r != null {
      Showing(iter, r, at, t);
    }
  }

  method NextPostOrder(iter: Iterator, n: Node, ghost t: Tree<Node>, ghost nAt: int, log: seq<(Node, Node?)>)
    returns (r: Node?, ghost at: int, longer: seq<(Node, Node?)>)
    requires PostWalk(iter, t) && PostInHand(iter, n, nAt, t, log)
    modifies iter`curr, iter`parent, iter`q, iter`c, iter`done, iter.f.nodes`left, iter.f.nodes`right
    ensures PostWalk(iter, t) && PostInHand(iter, r, at, t, longer) && longer == log + [(n, old(iter.parent))]
  {
    longer := log + [(n, iter.parent)];
    r, at := iter.Next();
    if r != null {
      Showing(iter, r, at, t);
    }
  }

  /** Post-order iteration equals the recursive traversal, too, with the parent of each node, although it
      marks every node while the in-order threads are in place. Whenever a node is returned, the subtree
      below it is as it was, and at the end the whole tree is. */
  method WalkPostOrder(tree: Node?, ghost t: Tree<Node>) returns (log: seq<(Node, Node?)>)
    requires tree == RootNode(t) && Holds(t) && Distinct(InOrder(t))
    modifies InOrder(t)`left, InOrder(t)`right
    ensures |log| == |NonNull(TraversePostOrder(t, None, 0))|
    ensures LoggedPairs(log, NonNull(TraversePostOrder(t, None, 0))) && Holds(t)
  {
    assert allocated(Nodes(t));
    var iter := new Iterator();
    ghost var at;
    var r;
    r, at := FirstPostOrder(iter, tree, t);
    log := WalkOn(iter, r, t, at);
  }

  method WalkOn(iter: Iterator, first: Node?, ghost t: Tree<Node>, ghost at: int) returns (log: seq<(Node, Node?)>)
    requires PostWalk(iter, t) && PostInHand(iter, first, at, t, [])
    modifies iter`curr, iter`parent, iter`q, iter`c, iter`done, iter.f.nodes`left, iter.f.nodes`right
    ensures |log| == |iter.order| && LoggedPairs(log, iter.order) && Holds(t)
  {
    log := [];
    var r := first;
    ghost var at := at;
    while r != null
      invariant PostWalk(iter, t) && PostInHand(iter, r, at, t, log)
      decreases |iter.order| - |log|
    {
      r, at, log := NextPostOrder(iter, r, t, at, log);
    }
    MarkedEnd(t);
  }

  lemma HoldsUntagged(t: Tree<Node>)
    requires Holds(t)
    ensures Untagged(Flatten(t))
  {
    forall j | 0 <= j < Size(t) ensures !Lefts(Flatten(t))[j].tag {
      HoldsAt(t, j);
    }
  }
}
