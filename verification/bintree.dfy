/** The constant-space iterators and the destructor of librfn/bintree.c over heap nodes. */
module BinTree {
  import opened FlatTree
  import opened Sequences
  import opened TreeShape
  import opened Wrappers

  /** A left pointer together with its lowest bit, which the post-order iterator uses as a mark. */
  datatype Link = Link(ptr: Node?, tag: bool)

  const NULL_LINK := Link(null, false)

  class Node {
    var left: Link
    var right: Node?
    ghost var live: bool  // false once the node has been deallocated

    constructor ()
      ensures live && left == NULL_LINK && right == null
    {
      left, right, live := NULL_LINK, null, true;
    }

    // All reads and writes of a node's fields go through the following members, which are not
    // available on a deallocated node.

    function Left(): Link
      requires live
      reads this
    {
      left
    }

    function Right(): Node?
      requires live
      reads this
    {
      right
    }

    method SetLeft(l: Link)
      requires live
      modifies this`left
      ensures left == l
    {
      left := l;
    }

    method SetRight(r: Node?)
      requires live
      modifies this`right
      ensures right == r
    {
      right := r;
    }
  }

  ghost function At(f: Flat<Node>, i: int): Node? {
    if Position(f, i) then f.nodes[i] else null
  }

  // ---------- the heap during a Morris traversal ----------

  /** The node at position j: its left pointer is the original one, unmarked unless the node has
      been left for good, and its right pointer is the original one or a thread. */
  ghost predicate MorrisAt(f: Flat<Node>, q: int, c: int, j: int)
    requires Position(f, j)
    reads f.nodes[j]
  {
    var x := f.nodes[j];
    && x.live
    && x.left.ptr == At(f, f.left[j])
    && (q <= j ==> !x.left.tag)
    && x.right == At(f, RightNow(f, q, c, j))
  }

  ghost predicate Morris(f: Flat<Node>, root: int, q: int, c: int)
    reads f.nodes
  {
    && Laid(f, root)
    && Distinct(f.nodes)
    && Cursor(f, q, c)
    && forall j {:trigger MorrisAt(f, q, c, j)} :: Position(f, j) ==> MorrisAt(f, q, c, j)
  }

  /** The heap at the cursor (q, c), except that the right pointer of the node at x is v. */
  ghost predicate MorrisAtBut(f: Flat<Node>, q: int, c: int, x: int, v: Node?, j: int)
    requires Position(f, j)
    reads f.nodes[j]
  {
    var y := f.nodes[j];
    && y.live
    && y.left.ptr == At(f, f.left[j])
    && (q <= j ==> !y.left.tag)
    && y.right == if j == x then v else At(f, RightNow(f, q, c, j))
  }

  ghost predicate MorrisBut(f: Flat<Node>, root: int, q: int, c: int, x: int, v: Node?)
    reads f.nodes
  {
    && Laid(f, root)
    && Distinct(f.nodes)
    && Cursor(f, q, c)
    && forall j {:trigger MorrisAtBut(f, q, c, x, v, j)} :: Position(f, j) ==> MorrisAtBut(f, q, c, x, v, j)
  }

  /** With its predecessor threaded, the node at c hands the cursor to its left child. */
  lemma MorrisGoLeft(f: Flat<Node>, root: int, q: int, c: int)
    requires q < c < |f.nodes| && MorrisBut(f, root, q, c, c - 1, At(f, c))
    ensures f.left[c] != -1 && Morris(f, root, q, f.left[c])
  {
    GoLeft(f, root, q, c, c);
    forall j | Position(f, j) ensures MorrisAt(f, q, f.left[c], j) {
      assert MorrisAtBut(f, q, c, c - 1, At(f, c), j);
      GoLeft(f, root, q, c, j);
    }
  }

  /** With the thread to it removed, the node at q is left. */
  lemma MorrisLeave(f: Flat<Node>, root: int, q: int)
    requires Position(f, q) && f.left[q] != -1 && MorrisBut(f, root, q, q, q - 1, null)
    ensures Morris(f, root, q + 1, After(f, q))
  {
    Leave(f, root, q, q);
    ThreadedAtCursor(f, root, q, q);
    forall j | Position(f, j) ensures MorrisAt(f, q + 1, After(f, q), j) {
      assert MorrisAtBut(f, q, q, q - 1, null, j);
      Leave(f, root, q, j);
    }
  }

  /** A node without a left subtree is left without a change. */
  lemma MorrisPass(f: Flat<Node>, root: int, q: int)
    requires Position(f, q) && f.left[q] == -1 && Morris(f, root, q, q)
    ensures Morris(f, root, q + 1, After(f, q))
  {
    Leave(f, root, q, q);
    assert BlockAt(f, q);
    forall j | Position(f, j) ensures MorrisAt(f, q + 1, After(f, q), j) {
      assert MorrisAt(f, q, q, j);
      assert NeighbourAt(f, j) && BlockAt(f, j);
      Leave(f, root, q, j);
    }
  }

  /** What the right pointer of the node at q says about the next cursor. */
  lemma RightOfLeft(f: Flat<Node>, root: int, q: int)
    requires Position(f, q) && Morris(f, root, q, q)
    ensures f.nodes[q].live && f.nodes[q].right == At(f, After(f, q))
  {
    assert MorrisAt(f, q, q, q);
    Leave(f, root, q, q);
  }

  /** The cursor after one turn of a Morris traversal's loop. */
  ghost function NextQ(q: int, c: int): int {
    if q < c then q else q + 1
  }

  ghost function NextC(f: Flat<Node>, q: int, c: int): int
    requires Position(f, q) && Position(f, c)
  {
    if q < c then f.left[c] else After(f, q)
  }

  /** How a node is reached: for the only time because it has no left subtree, or for the first or
      the second time. */
  datatype Arrival = Only | First | Second

  ghost function ArrivalAt(f: Flat<Node>, q: int, c: int): Arrival
    requires Position(f, c)
  {
    if f.left[c] == -1 then Only else if c == q then Second else First
  }

  /** A turn of the loop visits the node at the cursor in pre-order unless it is a second arrival. */
  lemma PreDoneStep(f: Flat<Node>, root: int, q: int, c: int)
    requires Laid(f, root) && Cursor(f, q, c) && c < |f.nodes|
    ensures PreDone(f, NextQ(q, c), NextC(f, q, c))
            == if ArrivalAt(f, q, c) == Second then PreDone(f, q, c) else PreDone(f, q, c) + 1
    ensures ArrivalAt(f, q, c) != Second ==> PreDone(f, q, c) == f.pre[c] < |f.nodes|
    ensures ArrivalAt(f, q, c) != First ==> c == q
  {
    assert BlockAt(f, c) && PreAt(f, c);
    if q < c {
      PreDoneGoLeft(f, root, q, c);
    } else {
      PreDoneLeave(f, root, q);
    }
  }

  // ---------- the heap during a post-order traversal ----------

  /** The node at position i, as long as it is not among the d nodes deallocated so far. */
  ghost function Kept(f: Flat<Node>, d: int, i: int): Node? {
    if Position(f, i) && d <= f.post[i] then f.nodes[i] else null
  }

  /** The node at position j after k nodes have been visited and d of them deallocated: it is marked
      exactly when it is still to be visited, and its pointers to deallocated nodes are cleared. */
  ghost predicate MarkedAt(f: Flat<Node>, k: int, d: int, j: int)
    requires Position(f, j)
    reads f.nodes[j]
  {
    var x := f.nodes[j];
    d <= f.post[j] ==>
      && x.live
      && x.left == Link(Kept(f, d, f.left[j]), k <= f.post[j])
      && x.right == Kept(f, d, f.right[j])
  }

  ghost predicate Marked(f: Flat<Node>, root: int, k: int, d: int)
    reads f.nodes
  {
    && Laid(f, root)
    && Distinct(f.nodes)
    && 0 <= d <= k <= |f.nodes|
    && forall j {:trigger MarkedAt(f, k, d, j)} :: Position(f, j) ==> MarkedAt(f, k, d, j)
  }

  /** A marked node and its children, as the post-order iterator sees them. */
  lemma MarkedChildren(f: Flat<Node>, root: int, k: int, d: int, c: int)
    requires Marked(f, root, k, d) && Position(f, c) && k <= f.post[c]
    ensures f.nodes[c].live && f.nodes[c].left == Link(Kept(f, d, f.left[c]), true)
    ensures f.nodes[c].right == Kept(f, d, f.right[c])
    ensures Kept(f, d, f.left[c]) != null ==>
              && f.nodes[f.left[c]].live
              && (f.nodes[f.left[c]].left.tag <==> k <= f.post[f.left[c]])
    ensures Kept(f, d, f.right[c]) != null ==>
              && f.nodes[f.right[c]].live
              && (f.nodes[f.right[c]].left.tag <==> k <= f.post[f.right[c]])
  {
    assert MarkedAt(f, k, d, c);
    if Position(f, f.left[c]) {
      assert MarkedAt(f, k, d, f.left[c]);
    }
    if Position(f, f.right[c]) {
      assert MarkedAt(f, k, d, f.right[c]);
    }
  }

  // ---------- orders of visits ----------

  /** The visit of a given rank is that of the node at position j. */
  ghost predicate VisitIs(f: Flat<Node>, order: seq<Visit<Node>>, rank: int, j: int)
    requires Position(f, j)
  {
    && 0 <= rank < |order|
    && order[rank].node == Some(f.nodes[j])
    && order[rank].parent == if Position(f, f.up[j]) then Some(f.nodes[f.up[j]]) else None
  }

  ghost predicate InOrdered(f: Flat<Node>, order: seq<Visit<Node>>) {
    && |order| == |f.nodes|
    && forall j {:trigger VisitIs(f, order, j, j)} :: Position(f, j) ==> VisitIs(f, order, j, j)
  }

  ghost predicate PreOrdered(f: Flat<Node>, order: seq<Visit<Node>>) {
    && |order| == |f.nodes|
    && forall j {:trigger VisitIs(f, order, f.pre[j], j)} :: Position(f, j) ==> VisitIs(f, order, f.pre[j], j)
  }

  ghost predicate PostOrdered(f: Flat<Node>, order: seq<Visit<Node>>) {
    && |order| == |f.nodes|
    && forall j {:trigger VisitIs(f, order, f.post[j], j)} :: Position(f, j) ==> VisitIs(f, order, f.post[j], j)
  }

  lemma InOrderIsInOrdered(t: Tree<Node>)
    ensures InOrdered(Flatten(t), NonNull(TraverseInOrder(t, None, 0)))
  {
    var f, order := Flatten(t), NonNull(TraverseInOrder(t, None, 0));
    InOrderLength(t, None, 0);
    forall j | Position(f, j) ensures VisitIs(f, order, j, j) {
      InOrderVisits(t, j, None, 0);
      ParentAtIsUp(t, j, None);
    }
  }

  lemma PreOrderIsPreOrdered(t: Tree<Node>)
    ensures PreOrdered(Flatten(t), NonNull(TraversePreOrder(t, None, 0)))
  {
    var f, order := Flatten(t), NonNull(TraversePreOrder(t, None, 0));
    PreOrderLength(t, None, 0);
    forall j | Position(f, j) ensures VisitIs(f, order, f.pre[j], j) {
      PreOrderVisits(t, j, None, 0);
      ParentAtIsUp(t, j, None);
    }
  }

  lemma PostOrderIsPostOrdered(t: Tree<Node>)
    ensures PostOrdered(Flatten(t), NonNull(TraversePostOrder(t, None, 0)))
  {
    var f, order := Flatten(t), NonNull(TraversePostOrder(t, None, 0));
    PostOrderLength(t, None, 0);
    forall j | Position(f, j) ensures VisitIs(f, order, f.post[j], j) {
      PostOrderVisits(t, j, None, 0);
      ParentAtIsUp(t, j, None);
    }
  }

  // ---------- the heap of an undisturbed tree ----------

  ghost function RootNode(t: Tree<Node>): Node? {
    if t.Nil? then null else t.root
  }

  ghost function Nodes(t: Tree<Node>): set<Node> {
    set i | 0 <= i < Size(t) :: InOrder(t)[i]
  }

  lemma NodesOfParts(t: Tree<Node>)
    requires t.Bin?
    ensures t.root in Nodes(t) && Nodes(t.left) <= Nodes(t) && Nodes(t.right) <= Nodes(t)
  {
    assert InOrder(t)[Size(t.left)] == t.root;
    forall x | x in Nodes(t.left) ensures x in Nodes(t) {
      var i :| 0 <= i < Size(t.left) && InOrder(t.left)[i] == x;
      assert InOrder(t)[i] == x;
    }
    forall x | x in Nodes(t.right) ensures x in Nodes(t) {
      var i :| 0 <= i < Size(t.right) && InOrder(t.right)[i] == x;
      assert InOrder(t)[Size(t.left) + 1 + i] == x;
    }
  }

  /** The heap holds the tree t, with no thread and no mark. */
  ghost predicate Holds(t: Tree<Node>)
    reads Nodes(t)
  {
    t.Bin? ==>
      (NodesOfParts(t);
       && t.root.live
       && t.root.left == Link(RootNode(t.left), false)
       && t.root.right == RootNode(t.right)
       && Holds(t.left)
       && Holds(t.right))
  }

  ghost function NodeAt(t: Tree<Node>, i: int): Node? {
    if 0 <= i < Size(t) then InOrder(t)[i] else null
  }

  ghost predicate OriginalAt(t: Tree<Node>, j: int)
    requires 0 <= j < Size(t)
    reads InOrder(t)[j]
  {
    var x := InOrder(t)[j];
    x.live && x.left == Link(NodeAt(t, LeftIx(t, j)), false) && x.right == NodeAt(t, RightIx(t, j))
  }

  lemma RootNodeAt(t: Tree<Node>)
    ensures RootNode(t) == NodeAt(t, RootIx(t))
  {
  }

  /** The node at a position of a child is as in the child alone. */
  lemma OriginalInLeft(t: Tree<Node>, j: int)
    requires t.Bin? && 0 <= j < Size(t.left)
    ensures OriginalAt(t, j) <==> OriginalAt(t.left, j)
  {
    Blocks(t.left, j);
    assert LeftIx(t, j) == LeftIx(t.left, j) && RightIx(t, j) == RightIx(t.left, j);
  }

  lemma NodeInRight(t: Tree<Node>, i: int)
    requires t.Bin? && -1 <= i < Size(t.right)
    ensures NodeAt(t, Shift(i, Size(t.left) + 1)) == NodeAt(t.right, i)
  {
  }

  lemma OriginalInRight(t: Tree<Node>, j: int)
    requires t.Bin? && 0 <= j < Size(t.right)
    ensures OriginalAt(t, Size(t.left) + 1 + j) <==> OriginalAt(t.right, j)
  {
    Blocks(t.right, j);
    NodeInRight(t, j);
    NodeInRight(t, LeftIx(t.right, j));
    NodeInRight(t, RightIx(t.right, j));
  }

  lemma {:induction false} HoldsAt(t: Tree<Node>, j: int)
    requires Holds(t) && 0 <= j < Size(t)
    ensures OriginalAt(t, j)
  {
    var s := Size(t.left);
    if j < s {
      OriginalInLeft(t, j);
      HoldsAt(t.left, j);
    } else if j > s {
      OriginalInRight(t, j - s - 1);
      HoldsAt(t.right, j - s - 1);
    } else {
      RootNodeAt(t.left);
      RootNodeAt(t.right);
    }
  }

  /** The subtree whose root is at position c. */
  function SubtreeAt(t: Tree<Node>, c: int): Tree<Node>
    requires 0 <= c < Size(t)
  {
    var s := Size(t.left);
    if c == s then t else if c < s then SubtreeAt(t.left, c) else SubtreeAt(t.right, c - s - 1)
  }

  /** If every node of a tree has its original pointers, the heap holds the tree. */
  lemma {:induction false} HoldsAll(t: Tree<Node>)
    requires forall j {:trigger OriginalAt(t, j)} :: 0 <= j < Size(t) ==> OriginalAt(t, j)
    ensures Holds(t)
  {
    if t.Bin? {
      var s := Size(t.left);
      forall j | 0 <= j < s ensures OriginalAt(t.left, j) {
        OriginalInLeft(t, j);
        assert OriginalAt(t, j);
      }
      HoldsAll(t.left);
      forall j | 0 <= j < Size(t.right) ensures OriginalAt(t.right, j) {
        OriginalInRight(t, j);
        assert OriginalAt(t, s + 1 + j);
      }
      HoldsAll(t.right);
      assert OriginalAt(t, s);
      RootNodeAt(t.left);
      RootNodeAt(t.right);
    }
  }

  /** Every node in the block of the subtree at c has its original pointers. */
  ghost predicate OriginalBlock(t: Tree<Node>, c: int)
    requires 0 <= c < Size(t)
    reads Nodes(t)
  {
    forall j {:trigger OriginalAt(t, j)} :: Lo(t, c) <= j <= Hi(t, c) && 0 <= j < Size(t) ==> OriginalAt(t, j)
  }

  lemma BlockInLeft(t: Tree<Node>, c: int)
    requires t.Bin? && 0 <= c < Size(t.left) && OriginalBlock(t, c)
    ensures OriginalBlock(t.left, c)
  {
    forall j | Lo(t.left, c) <= j <= Hi(t.left, c) && 0 <= j < Size(t.left) ensures OriginalAt(t.left, j) {
      OriginalInLeft(t, j);
      assert OriginalAt(t, j);
    }
  }

  lemma BlockInRight(t: Tree<Node>, r: int)
    requires t.Bin? && 0 <= r < Size(t.right) && OriginalBlock(t, Size(t.left) + 1 + r)
    ensures OriginalBlock(t.right, r)
  {
    var s := Size(t.left);
    forall j | Lo(t.right, r) <= j <= Hi(t.right, r) && 0 <= j < Size(t.right) ensures OriginalAt(t.right, j) {
      OriginalInRight(t, j);
      assert OriginalAt(t, s + 1 + j);
    }
  }

  /** The same for the block of a subtree. */
  lemma {:induction false} HoldsBlock(t: Tree<Node>, c: int)
    requires 0 <= c < Size(t) && OriginalBlock(t, c)
    ensures Holds(SubtreeAt(t, c)) && RootNode(SubtreeAt(t, c)) == InOrder(t)[c]
  {
    var s := Size(t.left);
    if c == s {
      HoldsAll(t);
    } else if c < s {
      BlockInLeft(t, c);
      HoldsBlock(t.left, c);
    } else {
      BlockInRight(t, c - s - 1);
      HoldsBlock(t.right, c - s - 1);
    }
  }

  /** The heap of an undisturbed tree is that at the start of a Morris traversal ... */
  lemma MorrisStart(t: Tree<Node>)
    requires Holds(t) && Distinct(InOrder(t))
    ensures Morris(Flatten(t), RootIx(t), 0, Start(RootIx(t)))
    ensures RootNode(t) == At(Flatten(t), Start(RootIx(t)))
  {
    var f, root := Flatten(t), RootIx(t);
    FlattenLaid(t);
    StartUnthreaded(f, root);
    forall j | Position(f, j) ensures MorrisAt(f, 0, Start(root), j) {
      HoldsAt(t, j);
      Blocks(t, j);
    }
  }

  ghost predicate Unthreaded(f: Flat<Node>)
    requires SameLength(f)
    reads f.nodes
  {
    forall j {:trigger f.nodes[j]} :: 0 <= j < |f.nodes| ==> f.nodes[j].right == At(f, f.right[j])
  }

  lemma MorrisUnthreaded(f: Flat<Node>, root: int, c: int)
    requires Morris(f, root, |f.nodes|, c)
    ensures Unthreaded(f)
  {
    EndUnthreaded(f, c);
    forall j | Position(f, j) ensures f.nodes[j].right == At(f, f.right[j]) {
      assert MorrisAt(f, |f.nodes|, c, j);
    }
  }

  /** The left pointers of the first n nodes, with their marks. */
  ghost function LeftsTo(f: Flat<Node>, n: nat): (l: seq<Link>)
    requires n <= |f.nodes|
    reads f.nodes`left
    ensures |l| == n && forall j :: 0 <= j < n ==> l[j] == f.nodes[j].left
  {
    if n == 0 then [] else LeftsTo(f, n - 1) + [f.nodes[n - 1].left]
  }

  ghost function Lefts(f: Flat<Node>): (l: seq<Link>)
    reads f.nodes`left
    ensures |l| == |f.nodes| && forall j :: 0 <= j < |l| ==> l[j] == f.nodes[j].left
  {
    LeftsTo(f, |f.nodes|)
  }

  ghost predicate Untagged(f: Flat<Node>)
    reads f.nodes`left
  {
    forall j :: 0 <= j < |f.nodes| ==> !Lefts(f)[j].tag
  }

  /** ... and that at its end, if no node has been marked meanwhile. */
  lemma MorrisEnd(t: Tree<Node>, c: int)
    requires Morris(Flatten(t), RootIx(t), Size(t), c) && Untagged(Flatten(t))
    ensures Holds(t)
  {
    forall j | 0 <= j < Size(t) ensures OriginalAt(t, j) {
      MorrisEndAt(t, c, j);
    }
    HoldsAll(t);
  }

  lemma MorrisEndAt(t: Tree<Node>, c: int, j: int)
    requires Morris(Flatten(t), RootIx(t), Size(t), c) && Untagged(Flatten(t)) && 0 <= j < Size(t)
    ensures OriginalAt(t, j)
  {
    var f := Flatten(t);
    EndUnthreaded(f, c);
    assert MorrisAt(f, Size(t), c, j) && !Lefts(f)[j].tag;
    Blocks(t, j);
  }

  ghost predicate MarkedBelow(f: Flat<Node>, q: int)
    reads f.nodes
  {
    forall j {:trigger f.nodes[j]} :: 0 <= j < |f.nodes| && j < q ==> f.nodes[j].left.tag
  }

  /** Once every node has been marked, post-order traversal can begin. */
  lemma MarkedStart(f: Flat<Node>, root: int, c: int)
    requires Morris(f, root, |f.nodes|, c) && MarkedBelow(f, |f.nodes|)
    ensures Marked(f, root, 0, 0)
  {
    EndUnthreaded(f, c);
    forall j | Position(f, j) ensures MarkedAt(f, 0, 0, j) {
      assert MorrisAt(f, |f.nodes|, c, j) && PostAt(f, j);
      if Position(f, f.left[j]) {
        assert PostAt(f, f.left[j]);
      }
      if Position(f, f.right[j]) {
        assert PostAt(f, f.right[j]);
      }
    }
  }

  /** When all nodes have been visited and none deallocated, the heap holds the tree again. */
  lemma MarkedEnd(t: Tree<Node>)
    requires Marked(Flatten(t), RootIx(t), Size(t), 0)
    ensures Holds(t)
  {
    var f := Flatten(t);
    forall j | 0 <= j < Size(t) ensures OriginalAt(t, j) {
      PostRanks(t, j);
      MarkedOriginal(t, Size(t), j);
    }
    HoldsAll(t);
  }

  lemma MarkedOriginal(t: Tree<Node>, k: int, j: int)
    requires Marked(Flatten(t), RootIx(t), k, 0) && 0 <= j < Size(t) && PostIx(t, j) < k
    ensures OriginalAt(t, j)
  {
    var f := Flatten(t);
    assert MarkedAt(f, k, 0, j) && PostAt(f, j);
    Blocks(t, j);
    if Position(f, f.left[j]) {
      assert PostAt(f, f.left[j]);
    }
    if Position(f, f.right[j]) {
      assert PostAt(f, f.right[j]);
    }
  }

  lemma MarkedBlock(t: Tree<Node>, k: int, c: int)
    requires 0 <= c < Size(t) && PostIx(t, c) == k && Marked(Flatten(t), RootIx(t), k + 1, 0)
    ensures OriginalBlock(t, c)
  {
    forall j | Lo(t, c) <= j <= Hi(t, c) && 0 <= j < Size(t) ensures OriginalAt(t, j) {
      RankInBlock(t, c, j);
      MarkedOriginal(t, k + 1, j);
    }
  }

  /** When post-order visits a node, the heap holds the whole subtree below it. */
  lemma MarkedSubtree(t: Tree<Node>, k: int, c: int)
    requires 0 <= c < Size(t) && PostIx(t, c) == k && Marked(Flatten(t), RootIx(t), k + 1, 0)
    ensures Holds(SubtreeAt(t, c)) && RootNode(SubtreeAt(t, c)) == InOrder(t)[c]
  {
    MarkedBlock(t, k, c);
    HoldsBlock(t, c);
  }

  /** Which function an iterator's next pointer holds. */
  datatype Kind = InOrderIter | PreOrderIter | PostOrderIter

  class Iterator {
    var next: Kind
    var curr: Node?
    var parent: Node?
    ghost var f: Flat<Node>
    ghost var root: int
    ghost var q: int  // how many nodes a Morris traversal has left
    ghost var c: int  // the position it looks at next

    ghost var d: int  // how many visited nodes have been deallocated
    ghost var order: seq<Visit<Node>>  // the visits this iterator makes
    ghost var done: nat                // how many of them it has made

    constructor ()
    {
      next, curr, parent := InOrderIter, null, null;
      f, root, q, c, d, order, done := Flatten(Nil), -1, 0, 0, 0, [], 0;
    }

    ghost predicate Walking()
      reads this, f.nodes
    {
      Morris(f, root, q, c) && curr == At(f, c)
    }

    ghost predicate InOrderValid()
      reads this, f.nodes
    {
      Walking() && InOrdered(f, order) && done == q
    }

    ghost predicate PreOrderValid()
      reads this, f.nodes
    {
      Walking() && PreOrdered(f, order) && done == PreDone(f, q, c) <= |f.nodes|
    }

    ghost predicate PostOrderValid()
      reads this, f.nodes
    {
      && Marked(f, root, done, d)
      && PostOrdered(f, order)
      && curr == if done < |f.nodes| then At(f, root) else null
    }

    /** Search for the in-order predecessor of a node with a left subtree. */
    static method Predecessor(curr: Node, ghost f: Flat<Node>, ghost root: int, ghost q: int, ghost c: int)
      returns (prev: Node)
      requires Morris(f, root, q, c) && curr == At(f, c)
      requires f.left[c] != -1
      ensures c > 0 && prev == At(f, c - 1) && prev.live
      ensures prev.right == if c == q then curr else null
    {
      ThreadedAtCursor(f, root, q, c);
      assert MorrisAt(f, q, c, c) && BlockAt(f, c);
      prev := curr.Left().ptr;
      ghost var p := f.left[c];
      assert MorrisAt(f, q, c, p) && BlockAt(f, p);
      assert MorrisAt(f, q, c, c - 1);
      while prev.Right() != null && prev.Right() != curr
        invariant Position(f, p) && prev == f.nodes[p] && p < c && f.hi[p] == c - 1
        invariant MorrisAt(f, q, c, p) && BlockAt(f, p)
        decreases c - p
      {
        assert f.right[p] != -1;
        p := f.right[p];
        prev := prev.Right();
        assert MorrisAt(f, q, c, p) && BlockAt(f, p);
      }
    }

    /** Redirect the right pointer of one node. */
    static method Redirect(node: Node, v: Node?, ghost f: Flat<Node>, ghost root: int,
                           ghost q: int, ghost c: int, ghost x: int)
      requires Morris(f, root, q, c) && Position(f, x) && node == f.nodes[x]
      modifies node`right
      ensures MorrisBut(f, root, q, c, x, v)
    {
      assert MorrisAt(f, q, c, x);
      node.SetRight(v);
      forall j | Position(f, j) ensures MorrisAtBut(f, q, c, x, v, j) {
        assert old(MorrisAt(f, q, c, j));
      }
    }

    /** First visit of a node with a left subtree: thread its predecessor to it and go left. */
    static method Enter(prev: Node, curr: Node, ghost f: Flat<Node>, ghost root: int, ghost q: int, ghost c: int)
      returns (next: Node?)
      requires Morris(f, root, q, c) && q < c && curr == At(f, c) && prev == At(f, c - 1)
      modifies prev`right
      ensures f.left[c] != -1 && Morris(f, root, q, f.left[c]) && next == At(f, f.left[c])
      ensures next != null
    {
      Redirect(prev, curr, f, root, q, c, c - 1);
      assert MorrisAtBut(f, q, c, c - 1, curr, c);
      next := curr.Left().ptr;
      MorrisGoLeft(f, root, q, c);
      assert BlockAt(f, c);
    }

    /** Second visit of a node: remove the thread to it. */
    static method Unthread(prev: Node, curr: Node, ghost f: Flat<Node>, ghost root: int, ghost q: int)
      returns (next: Node?)
      requires Morris(f, root, q, q) && Position(f, q) && f.left[q] != -1
      requires curr == At(f, q) && prev == At(f, q - 1)
      modifies prev`right
      ensures Morris(f, root, q + 1, After(f, q)) && next == At(f, After(f, q))
    {
      RightOfLeft(f, root, q);
      Redirect(prev, null, f, root, q, q, q - 1);
      assert MorrisAtBut(f, q, q, q - 1, null, q);
      next := curr.Right();
      MorrisLeave(f, root, q);
    }

    /** The only visit of a node without a left subtree. */
    static method Pass(curr: Node, ghost f: Flat<Node>, ghost root: int, ghost q: int)
      returns (next: Node?)
      requires Morris(f, root, q, q) && Position(f, q) && f.left[q] == -1 && curr == At(f, q)
      ensures Morris(f, root, q + 1, After(f, q)) && next == At(f, After(f, q))
    {
      RightOfLeft(f, root, q);
      next := curr.Right();
      MorrisPass(f, root, q);
    }

    /** One turn of the loop that the in-order and the pre-order iterator share. */
    static method Step(curr: Node, ghost f: Flat<Node>, ghost root: int, ghost q: int, ghost c: int)
      returns (next: Node?, arrival: Arrival)
      requires Morris(f, root, q, c) && curr == At(f, c)
      modifies f.nodes`right
      ensures arrival == ArrivalAt(f, q, c)
      ensures Morris(f, root, NextQ(q, c), NextC(f, q, c)) && next == At(f, NextC(f, q, c))
      ensures q < c ==> 0 <= f.left[c] < c
    {
      ThreadedAtCursor(f, root, q, c);
      assert BlockAt(f, c) && MorrisAt(f, q, c, c);
      if curr.Left() == NULL_LINK {
        next := Pass(curr, f, root, q);
        return next, Only;
      }
      var prev := Predecessor(curr, f, root, q, c);
      if prev.Right() == null {
        next := Enter(prev, curr, f, root, q, c);
        return next, First;
      } else {
        next := Unthread(prev, curr, f, root, q);
        return next, Second;
      }
    }

    /** Remember where a Morris traversal has got to. */
    method Suspend(curr: Node?, ghost f: Flat<Node>, ghost root: int, ghost q: int, ghost c: int, ghost done: nat)
      requires f == this.f && root == this.root && Morris(f, root, q, c) && curr == At(f, c)
      modifies `curr, `q, `c, `done
      ensures Walking() && this.q == q && this.c == c && this.done == done
    {
      this.curr, this.q, this.c, this.done := curr, q, c, done;
    }

    method InOrderNext() returns (r: Node?)
      requires InOrderValid()
      modifies `curr, `q, `c, `done, f.nodes`right
      ensures InOrderValid()
      ensures if old(done) == |order| then r == null && done == old(done)
              else done == old(done) + 1 && r != null && order[old(done)].node == Some(r)
      ensures r == At(f, old(done))
    {
      ghost var f, root, p, k := f, root, q, c;
      var curr := this.curr;
      r := null;
      while curr != null
        invariant done == p == old(done) && r == null
        invariant Morris(f, root, p, k) && curr == At(f, k)
        decreases k
      {
        var next, arrival := Step(curr, f, root, p, k);
        if arrival != First {
          assert VisitIs(f, order, k, k);
          r, curr, p, k := curr, next, p + 1, After(f, p);
          break;
        }
        curr, k := next, f.left[k];
      }
      Suspend(curr, f, root, p, k, p);
    }

    method PreOrderNext() returns (r: Node?)
      requires PreOrderValid()
      modifies `curr, `q, `c, `done, f.nodes`right
      ensures PreOrderValid()
      ensures if old(done) == |order| then r == null && done == old(done)
              else done == old(done) + 1 && r != null && order[old(done)].node == Some(r)
      ensures r == null ==> q == |f.nodes|
    {
      ghost var f, root, p, k, n := f, root, q, c, done;
      var curr := this.curr;
      r := null;
      while curr != null
        invariant done == old(done) && r == null
        invariant Morris(f, root, p, k) && curr == At(f, k) && n == done == PreDone(f, p, k)
        decreases |f.nodes| - p, k
      {
        var next, arrival := Step(curr, f, root, p, k);
        PreDoneStep(f, root, p, k);
        if arrival != Second {
          assert VisitIs(f, order, f.pre[k], k);
          r, curr, p, k, n := curr, next, NextQ(p, k), NextC(f, p, k), n + 1;
          break;
        }
        curr, p, k := next, p + 1, After(f, p);
      }
      Suspend(curr, f, root, p, k, n);
    }

    /** Remove the mark of the node of rank k. */
    static method Unmark(node: Node, ghost f: Flat<Node>, ghost root: int, ghost k: int, ghost d: int, ghost c: int)
      requires Marked(f, root, k, d) && Position(f, c) && node == f.nodes[c] && f.post[c] == k
      modifies node`left
      ensures Marked(f, root, k + 1, d)
    {
      assert MarkedAt(f, k, d, c) && PostAt(f, c);
      node.SetLeft(Link(node.Left().ptr, false));
      forall j | Position(f, j) ensures MarkedAt(f, k + 1, d, j) {
        assert old(MarkedAt(f, k, d, j));
        SameRank(f, root, j, c);
      }
    }

    /** The node last visited in post-order is at the given position, and parent is its parent. */
    ghost predicate VisitedAt(r: Node, at: int)
      reads this
    {
      Position(f, at) && f.post[at] == done - 1 && r == f.nodes[at] && parent == At(f, f.up[at])
    }

    method PostOrderNext() returns (r: Node?, ghost at: int)
      requires PostOrderValid()
      modifies `curr, `parent, `done, f.nodes`left
      ensures PostOrderValid()
      ensures if old(done) == |order| then r == null && done == old(done)
              else
                && done == old(done) + 1 && r != null
                && order[old(done)].node == Some(r)
                && order[old(done)].parent == if parent == null then None else Some(parent)
      ensures r != null ==> VisitedAt(r, at)
    {
      ghost var f, root, k, d, c := f, root, done, d, root;
      var tmp, prev: Node? := curr, null;
      if tmp != null {
        MarkedChildren(f, root, k, d, c);
        assert UpAt(f, root, root);
      }
      while tmp != null && tmp.Left().tag
        invariant curr == old(curr) && done == k && Marked(f, root, k, d)
        invariant tmp != null <==> k < |f.nodes|
        invariant tmp != null ==>
                    Within(f, k, c) && tmp == f.nodes[c] && prev == At(f, f.up[c]) && tmp.live && tmp.left.tag
        decreases if tmp == null then 0 else f.post[c]
      {
        MarkedChildren(f, root, k, d, c);
        DescendWithin(f, root, k, c);
        assert PostAt(f, c);
        var left := tmp.Left().ptr;
        if left != null && left.Left().tag {
          prev, tmp, c := tmp, left, f.left[c];
          continue;
        }
        if tmp.Right() != null && tmp.Right().Left().tag {
          prev, tmp, c := tmp, tmp.Right(), f.right[c];
          continue;
        }
        assert VisitIs(f, order, k, c);
        SameRank(f, root, c, root);
        Unmark(tmp, f, root, k, d, c);
        if tmp == curr {
          curr := null;
        }
        parent := prev;
        done := done + 1;
        return tmp, c;
      }
      return null, -1;
    }

    /** Start a Morris traversal from the root. */
    method Begin(kind: Kind, tree: Node?, ghost f: Flat<Node>, ghost root: int, ghost order: seq<Visit<Node>>)
      requires Morris(f, root, 0, Start(root)) && tree == At(f, Start(root))
      modifies this
      ensures next == kind && this.f == f && this.root == root && this.order == order
      ensures q == 0 && c == Start(root) && done == 0 && d == 0 && Walking()
    {
      next, curr, this.f, this.root, q, c := kind, tree, f, root, 0, Start(root);
      this.order, done, d := order, 0, 0;
    }

    method IterateInOrder(tree: Node?, ghost t: Tree<Node>) returns (r: Node?)
      requires tree == RootNode(t) && Holds(t) && Distinct(InOrder(t))
      modifies this, InOrder(t)`right
      ensures f == Flatten(t) && root == RootIx(t) && order == NonNull(TraverseInOrder(t, None, 0))
      ensures next == InOrderIter && InOrderValid() && d == 0
      ensures if |order| == 0 then r == null && done == 0
              else done == 1 && r != null && order[0].node == Some(r)
      ensures r == At(f, 0)
    {
      MorrisStart(t);
      InOrderIsInOrdered(t);
      Begin(InOrderIter, tree, Flatten(t), RootIx(t), NonNull(TraverseInOrder(t, None, 0)));
      r := InOrderNext();
    }

    method IteratePreOrder(tree: Node?, ghost t: Tree<Node>) returns (r: Node?)
      requires tree == RootNode(t) && Holds(t) && Distinct(InOrder(t))
      modifies this, InOrder(t)`right
      ensures f == Flatten(t) && root == RootIx(t) && order == NonNull(TraversePreOrder(t, None, 0))
      ensures next == PreOrderIter && PreOrderValid() && d == 0
      ensures if |order| == 0 then r == null && done == 0
              else done == 1 && r != null && order[0].node == Some(r)
    {
      MorrisStart(t);
      FlattenLaid(t);
      PreDoneStart(Flatten(t), RootIx(t));
      PreOrderIsPreOrdered(t);
      Begin(PreOrderIter, tree, Flatten(t), RootIx(t), NonNull(TraversePreOrder(t, None, 0)));
      r := PreOrderNext();
    }

    /** Mark a node that an in-order traversal has left. The traversal does not notice. */
    static method Mark(node: Node, ghost f: Flat<Node>, ghost root: int, ghost q: int, ghost c: int)
      requires Morris(f, root, q, c) && 0 < q && node == At(f, q - 1)
      requires MarkedBelow(f, q - 1)
      modifies node`left
      ensures Morris(f, root, q, c) && MarkedBelow(f, q)
    {
      assert MorrisAt(f, q, c, q - 1);
      node.SetLeft(Link(node.Left().ptr, true));
      forall j | Position(f, j) ensures MorrisAt(f, q, c, j) {
        assert old(MorrisAt(f, q, c, j));
      }
    }

    /** Mark the node just returned and go on to the next one. */
    method MarkNext(curr: Node) returns (next: Node?)
      requires InOrderValid() && 0 < done && curr == At(f, done - 1) && MarkedBelow(f, done - 1)
      modifies `curr, `q, `c, `done, f.nodes`left, f.nodes`right
      ensures InOrderValid() && MarkedBelow(f, old(done))
      ensures done == if old(done) == |f.nodes| then old(done) else old(done) + 1
      ensures next == At(f, old(done))
    {
      Mark(curr, f, root, q, c);
      next := InOrderNext();
    }

    /** Mark every node, each as soon as the in-order traversal returns it. */
    method MarkAll(first: Node?)
      requires InOrderValid() && MarkedBelow(f, 0) && first == At(f, 0)
      requires done == if first == null then |f.nodes| else 1
      modifies `curr, `q, `c, `done, f.nodes`left, f.nodes`right
      ensures Morris(f, root, |f.nodes|, c) && MarkedBelow(f, |f.nodes|)
    {
      var curr := first;
      while curr != null
        invariant InOrderValid()
        invariant if curr == null then done == |f.nodes| else done > 0
        invariant curr == At(f, if curr == null then |f.nodes| else done - 1)
        invariant MarkedBelow(f, if curr == null then done else done - 1)
        decreases |f.nodes| - done, if curr == null then 0 else 1
      {
        curr := MarkNext(curr);
      }
    }

    method MarkTree(tree: Node?, ghost t: Tree<Node>)
      requires tree == RootNode(t) && Holds(t) && Distinct(InOrder(t))
      modifies this, InOrder(t)`left, InOrder(t)`right
      ensures f == Flatten(t) && root == RootIx(t) && Morris(f, root, |f.nodes|, c) && MarkedBelow(f, |f.nodes|)
    {
      var curr := IterateInOrder(tree, t);
      MarkAll(curr);
    }

    /** Start visiting marked nodes in post-order. */
    method BeginPostOrder(tree: Node?, ghost f: Flat<Node>, ghost root: int, ghost order: seq<Visit<Node>>)
      requires f == this.f && root == this.root
      requires Marked(f, root, 0, 0) && PostOrdered(f, order) && tree == At(f, root)
      modifies `next, `curr, `done, `order, `d
      ensures next == PostOrderIter && this.order == order && done == 0 && d == 0 && PostOrderValid()
    {
      next, curr, this.order, done, d := PostOrderIter, tree, order, 0, 0;
    }

    /** Mark all nodes during an in-order traversal, so that their marks can be removed one by one in
        post-order. */
    method IteratePostOrder(tree: Node?, ghost t: Tree<Node>) returns (r: Node?, ghost at: int)
      requires tree == RootNode(t) && Holds(t) && Distinct(InOrder(t))
      modifies this, InOrder(t)`left, InOrder(t)`right
      ensures f == Flatten(t) && root == RootIx(t) && order == NonNull(TraversePostOrder(t, None, 0))
      ensures next == PostOrderIter && PostOrderValid() && d == 0
      ensures if |order| == 0 then r == null && done == 0
              else
                && done == 1 && r != null
                && order[0].node == Some(r)
                && order[0].parent == if parent == null then None else Some(parent)
      ensures r != null ==> VisitedAt(r, at)
    {
      MarkTree(tree, t);
      MarkedStart(f, root, c);
      PostOrderIsPostOrdered(t);
      BeginPostOrder(tree, f, root, NonNull(TraversePostOrder(t, None, 0)));
      r, at := PostOrderNext();
    }

    ghost predicate Valid()
      reads this, f.nodes
    {
      match next
      case InOrderIter => InOrderValid()
      case PreOrderIter => PreOrderValid()
      case PostOrderIter => PostOrderValid()
    }

    method Next() returns (r: Node?, ghost at: int)
      requires Valid()
      modifies `curr, `parent, `q, `c, `done, f.nodes`left, f.nodes`right
      ensures Valid()
      ensures if old(done) == |order| then r == null && done == old(done)
              else done == old(done) + 1 && r != null && order[old(done)].node == Some(r)
      ensures next.PostOrderIter? && r != null ==>
                && VisitedAt(r, at)
                && order[old(done)].parent == if parent == null then None else Some(parent)
      ensures !next.PostOrderIter? ==> Lefts(f) == old(Lefts(f))
      ensures !next.PostOrderIter? && r == null ==> q == |f.nodes|
    {
      at := -1;
      match next
      case InOrderIter => r := InOrderNext();
      case PreOrderIter => r := PreOrderNext();
      case PostOrderIter => r, at := PostOrderNext();
    }

    /** After a call of Next: the left pointers are the given ones unless the iterator unmarks nodes itself. */
    ghost predicate Going(r: Node?, lefts: seq<Link>)
      reads this, f.nodes
    {
      && Valid() && done <= |order| && (r == null ==> done == |order|)
      && (!next.PostOrderIter? ==> Lefts(f) == lefts && (r == null ==> q == |f.nodes|))
    }

    method GoOn(ghost lefts: seq<Link>) returns (r: Node?)
      requires Valid() && (!next.PostOrderIter? ==> Lefts(f) == lefts)
      modifies `curr, `parent, `q, `c, `done, f.nodes`left, f.nodes`right
      ensures Going(r, lefts) && (r != null ==> done == old(done) + 1)
    {
      ghost var at;
      r, at := Next();
    }

    /** Call Next until it returns null. */
    method Exhaust()
      requires Valid()
      modifies `curr, `parent, `q, `c, `done, f.nodes`left, f.nodes`right
      ensures Valid() && done == |order|
      ensures !next.PostOrderIter? ==> Lefts(f) == old(Lefts(f)) && q == |f.nodes|
    {
      ghost var lefts := Lefts(f);
      var r := GoOn(lefts);
      while r != null
        invariant Going(r, lefts)
        decreases |order| - done, r != null
      {
        r := GoOn(lefts);
      }
    }

    /** Run an iterator to its end, from wherever it is: the tree is restored, up to marks that the
        caller has set during a Morris traversal. */
    method Complete(ghost t: Tree<Node>)
      requires Valid() && f == Flatten(t) && root == RootIx(t)
      modifies `curr, `parent, `q, `c, `done, f.nodes`left, f.nodes`right
      ensures Valid() && done == |order|
      ensures !next.PostOrderIter? ==> Lefts(f) == old(Lefts(f))
      ensures !next.PostOrderIter? ==> Unthreaded(f)
      ensures (if next.PostOrderIter? then d == 0 else old(Untagged(f))) ==> Holds(t)
    {
      Exhaust();
      if next.PostOrderIter? {
        if d == 0 {
          MarkedEnd(t);
        }
      } else {
        MorrisUnthreaded(f, root, c);
        if old(Untagged(f)) {
          MorrisEnd(t, c);
        }
      }
    }
  }

  /** The caller's dealloc function: it ends the node's life and may overwrite its fields. */
  method Dealloc(n: Node)
    requires n.live
    modifies n
    ensures !n.live
  {
    n.left, n.right := *, *;
    n.live := false;
  }

  /** One more deallocation changes what is kept at its own position only. */
  lemma KeptNext(f: Flat<Node>, root: int, k: int, c: int, i: int)
    requires Laid(f, root) && Position(f, c) && f.post[c] == k
    ensures Kept(f, k + 1, i) == if i == c then null else Kept(f, k, i)
  {
    if Position(f, i) {
      SameRank(f, root, i, c);
    }
  }

  /** The parent of the node of rank k is visited later, and is the only node that points to it. */
  lemma ParentOfRank(f: Flat<Node>, root: int, k: int, c: int, j: int)
    requires Laid(f, root) && Position(f, c) && f.post[c] == k && Position(f, j)
    ensures f.up[c] == j ==> k < f.post[j] && (f.right[j] == c || f.left[j] == c)
    ensures f.left[j] == c || f.right[j] == c ==> f.up[c] == j
    ensures f.left[j] == c ==> f.right[j] != c
  {
    assert UpAt(f, root, c) && UpAt(f, root, j) && BlockAt(f, j) && PostAt(f, j);
  }

  /** Deallocate the node of rank k and clear its parent's pointer to it. */
  method Release(n: Node, parent: Node?, ghost f: Flat<Node>, ghost root: int, ghost k: int, ghost c: int)
    requires Marked(f, root, k + 1, k) && Position(f, c) && f.post[c] == k && n == f.nodes[c]
    requires parent == At(f, f.up[c])
    modifies f.nodes
    ensures Marked(f, root, k + 1, k + 1) && !n.live
    ensures forall x :: x in f.nodes && !old(x.live) ==> !x.live
  {
    ghost var u := f.up[c];
    assert MarkedAt(f, k + 1, k, c);
    if parent != null {
      ParentOfRank(f, root, k, c, u);
      assert MarkedAt(f, k + 1, k, u);
    }
    Dealloc(n);
    if parent != null {
      if parent.Right() == n {
        parent.SetRight(null);
      } else {
        parent.SetLeft(Link(null, true));
      }
    }
    forall j | Position(f, j) ensures MarkedAt(f, k + 1, k + 1, j) {
      assert old(MarkedAt(f, k + 1, k, j));
      ParentOfRank(f, root, k, c, j);
      KeptNext(f, root, k, c, f.left[j]);
      KeptNext(f, root, k, c, f.right[j]);
      SameRank(f, root, j, c);
    }
  }

  ghost predicate AllDead(log: seq<Node>)
    reads log
  {
    forall x :: x in log ==> !x.live
  }

  /** The nodes deallocated so far, in order, are those visited first. */
  ghost predicate Logged(log: seq<Node>, order: seq<Visit<Node>>) {
    |log| <= |order| && forall i :: 0 <= i < |log| ==> order[i].node == Some(log[i])
  }

  /** One turn of the destructor's loop: deallocate the node just visited and go on. */
  method FreeNext(iter: Iterator, n: Node, ghost at: int, log: seq<Node>)
    returns (next: Node?, ghost nextAt: int, longer: seq<Node>)
    requires iter.PostOrderValid() && iter.done == iter.d + 1 && iter.VisitedAt(n, at)
    requires |log| == iter.d && Logged(log, iter.order) && AllDead(log) && Distinct(log)
    requires forall x :: x in log ==> x in iter.f.nodes
    modifies iter`curr, iter`parent, iter`done, iter`d, iter.f.nodes
    ensures iter.PostOrderValid() && iter.d == old(iter.d) + 1
    ensures iter.done == iter.d + (if next == null then 0 else 1)
    ensures next == null ==> iter.done == |iter.order|
    ensures next != null ==> iter.VisitedAt(next, nextAt)
    ensures longer == log + [n] && |longer| == iter.d && Logged(longer, iter.order) && AllDead(longer)
    ensures Distinct(longer)
    ensures forall x :: x in longer ==> x in iter.f.nodes
  {
    assert VisitIs(iter.f, iter.order, iter.f.post[at], at);
    assert MarkedAt(iter.f, iter.done, iter.d, at);
    longer := log + [n];
    Release(n, iter.parent, iter.f, iter.root, iter.d, at);
    iter.d := iter.d + 1;
    next, nextAt := iter.PostOrderNext();
  }

  /** Deallocate all nodes of a tree, children before their parents. The nodes passed to dealloc are
      returned in the order of the calls. */
  method Free(tree: Node?, ghost t: Tree<Node>) returns (log: seq<Node>)
    requires tree == RootNode(t) && Holds(t) && Distinct(InOrder(t))
    modifies InOrder(t)
    ensures |log| == |NonNull(TraversePostOrder(t, None, 0))| == Size(t)
    ensures Logged(log, NonNull(TraversePostOrder(t, None, 0))) && AllDead(log) && Distinct(log)
  {
    assert allocated(Nodes(t));
    PostOrderLength(t, None, 0);
    var iter := new Iterator();
    ghost var at;
    var n;
    n, at := iter.IteratePostOrder(tree, t);
    log := FreeFrom(iter, n, at);
  }

  method FreeFrom(iter: Iterator, first: Node?, ghost at: int) returns (log: seq<Node>)
    requires iter.PostOrderValid() && iter.d == 0
    requires iter.done == if first == null then 0 else 1
    requires first == null ==> iter.done == |iter.order|
    requires first != null ==> iter.VisitedAt(first, at)
    modifies iter`curr, iter`parent, iter`done, iter`d, iter.f.nodes
    ensures |log| == |iter.order| && Logged(log, iter.order) && AllDead(log) && Distinct(log)
  {
    ghost var at := at;
    var n := first;
    log := [];
    while n != null
      invariant iter.PostOrderValid() && iter.d == |log|
      invariant iter.done == |log| + (if n == null then 0 else 1)
      invariant n == null ==> iter.done == |iter.order|
      invariant n != null ==> iter.VisitedAt(n, at)
      invariant Logged(log, iter.order) && AllDead(log) && Distinct(log)
      invariant forall x :: x in log ==> x in iter.f.nodes
      decreases |iter.order| - |log|
    {
      n, at, log := FreeNext(iter, n, at, log);
    }
  }

  lemma PartsDisjoint(t: Tree<Node>)
    requires t.Bin? && Distinct(InOrder(t))
    ensures Distinct(InOrder(t.left)) && Distinct(InOrder(t.right))
    ensures Nodes(t.left) !! Nodes(t.right) && t.root !in Nodes(t.left) && t.root !in Nodes(t.right)
  {
    var s, o := Size(t.left), InOrder(t);
    assert o[s] == t.root;
    forall i | 0 <= i < s ensures InOrder(t.left)[i] == o[i] {
    }
    forall i | 0 <= i < Size(t.right) ensures InOrder(t.right)[i] == o[s + 1 + i] {
    }
  }

  /** Deallocate the left subtree of a node; the rest of its tree stays. */
  method FreeLeft(tree: Node, ghost t: Tree<Node>) returns (log: seq<Node>)
    requires tree == RootNode(t) && Holds(t) && Distinct(InOrder(t))
    modifies tree`left, InOrder(t.left)
    ensures Logged(log, NonNull(TraversePostOrder(t.left, None, 0))) && AllDead(log) && |log| == Size(t.left)
    ensures Holds(Bin(Nil, tree, t.right))
  {
    PartsDisjoint(t);
    assert allocated(Nodes(t.right));
    log := [];
    if tree.Left() != NULL_LINK {
      log := Free(tree.Left().ptr, t.left);
      tree.SetLeft(NULL_LINK);
    }
    assert Holds(t.right);
  }

  /** Deallocate the right subtree of a node; the rest of its tree stays. */
  method FreeRight(tree: Node, ghost t: Tree<Node>) returns (log: seq<Node>)
    requires tree == RootNode(t) && Holds(t) && Distinct(InOrder(t))
    modifies tree`right, InOrder(t.right)
    ensures Logged(log, NonNull(TraversePostOrder(t.right, None, 0))) && AllDead(log) && |log| == Size(t.right)
    ensures Holds(Bin(t.left, tree, Nil))
  {
    PartsDisjoint(t);
    assert allocated(Nodes(t.left));
    log := [];
    if tree.Right() != null {
      log := Free(tree.Right(), t.right);
      tree.SetRight(null);
    }
    assert Holds(t.left);
  }
}
