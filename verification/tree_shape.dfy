/** Finite binary trees, the recursive traversals of librfn/bintree.c as functions, and the
    arithmetic of in-order positions on which the constant-space iterators rely. */
module TreeShape {
  import opened Wrappers

  datatype Tree<+T> = Nil | Bin(left: Tree<T>, root: T, right: Tree<T>)

  /** One call of a visitor: the node (None for a null child), its parent and its depth. */
  datatype Visit<+T> = Visit(node: Option<T>, parent: Option<T>, depth: nat)

  // ---------- the recursive traversals ----------

  function TraverseInOrder<T>(t: Tree<T>, parent: Option<T>, depth: nat): seq<Visit<T>> {
    match t
    case Nil => [Visit(None, parent, depth)]
    case Bin(l, x, r) =>
      TraverseInOrder(l, Some(x), depth + 1)
      + [Visit(Some(x), parent, depth)]
      + TraverseInOrder(r, Some(x), depth + 1)
  }

  function TraversePreOrder<T>(t: Tree<T>, parent: Option<T>, depth: nat): seq<Visit<T>> {
    match t
    case Nil => [Visit(None, parent, depth)]
    case Bin(l, x, r) =>
      [Visit(Some(x), parent, depth)]
      + TraversePreOrder(l, Some(x), depth + 1)
      + TraversePreOrder(r, Some(x), depth + 1)
  }

  function TraversePostOrder<T>(t: Tree<T>, parent: Option<T>, depth: nat): seq<Visit<T>> {
    match t
    case Nil => [Visit(None, parent, depth)]
    case Bin(l, x, r) =>
      TraversePostOrder(l, Some(x), depth + 1)
      + TraversePostOrder(r, Some(x), depth + 1)
      + [Visit(Some(x), parent, depth)]
  }

  /** The visits of a traversal that are not visits of a null child. */
  function NonNull<T>(vs: seq<Visit<T>>): seq<Visit<T>> {
    if vs == [] then []
    else (if vs[0].node.Some? then [vs[0]] else []) + NonNull(vs[1..])
  }

  lemma {:induction false} NonNullConcat<T>(a: seq<Visit<T>>, b: seq<Visit<T>>)
    ensures NonNull(a + b) == NonNull(a) + NonNull(b)
  {
    if a == [] {
      assert a + b == b;
    } else {
      assert (a + b)[1..] == a[1..] + b;
      NonNullConcat(a[1..], b);
    }
  }

  // ---------- in-order positions ----------

  function Size<T>(t: Tree<T>): nat {
    if t.Nil? then 0 else Size(t.left) + 1 + Size(t.right)
  }

  /** The nodes of a tree from left to right. */
  function InOrder<T>(t: Tree<T>): (s: seq<T>)
    ensures |s| == Size(t)
  {
    if t.Nil? then [] else InOrder(t.left) + [t.root] + InOrder(t.right)
  }

  /** The in-order position of the root, or -1 for the empty tree. */
  function RootIx<T>(t: Tree<T>): int {
    if t.Nil? then -1 else Size(t.left)
  }

  function Shift(i: int, offset: int): int {
    if i < 0 then i else i + offset
  }

  /** First position of the subtree whose root is at position i. */
  function Lo<T>(t: Tree<T>, i: int): int
    requires 0 <= i < Size(t)
  {
    var s := Size(t.left);
    if i == s then 0 else if i < s then Lo(t.left, i) else s + 1 + Lo(t.right, i - s - 1)
  }

  /** Last position of the subtree whose root is at position i. */
  function Hi<T>(t: Tree<T>, i: int): int
    requires 0 <= i < Size(t)
  {
    var s := Size(t.left);
    if i == s then Size(t) - 1
    else if i < s then Hi(t.left, i) else s + 1 + Hi(t.right, i - s - 1)
  }

  /** Position of the left child of the node at position i, or -1. */
  function LeftIx<T>(t: Tree<T>, i: int): int
    requires 0 <= i < Size(t)
  {
    var s := Size(t.left);
    if i == s then RootIx(t.left)
    else if i < s then LeftIx(t.left, i) else Shift(LeftIx(t.right, i - s - 1), s + 1)
  }

  /** Position of the right child of the node at position i, or -1. */
  function RightIx<T>(t: Tree<T>, i: int): int
    requires 0 <= i < Size(t)
  {
    var s := Size(t.left);
    if i == s then Shift(RootIx(t.right), s + 1)
    else if i < s then RightIx(t.left, i) else Shift(RightIx(t.right, i - s - 1), s + 1)
  }

  /** Position of the parent of the node at position i, or -1. */
  function UpIx<T>(t: Tree<T>, i: int): int
    requires 0 <= i < Size(t)
  {
    var s := Size(t.left);
    if i == s then -1
    else if i < s then (var u := UpIx(t.left, i); if u < 0 then s else u)
    else (var u := UpIx(t.right, i - s - 1); if u < 0 then s else u + s + 1)
  }

  /** Rank in pre-order of the node at position i. */
  function PreIx<T>(t: Tree<T>, i: int): int
    requires 0 <= i < Size(t)
  {
    var s := Size(t.left);
    if i == s then 0
    else if i < s then 1 + PreIx(t.left, i) else 1 + s + PreIx(t.right, i - s - 1)
  }

  /** Rank in post-order of the node at position i. */
  function PostIx<T>(t: Tree<T>, i: int): int
    requires 0 <= i < Size(t)
  {
    var s := Size(t.left);
    if i == s then Size(t) - 1
    else if i < s then PostIx(t.left, i) else s + PostIx(t.right, i - s - 1)
  }

  // ---------- facts about positions ----------

  /** A subtree is a block of positions around its root ... */
  lemma {:induction false} Bounds<T>(t: Tree<T>, i: int)
    requires 0 <= i < Size(t)
    ensures 0 <= Lo(t, i) <= i <= Hi(t, i) < Size(t)
  {
    var s := Size(t.left);
    if i < s {
      Bounds(t.left, i);
    } else if i > s {
      Bounds(t.right, i - s - 1);
    }
  }

  lemma {:induction false} LeftBlock<T>(t: Tree<T>, i: int)
    requires 0 <= i < Size(t)
    ensures LeftIx(t, i) == -1 <==> Lo(t, i) == i
    ensures LeftIx(t, i) != -1 ==>
              && 0 <= LeftIx(t, i) < i
              && Lo(t, LeftIx(t, i)) == Lo(t, i) && Hi(t, LeftIx(t, i)) == i - 1
  {
    var s := Size(t.left);
    if i < s {
      LeftBlock(t.left, i);
    } else if i > s {
      LeftBlock(t.right, i - s - 1);
    }
  }

  lemma {:induction false} RightBlock<T>(t: Tree<T>, i: int)
    requires 0 <= i < Size(t)
    ensures RightIx(t, i) == -1 <==> Hi(t, i) == i
    ensures RightIx(t, i) != -1 ==>
              && i < RightIx(t, i) < Size(t)
              && Lo(t, RightIx(t, i)) == i + 1 && Hi(t, RightIx(t, i)) == Hi(t, i)
  {
    var s := Size(t.left);
    if i < s {
      RightBlock(t.left, i);
    } else if i > s {
      RightBlock(t.right, i - s - 1);
    }
  }

  /** ... which the root splits into the blocks of its two children. */
  lemma Blocks<T>(t: Tree<T>, i: int)
    requires 0 <= i < Size(t)
    ensures 0 <= Lo(t, i) <= i <= Hi(t, i) < Size(t)
    ensures LeftIx(t, i) == -1 <==> Lo(t, i) == i
    ensures LeftIx(t, i) != -1 ==>
              && 0 <= LeftIx(t, i) < i
              && Lo(t, LeftIx(t, i)) == Lo(t, i) && Hi(t, LeftIx(t, i)) == i - 1
    ensures RightIx(t, i) == -1 <==> Hi(t, i) == i
    ensures RightIx(t, i) != -1 ==>
              && i < RightIx(t, i) < Size(t)
              && Lo(t, RightIx(t, i)) == i + 1 && Hi(t, RightIx(t, i)) == Hi(t, i)
  {
    Bounds(t, i);
    LeftBlock(t, i);
    RightBlock(t, i);
  }

  /** Of two subtrees, one contains the other or they are disjoint. */
  lemma {:induction false} Nested<T>(t: Tree<T>, x: int, i: int)
    requires 0 <= x < i < Size(t)
    ensures (i <= Hi(t, x) && x < Lo(t, i) && Hi(t, i) <= Hi(t, x))
         || (Hi(t, x) < i && Lo(t, i) <= Lo(t, x))
         || Hi(t, x) < Lo(t, i)
  {
    var s := Size(t.left);
    if i < s {
      Nested(t.left, x, i);
    } else if s < x {
      Nested(t.right, x - s - 1, i - s - 1);
    } else {
      if x < s {
        Bounds(t.left, x);
      }
      if s < i {
        Bounds(t.right, i - s - 1);
      }
    }
  }

  /** Of two neighbours in order, exactly one lies below the other. */
  lemma {:induction false} Neighbours<T>(t: Tree<T>, k: int)
    requires 0 <= k && k + 1 < Size(t)
    ensures Hi(t, k) > k <==> Lo(t, k + 1) == k + 1
  {
    var s := Size(t.left);
    if k + 1 < s {
      Neighbours(t.left, k);
    } else if k + 1 == s {
      Blocks(t.left, k);
    } else if k > s {
      Neighbours(t.right, k - s - 1);
    } else {
      Blocks(t.right, 0);
    }
  }

  /** Every position but the root's has a parent, which is in the tree. */
  lemma {:induction false} ParentBounds<T>(t: Tree<T>, i: int)
    requires 0 <= i < Size(t)
    ensures -1 <= UpIx(t, i) < Size(t)
    ensures UpIx(t, i) == -1 <==> i == RootIx(t)
  {
    var s := Size(t.left);
    if i < s {
      ParentBounds(t.left, i);
    } else if i > s {
      ParentBounds(t.right, i - s - 1);
    }
  }

  lemma {:induction false} ParentOfLeft<T>(t: Tree<T>, i: int)
    requires 0 <= i < Size(t) && 0 <= LeftIx(t, i) < Size(t)
    ensures UpIx(t, LeftIx(t, i)) == i
  {
    var s := Size(t.left);
    if i < s {
      Blocks(t.left, i);
      ParentOfLeft(t.left, i);
    } else if i > s {
      Blocks(t.right, i - s - 1);
      ParentOfLeft(t.right, i - s - 1);
    }
  }

  lemma {:induction false} ParentOfRight<T>(t: Tree<T>, i: int)
    requires 0 <= i < Size(t) && 0 <= RightIx(t, i) < Size(t)
    ensures UpIx(t, RightIx(t, i)) == i
  {
    var s := Size(t.left);
    if i < s {
      Blocks(t.left, i);
      ParentOfRight(t.left, i);
    } else if i > s {
      Blocks(t.right, i - s - 1);
      ParentOfRight(t.right, i - s - 1);
    }
  }

  /** A node is one of the two children of its parent. */
  lemma {:induction false} ChildOfParent<T>(t: Tree<T>, i: int)
    requires 0 <= i < Size(t) && 0 <= UpIx(t, i) < Size(t)
    ensures LeftIx(t, UpIx(t, i)) == i || RightIx(t, UpIx(t, i)) == i
  {
    var s := Size(t.left);
    ParentBounds(t, i);
    if i < s {
      ParentBounds(t.left, i);
      if UpIx(t.left, i) != -1 {
        ChildOfParent(t.left, i);
      }
    } else if i > s {
      ParentBounds(t.right, i - s - 1);
      if UpIx(t.right, i - s - 1) != -1 {
        ChildOfParent(t.right, i - s - 1);
      }
    }
  }

  /** Pre-order ranks: a node comes first in its block, then its left block ... */
  lemma {:induction false} PreOfLeft<T>(t: Tree<T>, i: int)
    requires 0 <= i < Size(t)
    ensures 0 <= PreIx(t, i) < Size(t)
    ensures 0 <= LeftIx(t, i) < Size(t) ==> PreIx(t, LeftIx(t, i)) == PreIx(t, i) + 1
  {
    var s := Size(t.left);
    if i < s {
      PreOfLeft(t.left, i);
      Blocks(t.left, i);
    } else if i > s {
      PreOfLeft(t.right, i - s - 1);
      Blocks(t.right, i - s - 1);
    }
  }

  /** ... and then its right block. */
  lemma {:induction false} PreOfRight<T>(t: Tree<T>, i: int)
    requires 0 <= i < Size(t) && 0 <= RightIx(t, i) < Size(t)
    ensures PreIx(t, RightIx(t, i)) == PreIx(t, i) + (i - Lo(t, i)) + 1
  {
    var s := Size(t.left);
    if i < s {
      Blocks(t.left, i);
      PreOfRight(t.left, i);
    } else if i > s {
      Blocks(t.right, i - s - 1);
      PreOfRight(t.right, i - s - 1);
    }
  }

  /** The rank at which pre-order leaves the subtree of the node at position i. */
  function PreEnd<T>(t: Tree<T>, i: int): int
    requires 0 <= i < Size(t)
  {
    PreIx(t, i) + (Hi(t, i) - Lo(t, i)) + 1
  }

  /** The last node in order ends the pre-order. */
  lemma {:induction false} PreEndOfLast<T>(t: Tree<T>)
    requires t.Bin?
    ensures PreEnd(t, Size(t) - 1) == Size(t)
  {
    if t.right.Bin? {
      PreEndOfLast(t.right);
    }
  }

  /** Pre-order leaves the left block of a node where it leaves the node's in-order predecessor. */
  lemma {:induction false} PreEndOfLeft<T>(t: Tree<T>, i: int)
    requires 0 < i < Size(t) && Lo(t, i) < i
    ensures PreEnd(t, i - 1) == PreIx(t, i) + 1 + (i - Lo(t, i))
  {
    var s := Size(t.left);
    if i < s {
      PreEndOfLeft(t.left, i);
    } else if i > s {
      Blocks(t.right, i - s - 1);
      PreEndOfLeft(t.right, i - s - 1);
    } else {
      PreEndOfLast(t.left);
    }
  }

  /** Post-order ranks: the left block, then the right block, then the node. */
  lemma {:induction false} PostRanks<T>(t: Tree<T>, i: int)
    requires 0 <= i < Size(t)
    ensures 0 <= PostIx(t, i) - (Hi(t, i) - Lo(t, i)) <= PostIx(t, i) < Size(t)
    ensures 0 <= LeftIx(t, i) < Size(t) ==>
              PostIx(t, LeftIx(t, i)) == PostIx(t, i) - (Hi(t, i) - Lo(t, i)) + (i - Lo(t, i)) - 1
    ensures 0 <= RightIx(t, i) < Size(t) ==> PostIx(t, RightIx(t, i)) == PostIx(t, i) - 1
  {
    var s := Size(t.left);
    Blocks(t, i);
    if i < s {
      PostRanks(t.left, i);
      Blocks(t.left, i);
    } else if i > s {
      PostRanks(t.right, i - s - 1);
      Blocks(t.right, i - s - 1);
    }
  }

  lemma {:induction false} PostBound<T>(t: Tree<T>, i: int)
    requires 0 <= i < Size(t)
    ensures 0 <= PostIx(t, i) < Size(t)
  {
    var s := Size(t.left);
    if i < s {
      PostBound(t.left, i);
    } else if i > s {
      PostBound(t.right, i - s - 1);
    }
  }

  /** Within a block, the root comes last in post-order. */
  lemma {:induction false} RankInBlock<T>(t: Tree<T>, c: int, j: int)
    requires 0 <= c < Size(t) && 0 <= j < Size(t) && Lo(t, c) <= j <= Hi(t, c)
    ensures PostIx(t, j) <= PostIx(t, c)
  {
    var s := Size(t.left);
    if c == s {
      PostBound(t, j);
    } else if c < s {
      Bounds(t.left, c);
      RankInBlock(t.left, c, j);
    } else {
      Bounds(t.right, c - s - 1);
      RankInBlock(t.right, c - s - 1, j - s - 1);
    }
  }

  lemma {:induction false} PostDiffers<T>(t: Tree<T>, x: int, i: int)
    requires 0 <= x < i < Size(t)
    ensures PostIx(t, x) != PostIx(t, i)
  {
    var s := Size(t.left);
    if x < s {
      PostRanks(t.left, x);
    }
    if i > s {
      PostRanks(t.right, i - s - 1);
    }
    if i < s {
      PostDiffers(t.left, x, i);
    } else if s < x {
      PostDiffers(t.right, x - s - 1, i - s - 1);
    }
  }

  // ---------- ranks locate the visits of the traversals ----------

  function ParentAt<T>(t: Tree<T>, i: int, above: Option<T>): Option<T>
    requires 0 <= i < Size(t)
  {
    var s := Size(t.left);
    if i == s then above
    else if i < s then ParentAt(t.left, i, Some(t.root))
    else ParentAt(t.right, i - s - 1, Some(t.root))
  }

  lemma {:induction false} ParentAtIsUp<T>(t: Tree<T>, i: int, above: Option<T>)
    requires 0 <= i < Size(t)
    ensures -1 <= UpIx(t, i) < Size(t)
    ensures ParentAt(t, i, above) == if UpIx(t, i) < 0 then above else Some(InOrder(t)[UpIx(t, i)])
  {
    var s := Size(t.left);
    if i < s {
      ParentAtIsUp(t.left, i, Some(t.root));
    } else if i > s {
      ParentAtIsUp(t.right, i - s - 1, Some(t.root));
    }
  }

  ghost predicate VisitAt<T>(vs: seq<Visit<T>>, k: int, x: T, parent: Option<T>) {
    0 <= k < |vs| && vs[k].node == Some(x) && vs[k].parent == parent
  }

  lemma {:induction false} InOrderUnfolds<T>(t: Tree<T>, above: Option<T>, depth: nat)
    requires t.Bin?
    ensures NonNull(TraverseInOrder(t, above, depth)) ==
              NonNull(TraverseInOrder(t.left, Some(t.root), depth + 1))
              + [Visit(Some(t.root), above, depth)]
              + NonNull(TraverseInOrder(t.right, Some(t.root), depth + 1))
  {
    var a := TraverseInOrder(t.left, Some(t.root), depth + 1);
    var m := [Visit(Some(t.root), above, depth)];
    var b := TraverseInOrder(t.right, Some(t.root), depth + 1);
    NonNullConcat(a + m, b);
    NonNullConcat(a, m);
    assert NonNull(m) == m;
  }

  lemma {:induction false} InOrderLength<T>(t: Tree<T>, above: Option<T>, depth: nat)
    ensures |NonNull(TraverseInOrder(t, above, depth))| == Size(t)
  {
    if t.Bin? {
      InOrderUnfolds(t, above, depth);
      InOrderLength(t.left, Some(t.root), depth + 1);
      InOrderLength(t.right, Some(t.root), depth + 1);
    }
  }

  /** The i-th non-null visit of the in-order traversal is of the i-th node from the left. */
  lemma {:induction false} InOrderVisits<T>(t: Tree<T>, i: int, above: Option<T>, depth: nat)
    requires 0 <= i < Size(t)
    ensures VisitAt(NonNull(TraverseInOrder(t, above, depth)), i, InOrder(t)[i], ParentAt(t, i, above))
  {
    InOrderUnfolds(t, above, depth);
    InOrderLength(t.left, Some(t.root), depth + 1);
    InOrderLength(t.right, Some(t.root), depth + 1);
    var s := Size(t.left);
    if i < s {
      InOrderVisits(t.left, i, Some(t.root), depth + 1);
    } else if i > s {
      InOrderVisits(t.right, i - s - 1, Some(t.root), depth + 1);
    }
  }

  lemma {:induction false} PreOrderUnfolds<T>(t: Tree<T>, above: Option<T>, depth: nat)
    requires t.Bin?
    ensures NonNull(TraversePreOrder(t, above, depth)) ==
              [Visit(Some(t.root), above, depth)]
              + NonNull(TraversePreOrder(t.left, Some(t.root), depth + 1))
              + NonNull(TraversePreOrder(t.right, Some(t.root), depth + 1))
  {
    var a := TraversePreOrder(t.left, Some(t.root), depth + 1);
    var m := [Visit(Some(t.root), above, depth)];
    var b := TraversePreOrder(t.right, Some(t.root), depth + 1);
    NonNullConcat(m + a, b);
    NonNullConcat(m, a);
    assert NonNull(m) == m;
  }

  lemma {:induction false} PreOrderLength<T>(t: Tree<T>, above: Option<T>, depth: nat)
    ensures |NonNull(TraversePreOrder(t, above, depth))| == Size(t)
  {
    if t.Bin? {
      PreOrderUnfolds(t, above, depth);
      PreOrderLength(t.left, Some(t.root), depth + 1);
      PreOrderLength(t.right, Some(t.root), depth + 1);
    }
  }

  /** Pre-order visits the node at position i as its PreIx-th node. */
  lemma {:induction false} PreOrderVisits<T>(t: Tree<T>, i: int, above: Option<T>, depth: nat)
    requires 0 <= i < Size(t)
    ensures VisitAt(NonNull(TraversePreOrder(t, above, depth)), PreIx(t, i), InOrder(t)[i], ParentAt(t, i, above))
  {
    PreOrderUnfolds(t, above, depth);
    PreOrderLength(t.left, Some(t.root), depth + 1);
    PreOrderLength(t.right, Some(t.root), depth + 1);
    var s := Size(t.left);
    if i < s {
      PreOrderVisits(t.left, i, Some(t.root), depth + 1);
    } else if i > s {
      PreOrderVisits(t.right, i - s - 1, Some(t.root), depth + 1);
    }
  }

  lemma {:induction false} PostOrderUnfolds<T>(t: Tree<T>, above: Option<T>, depth: nat)
    requires t.Bin?
    ensures NonNull(TraversePostOrder(t, above, depth)) ==
              NonNull(TraversePostOrder(t.left, Some(t.root), depth + 1))
              + NonNull(TraversePostOrder(t.right, Some(t.root), depth + 1))
              + [Visit(Some(t.root), above, depth)]
  {
    var a := TraversePostOrder(t.left, Some(t.root), depth + 1);
    var m := [Visit(Some(t.root), above, depth)];
    var b := TraversePostOrder(t.right, Some(t.root), depth + 1);
    NonNullConcat(a + b, m);
    NonNullConcat(a, b);
    assert NonNull(m) == m;
  }

  lemma {:induction false} PostOrderLength<T>(t: Tree<T>, above: Option<T>, depth: nat)
    ensures |NonNull(TraversePostOrder(t, above, depth))| == Size(t)
  {
    if t.Bin? {
      PostOrderUnfolds(t, above, depth);
      PostOrderLength(t.left, Some(t.root), depth + 1);
      PostOrderLength(t.right, Some(t.root), depth + 1);
    }
  }

  /** Post-order visits the node at position i as its PostIx-th node. */
  lemma {:induction false} PostOrderVisits<T>(t: Tree<T>, i: int, above: Option<T>, depth: nat)
    requires 0 <= i < Size(t)
    ensures VisitAt(NonNull(TraversePostOrder(t, above, depth)), PostIx(t, i), InOrder(t)[i], ParentAt(t, i, above))
  {
    PostOrderUnfolds(t, above, depth);
    PostOrderLength(t.left, Some(t.root), depth + 1);
    PostOrderLength(t.right, Some(t.root), depth + 1);
    var s := Size(t.left);
    if i < s {
      PostOrderVisits(t.left, i, Some(t.root), depth + 1);
    } else if i > s {
      PostOrderVisits(t.right, i - s - 1, Some(t.root), depth + 1);
    }
  }
}
