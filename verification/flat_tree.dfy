/** A tree laid out over its in-order positions, and the pure part of the Morris traversal: which
    right pointers are threads after any number of steps, and what one step does to them. */
module FlatTree {
  import opened TreeShape

  /** Everything the iterators' invariants need to know about a tree, position by position. */
  datatype Flat<T> = Flat(
    nodes: seq<T>,
    lo: seq<int>, hi: seq<int>,
    left: seq<int>, right: seq<int>, up: seq<int>,
    pre: seq<int>, post: seq<int>)

  function Flatten<T>(t: Tree<T>): (f: Flat<T>)
    ensures SameLength(f) && |f.nodes| == Size(t)
  {
    var n := Size(t);
    Flat(InOrder(t),
         seq(n, i requires 0 <= i < n => Lo(t, i)),
         seq(n, i requires 0 <= i < n => Hi(t, i)),
         seq(n, i requires 0 <= i < n => LeftIx(t, i)),
         seq(n, i requires 0 <= i < n => RightIx(t, i)),
         seq(n, i requires 0 <= i < n => UpIx(t, i)),
         seq(n, i requires 0 <= i < n => PreIx(t, i)),
         seq(n, i requires 0 <= i < n => PostIx(t, i)))
  }

  predicate SameLength<T>(f: Flat<T>) {
    |f.nodes| == |f.lo| == |f.hi| == |f.left| == |f.right| == |f.up| == |f.pre| == |f.post|
  }

  ghost predicate Position<T>(f: Flat<T>, i: int) {
    SameLength(f) && 0 <= i < |f.nodes|
  }

  // ---------- the layout, one position (or one pair of positions) at a time ----------

  /** The block of the subtree at i, and those of its children. */
  ghost predicate BlockAt<T>(f: Flat<T>, i: int)
    requires Position(f, i)
  {
    var l, r := f.left[i], f.right[i];
    && 0 <= f.lo[i] <= i <= f.hi[i] < |f.nodes|
    && (if l == -1 then f.lo[i] == i
        else 0 <= l < i && f.lo[i] < i && f.lo[l] == f.lo[i] && f.hi[l] == i - 1)
    && (if r == -1 then f.hi[i] == i
        else i < r < |f.nodes| && i < f.hi[i] && f.lo[r] == i + 1 && f.hi[r] == f.hi[i])
  }

  /** The blocks at x and at i, where x is before i, are nested or disjoint, and the nodes differ in
      post-order rank. */
  ghost predicate NestedAt<T>(f: Flat<T>, x: int, i: int)
    requires Position(f, x) && Position(f, i)
  {
    && f.post[x] != f.post[i]
    && (|| (i <= f.hi[x] && x < f.lo[i] && f.hi[i] <= f.hi[x])
        || (f.hi[x] < i && f.lo[i] <= f.lo[x])
        || f.hi[x] < f.lo[i])
  }

  /** Of two neighbours exactly one lies below the other. */
  ghost predicate NeighbourAt<T>(f: Flat<T>, k: int)
    requires Position(f, k)
  {
    k + 1 < |f.nodes| ==> (f.hi[k] > k <==> f.lo[k + 1] == k + 1)
  }

  /** The rank at which pre-order leaves the block at i. */
  ghost function EndRank<T>(f: Flat<T>, i: int): int
    requires Position(f, i)
  {
    f.pre[i] + (f.hi[i] - f.lo[i]) + 1
  }

  ghost predicate PreAt<T>(f: Flat<T>, i: int)
    requires Position(f, i)
  {
    var l, r := f.left[i], f.right[i];
    && 0 <= f.pre[i] < |f.nodes|
    && (0 <= l < |f.nodes| ==> f.pre[l] == f.pre[i] + 1)
    && (0 <= r < |f.nodes| ==> f.pre[r] == f.pre[i] + (i - f.lo[i]) + 1)
    && (0 < i && f.lo[i] < i ==> EndRank(f, i - 1) == f.pre[i] + 1 + (i - f.lo[i]))
    && (i == |f.nodes| - 1 ==> EndRank(f, i) == |f.nodes|)
  }

  ghost predicate PostAt<T>(f: Flat<T>, i: int)
    requires Position(f, i)
  {
    var l, r := f.left[i], f.right[i];
    && 0 <= f.post[i] - (f.hi[i] - f.lo[i]) <= f.post[i] < |f.nodes|
    && (0 <= l < |f.nodes| ==> f.post[l] == f.post[i] - (f.hi[i] - i) - 1)
    && (0 <= r < |f.nodes| ==> f.post[r] == f.post[i] - 1)
  }

  /** The parent's position is inverse to the children's. */
  ghost predicate UpAt<T>(f: Flat<T>, root: int, i: int)
    requires Position(f, i)
  {
    var l, r, u := f.left[i], f.right[i], f.up[i];
    && -1 <= u < |f.nodes|
    && (u == -1 <==> i == root)
    && (0 <= l < |f.nodes| ==> f.up[l] == i)
    && (0 <= r < |f.nodes| ==> f.up[r] == i)
    && (u != -1 ==> f.left[u] == i || f.right[u] == i)
  }

  /** A proper layout of a tree with its root at the given position (-1 if the tree is empty). */
  ghost predicate Laid<T>(f: Flat<T>, root: int) {
    && SameLength(f)
    && (|f.nodes| == 0 ==> root == -1)
    && (|f.nodes| > 0 ==> 0 <= root < |f.nodes| && f.lo[root] == 0 && f.hi[root] == |f.nodes| - 1
                          && f.pre[root] == 0 && f.post[root] == |f.nodes| - 1)
    && (forall i {:trigger BlockAt(f, i)} :: Position(f, i) ==> BlockAt(f, i))
    && (forall x, i {:trigger NestedAt(f, x, i)} :: Position(f, x) && Position(f, i) && x < i ==> NestedAt(f, x, i))
    && (forall k {:trigger NeighbourAt(f, k)} :: Position(f, k) ==> NeighbourAt(f, k))
    && (forall i {:trigger PreAt(f, i)} :: Position(f, i) ==> PreAt(f, i))
    && (forall i {:trigger PostAt(f, i)} :: Position(f, i) ==> PostAt(f, i))
    && (forall i {:trigger UpAt(f, root, i)} :: Position(f, i) ==> UpAt(f, root, i))
  }

  lemma FlattenBlock<T>(t: Tree<T>, i: int)
    requires Position(Flatten(t), i)
    ensures BlockAt(Flatten(t), i)
  {
    Blocks(t, i);
  }

  lemma FlattenNested<T>(t: Tree<T>, x: int, i: int)
    requires Position(Flatten(t), x) && Position(Flatten(t), i) && x < i
    ensures NestedAt(Flatten(t), x, i)
  {
    Nested(t, x, i);
    PostDiffers(t, x, i);
  }

  lemma FlattenNeighbour<T>(t: Tree<T>, k: int)
    requires Position(Flatten(t), k)
    ensures NeighbourAt(Flatten(t), k)
  {
    if k + 1 < Size(t) {
      Neighbours(t, k);
    }
  }

  lemma FlattenPost<T>(t: Tree<T>, i: int)
    requires Position(Flatten(t), i)
    ensures PostAt(Flatten(t), i)
  {
    Blocks(t, i);
    PostRanks(t, i);
  }

  lemma FlattenPre<T>(t: Tree<T>, i: int)
    requires Position(Flatten(t), i)
    ensures PreAt(Flatten(t), i)
  {
    PreOfLeft(t, i);
    if 0 <= RightIx(t, i) < Size(t) {
      PreOfRight(t, i);
    }
    if 0 < i && Lo(t, i) < i {
      PreEndOfLeft(t, i);
    }
    PreEndOfLast(t);
  }

  lemma FlattenUp<T>(t: Tree<T>, i: int)
    requires Position(Flatten(t), i)
    ensures UpAt(Flatten(t), RootIx(t), i)
  {
    ParentBounds(t, i);
    if 0 <= LeftIx(t, i) < Size(t) {
      ParentOfLeft(t, i);
    }
    if 0 <= RightIx(t, i) < Size(t) {
      ParentOfRight(t, i);
    }
    if UpIx(t, i) != -1 {
      ChildOfParent(t, i);
    }
  }

  /** Every tree is laid out this way. */
  lemma FlattenLaid<T>(t: Tree<T>)
    ensures Laid(Flatten(t), RootIx(t))
  {
    var f := Flatten(t);
    forall i | Position(f, i) ensures BlockAt(f, i) && NeighbourAt(f, i) {
      FlattenBlock(t, i);
      FlattenNeighbour(t, i);
    }
    forall x, i | Position(f, x) && Position(f, i) && x < i ensures NestedAt(f, x, i) {
      FlattenNested(t, x, i);
    }
    forall i | Position(f, i) ensures PreAt(f, i) && PostAt(f, i) && UpAt(f, RootIx(t), i) {
      FlattenPre(t, i);
      FlattenPost(t, i);
      FlattenUp(t, i);
    }
  }

  // ---------- the Morris traversal as steps over positions ----------

  /** The cursor of a Morris traversal: q nodes have been left for good (those at positions below q)
      and c is the position of the node to look at next, or the number of nodes when none is left.
      The node at c is either the root of a block that starts at q, or it is the node at q, reached a
      second time. */
  ghost predicate Cursor<T>(f: Flat<T>, q: int, c: int) {
    && SameLength(f)
    && 0 <= q <= |f.nodes|
    && (q == |f.nodes| ==> c == q)
    && (q < |f.nodes| ==> q <= c < |f.nodes| && (f.lo[c] == q || c == q))
  }

  /** Is the in-order predecessor of the node at position i threaded to it? */
  ghost predicate Threaded<T>(f: Flat<T>, q: int, c: int, i: int)
    requires Position(f, i)
  {
    f.lo[i] < i && q <= i && (f.lo[i] < q || (f.lo[i] == q && i > c))
  }

  /** Where the right pointer of the node at position j leads while the cursor is (q, c):
      a position, or -1 for null. */
  ghost function RightNow<T>(f: Flat<T>, q: int, c: int, j: int): int
    requires Position(f, j)
  {
    if f.right[j] != -1 then f.right[j]
    else if j + 1 < |f.nodes| && Threaded(f, q, c, j + 1) then j + 1
    else -1
  }


  /** The cursor position at the start of a traversal. */
  ghost function Start(root: int): int {
    if root == -1 then 0 else root
  }

  /** The cursor position after the node at q has been left. */
  ghost function After<T>(f: Flat<T>, q: int): int
    requires Position(f, q)
  {
    if f.right[q] != -1 then f.right[q] else q + 1
  }

  /** A fresh traversal has no threads. */
  lemma StartUnthreaded<T>(f: Flat<T>, root: int)
    requires Laid(f, root)
    ensures Cursor(f, 0, Start(root))
    ensures forall j :: Position(f, j) ==> RightNow(f, 0, Start(root), j) == f.right[j]
  {
    forall i | Position(f, i) ensures !Threaded(f, 0, root, i) {
      assert BlockAt(f, i);
      if i > root {
        assert NestedAt(f, root, i);
      }
    }
  }

  /** A finished traversal has none either: every right pointer has its original value. */
  lemma EndUnthreaded<T>(f: Flat<T>, c: int)
    ensures forall j :: Position(f, j) ==> RightNow(f, |f.nodes|, c, j) == f.right[j]
  {
  }

  /** A node with a left subtree is threaded at the cursor exactly when it is reached again. */
  lemma ThreadedAtCursor<T>(f: Flat<T>, root: int, q: int, c: int)
    requires Laid(f, root) && Cursor(f, q, c) && c < |f.nodes|
    ensures f.left[c] == -1 ==> c == q
    ensures f.left[c] != -1 ==> c > 0 && f.right[c - 1] == -1
    ensures f.left[c] != -1 ==> RightNow(f, q, c, c - 1) == if c == q then c else -1
  {
    assert BlockAt(f, c);
    if f.left[c] != -1 {
      assert Position(f, c - 1) && NeighbourAt(f, c - 1) && BlockAt(f, c - 1);
    }
  }

  /** First visit of a node with a left subtree: thread its predecessor and go left. */
  lemma GoLeft<T>(f: Flat<T>, root: int, q: int, c: int, j: int)
    requires Laid(f, root) && Cursor(f, q, c) && q < c < |f.nodes| && Position(f, j)
    ensures f.left[c] != -1 && Cursor(f, q, f.left[c])
    ensures RightNow(f, q, f.left[c], j) == if j == c - 1 then c else RightNow(f, q, c, j)
  {
    assert BlockAt(f, c);
    ThreadedAtCursor(f, root, q, c);
    var l := f.left[c];
    assert BlockAt(f, l);
    if Position(f, j + 1) && l < j + 1 {
      assert NestedAt(f, l, j + 1);
    }
  }

  /** Leaving the node at the cursor: its own thread goes, every other thread stays. */
  lemma Leave<T>(f: Flat<T>, root: int, q: int, j: int)
    requires Laid(f, root) && Position(f, q) && Position(f, j)
    ensures Cursor(f, q + 1, After(f, q))
    ensures RightNow(f, q + 1, After(f, q), j)
            == if j == q - 1 && f.right[j] == -1 then -1 else RightNow(f, q, q, j)
    ensures RightNow(f, q, q, q) == if After(f, q) < |f.nodes| then After(f, q) else -1
  {
    var c := After(f, q);
    assert BlockAt(f, q) && NeighbourAt(f, q);
    if f.right[q] == -1 && Position(f, q + 1) {
      assert BlockAt(f, q + 1);
      if Position(f, j + 1) && q + 1 < j + 1 {
        assert NestedAt(f, q + 1, j + 1);
      }
    }
    if Position(f, j + 1) {
      var i := j + 1;
      assert BlockAt(f, i);
      if i > q {
        assert NestedAt(f, q, i);
      }
      if f.right[q] != -1 && i > c {
        assert NestedAt(f, c, i);
      }
    }
  }

  // ---------- how many nodes pre-order has visited at a cursor ----------

  /** The node at the cursor is about to be visited, unless it is reached for the second time, when
      its left block has been visited after it. */
  ghost function PreDone<T>(f: Flat<T>, q: int, c: int): int
    requires SameLength(f)
  {
    if !(0 <= c < |f.nodes|) then |f.nodes|
    else if c == q && f.lo[c] < c then f.pre[c] + (c - f.lo[c]) + 1
    else f.pre[c]
  }

  lemma PreDoneStart<T>(f: Flat<T>, root: int)
    requires Laid(f, root)
    ensures PreDone(f, 0, Start(root)) == 0
  {
  }

  lemma PreDoneGoLeft<T>(f: Flat<T>, root: int, q: int, c: int)
    requires Laid(f, root) && Cursor(f, q, c) && q < c < |f.nodes|
    ensures f.left[c] != -1 && PreDone(f, q, f.left[c]) == f.pre[c] + 1 == PreDone(f, q, c) + 1
  {
    assert BlockAt(f, c) && PreAt(f, c);
    assert BlockAt(f, f.left[c]);
  }

  /** Leaving a node visits nothing by itself: a node without a left subtree was visited as it was
      reached, any other one when it was threaded. */
  lemma PreDoneLeave<T>(f: Flat<T>, root: int, q: int)
    requires Laid(f, root) && Position(f, q)
    ensures PreDone(f, q + 1, After(f, q)) == f.pre[q] + (q - f.lo[q]) + 1
  {
    assert BlockAt(f, q) && PreAt(f, q) && NeighbourAt(f, q);
    var c := After(f, q);
    if c < |f.nodes| {
      assert BlockAt(f, c) && PreAt(f, c);
    }
  }

  // ---------- the descent of the post-order iterator ----------

  /** Ranks in post-order are distinct. */
  lemma SameRank<T>(f: Flat<T>, root: int, i: int, j: int)
    requires Laid(f, root) && Position(f, i) && Position(f, j)
    ensures f.post[i] == f.post[j] ==> i == j
  {
    if i < j {
      assert NestedAt(f, i, j);
    } else if j < i {
      assert NestedAt(f, j, i);
    }
  }

  /** The node with post-order rank k lies in the block at c. */
  ghost predicate Within<T>(f: Flat<T>, k: int, c: int) {
    Position(f, c) && f.post[c] - (f.hi[c] - f.lo[c]) <= k <= f.post[c]
  }

  /** The child in whose block the node of rank k lies, or -1 if the node at c is that node. */
  ghost function Descend<T>(f: Flat<T>, k: int, c: int): int
    requires Position(f, c)
  {
    if Position(f, f.left[c]) && k <= f.post[f.left[c]] then f.left[c]
    else if Position(f, f.right[c]) && k <= f.post[f.right[c]] then f.right[c]
    else -1
  }

  lemma DescendWithin<T>(f: Flat<T>, root: int, k: int, c: int)
    requires Laid(f, root) && Within(f, k, c)
    ensures Descend(f, k, c) == -1 ==> f.post[c] == k
    ensures Descend(f, k, c) != -1 ==>
              && Within(f, k, Descend(f, k, c))
              && f.up[Descend(f, k, c)] == c
              && f.post[Descend(f, k, c)] < f.post[c]
  {
    assert BlockAt(f, c) && PostAt(f, c) && UpAt(f, root, c);
  }
}
