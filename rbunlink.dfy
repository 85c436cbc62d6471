/**
  The first half of the red-black tree's remove: taking a node out of the
  P/N threading and out of the tree, before any recolouring.

  A node with at most one child is spliced out: the child (or null) takes its
  place under its parent. A node with two children is succeeded by its
  in-order successor `next`, the leftmost node of its right subtree: `next`
  leaves its own place to its right child and takes the removed node's place,
  colour and children. Either way the removed node drops out of `Contents` at
  its position `k`, every later position moves down by one, and the black
  height below the place that lost a node may fall short by one.
*/
module RedBlackUnlink {
  import opened RedBlackSpec

  /** A position or span bound once the entry at `k` has been removed. */
  function Drop(v: int, k: int): int {
    if v > k then v - 1 else v
  }

  /** Every entry of `v` dropped past `k`. */
  ghost function Dropped(v: seq<int>, k: int): (r: seq<int>)
    ensures |r| == |v| && forall i | 0 <= i < |v| :: r[i] == Drop(v[i], k)
  {
    seq(|v|, i requires 0 <= i < |v| => Drop(v[i], k))
  }

  /** The P links once `node` is unthreaded: its successor takes its predecessor. */
  ghost function UnthreadedP(s: Snap, node: int): seq<int>
    requires Sized(s) && 0 <= node < |s.U| && Ref(s, s.N[node])
  {
    var pr := if s.N[node] != Nil then s.P[s.N[node] := s.P[node]] else s.P;
    pr[node := Nil]
  }

  /** The N links once `node` is unthreaded: its predecessor takes its successor. */
  ghost function UnthreadedN(s: Snap, node: int): seq<int>
    requires Sized(s) && 0 <= node < |s.U| && Ref(s, s.P[node])
  {
    var nx := if s.P[node] != Nil then s.N[s.P[node] := s.N[node]] else s.N;
    nx[node := Nil]
  }

  /** The P and N links of every cell after unthreading. */
  lemma UnthreadedAt(s: Snap, node: int, y: int)
    requires Sized(s) && 0 <= node < |s.U| && Ref(s, s.P[node]) && Ref(s, s.N[node]) && 0 <= y < |s.U|
    ensures |UnthreadedP(s, node)| == |UnthreadedN(s, node)| == |s.U|
    ensures UnthreadedP(s, node)[y] == (if y == node then Nil else if y == s.N[node] then s.P[node] else s.P[y])
    ensures UnthreadedN(s, node)[y] == (if y == node then Nil else if y == s.P[node] then s.N[node] else s.N[y])
  {
  }

  /** An entry of a sequence with the entry at `k` removed. */
  lemma RemovedIndex(c: seq<int>, k: int, i: int)
    requires 0 <= k < |c| && 0 <= i < |c| - 1
    ensures |c[..k] + c[k + 1..]| == |c| - 1
    ensures (c[..k] + c[k + 1..])[i] == (if i < k then c[i] else c[i + 1])
  {
  }

  /**
    Any arena whose in-order sequence is that of `s` without the node at `k`,
    with positions dropped past `k`, keeps `Contents` and `Pos` inverse.
  */
  lemma DroppedIndexed(s: Snap, t: Snap, node: int)
    requires Indexed(s) && InTree(s, node) && Sized(t) && |t.U| == |s.U|
    requires t.Contents == s.Contents[..s.Pos[node]] + s.Contents[s.Pos[node] + 1..]
    requires t.Pos == Dropped(s.Pos, s.Pos[node])[node := -1]
    ensures Indexed(t)
  {
    var k := s.Pos[node];
    forall i | 0 <= i < |t.Contents|
      ensures 0 <= t.Contents[i] < |t.U| && t.Pos[t.Contents[i]] == i
    {
      RemovedIndex(s.Contents, k, i);
    }
    forall x | 0 <= x < |t.U|
      ensures -1 <= t.Pos[x] < |t.Contents| && (0 <= t.Pos[x] ==> t.Contents[t.Pos[x]] == x)
    {
      if x != node && 0 <= s.Pos[x] {
        assert s.Contents[s.Pos[x]] == x;
        RemovedIndex(s.Contents, k, t.Pos[x]);
      }
    }
  }

  /**
    In the sequence `c` without its entry at `k`, the entry before the one
    from old position `p` is the old predecessor of `p`, or the old
    predecessor of `k` when `p` came right after `k`.
  */
  lemma DroppedPrev(c: seq<int>, k: int, p: int, before: int, beforeK: int)
    requires 0 <= k < |c| && 0 <= p < |c| && p != k
    requires before == (if p == 0 then Nil else c[p - 1])
    requires beforeK == (if k == 0 then Nil else c[k - 1])
    ensures (if p == k + 1 then beforeK else before)
         == (if Drop(p, k) == 0 then Nil else (c[..k] + c[k + 1..])[Drop(p, k) - 1])
  {
    if p == k + 1 {
      if k > 0 {
        RemovedIndex(c, k, k - 1);
      }
    } else if p < k {
      if p > 0 {
        RemovedIndex(c, k, p - 1);
      }
    } else {
      RemovedIndex(c, k, p - 2);
    }
  }

  /**
    In the sequence `c` without its entry at `k`, the entry after the one
    from old position `p` is the old successor of `p`, or the old successor
    of `k` when `p` came right before `k`.
  */
  lemma DroppedNext(c: seq<int>, k: int, p: int, after: int, afterK: int)
    requires 0 <= k < |c| && 0 <= p < |c| && p != k
    requires after == (if p == |c| - 1 then Nil else c[p + 1])
    requires afterK == (if k == |c| - 1 then Nil else c[k + 1])
    ensures (if p == k - 1 then afterK else after)
         == (if Drop(p, k) == |c| - 2 then Nil else (c[..k] + c[k + 1..])[Drop(p, k) + 1])
  {
    if p == k - 1 {
      if k < |c| - 1 {
        RemovedIndex(c, k, k);
      }
    } else if p < k {
      RemovedIndex(c, k, p + 1);
    } else if p < |c| - 1 {
      RemovedIndex(c, k, p);
    }
  }

  /** After unthreading, a node's P link names its in-order predecessor in the shorter sequence. */
  lemma UnthreadedPrevAt(s: Snap, t: Snap, node: int, y: int)
    requires Indexed(s) && InTree(s, node) && ThreadedAt(s, node) && Sized(t) && |t.U| == |s.U|
    requires t.Contents == s.Contents[..s.Pos[node]] + s.Contents[s.Pos[node] + 1..]
    requires t.Pos == Dropped(s.Pos, s.Pos[node])[node := -1] && t.P == UnthreadedP(s, node)
    requires InTree(t, y) && InTree(s, y) && ThreadedAt(s, y)
    ensures t.P[y] == (if t.Pos[y] == 0 then Nil else t.Contents[t.Pos[y] - 1])
  {
    var k, p := s.Pos[node], s.Pos[y];
    assert t.Pos[y] == Drop(p, k) && s.Contents[p] == y;
    assert t.P[y] == (if p == k + 1 then s.P[node] else s.P[y]) by {
      UnthreadedAt(s, node, y);
      assert y == s.N[node] <==> p == k + 1;
    }
    assert (if p == k + 1 then s.P[node] else s.P[y]) == (if Drop(p, k) == 0 then Nil else t.Contents[Drop(p, k) - 1]) by {
      DroppedPrev(s.Contents, k, p, s.P[y], s.P[node]);
    }
  }

  /** After unthreading, a node's N link names its in-order successor in the shorter sequence. */
  lemma UnthreadedNextAt(s: Snap, t: Snap, node: int, y: int)
    requires Indexed(s) && InTree(s, node) && ThreadedAt(s, node) && Sized(t) && |t.U| == |s.U|
    requires t.Contents == s.Contents[..s.Pos[node]] + s.Contents[s.Pos[node] + 1..]
    requires t.Pos == Dropped(s.Pos, s.Pos[node])[node := -1] && t.N == UnthreadedN(s, node)
    requires InTree(t, y) && InTree(s, y) && ThreadedAt(s, y)
    ensures t.N[y] == (if t.Pos[y] == |t.Contents| - 1 then Nil else t.Contents[t.Pos[y] + 1])
  {
    var k, p := s.Pos[node], s.Pos[y];
    assert t.Pos[y] == Drop(p, k) && s.Contents[p] == y;
    assert t.N[y] == (if p == k - 1 then s.N[node] else s.N[y]) by {
      UnthreadedAt(s, node, y);
      assert y == s.P[node] <==> p == k - 1;
    }
    assert (if p == k - 1 then s.N[node] else s.N[y]) == (if Drop(p, k) == |t.Contents| - 1 then Nil else t.Contents[Drop(p, k) + 1]) by {
      DroppedNext(s.Contents, k, p, s.N[y], s.N[node]);
    }
  }

  /** Unthreading keeps every remaining node threaded between its in-order neighbours. */
  lemma UnthreadedThreaded(s: Snap, t: Snap, node: int)
    requires Indexed(s) && Threaded(s) && InTree(s, node) && ThreadedAt(s, node) && Sized(t) && |t.U| == |s.U|
    requires t.Contents == s.Contents[..s.Pos[node]] + s.Contents[s.Pos[node] + 1..]
    requires t.Pos == Dropped(s.Pos, s.Pos[node])[node := -1]
    requires t.P == UnthreadedP(s, node) && t.N == UnthreadedN(s, node)
    ensures Indexed(t) && Threaded(t)
  {
    DroppedIndexed(s, t, node);
    forall y | InTree(t, y)
      ensures ThreadedAt(t, y)
    {
      assert InTree(s, y) && ThreadedAt(s, y);
      UnthreadedPrevAt(s, t, node, y);
      UnthreadedNextAt(s, t, node, y);
    }
  }

  /**
    Node `y` has its position dropped past `k` and its span dropped past
    `kl` on the left and `kh` on the right.
  */
  ghost predicate DroppedAt(s: Snap, t: Snap, y: int, k: int, kl: int, kh: int)
    requires Sized(s) && Sized(t) && |t.U| == |s.U| && 0 <= y < |s.U|
  {
    t.Pos[y] == Drop(s.Pos[y], k) && t.Lo[y] == Drop(s.Lo[y], kl) && t.Hi[y] == Drop(s.Hi[y], kh)
  }

  /**
    A node whose children stay its children while the position `k` is removed
    stays shaped, provided the removed position is not its own nor, when a
    successor took the removed node's place (`kl == k + 1`), the successor's
    old position: spans are dropped past `k` on the left and `k - 1` on the
    right when a node was spliced out, past `k + 1` and `k` when it was
    succeeded.
  */
  lemma DroppedShaped(s: Snap, t: Snap, y: int, k: int, kl: int, kh: int)
    requires Indexed(s) && Indexed(t) && |t.U| == |s.U| && |t.Contents| + 1 == |s.Contents|
    requires InTree(s, y) && NodeShaped(s, y) && 0 <= k < |s.Contents|
    requires (kl == k && kh == k - 1 && s.Pos[y] != k) || (kl == k + 1 && kh == k && s.Pos[y] != k && s.Pos[y] != k + 1)
    requires k + 1 < |s.Contents| || kl == k
    requires t.L[y] == s.L[y] && t.R[y] == s.R[y] && DroppedAt(s, t, y, k, kl, kh)
    requires s.L[y] != Nil ==> t.U[s.L[y]] == y && DroppedAt(s, t, s.L[y], k, kl, kh)
    requires s.R[y] != Nil ==> t.U[s.R[y]] == y && DroppedAt(s, t, s.R[y], k, kl, kh)
    requires t.U[y] == Nil ==> t.root == y
    requires t.U[y] != Nil ==> InTree(t, t.U[y]) && (t.L[t.U[y]] == y || t.R[t.U[y]] == y)
    ensures InTree(t, y) && NodeShaped(t, y)
  {
  }

  /** A node with at most one child can be spliced out of the tree. */
  ghost predicate Spliceable(s: Snap, node: int) {
    && Indexed(s) && InTree(s, node) && NodeShaped(s, node) && ThreadedAt(s, node)
    && (s.L[node] == Nil || s.R[node] == Nil)
  }

  /**
    The arena after splicing out `node`: it leaves the threading, and its only
    child (or null) takes its place under its parent, or as the root.
  */
  ghost function Spliced(s: Snap, node: int): Snap
    requires Spliceable(s, node)
  {
    var k, u := s.Pos[node], s.U[node];
    var next := if s.L[node] == Nil then s.R[node] else s.L[node];
    var lf := if u != Nil && s.L[u] == node then s.L[u := next] else s.L;
    var rt := if u != Nil && s.L[u] != node then s.R[u := next] else s.R;
    s.(root := if u == Nil then next else s.root,
       U := if next != Nil then s.U[next := u] else s.U, L := lf, R := rt,
       P := UnthreadedP(s, node), N := UnthreadedN(s, node),
       Contents := s.Contents[..k] + s.Contents[k + 1..],
       Pos := Dropped(s.Pos, k)[node := -1], Lo := Dropped(s.Lo, k), Hi := Dropped(s.Hi, k - 1))
  }

  /** Cell `y` of `t` is cell `y` of `s` after splicing out `node`. */
  ghost predicate SplicedCell(s: Snap, t: Snap, node: int, y: int)
    requires Spliceable(s, node) && Sized(t) && |t.U| == |s.U| && 0 <= y < |s.U|
  {
    var k, u := s.Pos[node], s.U[node];
    var next := if s.L[node] == Nil then s.R[node] else s.L[node];
    && t.U[y] == (if y == next then u else s.U[y])
    && t.L[y] == (if y == u && s.L[u] == node then next else s.L[y])
    && t.R[y] == (if y == u && s.L[u] != node then next else s.R[y])
    && t.Pos[y] == (if y == node then -1 else Drop(s.Pos[y], k))
    && (y != node ==> DroppedAt(s, t, y, k, k, k - 1))
  }

  /**
    `t` is `s` with `node` spliced out, described cell by cell; the in-order
    sequence is one shorter.
  */
  ghost predicate SplicedFrom(s: Snap, t: Snap, node: int) {
    && Spliceable(s, node) && Sized(t) && |t.U| == |s.U| && |t.Contents| + 1 == |s.Contents|
    && t.root == (if s.U[node] == Nil then (if s.L[node] == Nil then s.R[node] else s.L[node]) else s.root)
    && t.C == s.C && t.Bh == s.Bh
    && forall y {:trigger SplicedCell(s, t, node, y)} | 0 <= y < |s.U| :: SplicedCell(s, t, node, y)
  }

  /** `t` has the in-order sequence, positions and threading of `s` once `node` is taken out. */
  ghost predicate UnthreadedFrom(s: Snap, t: Snap, node: int)
    requires Indexed(s) && InTree(s, node) && ThreadedAt(s, node)
  {
    && t.Contents == s.Contents[..s.Pos[node]] + s.Contents[s.Pos[node] + 1..]
    && t.Pos == Dropped(s.Pos, s.Pos[node])[node := -1]
    && t.P == UnthreadedP(s, node) && t.N == UnthreadedN(s, node)
  }

  /** `Spliced` splices out `node` as described cell by cell. */
  lemma SplicedIs(s: Snap, node: int)
    requires Spliceable(s, node)
    ensures SplicedFrom(s, Spliced(s, node), node) && UnthreadedFrom(s, Spliced(s, node), node)
  {
    var t := Spliced(s, node);
    forall y | 0 <= y < |s.U|
      ensures SplicedCell(s, t, node, y)
    {
    }
  }

  /** What the shape of `t` at `y` depends on, after splicing out `node`. */
  ghost predicate SplicedAround(s: Snap, t: Snap, node: int, y: int)
    requires Spliceable(s, node) && Sized(t) && |t.U| == |s.U| && InTree(s, y) && NodeShaped(s, y)
  {
    && SplicedCell(s, t, node, y) && SplicedCell(s, t, node, node)
    && (s.L[y] != Nil ==> SplicedCell(s, t, node, s.L[y]))
    && (s.R[y] != Nil ==> SplicedCell(s, t, node, s.R[y]))
    && (0 <= t.U[y] < |s.U| ==> SplicedCell(s, t, node, t.U[y]))
  }

  /** After splicing, a node's parent link leads to a node that has it as a child, or it is the root. */
  lemma SplicedParentLink(s: Snap, t: Snap, node: int, y: int)
    requires Spliceable(s, node) && Sized(t) && |t.U| == |s.U|
    requires t.root == (if s.U[node] == Nil then (if s.L[node] == Nil then s.R[node] else s.L[node]) else s.root)
    requires InTree(s, y) && NodeShaped(s, y) && y != node
    requires s.U[node] == Nil ==> s.root == node
    requires SplicedCell(s, t, node, y) && (0 <= t.U[y] < |s.U| ==> SplicedCell(s, t, node, t.U[y]))
    ensures t.U[y] == Nil ==> t.root == y
    ensures t.U[y] != Nil ==> InTree(t, t.U[y]) && (t.L[t.U[y]] == y || t.R[t.U[y]] == y)
  {
    var next := if s.L[node] == Nil then s.R[node] else s.L[node];
    if y != next && s.U[y] != Nil {
      assert s.L[s.U[y]] == y || s.R[s.U[y]] == y;
      assert s.U[y] != node;
    }
  }

  /** Splicing leaves every node but the spliced one and its parent shaped. */
  lemma SplicedOther(s: Snap, t: Snap, node: int, y: int)
    requires Spliceable(s, node) && Sized(t) && |t.U| == |s.U| && |t.Contents| + 1 == |s.Contents| && Indexed(t)
    requires t.root == (if s.U[node] == Nil then (if s.L[node] == Nil then s.R[node] else s.L[node]) else s.root)
    requires InTree(s, y) && NodeShaped(s, y) && y != node && y != s.U[node]
    requires s.U[node] == Nil ==> s.root == node
    requires s.U[node] != Nil ==> NodeShaped(s, s.U[node])
    requires SplicedAround(s, t, node, y)
    ensures InTree(t, y) && NodeShaped(t, y)
  {
    var k := s.Pos[node];
    SplicedParentLink(s, t, node, y);
    DroppedShaped(s, t, y, k, k, k - 1);
  }

  /**
    A node `u` that had `node`, with at most one child, as a child and now
    holds that child (or null) in its place stays shaped while the position
    `k` of `node` is removed.
  */
  lemma ReplacedShaped(s: Snap, t: Snap, u: int, node: int, next: int)
    requires Indexed(s) && Indexed(t) && |t.U| == |s.U| && |t.Contents| + 1 == |s.Contents|
    requires InTree(s, u) && NodeShaped(s, u) && InTree(s, node) && NodeShaped(s, node) && s.U[node] == u
    requires s.L[node] == Nil || s.R[node] == Nil
    requires next == (if s.L[node] == Nil then s.R[node] else s.L[node])
    requires t.L[u] == (if s.L[u] == node then next else s.L[u])
    requires t.R[u] == (if s.L[u] != node then next else s.R[u])
    requires DroppedAt(s, t, u, s.Pos[node], s.Pos[node], s.Pos[node] - 1)
    requires next != Nil ==> t.U[next] == u && DroppedAt(s, t, next, s.Pos[node], s.Pos[node], s.Pos[node] - 1)
    requires Sibling(s, u, node) != Nil ==>
      t.U[Sibling(s, u, node)] == u && DroppedAt(s, t, Sibling(s, u, node), s.Pos[node], s.Pos[node], s.Pos[node] - 1)
    requires t.U[u] == Nil ==> t.root == u
    requires t.U[u] != Nil ==> InTree(t, t.U[u]) && (t.L[t.U[u]] == u || t.R[t.U[u]] == u)
    ensures InTree(t, u) && NodeShaped(t, u)
  {
  }

  /** The parent of the spliced node holds its child (or null) in its place. */
  lemma SplicedAtParent(s: Snap, t: Snap, node: int)
    requires Spliceable(s, node) && Sized(t) && |t.U| == |s.U| && |t.Contents| + 1 == |s.Contents| && Indexed(t)
    requires s.U[node] != Nil && t.root == s.root
    requires NodeShaped(s, s.U[node]) && SplicedAround(s, t, node, s.U[node])
    requires s.U[s.U[node]] != Nil ==> NodeShaped(s, s.U[s.U[node]])
    requires var next := if s.L[node] == Nil then s.R[node] else s.L[node];
      next != Nil ==> SplicedCell(s, t, node, next)
    ensures InTree(t, s.U[node]) && NodeShaped(t, s.U[node])
  {
    var u := s.U[node];
    var next := if s.L[node] == Nil then s.R[node] else s.L[node];
    var o := Sibling(s, u, node);
    SplicedParentLink(s, t, node, u);
    if o != Nil {
      assert s.U[o] == u && o != next;
    }
    ReplacedShaped(s, t, u, node, next);
  }

  /** After splicing, the root (if any) spans the whole, shorter, in-order sequence. */
  lemma SplicedRoot(s: Snap, t: Snap, node: int)
    requires Structured(s) && SplicedFrom(s, t, node) && Indexed(t)
    ensures t.root == Nil <==> |t.Contents| == 0
    ensures t.root != Nil ==> InTree(t, t.root) && t.U[t.root] == Nil && t.Lo[t.root] == 0 && t.Hi[t.root] == |t.Contents| - 1
  {
    var u := s.U[node];
    var next := if s.L[node] == Nil then s.R[node] else s.L[node];
    assert SplicedCell(s, t, node, node);
    if u == Nil {
      assert s.root == node;
      if next != Nil {
        assert SplicedCell(s, t, node, next);
        assert NodeShaped(s, next);
      }
    } else {
      assert SplicedCell(s, t, node, s.root);
      assert s.root != node && s.root != next;
    }
  }

  /** Every node left in the tree but the spliced node's parent is shaped after splicing. */
  lemma SplicedAtOther(s: Snap, t: Snap, node: int, y: int)
    requires Spliceable(s, node) && Shaped(s) && SplicedFrom(s, t, node) && Indexed(t) && InTree(t, y)
    requires y != s.U[node]
    ensures NodeShaped(t, y)
  {
    var u := s.U[node];
    assert SplicedCell(s, t, node, y) && SplicedCell(s, t, node, node);
    assert NodeShaped(s, y);
    if 0 <= t.U[y] < |s.U| {
      assert SplicedCell(s, t, node, t.U[y]);
    }
    if s.L[y] != Nil {
      assert SplicedCell(s, t, node, s.L[y]);
    }
    if s.R[y] != Nil {
      assert SplicedCell(s, t, node, s.R[y]);
    }
    if u != Nil {
      assert NodeShaped(s, u);
    }
    SplicedOther(s, t, node, y);
  }

  /** The spliced node's parent is shaped after splicing. */
  lemma SplicedAtTop(s: Snap, t: Snap, node: int)
    requires Spliceable(s, node) && Shaped(s) && SplicedFrom(s, t, node) && Indexed(t)
    requires s.U[node] != Nil
    ensures InTree(t, s.U[node]) && NodeShaped(t, s.U[node])
  {
    var u := s.U[node];
    var next := if s.L[node] == Nil then s.R[node] else s.L[node];
    assert NodeShaped(s, u);
    assert SplicedCell(s, t, node, u) && SplicedCell(s, t, node, node);
    if 0 <= t.U[u] < |s.U| {
      assert SplicedCell(s, t, node, t.U[u]);
    }
    if s.L[u] != Nil {
      assert SplicedCell(s, t, node, s.L[u]);
    }
    if s.R[u] != Nil {
      assert SplicedCell(s, t, node, s.R[u]);
    }
    if s.U[u] != Nil {
      assert NodeShaped(s, s.U[u]);
    }
    if next != Nil {
      assert SplicedCell(s, t, node, next);
    }
    SplicedAtParent(s, t, node);
  }

  /** Splicing out a node with at most one child keeps the tree structured. */
  lemma SplicedStructured(s: Snap, t: Snap, node: int)
    requires Structured(s) && SplicedFrom(s, t, node) && UnthreadedFrom(s, t, node)
    ensures Structured(t)
  {
    UnthreadedThreaded(s, t, node);
    forall y | InTree(t, y)
      ensures NodeShaped(t, y)
    {
      if y == s.U[node] {
        SplicedAtTop(s, t, node);
      } else {
        SplicedAtOther(s, t, node, y);
      }
    }
    SplicedRoot(s, t, node);
  }

  /**
    A node with two children can be succeeded by the node that follows it in
    order, `next`: the leftmost node of its right subtree, which has no left
    child and is either that right child or the left child of its own parent
    `xp`, a node away from the removed node, its parent and its left subtree.
  */
  ghost predicate Succeedable(s: Snap, node: int) {
    && Indexed(s) && InTree(s, node) && NodeShaped(s, node) && ThreadedAt(s, node)
    && s.L[node] != Nil && s.R[node] != Nil && s.Pos[node] < s.Hi[node]
    && var next, u := s.Contents[s.Pos[node] + 1], s.U[node];
    && InTree(s, next) && NodeShaped(s, next) && s.L[next] == Nil
    && (u != Nil ==> NodeShaped(s, u) && u != next)
    && (next != s.R[node] ==>
          s.U[next] != Nil && NodeShaped(s, s.U[next]) && s.L[s.U[next]] == next
          && s.U[next] != u && s.U[next] != s.L[node] && s.U[next] != node)
  }

  /**
    The arena after succeeding `node` by `next`: `node` leaves the threading;
    `next` takes its place under its parent (or as the root), its colour and
    its left subtree; when `next` is not the right child itself, its right
    subtree `x` takes its place under its parent `xp` and `next` takes over
    the right subtree as well. The removed node keeps its own stale links.
  */
  ghost function Succeeded(s: Snap, node: int): Snap
    requires Succeedable(s, node)
  {
    var k, next := s.Pos[node], s.Contents[s.Pos[node] + 1];
    Relinked(s, node).(
       P := UnthreadedP(s, node), N := UnthreadedN(s, node),
       Contents := s.Contents[..k] + s.Contents[k + 1..],
       Pos := Dropped(s.Pos, k)[node := -1],
       Lo := Dropped(s.Lo, k + 1)[next := s.Lo[node]], Hi := Dropped(s.Hi, k)[next := s.Hi[node] - 1],
       Bh := s.Bh[next := s.Bh[node]])
  }

  /** The links and colours of `Succeeded`: what remove's tree surgery writes. */
  ghost function Relinked(s: Snap, node: int): Snap
    requires Succeedable(s, node)
  {
    var k, l, r, u := s.Pos[node], s.L[node], s.R[node], s.U[node];
    var next := s.Contents[k + 1];
    var xp, x := if next == r then next else s.U[next], s.R[next];
    var lf := if u != Nil && s.L[u] == node then s.L[u := next] else s.L;
    var rt := if u != Nil && s.L[u] != node then s.R[u := next] else s.R;
    var lf := lf[next := l];
    var up := s.U[l := next][next := u];
    var lf := if next != r then lf[xp := x] else lf;
    var rt := if next != r then rt[next := r] else rt;
    var up := if next != r then up[r := next] else up;
    var up := if x != Nil then up[x := xp] else up;
    s.(root := if u == Nil then next else s.root, U := up, L := lf, R := rt, C := s.C[next := s.C[node]])
  }

  /** The parent link of cell `y` of `t` after succeeding `node` by `next`. */
  ghost predicate SucceededUp(s: Snap, t: Snap, node: int, y: int)
    requires Succeedable(s, node) && Sized(t) && |t.U| == |s.U| && 0 <= y < |s.U|
  {
    var l, r, u := s.L[node], s.R[node], s.U[node];
    var next := s.Contents[s.Pos[node] + 1];
    var xp, x := if next == r then next else s.U[next], s.R[next];
    t.U[y] == (if y == next then u else if y == l || (y == r && next != r) then next
               else if y == x && x != Nil then xp else s.U[y])
  }

  /** The child links of cell `y` of `t` after succeeding `node` by `next`. */
  ghost predicate SucceededSides(s: Snap, t: Snap, node: int, y: int)
    requires Succeedable(s, node) && Sized(t) && |t.U| == |s.U| && 0 <= y < |s.U|
  {
    var l, r, u := s.L[node], s.R[node], s.U[node];
    var next := s.Contents[s.Pos[node] + 1];
    var xp, x := if next == r then next else s.U[next], s.R[next];
    && t.L[y] == (if y == next then l else if y == xp && next != r then x
                  else if y == u && s.L[u] == node then next else s.L[y])
    && t.R[y] == (if y == next && next != r then r else if y == u && s.L[u] != node then next else s.R[y])
  }

  /** The links of cell `y` of `t` are those of cell `y` of `s` after succeeding `node` by `next`. */
  ghost predicate SucceededLinks(s: Snap, t: Snap, node: int, y: int)
    requires Succeedable(s, node) && Sized(t) && |t.U| == |s.U| && 0 <= y < |s.U|
  {
    SucceededUp(s, t, node, y) && SucceededSides(s, t, node, y)
  }

  /** The positions and span of cell `y` of `t` after succeeding `node` by `next`. */
  ghost predicate SucceededKeys(s: Snap, t: Snap, node: int, y: int)
    requires Succeedable(s, node) && Sized(t) && |t.U| == |s.U| && 0 <= y < |s.U|
  {
    var k := s.Pos[node];
    var next := s.Contents[k + 1];
    && t.Pos[y] == (if y == node then -1 else Drop(s.Pos[y], k))
    && (y != node && y != next ==> DroppedAt(s, t, y, k, k + 1, k))
    && (y == next ==> t.Lo[y] == s.Lo[node] && t.Hi[y] == s.Hi[node] - 1)
  }

  /** Cell `y` of `t` is cell `y` of `s` after succeeding `node` by `next`. */
  ghost predicate SucceededCell(s: Snap, t: Snap, node: int, y: int)
    requires Succeedable(s, node) && Sized(t) && |t.U| == |s.U| && 0 <= y < |s.U|
  {
    SucceededLinks(s, t, node, y) && SucceededKeys(s, t, node, y)
  }

  /** `t` is `s` with `node` succeeded by the next node, described cell by cell. */
  ghost predicate SucceededFrom(s: Snap, t: Snap, node: int) {
    && Succeedable(s, node) && Sized(t) && |t.U| == |s.U| && |t.Contents| + 1 == |s.Contents|
    && t.root == (if s.U[node] == Nil then s.Contents[s.Pos[node] + 1] else s.root)
    && t.C == s.C[s.Contents[s.Pos[node] + 1] := s.C[node]]
    && t.Bh == s.Bh[s.Contents[s.Pos[node] + 1] := s.Bh[node]]
    && forall y {:trigger SucceededCell(s, t, node, y)} | 0 <= y < |s.U| :: SucceededCell(s, t, node, y)
  }

  /** One cell of a succeeded arena, in the three parts its description has. */
  lemma SucceededAt(s: Snap, t: Snap, node: int, y: int)
    requires SucceededFrom(s, t, node) && 0 <= y < |s.U|
    ensures SucceededUp(s, t, node, y) && SucceededSides(s, t, node, y) && SucceededKeys(s, t, node, y)
  {
    assert SucceededCell(s, t, node, y);
  }

  /** `Succeeded` relinks every parent as described. */
  lemma SucceededUpsAre(s: Snap, node: int)
    requires Succeedable(s, node)
    ensures var t := Succeeded(s, node);
      Sized(t) && |t.U| == |s.U| && forall y | 0 <= y < |s.U| :: SucceededUp(s, t, node, y)
  {
    var t, r := Succeeded(s, node), Relinked(s, node);
    assert Sized(r) && t.U == r.U && Sized(t);
    forall y | 0 <= y < |s.U|
      ensures SucceededUp(s, t, node, y)
    {
      assert SucceededUp(s, r, node, y);
    }
  }

  /** `Succeeded` relinks every child as described. */
  lemma SucceededSidesAre(s: Snap, node: int)
    requires Succeedable(s, node)
    ensures var t := Succeeded(s, node);
      Sized(t) && |t.U| == |s.U| && forall y | 0 <= y < |s.U| :: SucceededSides(s, t, node, y)
  {
    var t, r := Succeeded(s, node), Relinked(s, node);
    assert Sized(r) && t.L == r.L && t.R == r.R && Sized(t);
    forall y | 0 <= y < |s.U|
      ensures SucceededSides(s, t, node, y)
    {
      RelinkedSidesAt(s, node, y);
    }
  }

  /** The child links of one cell after remove's tree surgery. */
  lemma RelinkedSidesAt(s: Snap, node: int, y: int)
    requires Succeedable(s, node) && 0 <= y < |s.U|
    ensures Sized(Relinked(s, node)) && |Relinked(s, node).U| == |s.U|
    ensures SucceededSides(s, Relinked(s, node), node, y)
  {
    var r, u := Relinked(s, node), s.U[node];
    var next := s.Contents[s.Pos[node] + 1];
    var xp := s.U[next];
    assert next != u;
    if next != s.R[node] {
      assert xp != next && xp != u;
    }
    assert r.L[y] == (if y == next then s.L[node] else if y == xp && next != s.R[node] then s.R[next]
                      else if y == u && s.L[u] == node then next else s.L[y]);
  }

  /** `Succeeded` repositions every cell as described. */
  lemma SucceededKeysAre(s: Snap, node: int)
    requires Succeedable(s, node)
    ensures var t := Succeeded(s, node);
      Sized(t) && |t.U| == |s.U| && forall y | 0 <= y < |s.U| :: SucceededKeys(s, t, node, y)
  {
    var t := Succeeded(s, node);
    forall y | 0 <= y < |s.U|
      ensures SucceededKeys(s, t, node, y)
    {
    }
  }

  /** `Succeeded` succeeds `node` as described cell by cell. */
  lemma SucceededIs(s: Snap, node: int)
    requires Succeedable(s, node)
    ensures SucceededFrom(s, Succeeded(s, node), node) && UnthreadedFrom(s, Succeeded(s, node), node)
  {
    SucceededUpsAre(s, node);
    SucceededSidesAre(s, node);
    SucceededKeysAre(s, node);
  }

  /**
    The first node of the subtree at `y` in order has no left child, and
    unless it is `y` itself it is the left child of its parent.
  */
  lemma {:induction false} FirstOf(s: Snap, y: int)
    requires Structured(s) && InTree(s, y)
    ensures NodeShaped(s, y) && InTree(s, s.Contents[s.Lo[y]])
    ensures var f := s.Contents[s.Lo[y]];
      && NodeShaped(s, f) && s.L[f] == Nil && s.Pos[f] == s.Lo[y]
      && (f != y ==> s.U[f] != Nil && InTree(s, s.U[f]) && s.L[s.U[f]] == f)
    decreases s.Hi[y] - s.Lo[y]
  {
    assert NodeShaped(s, y);
    var l := s.L[y];
    if l != Nil {
      assert NodeShaped(s, l);
      FirstOf(s, l);
    }
  }

  /** In a structured tree, every node with two children can be succeeded. */
  lemma SucceedableOf(s: Snap, node: int)
    requires Structured(s) && InTree(s, node) && s.L[node] != Nil && s.R[node] != Nil
    ensures Succeedable(s, node)
  {
    var k, l, r, u := s.Pos[node], s.L[node], s.R[node], s.U[node];
    assert NodeShaped(s, node) && NodeShaped(s, l) && NodeShaped(s, r);
    FirstOf(s, r);
    var next := s.Contents[k + 1];
    if u != Nil {
      assert NodeShaped(s, u);
    }
    if next != r {
      var xp := s.U[next];
      assert NodeShaped(s, xp);
    }
  }

  /** After succeeding, a node that moved keeps a parent that has it as a child. */
  lemma SucceededMovedLink(s: Snap, t: Snap, node: int, y: int)
    requires Succeedable(s, node) && Sized(t) && |t.U| == |s.U|
    requires 0 <= y < |s.U| && y != node
    requires var next := s.Contents[s.Pos[node] + 1];
      y == next || y == s.L[node] || y == s.R[node] || y == s.R[next]
    requires t.root == (if s.U[node] == Nil then s.Contents[s.Pos[node] + 1] else s.root)
    requires SucceededUp(s, t, node, y)
    requires 0 <= t.U[y] < |s.U| ==> SucceededLinks(s, t, node, t.U[y]) && SucceededKeys(s, t, node, t.U[y])
    ensures t.U[y] == Nil ==> t.root == y
    ensures t.U[y] != Nil ==> InTree(t, t.U[y]) && (t.L[t.U[y]] == y || t.R[t.U[y]] == y)
  {
    var k, u := s.Pos[node], s.U[node];
    if y == s.Contents[k + 1] && u != Nil {
      assert s.Pos[u] != k;
    }
  }

  /** After succeeding, a node that did not move keeps a parent that has it as a child, or is the root. */
  lemma SucceededKeptLink(s: Snap, t: Snap, node: int, y: int)
    requires Succeedable(s, node) && Sized(t) && |t.U| == |s.U|
    requires InTree(s, y) && NodeShaped(s, y) && y != node
    requires var next := s.Contents[s.Pos[node] + 1];
      y != next && y != s.L[node] && y != s.R[node] && y != s.R[next]
    requires t.root == (if s.U[node] == Nil then s.Contents[s.Pos[node] + 1] else s.root)
    requires s.U[node] == Nil ==> s.root == node
    requires SucceededUp(s, t, node, y)
    requires 0 <= t.U[y] < |s.U| ==> SucceededLinks(s, t, node, t.U[y]) && SucceededKeys(s, t, node, t.U[y])
    ensures t.U[y] == Nil ==> t.root == y
    ensures t.U[y] != Nil ==> InTree(t, t.U[y]) && (t.L[t.U[y]] == y || t.R[t.U[y]] == y)
  {
    var k, r := s.Pos[node], s.R[node];
    var next := s.Contents[k + 1];
    var xp := if next == r then next else s.U[next];
    if s.U[y] != Nil {
      var q := s.U[y];
      assert s.L[q] == y || s.R[q] == y;
      assert q != node && q != next;
      assert q != xp || s.R[xp] == y;
    }
  }

  /** After succeeding, a node's parent link leads to a node that has it as a child, or it is the root. */
  lemma SucceededParentLink(s: Snap, t: Snap, node: int, y: int)
    requires Succeedable(s, node) && Sized(t) && |t.U| == |s.U|
    requires t.root == (if s.U[node] == Nil then s.Contents[s.Pos[node] + 1] else s.root)
    requires InTree(s, y) && NodeShaped(s, y) && y != node
    requires s.U[node] == Nil ==> s.root == node
    requires SucceededUp(s, t, node, y)
    requires 0 <= t.U[y] < |s.U| ==> SucceededLinks(s, t, node, t.U[y]) && SucceededKeys(s, t, node, t.U[y])
    ensures t.U[y] == Nil ==> t.root == y
    ensures t.U[y] != Nil ==> InTree(t, t.U[y]) && (t.L[t.U[y]] == y || t.R[t.U[y]] == y)
  {
    var next := s.Contents[s.Pos[node] + 1];
    if y == next || y == s.L[node] || y == s.R[node] || y == s.R[next] {
      SucceededMovedLink(s, t, node, y);
    } else {
      SucceededKeptLink(s, t, node, y);
    }
  }

  /** A child of a node other than the removed node, the successor and its parent stays a child of it. */
  lemma SucceededChildStays(s: Snap, t: Snap, node: int, y: int, c: int)
    requires Succeedable(s, node) && Sized(t) && |t.U| == |s.U|
    requires 0 <= y < |s.U| && 0 <= c < |s.U| && s.U[c] == y && y != node && y != s.U[node]
    requires var next := s.Contents[s.Pos[node] + 1];
      y != next && (next != s.R[node] ==> y != s.U[next])
    requires SucceededUp(s, t, node, c) && SucceededKeys(s, t, node, c)
    ensures t.U[c] == y && DroppedAt(s, t, c, s.Pos[node], s.Pos[node] + 1, s.Pos[node])
  {
  }

  /** Succeeding leaves every node shaped whose own links do not change. */
  lemma SucceededOther(s: Snap, t: Snap, node: int, y: int)
    requires Succeedable(s, node) && Indexed(t) && |t.U| == |s.U| && |t.Contents| + 1 == |s.Contents|
    requires t.root == (if s.U[node] == Nil then s.Contents[s.Pos[node] + 1] else s.root)
    requires s.U[node] == Nil ==> s.root == node
    requires InTree(s, y) && NodeShaped(s, y) && y != node && y != s.U[node]
    requires var next := s.Contents[s.Pos[node] + 1];
      y != next && (next != s.R[node] ==> y != s.U[next])
    requires SucceededCell(s, t, node, y) && SucceededCell(s, t, node, node)
    requires 0 <= t.U[y] < |s.U| ==> SucceededCell(s, t, node, t.U[y])
    requires s.L[y] != Nil ==> SucceededCell(s, t, node, s.L[y])
    requires s.R[y] != Nil ==> SucceededCell(s, t, node, s.R[y])
    ensures InTree(t, y) && NodeShaped(t, y)
  {
    var k := s.Pos[node];
    SucceededParentLink(s, t, node, y);
    if s.L[y] != Nil {
      SucceededChildStays(s, t, node, y, s.L[y]);
    }
    if s.R[y] != Nil {
      SucceededChildStays(s, t, node, y, s.R[y]);
    }
    DroppedShaped(s, t, y, k, k + 1, k);
  }

  /** The successor's old parent, when it is not the removed node, is shaped with the successor's right subtree in its place. */
  lemma SucceededAtHeirParent(s: Snap, t: Snap, node: int)
    requires Succeedable(s, node) && Indexed(t) && |t.U| == |s.U| && |t.Contents| + 1 == |s.Contents|
    requires t.root == (if s.U[node] == Nil then s.Contents[s.Pos[node] + 1] else s.root)
    requires s.U[node] == Nil ==> s.root == node
    requires var next := s.Contents[s.Pos[node] + 1];
      next != s.R[node]
    requires var next := s.Contents[s.Pos[node] + 1];
      var xp, x := s.U[next], s.R[next];
      && (x != Nil ==> NodeShaped(s, x) && SucceededUp(s, t, node, x) && SucceededKeys(s, t, node, x))
      && (s.R[xp] != Nil ==> SucceededUp(s, t, node, s.R[xp]) && SucceededKeys(s, t, node, s.R[xp]))
      && SucceededKeys(s, t, node, next) && SucceededCell(s, t, node, xp)
      && (0 <= t.U[xp] < |s.U| ==> SucceededLinks(s, t, node, t.U[xp]) && SucceededKeys(s, t, node, t.U[xp]))
    ensures var xp := s.U[s.Contents[s.Pos[node] + 1]];
      InTree(t, xp) && NodeShaped(t, xp)
  {
    var next := s.Contents[s.Pos[node] + 1];
    var xp := s.U[next];
    SucceededParentLink(s, t, node, xp);
  }

  /**
    A node `u` that had `node`, with two children, as a child and now holds
    the successor `next` in its place stays shaped while the position `k` of
    `node` is removed.
  */
  lemma SucceededParentShaped(s: Snap, t: Snap, u: int, node: int, next: int)
    requires Indexed(s) && Indexed(t) && |t.U| == |s.U| && |t.Contents| + 1 == |s.Contents|
    requires InTree(s, u) && NodeShaped(s, u) && InTree(s, node) && NodeShaped(s, node) && s.U[node] == u
    requires s.L[node] != Nil && s.R[node] != Nil && s.Pos[node] < s.Hi[node]
    requires t.L[u] == (if s.L[u] == node then next else s.L[u])
    requires t.R[u] == (if s.L[u] != node then next else s.R[u])
    requires DroppedAt(s, t, u, s.Pos[node], s.Pos[node] + 1, s.Pos[node])
    requires 0 <= next < |s.U| && t.U[next] == u && t.Pos[next] == s.Pos[node]
    requires t.Lo[next] == s.Lo[node] && t.Hi[next] == s.Hi[node] - 1
    requires Sibling(s, u, node) != Nil ==>
      t.U[Sibling(s, u, node)] == u && DroppedAt(s, t, Sibling(s, u, node), s.Pos[node], s.Pos[node] + 1, s.Pos[node])
    requires t.U[u] == Nil ==> t.root == u
    requires t.U[u] != Nil ==> InTree(t, t.U[u]) && (t.L[t.U[u]] == u || t.R[t.U[u]] == u)
    ensures InTree(t, u) && NodeShaped(t, u)
  {
    if s.L[u] == node {
      assert s.Pos[u] == s.Hi[node] + 1 && t.Pos[u] == s.Pos[u] - 1;
    } else {
      assert s.Pos[u] + 1 == s.Lo[node] && t.Pos[u] == s.Pos[u];
    }
  }

  /** The removed node's parent is shaped with the successor in the removed node's place. */
  lemma SucceededAtParent(s: Snap, t: Snap, node: int)
    requires Succeedable(s, node) && Indexed(t) && |t.U| == |s.U| && |t.Contents| + 1 == |s.Contents|
    requires s.U[node] != Nil && t.root == s.root
    requires var u, next := s.U[node], s.Contents[s.Pos[node] + 1];
      var o := Sibling(s, u, node);
      && (o != Nil ==> SucceededUp(s, t, node, o) && SucceededKeys(s, t, node, o))
      && SucceededUp(s, t, node, next) && SucceededKeys(s, t, node, next)
      && SucceededUp(s, t, node, u) && SucceededSides(s, t, node, u) && SucceededKeys(s, t, node, u)
      && (0 <= t.U[u] < |s.U| ==> SucceededLinks(s, t, node, t.U[u]) && SucceededKeys(s, t, node, t.U[u]))
    ensures InTree(t, s.U[node]) && NodeShaped(t, s.U[node])
  {
    var u, next := s.U[node], s.Contents[s.Pos[node] + 1];
    var o := Sibling(s, u, node);
    SucceededParentLink(s, t, node, u);
    if o != Nil {
      assert s.U[o] == u && o != node && o != next && o != s.R[next];
    }
    SucceededParentShaped(s, t, u, node, next);
  }

  /** After succeeding, the root spans the whole, shorter, in-order sequence. */
  lemma SucceededRoot(s: Snap, t: Snap, node: int)
    requires Structured(s) && SucceededFrom(s, t, node) && Indexed(t)
    ensures t.root == Nil <==> |t.Contents| == 0
    ensures t.root != Nil ==> InTree(t, t.root) && t.U[t.root] == Nil && t.Lo[t.root] == 0 && t.Hi[t.root] == |t.Contents| - 1
  {
    var u, next := s.U[node], s.Contents[s.Pos[node] + 1];
    assert SucceededCell(s, t, node, node);
    if u == Nil {
      assert s.root == node;
      assert SucceededCell(s, t, node, next);
    } else {
      assert SucceededCell(s, t, node, s.root);
      assert s.root != node && s.root != next;
      assert s.U[s.L[node]] == node && s.U[s.R[node]] == node && NodeShaped(s, next);
    }
  }

  /** Every node left in the tree whose own links do not change is shaped after succeeding. */
  lemma SucceededAtOther(s: Snap, t: Snap, node: int, y: int)
    requires SucceededFrom(s, t, node) && Shaped(s) && Indexed(t) && InTree(t, y)
    requires var next := s.Contents[s.Pos[node] + 1];
      y != s.U[node] && y != next && (next != s.R[node] ==> y != s.U[next])
    ensures NodeShaped(t, y)
  {
    assert SucceededCell(s, t, node, y) && SucceededCell(s, t, node, node);
    assert NodeShaped(s, y);
    if 0 <= t.U[y] < |s.U| {
      assert SucceededCell(s, t, node, t.U[y]);
    }
    if s.L[y] != Nil {
      assert SucceededCell(s, t, node, s.L[y]);
    }
    if s.R[y] != Nil {
      assert SucceededCell(s, t, node, s.R[y]);
    }
    SucceededOther(s, t, node, y);
  }

  /** After succeeding, the successor holds the removed node's left subtree. */
  lemma SucceededHeirLeft(s: Snap, t: Snap, node: int)
    requires SucceededFrom(s, t, node) && Shaped(s)
    ensures var l, next := s.L[node], s.Contents[s.Pos[node] + 1];
      && InTree(t, l) && t.L[next] == l && t.U[l] == next
      && t.Lo[l] == s.Lo[node] && t.Hi[l] + 1 == s.Pos[node]
  {
    var l, next := s.L[node], s.Contents[s.Pos[node] + 1];
    assert NodeShaped(s, l);
    assert SucceededCell(s, t, node, next) && SucceededCell(s, t, node, l);
  }

  /** After succeeding, the successor's right subtree holds the rest of the removed node's right subtree. */
  lemma SucceededHeirRight(s: Snap, t: Snap, node: int)
    requires SucceededFrom(s, t, node) && Shaped(s)
    ensures var next := s.Contents[s.Pos[node] + 1];
      var c := t.R[next];
      && (c == Nil ==> s.Hi[node] - 1 == s.Pos[node])
      && (c != Nil ==> 0 <= c < |t.U| && t.Pos[c] >= 0 && t.U[c] == next && t.Hi[c] == s.Hi[node] - 1 && t.Lo[c] == s.Pos[node] + 1)
  {
    var r, next := s.R[node], s.Contents[s.Pos[node] + 1];
    var x := s.R[next];
    assert NodeShaped(s, r);
    assert SucceededCell(s, t, node, next) && SucceededCell(s, t, node, r);
    if x != Nil {
      assert NodeShaped(s, x) && SucceededCell(s, t, node, x);
    }
  }

  /** After succeeding, the successor hangs from the removed node's parent, or is the root. */
  lemma SucceededHeirUp(s: Snap, t: Snap, node: int)
    requires SucceededFrom(s, t, node) && Shaped(s)
    ensures var u, next := s.U[node], s.Contents[s.Pos[node] + 1];
      && t.U[next] == u && t.Pos[next] == s.Pos[node] && t.Lo[next] == s.Lo[node] && t.Hi[next] == s.Hi[node] - 1
      && (u == Nil ==> t.root == next && s.Lo[node] == 0 && s.Hi[node] == |s.Contents| - 1)
      && (u != Nil ==> InTree(t, u) && (t.L[u] == next || t.R[u] == next))
  {
    var u, next := s.U[node], s.Contents[s.Pos[node] + 1];
    assert SucceededCell(s, t, node, next) && SucceededCell(s, t, node, node);
    if u != Nil {
      assert SucceededCell(s, t, node, u);
      assert s.Pos[u] != s.Pos[node];
    } else {
      assert s.root == node;
    }
  }

  /** The successor is shaped in its new place. */
  lemma SucceededAtHeirNode(s: Snap, t: Snap, node: int)
    requires SucceededFrom(s, t, node) && Shaped(s) && Indexed(t)
    ensures InTree(t, s.Contents[s.Pos[node] + 1]) && NodeShaped(t, s.Contents[s.Pos[node] + 1])
  {
    SucceededHeirLeft(s, t, node);
    SucceededHeirRight(s, t, node);
    SucceededHeirUp(s, t, node);
  }

  /** The successor's old parent, when not the removed node, is shaped after succeeding. */
  lemma SucceededAtHeirParentNode(s: Snap, t: Snap, node: int)
    requires SucceededFrom(s, t, node) && Shaped(s) && Indexed(t)
    requires s.Contents[s.Pos[node] + 1] != s.R[node]
    ensures var xp := s.U[s.Contents[s.Pos[node] + 1]];
      InTree(t, xp) && NodeShaped(t, xp)
  {
    var next := s.Contents[s.Pos[node] + 1];
    var xp, x := s.U[next], s.R[next];
    if x != Nil {
      assert NodeShaped(s, x) && SucceededCell(s, t, node, x);
    }
    if s.R[xp] != Nil {
      assert SucceededCell(s, t, node, s.R[xp]);
    }
    assert SucceededCell(s, t, node, next) && SucceededCell(s, t, node, xp);
    if 0 <= t.U[xp] < |s.U| {
      assert SucceededCell(s, t, node, t.U[xp]);
    }
    if s.U[node] == Nil {
      assert s.root == node;
    }
    SucceededAtHeirParent(s, t, node);
  }

  /** The removed node's parent is shaped after succeeding. */
  lemma SucceededAtTop(s: Snap, t: Snap, node: int)
    requires SucceededFrom(s, t, node) && Shaped(s) && Indexed(t)
    requires s.U[node] != Nil
    ensures InTree(t, s.U[node]) && NodeShaped(t, s.U[node])
  {
    var u, next := s.U[node], s.Contents[s.Pos[node] + 1];
    var o := Sibling(s, u, node);
    assert NodeShaped(s, u);
    if o != Nil {
      assert SucceededCell(s, t, node, o);
    }
    assert SucceededCell(s, t, node, next) && SucceededCell(s, t, node, u);
    if 0 <= t.U[u] < |s.U| {
      assert SucceededCell(s, t, node, t.U[u]);
    }
    SucceededAtParent(s, t, node);
  }

  /** Succeeding a node with two children by the next node keeps the tree structured. */
  lemma SucceededStructured(s: Snap, t: Snap, node: int)
    requires Structured(s) && SucceededFrom(s, t, node) && UnthreadedFrom(s, t, node)
    ensures Structured(t)
  {
    UnthreadedThreaded(s, t, node);
    var next := s.Contents[s.Pos[node] + 1];
    forall y | InTree(t, y)
      ensures NodeShaped(t, y)
    {
      if y == next {
        SucceededAtHeirNode(s, t, node);
      } else if y == s.U[node] {
        SucceededAtTop(s, t, node);
      } else if next != s.R[node] && y == s.U[next] {
        SucceededAtHeirParentNode(s, t, node);
      } else {
        SucceededAtOther(s, t, node, y);
      }
    }
    SucceededRoot(s, t, node);
  }
}
