/**
  The first half of the red-black tree's insert: linking a detached node into
  the tree as the in-order successor of `after`, before any recolouring.

  The node lands at in-order position `k`. It hangs either as the right child
  of `after` (when `after` has no right child) or as the left child of the
  leftmost node of the subtree that follows (the first node of the tree when
  `after` is null), or it becomes the root of an empty tree. Every position
  from `k` on moves up by one, and so do the subtree spans around it.
*/
module RedBlackAttach {
  import opened RedBlackSpec

  /** A position or span bound once a node has been inserted at `k`. */
  function Bump(v: int, k: int): int {
    if v >= k then v + 1 else v
  }

  /** Every entry of `v` bumped past `k`. */
  ghost function Shifted(v: seq<int>, k: int): (r: seq<int>)
    ensures |r| == |v| && forall i | 0 <= i < |v| :: r[i] == Bump(v[i], k)
  {
    seq(|v|, i requires 0 <= i < |v| => Bump(v[i], k))
  }

  /**
    Attaching `node` under `parent` (on the right when `right`) is possible: the
    node is in the arena but not in the tree, and the chosen side of `parent`
    is free (or the tree is empty and `parent` is null).
  */
  ghost predicate Attachable(s: Snap, node: int, parent: int, right: bool) {
    && Indexed(s) && 0 <= node < |s.U| && s.Pos[node] == -1
    && (parent == Nil ==> s.root == Nil && |s.Contents| == 0)
    && (parent != Nil ==> InTree(s, parent) && (if right then s.R[parent] == Nil else s.L[parent] == Nil))
  }

  /** The in-order position the attached node takes. */
  ghost function AttachPos(s: Snap, parent: int, right: bool): (k: int)
    requires Sized(s) && Ref(s, parent)
  {
    if parent == Nil then 0 else if right then s.Pos[parent] + 1 else s.Pos[parent]
  }

  /**
    The arena after linking `node` under `parent`, written in the order the
    insert writes it: the threading first, then the child link in the parent,
    then the node's own links and its red colour.
  */
  ghost function Attached(s: Snap, node: int, parent: int, right: bool): Snap
    requires Attachable(s, node, parent, right)
  {
    var k := AttachPos(s, parent, right);
    var prev := if k == 0 then Nil else s.Contents[k - 1];
    var next := if k == |s.Contents| then Nil else s.Contents[k];
    var pr := s.P[node := prev];
    var nx := s.N[node := next];
    var pr := if next != Nil then pr[next := node] else pr;
    var nx := if prev != Nil then nx[prev := node] else nx;
    var lf := if parent != Nil && !right then s.L[parent := node] else s.L;
    var rt := if parent != Nil && right then s.R[parent := node] else s.R;
    s.(root := if parent == Nil then node else s.root,
       U := s.U[node := parent], L := lf[node := Nil], R := rt[node := Nil], P := pr, N := nx,
       C := s.C[node := true],
       Contents := s.Contents[..k] + [node] + s.Contents[k..],
       Pos := Shifted(s.Pos, k)[node := k],
       Lo := Shifted(s.Lo, if right then k else k + 1)[node := k],
       Hi := Shifted(s.Hi, if right then k - 1 else k)[node := k],
       Bh := s.Bh[node := 0])
  }

  /** The links, colour and black height of every cell after attaching. */
  lemma AttachedLinks(s: Snap, node: int, parent: int, right: bool, y: int)
    requires Attachable(s, node, parent, right) && 0 <= y < |s.U|
    ensures var t := Attached(s, node, parent, right);
      && Sized(t) && |t.U| == |s.U|
      && t.root == (if parent == Nil then node else s.root)
      && t.U[y] == (if y == node then parent else s.U[y])
      && t.L[y] == (if y == node then Nil else if y == parent && !right then node else s.L[y])
      && t.R[y] == (if y == node then Nil else if y == parent && right then node else s.R[y])
      && t.C[y] == (y == node || s.C[y])
      && t.Bh[y] == (if y == node then 0 else s.Bh[y])
  {
  }

  /** The position and span of every cell after attaching. */
  lemma AttachedNumbers(s: Snap, node: int, parent: int, right: bool, y: int)
    requires Attachable(s, node, parent, right) && 0 <= y < |s.U|
    ensures var t, k := Attached(s, node, parent, right), AttachPos(s, parent, right);
      && 0 <= k <= |s.Contents| && |t.Pos| == |t.Lo| == |t.Hi| == |s.U|
      && t.Contents == s.Contents[..k] + [node] + s.Contents[k..]
      && t.Pos[y] == (if y == node then k else Bump(s.Pos[y], k))
      && t.Lo[y] == (if y == node then k else Bump(s.Lo[y], if right then k else k + 1))
      && t.Hi[y] == (if y == node then k else Bump(s.Hi[y], if right then k - 1 else k))
  {
  }

  /** The in-order neighbour links of every cell after attaching. */
  lemma AttachedThreads(s: Snap, node: int, parent: int, right: bool, y: int)
    requires Attachable(s, node, parent, right) && 0 <= y < |s.U|
    ensures var t, k := Attached(s, node, parent, right), AttachPos(s, parent, right);
      var prev := if k == 0 then Nil else s.Contents[k - 1];
      var next := if k == |s.Contents| then Nil else s.Contents[k];
      && 0 <= k <= |s.Contents| && |t.P| == |t.N| == |s.U|
      && t.P[y] == (if y == node then prev else if y == next then node else s.P[y])
      && t.N[y] == (if y == node then next else if y == prev then node else s.N[y])
  {
    var k := AttachPos(s, parent, right);
    if 0 < k {
      assert s.Pos[s.Contents[k - 1]] == k - 1;
    }
    if k < |s.Contents| {
      assert s.Pos[s.Contents[k]] == k;
    }
  }

  /** The in-order sequence after attaching, entry by entry. */
  lemma AttachedContents(s: Snap, node: int, parent: int, right: bool, i: int)
    requires Attachable(s, node, parent, right) && 0 <= i <= |s.Contents|
    ensures var t, k := Attached(s, node, parent, right), AttachPos(s, parent, right);
      && |t.Contents| == |s.Contents| + 1
      && t.Contents[i] == (if i < k then s.Contents[i] else if i == k then node else s.Contents[i - 1])
  {
  }

  /** Attaching keeps `Contents` and `Pos` inverse to each other. */
  lemma AttachedIndexed(s: Snap, node: int, parent: int, right: bool)
    requires Attachable(s, node, parent, right)
    ensures Indexed(Attached(s, node, parent, right))
  {
    var t, k := Attached(s, node, parent, right), AttachPos(s, parent, right);
    AttachedNumbers(s, node, parent, right, node);
    forall i | 0 <= i < |t.Contents|
      ensures 0 <= t.Contents[i] < |t.U| && t.Pos[t.Contents[i]] == i
    {
      AttachedContents(s, node, parent, right, i);
      if i != k {
        var y := if i < k then s.Contents[i] else s.Contents[i - 1];
        AttachedNumbers(s, node, parent, right, y);
      }
    }
    forall x | 0 <= x < |t.U|
      ensures -1 <= t.Pos[x] < |t.Contents| && (0 <= t.Pos[x] ==> t.Contents[t.Pos[x]] == x)
    {
      AttachedNumbers(s, node, parent, right, x);
      if 0 <= t.Pos[x] {
        AttachedContents(s, node, parent, right, t.Pos[x]);
      }
    }
  }

  /** An entry of a sequence with `v` inserted at `k`. */
  lemma InsertedIndex(c: seq<int>, k: int, v: int, i: int)
    requires 0 <= k <= |c| && 0 <= i <= |c|
    ensures |c[..k] + [v] + c[k..]| == |c| + 1
    ensures (c[..k] + [v] + c[k..])[i] == (if i < k then c[i] else if i == k then v else c[i - 1])
  {
  }

  /**
    In any arena whose in-order sequence is that of `s` with `node` inserted at
    `k`, a node whose P link is that of `s` with `node` threaded in before
    `Contents[k]` names its in-order predecessor.
  */
  lemma InsertedPrevAt(s: Snap, t: Snap, node: int, k: int, x: int)
    requires Indexed(s) && Threaded(s) && Indexed(t) && |t.U| == |s.U|
    requires 0 <= k <= |s.Contents| && 0 <= node < |s.U| && s.Pos[node] == -1
    requires t.Contents == s.Contents[..k] + [node] + s.Contents[k..]
    requires 0 <= x < |s.U| && InTree(t, x)
    requires t.Pos[x] == (if x == node then k else Bump(s.Pos[x], k))
    requires t.P[x] == (if x == node then (if k == 0 then Nil else s.Contents[k - 1])
                        else if k < |s.Contents| && x == s.Contents[k] then node else s.P[x])
    ensures t.P[x] == (if t.Pos[x] == 0 then Nil else t.Contents[t.Pos[x] - 1])
  {
    if x == node {
      if k > 0 {
        InsertedIndex(s.Contents, k, node, k - 1);
      }
    } else if k < |s.Contents| && x == s.Contents[k] {
      InsertedIndex(s.Contents, k, node, k);
    } else {
      assert ThreadedAt(s, x);
      var p := s.Pos[x];
      assert s.Contents[p] == x && p != k;
      if p > 0 {
        InsertedIndex(s.Contents, k, node, Bump(p, k) - 1);
      }
    }
  }

  /** The mirror image of `InsertedPrevAt` for the N link. */
  lemma InsertedNextAt(s: Snap, t: Snap, node: int, k: int, x: int)
    requires Indexed(s) && Threaded(s) && Indexed(t) && |t.U| == |s.U|
    requires 0 <= k <= |s.Contents| && 0 <= node < |s.U| && s.Pos[node] == -1
    requires t.Contents == s.Contents[..k] + [node] + s.Contents[k..]
    requires 0 <= x < |s.U| && InTree(t, x)
    requires t.Pos[x] == (if x == node then k else Bump(s.Pos[x], k))
    requires t.N[x] == (if x == node then (if k == |s.Contents| then Nil else s.Contents[k])
                        else if 0 < k && x == s.Contents[k - 1] then node else s.N[x])
    ensures t.N[x] == (if t.Pos[x] == |t.Contents| - 1 then Nil else t.Contents[t.Pos[x] + 1])
  {
    if x == node {
      if k < |s.Contents| {
        InsertedIndex(s.Contents, k, node, k + 1);
      }
    } else if 0 < k && x == s.Contents[k - 1] {
      InsertedIndex(s.Contents, k, node, k);
    } else {
      assert ThreadedAt(s, x);
      var p := s.Pos[x];
      assert s.Contents[p] == x && p != k - 1;
      if p < |s.Contents| - 1 {
        InsertedIndex(s.Contents, k, node, Bump(p, k) + 1);
      }
    }
  }

  /** Attaching keeps every node threaded between its in-order neighbours. */
  lemma AttachedThreaded(s: Snap, node: int, parent: int, right: bool)
    requires Attachable(s, node, parent, right) && Threaded(s)
    ensures Indexed(Attached(s, node, parent, right)) && Threaded(Attached(s, node, parent, right))
  {
    var t := Attached(s, node, parent, right);
    AttachedIndexed(s, node, parent, right);
    forall x | InTree(t, x)
      ensures ThreadedAt(t, x)
    {
      AttachedNumbers(s, node, parent, right, x);
      AttachedThreads(s, node, parent, right, x);
      InsertedPrevAt(s, t, node, AttachPos(s, parent, right), x);
      InsertedNextAt(s, t, node, AttachPos(s, parent, right), x);
    }
  }

  /** The attached node is a red leaf under `parent`, spanning just its own position. */
  lemma AttachedAtNode(s: Snap, node: int, parent: int, right: bool)
    requires Attachable(s, node, parent, right) && Indexed(Attached(s, node, parent, right))
    ensures var t := Attached(s, node, parent, right);
      && InTree(t, node) && NodeShaped(t, node) && NoRedRed(t, node) && Balanced(t, node)
  {
    AttachedLinks(s, node, parent, right, node);
    AttachedNumbers(s, node, parent, right, node);
    if parent != Nil {
      AttachedLinks(s, node, parent, right, parent);
      AttachedNumbers(s, node, parent, right, parent);
    }
  }

  /**
    Node `y` keeps its parent link in `t`, and its position and span are those
    of `s` bumped past `k`, `kl` and `kh` respectively.
  */
  ghost predicate ShiftedAt(s: Snap, t: Snap, y: int, k: int, kl: int, kh: int)
    requires Sized(s) && Sized(t) && |t.U| == |s.U| && 0 <= y < |s.U|
  {
    && t.U[y] == s.U[y] && t.Pos[y] == Bump(s.Pos[y], k)
    && t.Lo[y] == Bump(s.Lo[y], kl) && t.Hi[y] == Bump(s.Hi[y], kh)
  }

  /**
    A node whose children keep their links while every position from `k` on
    moves up by one stays shaped, provided the new position does not fall
    between it and one of its subtrees: spans are bumped past `k` on the left
    and past `k - 1` on the right when the new position follows the node's
    predecessor, or past `k + 1` and `k` when it precedes the node's successor.
  */
  lemma ShiftedShaped(s: Snap, t: Snap, x: int, k: int, kl: int, kh: int)
    requires Indexed(s) && Indexed(t) && |t.U| == |s.U| && |t.Contents| == |s.Contents| + 1
    requires InTree(s, x) && NodeShaped(s, x) && 0 <= k
    requires (kl == k && kh == k - 1 && s.Pos[x] != k - 1) || (kl == k + 1 && kh == k && s.Pos[x] != k)
    requires t.L[x] == s.L[x] && t.R[x] == s.R[x] && ShiftedAt(s, t, x, k, kl, kh)
    requires s.L[x] != Nil ==> ShiftedAt(s, t, s.L[x], k, kl, kh)
    requires s.R[x] != Nil ==> ShiftedAt(s, t, s.R[x], k, kl, kh)
    requires s.U[x] == Nil ==> t.root == x
    requires s.U[x] != Nil ==> t.Pos[s.U[x]] == Bump(s.Pos[s.U[x]], k) && (t.L[s.U[x]] == x || t.R[s.U[x]] == x)
    ensures InTree(t, x) && NodeShaped(t, x)
  {
  }

  /**
    Away from the new node and its parent, every tree node keeps its links;
    its position and span shift consistently with its neighbours'.
  */
  lemma AttachedOther(s: Snap, node: int, parent: int, right: bool, x: int)
    requires Attachable(s, node, parent, right) && Indexed(Attached(s, node, parent, right))
    requires InTree(s, x) && NodeShaped(s, x) && x != parent
    ensures var t := Attached(s, node, parent, right);
      InTree(t, x) && NodeShaped(t, x)
  {
    var t, k := Attached(s, node, parent, right), AttachPos(s, parent, right);
    var kl, kh := if right then k else k + 1, if right then k - 1 else k;
    var l, r, u := s.L[x], s.R[x], s.U[x];
    AttachedLinks(s, node, parent, right, x);
    AttachedNumbers(s, node, parent, right, x);
    assert parent != Nil;
    assert s.Contents[s.Pos[parent]] == parent && s.Contents[s.Pos[x]] == x;
    if l != Nil {
      AttachedLinks(s, node, parent, right, l);
      AttachedNumbers(s, node, parent, right, l);
    }
    if r != Nil {
      AttachedLinks(s, node, parent, right, r);
      AttachedNumbers(s, node, parent, right, r);
    }
    if u != Nil {
      AttachedLinks(s, node, parent, right, u);
      AttachedNumbers(s, node, parent, right, u);
    }
    ShiftedShaped(s, t, x, k, kl, kh);
  }

  /** Away from the new node and its parent, the colouring conditions are unchanged. */
  lemma AttachedOtherColours(s: Snap, node: int, parent: int, right: bool, x: int)
    requires Attachable(s, node, parent, right) && Indexed(Attached(s, node, parent, right))
    requires InTree(s, x) && NodeShaped(s, x) && x != parent
    requires InTree(Attached(s, node, parent, right), x) && NodeShaped(Attached(s, node, parent, right), x)
    ensures var t := Attached(s, node, parent, right);
      NoRedRed(t, x) == NoRedRed(s, x) && Balanced(t, x) == Balanced(s, x)
  {
    var l, r := s.L[x], s.R[x];
    AttachedLinks(s, node, parent, right, x);
    if l != Nil {
      AttachedLinks(s, node, parent, right, l);
    }
    if r != Nil {
      AttachedLinks(s, node, parent, right, r);
    }
  }

  /**
    The parent takes the new node as its child on the free side; its span
    grows by the new position, and its black height is unchanged since the new
    node is a red leaf.
  */
  lemma AttachedAtParent(s: Snap, node: int, parent: int, right: bool)
    requires Attachable(s, node, parent, right) && Indexed(Attached(s, node, parent, right))
    requires parent != Nil && NodeShaped(s, parent)
    ensures var t := Attached(s, node, parent, right);
      && InTree(t, parent) && NodeShaped(t, parent) && Balanced(t, parent) == Balanced(s, parent)
  {
    var l, r, u := s.L[parent], s.R[parent], s.U[parent];
    AttachedLinks(s, node, parent, right, parent);
    AttachedNumbers(s, node, parent, right, parent);
    AttachedLinks(s, node, parent, right, node);
    AttachedNumbers(s, node, parent, right, node);
    if l != Nil {
      AttachedLinks(s, node, parent, right, l);
      AttachedNumbers(s, node, parent, right, l);
    }
    if r != Nil {
      AttachedLinks(s, node, parent, right, r);
      AttachedNumbers(s, node, parent, right, r);
    }
    if u != Nil {
      AttachedLinks(s, node, parent, right, u);
      AttachedNumbers(s, node, parent, right, u);
    }
  }

  /** The root after attaching spans the whole, longer, in-order sequence. */
  lemma AttachedRoot(s: Snap, node: int, parent: int, right: bool)
    requires Attachable(s, node, parent, right) && Indexed(Attached(s, node, parent, right)) && Shaped(s)
    ensures var t := Attached(s, node, parent, right);
      && t.root != Nil && InTree(t, t.root) && t.U[t.root] == Nil
      && t.Lo[t.root] == 0 && t.Hi[t.root] == |t.Contents| - 1
      && (parent != Nil ==> t.root == s.root)
  {
    AttachedLinks(s, node, parent, right, node);
    AttachedNumbers(s, node, parent, right, node);
    if parent != Nil {
      AttachedLinks(s, node, parent, right, s.root);
      AttachedNumbers(s, node, parent, right, s.root);
    }
  }

  /**
    Attaching keeps the tree structured, with `node` at position `k` of the
    in-order sequence; every node but the parent keeps its colouring
    conditions.
  */
  lemma AttachedStructured(s: Snap, node: int, parent: int, right: bool)
    requires Attachable(s, node, parent, right) && Structured(s)
    ensures var t := Attached(s, node, parent, right);
      && Structured(t) && NoRedRed(t, node) && Balanced(t, node)
      && (forall x | InTree(s, x) && x != parent ::
            NodeShaped(s, x) && NoRedRed(t, x) == NoRedRed(s, x) && Balanced(t, x) == Balanced(s, x))
      && (parent != Nil ==> NodeShaped(s, parent) && Balanced(t, parent) == Balanced(s, parent))
  {
    var t := Attached(s, node, parent, right);
    AttachedThreaded(s, node, parent, right);
    AttachedAtNode(s, node, parent, right);
    AttachedRoot(s, node, parent, right);
    forall x | InTree(s, x) && x != parent
      ensures NodeShaped(s, x) && InTree(t, x) && NodeShaped(t, x)
      ensures NoRedRed(t, x) == NoRedRed(s, x) && Balanced(t, x) == Balanced(s, x)
    {
      assert NodeShaped(s, x);
      AttachedOther(s, node, parent, right, x);
      AttachedOtherColours(s, node, parent, right, x);
    }
    if parent != Nil {
      assert NodeShaped(s, parent);
      AttachedAtParent(s, node, parent, right);
    }
    forall x | InTree(t, x)
      ensures NodeShaped(t, x)
    {
      if x != node && x != parent {
        AttachedNumbers(s, node, parent, right, x);
      }
    }
  }

  /**
    Once `node` sits right after `after` in the in-order sequence (first when
    `after` is null), its P link is `after` and its N link is the node that
    used to follow `after` (that used to come first).
  */
  lemma InsertedNeighbours(s: Snap, t: Snap, after: int, node: int)
    requires Structured(s) && (after == Nil || InTree(s, after))
    requires Structured(t) && InTree(t, node)
    requires var k := if after == Nil then 0 else s.Pos[after] + 1;
      0 <= k <= |s.Contents| && t.Contents == s.Contents[..k] + [node] + s.Contents[k..]
    ensures t.P[node] == after
    ensures t.N[node] == if after != Nil then s.N[after] else if s.root == Nil then Nil else s.Contents[0]
  {
    var k := if after == Nil then 0 else s.Pos[after] + 1;
    assert t.Contents[k] == node;
    assert ThreadedAt(t, node);
    if after != Nil {
      assert ThreadedAt(s, after);
    }
  }
}
