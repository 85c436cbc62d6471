/**
  Value-level view of the red-black tree arena that carries both the beachline
  and the circle-event queue, and the invariants that tree keeps.

  Nodes are indices into an arena; `Nil` (-1) is the null reference. Every node
  has a parent link `U`, children `L`/`R`, in-order neighbours `P`/`N` and a
  colour `C` (true for red). The ghost bookkeeping records the in-order sequence
  of nodes (`Contents`), each node's index in it (`Pos`, -1 when the node is not
  in the tree), the interval of positions its subtree spans (`Lo`..`Hi`), and the
  number of black nodes below it on any path to a leaf (`Bh`).

  Every invariant is stated node by node, so that an operation that rewrites a
  handful of links is re-checked only where it wrote.
*/
module RedBlackSpec {

  /** The null node reference. */
  const Nil: int := -1

  /** A snapshot of the arena: real links and colours, then ghost bookkeeping. */
  datatype Snap = Snap(
    root: int,
    U: seq<int>, L: seq<int>, R: seq<int>, P: seq<int>, N: seq<int>, C: seq<bool>,
    Contents: seq<int>, Pos: seq<int>, Lo: seq<int>, Hi: seq<int>, Bh: seq<nat>)

  /** All per-node sequences cover the same arena. */
  ghost predicate Sized(s: Snap) {
    && |s.L| == |s.U| && |s.R| == |s.U| && |s.P| == |s.U| && |s.N| == |s.U| && |s.C| == |s.U|
    && |s.Pos| == |s.U| && |s.Lo| == |s.U| && |s.Hi| == |s.U| && |s.Bh| == |s.U|
  }

  /** Node `x` is currently linked into the tree. */
  ghost predicate InTree(s: Snap, x: int) {
    0 <= x < |s.Pos| && s.Pos[x] >= 0
  }

  /** `Contents` lists distinct arena nodes and `Pos` is its inverse. */
  ghost predicate Indexed(s: Snap) {
    && Sized(s)
    && (forall i | 0 <= i < |s.Contents| :: 0 <= s.Contents[i] < |s.U| && s.Pos[s.Contents[i]] == i)
    && (forall x | 0 <= x < |s.U| :: -1 <= s.Pos[x] < |s.Contents| && (0 <= s.Pos[x] ==> s.Contents[s.Pos[x]] == x))
  }

  /** The P/N links of tree node `x` name its in-order predecessor and successor. */
  ghost predicate ThreadedAt(s: Snap, x: int)
    requires Indexed(s) && InTree(s, x)
  {
    && s.P[x] == (if s.Pos[x] == 0 then Nil else s.Contents[s.Pos[x] - 1])
    && s.N[x] == (if s.Pos[x] == |s.Contents| - 1 then Nil else s.Contents[s.Pos[x] + 1])
  }

  /** Every tree node is threaded between its in-order neighbours. */
  ghost predicate Threaded(s: Snap)
    requires Indexed(s)
  {
    forall x {:trigger ThreadedAt(s, x)} | InTree(s, x) :: ThreadedAt(s, x)
  }

  /**
    The local shape condition at a tree node: its subtree spans positions
    Lo..Hi, the left subtree ends just before the node and the right subtree
    starts just after it, children point back with U, and U names a node that
    has `x` as a child (or `x` is the root).
  */
  ghost predicate NodeShaped(s: Snap, x: int)
    requires Indexed(s) && InTree(s, x)
  {
    var l, r, u := s.L[x], s.R[x], s.U[x];
    && 0 <= s.Lo[x] <= s.Pos[x] <= s.Hi[x] < |s.Contents|
    && (l == Nil ==> s.Lo[x] == s.Pos[x])
    && (l != Nil ==> InTree(s, l) && s.U[l] == x && s.Lo[x] == s.Lo[l] && s.Hi[l] + 1 == s.Pos[x])
    && (r == Nil ==> s.Hi[x] == s.Pos[x])
    && (r != Nil ==> InTree(s, r) && s.U[r] == x && s.Hi[x] == s.Hi[r] && s.Lo[r] == s.Pos[x] + 1)
    && (u == Nil ==> x == s.root)
    && (u != Nil ==> InTree(s, u) && (s.L[u] == x || s.R[u] == x))
  }

  /** The tree is a binary tree over exactly `Contents`, rooted at `root`. */
  ghost predicate Shaped(s: Snap)
    requires Indexed(s)
  {
    && (s.root == Nil <==> |s.Contents| == 0)
    && (s.root != Nil ==>
          InTree(s, s.root) && s.U[s.root] == Nil && s.Lo[s.root] == 0 && s.Hi[s.root] == |s.Contents| - 1)
    && (forall x {:trigger NodeShaped(s, x)} | InTree(s, x) :: NodeShaped(s, x))
  }

  /** Links, threading and shape: everything but the colouring. */
  ghost predicate Structured(s: Snap) {
    Indexed(s) && Threaded(s) && Shaped(s)
  }

  /** Number of black nodes on a path from `c` down to a leaf, counting `c` itself. */
  ghost function BhOf(s: Snap, c: int): nat
    requires Sized(s) && (c == Nil || 0 <= c < |s.U|)
  {
    if c == Nil then 0 else s.Bh[c] + (if s.C[c] then 0 else 1)
  }

  /** The child of `p` other than `x`. */
  ghost function Sibling(s: Snap, p: int, x: int): int
    requires Sized(s) && 0 <= p < |s.U|
  {
    if s.L[p] == x then s.R[p] else s.L[p]
  }

  /** A red node has no red child. */
  ghost predicate NoRedRed(s: Snap, x: int)
    requires Indexed(s) && InTree(s, x) && NodeShaped(s, x)
  {
    s.C[x] ==> (s.L[x] == Nil || !s.C[s.L[x]]) && (s.R[x] == Nil || !s.C[s.R[x]])
  }

  /** Both subtrees of `x` have the black height recorded for `x`. */
  ghost predicate Balanced(s: Snap, x: int)
    requires Indexed(s) && InTree(s, x) && NodeShaped(s, x)
  {
    BhOf(s, s.L[x]) == s.Bh[x] && BhOf(s, s.R[x]) == s.Bh[x]
  }

  /** The red-black colouring rules: black root, no red-red edge, equal black height. */
  ghost predicate RedBlack(s: Snap)
    requires Indexed(s) && Shaped(s)
  {
    && (s.root == Nil || !s.C[s.root])
    && (forall x {:trigger NoRedRed(s, x)} | InTree(s, x) :: NoRedRed(s, x))
    && (forall x {:trigger Balanced(s, x)} | InTree(s, x) :: Balanced(s, x))
  }

  /** A valid tree: structured and coloured by the red-black rules. */
  ghost predicate Valid(s: Snap) {
    Structured(s) && RedBlack(s)
  }

  /** Number of nodes in the subtree of `x`. */
  ghost function Size(s: Snap, x: int): nat
    requires Indexed(s) && Shaped(s) && (x == Nil || InTree(s, x))
  {
    if x == Nil then 0 else assert NodeShaped(s, x); s.Hi[x] - s.Lo[x] + 1
  }

  /** The in-order traversal of the subtree rooted at `x`, following L and R. */
  ghost function InOrder(s: Snap, x: int): seq<int>
    requires Indexed(s) && Shaped(s) && (x == Nil || InTree(s, x))
    decreases Size(s, x)
  {
    if x == Nil then []
    else
      assert NodeShaped(s, x);
      InOrder(s, s.L[x]) + [x] + InOrder(s, s.R[x])
  }

  /** The in-order traversal of a subtree is the slice Lo..Hi of `Contents`. */
  lemma {:induction false} InOrderSpans(s: Snap, x: int)
    requires Indexed(s) && Shaped(s) && InTree(s, x)
    ensures NodeShaped(s, x) && InOrder(s, x) == s.Contents[s.Lo[x]..s.Hi[x] + 1]
    decreases Size(s, x)
  {
    assert NodeShaped(s, x);
    var c, lo, pos, hi := s.Contents, s.Lo[x], s.Pos[x], s.Hi[x];
    var l, r := s.L[x], s.R[x];
    var left, right := InOrder(s, l), InOrder(s, r);
    assert InOrder(s, x) == left + [x] + right;
    assert left == c[lo..pos] by {
      if l != Nil {
        InOrderSpans(s, l);
      }
    }
    assert right == c[pos + 1..hi + 1] by {
      if r != Nil {
        InOrderSpans(s, r);
      }
    }
    SliceAround(c, lo, pos, hi + 1, left, x, right);
  }

  /** Gluing the slices on either side of an element back together. */
  lemma SliceAround<T>(c: seq<T>, lo: int, pos: int, hi: int, a: seq<T>, x: T, b: seq<T>)
    requires 0 <= lo <= pos < hi <= |c| && c[pos] == x
    requires a == c[lo..pos] && b == c[pos + 1..hi]
    ensures a + [x] + b == c[lo..hi]
  {
  }

  /** The whole tree, read in order through L and R, is exactly `Contents`. */
  lemma InOrderIsContents(s: Snap)
    requires Indexed(s) && Shaped(s)
    ensures InOrder(s, s.root) == s.Contents
  {
    if s.root != Nil {
      InOrderSpans(s, s.root);
    }
  }

  /** `x` is the null reference or a node of the arena. */
  ghost predicate Ref(s: Snap, x: int) {
    x == Nil || 0 <= x < |s.U|
  }

  /**
    Node `x` reads the same links, span, colour and black height in `t` as in
    `s`, and so do the children it points to; its parent still has it as a child.
    These are all the values the local invariants at `x` depend on.
  */
  ghost predicate Agree(s: Snap, t: Snap, x: int)
    requires Sized(s) && Sized(t) && |s.U| <= |t.U| && 0 <= x < |s.U|
    requires Ref(s, s.L[x]) && Ref(s, s.R[x]) && Ref(s, s.U[x])
  {
    var l, r, u := s.L[x], s.R[x], s.U[x];
    && t.L[x] == l && t.R[x] == r && t.U[x] == u && t.Pos[x] == s.Pos[x]
    && t.Lo[x] == s.Lo[x] && t.Hi[x] == s.Hi[x] && t.C[x] == s.C[x] && t.Bh[x] == s.Bh[x]
    && (l != Nil ==>
          t.U[l] == s.U[l] && t.Pos[l] == s.Pos[l] && t.Lo[l] == s.Lo[l] && t.Hi[l] == s.Hi[l]
          && t.C[l] == s.C[l] && t.Bh[l] == s.Bh[l])
    && (r != Nil ==>
          t.U[r] == s.U[r] && t.Pos[r] == s.Pos[r] && t.Lo[r] == s.Lo[r] && t.Hi[r] == s.Hi[r]
          && t.C[r] == s.C[r] && t.Bh[r] == s.Bh[r])
    && (u == Nil ==> x == t.root)
    && (u != Nil ==> t.Pos[u] == s.Pos[u] && (t.L[u] == x || t.R[u] == x))
  }

  /** The local invariants at a node carry over to a snapshot that agrees with it there. */
  lemma AgreeTransfer(s: Snap, t: Snap, x: int)
    requires Indexed(s) && Indexed(t) && t.Contents == s.Contents && |s.U| <= |t.U|
    requires InTree(s, x) && NodeShaped(s, x)
    requires Agree(s, t, x)
    ensures NodeShaped(t, x)
    ensures NoRedRed(t, x) == NoRedRed(s, x) && Balanced(t, x) == Balanced(s, x)
  {
  }

  /** The arena grown by one detached node with null links, black, at position -1. */
  ghost function Grown(s: Snap): Snap {
    s.(U := s.U + [Nil], L := s.L + [Nil], R := s.R + [Nil], P := s.P + [Nil], N := s.N + [Nil],
       C := s.C + [false], Pos := s.Pos + [-1], Lo := s.Lo + [0], Hi := s.Hi + [0], Bh := s.Bh + [0])
  }

  /** A snapshot built field by field as `Grown` builds it is `Grown`. */
  lemma GrownIs(s: Snap, t: Snap)
    requires t.root == s.root && t.Contents == s.Contents
    requires t.U == s.U + [Nil] && t.L == s.L + [Nil] && t.R == s.R + [Nil] && t.P == s.P + [Nil] && t.N == s.N + [Nil]
    requires t.C == s.C + [false] && t.Pos == s.Pos + [-1] && t.Lo == s.Lo + [0] && t.Hi == s.Hi + [0] && t.Bh == s.Bh + [0]
    ensures t == Grown(s)
  {
  }

  /** Every cell of the grown arena. */
  lemma GrownCells(s: Snap, y: int)
    requires Sized(s) && 0 <= y <= |s.U|
    ensures var t, n := Grown(s), |s.U|;
      && Sized(t) && |t.U| == n + 1 && t.root == s.root && t.Contents == s.Contents
      && (y < n ==>
            t.U[y] == s.U[y] && t.L[y] == s.L[y] && t.R[y] == s.R[y] && t.P[y] == s.P[y] && t.N[y] == s.N[y]
            && t.C[y] == s.C[y] && t.Pos[y] == s.Pos[y] && t.Lo[y] == s.Lo[y] && t.Hi[y] == s.Hi[y] && t.Bh[y] == s.Bh[y])
      && (y == n ==>
            t.U[y] == Nil && t.L[y] == Nil && t.R[y] == Nil && t.P[y] == Nil && t.N[y] == Nil
            && !t.C[y] && t.Pos[y] == -1)
  {
  }

  /** Growing keeps `Contents` and `Pos` inverse to each other, and the threading. */
  lemma GrownIndexed(s: Snap)
    requires Indexed(s)
    ensures Indexed(Grown(s)) && (Threaded(s) ==> Threaded(Grown(s)))
  {
    var t := Grown(s);
    forall y | 0 <= y <= |s.U| ensures t.Pos[y] == (if y < |s.U| then s.Pos[y] else -1) {
      GrownCells(s, y);
    }
    if Threaded(s) {
      forall x | InTree(t, x)
        ensures ThreadedAt(t, x)
      {
        GrownCells(s, x);
        assert ThreadedAt(s, x);
      }
    }
  }

  /** A tree node reads the same values after growing. */
  lemma GrownNode(s: Snap, x: int)
    requires Indexed(s) && InTree(s, x) && NodeShaped(s, x)
    ensures Agree(s, Grown(s), x)
  {
    GrownCells(s, x);
    if s.L[x] != Nil { GrownCells(s, s.L[x]); }
    if s.R[x] != Nil { GrownCells(s, s.R[x]); }
    if s.U[x] != Nil { GrownCells(s, s.U[x]); }
  }

  /** Growing the arena by one detached node keeps a valid tree valid. */
  lemma GrownValid(s: Snap)
    requires Valid(s)
    ensures Valid(Grown(s))
  {
    var t := Grown(s);
    GrownIndexed(s);
    forall x | InTree(t, x)
      ensures NodeShaped(t, x) && NoRedRed(t, x) && Balanced(t, x)
    {
      GrownCells(s, x);
      assert NodeShaped(s, x) && NoRedRed(s, x) && Balanced(s, x);
      GrownNode(s, x);
      AgreeTransfer(s, t, x);
    }
    if s.root != Nil {
      GrownCells(s, s.root);
    }
  }

  /** The arena with the detached `node`'s links nulled and its colour black. */
  ghost function Cleared(s: Snap, node: int): Snap
    requires Sized(s) && 0 <= node < |s.U|
  {
    s.(U := s.U[node := Nil], L := s.L[node := Nil], R := s.R[node := Nil],
       P := s.P[node := Nil], N := s.N[node := Nil], C := s.C[node := false])
  }

  /** Resetting a node that is not in the tree keeps the tree valid: no tree node links to it. */
  lemma ClearedValid(s: Snap, node: int)
    requires Valid(s) && 0 <= node < |s.U| && s.Pos[node] == -1
    ensures Valid(Cleared(s, node))
  {
    var t := Cleared(s, node);
    assert Indexed(t);
    forall x | InTree(t, x)
      ensures ThreadedAt(t, x) && NodeShaped(t, x) && NoRedRed(t, x) && Balanced(t, x)
    {
      ClearedAt(s, node, x);
    }
  }

  /** A tree node reads the same after resetting a node outside the tree. */
  lemma ClearedAt(s: Snap, node: int, x: int)
    requires Valid(s) && 0 <= node < |s.U| && s.Pos[node] == -1 && InTree(s, x)
    ensures Indexed(Cleared(s, node))
    ensures ThreadedAt(Cleared(s, node), x) && NodeShaped(Cleared(s, node), x)
    ensures NoRedRed(Cleared(s, node), x) && Balanced(Cleared(s, node), x)
  {
    var t := Cleared(s, node);
    assert ThreadedAt(s, x) && NodeShaped(s, x) && NoRedRed(s, x) && Balanced(s, x);
    assert Agree(s, t, x);
    AgreeTransfer(s, t, x);
  }

  /** Node `x` has the same children, colours and black heights around it in `s` and `t`. */
  ghost predicate SameColours(s: Snap, t: Snap, x: int)
    requires Sized(s) && Sized(t) && |t.U| == |s.U| && 0 <= x < |s.U|
    requires Ref(s, s.L[x]) && Ref(s, s.R[x])
  {
    && t.L[x] == s.L[x] && t.R[x] == s.R[x] && t.C[x] == s.C[x] && t.Bh[x] == s.Bh[x]
    && (s.L[x] != Nil ==> t.C[s.L[x]] == s.C[s.L[x]] && t.Bh[s.L[x]] == s.Bh[s.L[x]])
    && (s.R[x] != Nil ==> t.C[s.R[x]] == s.C[s.R[x]] && t.Bh[s.R[x]] == s.Bh[s.R[x]])
  }

  /** The colouring conditions at a node depend only on its children, colours and black heights. */
  lemma SameColoursTransfer(s: Snap, t: Snap, x: int)
    requires Indexed(s) && Indexed(t) && |t.U| == |s.U|
    requires InTree(s, x) && NodeShaped(s, x) && InTree(t, x) && NodeShaped(t, x)
    requires SameColours(s, t, x)
    ensures NoRedRed(t, x) == NoRedRed(s, x) && Balanced(t, x) == Balanced(s, x)
  {
  }

  /** Changing only colours and black heights keeps the tree structured. */
  lemma RepaintedStructured(s: Snap, c: seq<bool>, bh: seq<nat>)
    requires Structured(s) && |c| == |s.U| && |bh| == |s.U|
    ensures Structured(s.(C := c, Bh := bh))
  {
    var t := s.(C := c, Bh := bh);
    forall x | InTree(t, x)
      ensures ThreadedAt(t, x) && NodeShaped(t, x)
    {
      assert ThreadedAt(s, x) && NodeShaped(s, x);
    }
  }
}
