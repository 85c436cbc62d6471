/**
  What unlinking a node does to the colouring: the tree it leaves is
  structured, lists the remaining nodes in order, and satisfies the remove
  fix-up's invariant `Loose` at the place `x` under `xp` that lost a node,
  short by one black exactly when the node that left that place was black.
*/
module RedBlackUnlinkColour {
  import opened RedBlackSpec
  import opened RedBlackUnlink
  import opened RedBlackLoose

  /** The place that lost a node after unlinking: `x` under `xp`, and whether the node that left it was red. */
  datatype Hole = Hole(x: int, xp: int, red: bool)

  /** The tree with `node` unlinked: spliced out when it has a null child, else succeeded by the next node. */
  ghost function Unlinked(s: Snap, node: int): Snap
    requires Structured(s) && InTree(s, node)
  {
    if s.L[node] == Nil || s.R[node] == Nil then Spliced(s, node)
    else SucceedableOf(s, node); Succeeded(s, node)
  }

  /** Where `Unlinked` leaves a node missing. */
  ghost function HoleOf(s: Snap, node: int): Hole
    requires Structured(s) && InTree(s, node)
  {
    if s.L[node] == Nil || s.R[node] == Nil then
      Hole(if s.L[node] == Nil then s.R[node] else s.L[node], s.U[node], s.C[node])
    else
      SucceedableOf(s, node);
      var next := s.Contents[s.Pos[node] + 1];
      Hole(s.R[next], if next == s.R[node] then next else s.U[next], s.C[next])
  }

  /** Away from the spliced node's parent every node keeps its children, colours and black heights. */
  lemma SplicedSameColours(s: Snap, t: Snap, node: int, y: int)
    requires SplicedFrom(s, t, node) && Shaped(s) && Structured(t) && InTree(t, y) && y != s.U[node]
    ensures InTree(s, y) && NodeShaped(s, y) && NodeShaped(t, y)
    ensures NoRedRed(t, y) == NoRedRed(s, y) && Balanced(t, y) == Balanced(s, y)
  {
    assert SplicedCell(s, t, node, y);
    assert NodeShaped(s, y) && NodeShaped(t, y);
    assert SameColours(s, t, y);
    SameColoursTransfer(s, t, y);
  }

  /**
    A balanced parent `u` that held `node`, with a null child, and now holds
    `node`'s other child `x` in its place: the black height through `x` is
    short by one exactly when `node` was black.
  */
  lemma ReplacedHeights(s: Snap, t: Snap, u: int, node: int, x: int)
    requires Sized(s) && Sized(t) && |t.U| == |s.U| && t.C == s.C && t.Bh == s.Bh
    requires 0 <= u < |s.U| && 0 <= node < |s.U| && node != u
    requires Ref(s, s.L[u]) && Ref(s, s.R[u]) && Ref(s, s.L[node]) && Ref(s, s.R[node])
    requires s.L[node] == Nil || s.R[node] == Nil
    requires x == (if s.L[node] == Nil then s.R[node] else s.L[node])
    requires BhOf(s, s.L[node]) == s.Bh[node] && BhOf(s, s.R[node]) == s.Bh[node]
    requires s.L[u] == node || s.R[u] == node
    requires BhOf(s, s.L[u]) == s.Bh[u] && BhOf(s, s.R[u]) == s.Bh[u]
    requires s.C[u] ==> (s.L[u] == Nil || !s.C[s.L[u]]) && (s.R[u] == Nil || !s.C[s.R[u]])
    requires t.L[u] == (if s.L[u] == node then x else s.L[u])
    requires t.R[u] == (if s.L[u] != node then x else s.R[u])
    ensures BhOf(t, x) + (if s.C[node] then 0 else 1) == t.Bh[u]
    ensures BhOf(t, Sibling(t, u, x)) == t.Bh[u]
    ensures t.C[u] ==> Sibling(t, u, x) == Nil || !t.C[Sibling(t, u, x)]
  {
  }

  /** After splicing, the place of the spliced node is short exactly when that node was black. */
  lemma SplicedHole(s: Snap, t: Snap, node: int)
    requires Valid(s) && SplicedFrom(s, t, node) && Structured(t) && s.U[node] != Nil
    ensures var x, u := if s.L[node] == Nil then s.R[node] else s.L[node], s.U[node];
      && InTree(t, u) && NodeShaped(t, u) && (t.L[u] == x || t.R[u] == x)
      && BhOf(t, x) + (if s.C[node] then 0 else 1) == t.Bh[u]
      && BhOf(t, Sibling(t, u, x)) == t.Bh[u]
      && (t.C[u] ==> Sibling(t, u, x) == Nil || !t.C[Sibling(t, u, x)])
  {
    var x, u := if s.L[node] == Nil then s.R[node] else s.L[node], s.U[node];
    assert NodeShaped(s, node) && Balanced(s, node);
    assert NodeShaped(s, u) && Balanced(s, u) && NoRedRed(s, u);
    assert SplicedCell(s, t, node, u);
    ReplacedHeights(s, t, u, node, x);
  }

  /** Splicing out a node of a valid tree leaves the fix-up's invariant at its place. */
  lemma SplicedLoose(s: Snap, node: int)
    requires Valid(s) && Spliceable(s, node)
    ensures var x := if s.L[node] == Nil then s.R[node] else s.L[node];
      && Loose(Spliced(s, node), x, s.U[node], !s.C[node])
      && (s.C[node] ==> x == Nil || !s.C[x])
  {
    var t := Spliced(s, node);
    var x, u := if s.L[node] == Nil then s.R[node] else s.L[node], s.U[node];
    SplicedIs(s, node);
    SplicedStructured(s, t, node);
    assert NodeShaped(s, node) && NoRedRed(s, node);
    assert SplicedCell(s, t, node, node);
    if x != Nil {
      assert SplicedCell(s, t, node, x);
    }
    if u != Nil {
      SplicedHole(s, t, node);
      assert SplicedCell(s, t, node, s.root);
    } else {
      assert s.root == node;
    }
    forall y | InTree(t, y) && y != u
      ensures Balanced(t, y) && (y != x ==> NoRedRed(t, y))
    {
      SplicedSameColours(s, t, node, y);
    }
  }

  /**
    The colouring conditions at `b` in `t` are those at `a` in `s` when `b`
    has `a`'s children, colour and black height, and the children theirs.
  */
  lemma MovedColours(s: Snap, t: Snap, a: int, b: int)
    requires Indexed(s) && Indexed(t) && |t.U| == |s.U|
    requires InTree(s, a) && NodeShaped(s, a) && InTree(t, b) && NodeShaped(t, b)
    requires t.L[b] == s.L[a] && t.R[b] == s.R[a] && b != s.L[a] && b != s.R[a]
    requires t.C == s.C[b := s.C[a]] && t.Bh == s.Bh[b := s.Bh[a]]
    ensures NoRedRed(t, b) == NoRedRed(s, a) && Balanced(t, b) == Balanced(s, a)
  {
  }

  /**
    The colouring conditions at `u` are kept when its child `a` is replaced by
    `b` with `a`'s colour and black height, everything else at `u` unchanged.
  */
  lemma RelinkedColours(s: Snap, t: Snap, u: int, a: int, b: int)
    requires Indexed(s) && Indexed(t) && |t.U| == |s.U|
    requires InTree(s, u) && NodeShaped(s, u) && InTree(t, u) && NodeShaped(t, u)
    requires (s.L[u] == a || s.R[u] == a) && a != Nil && 0 <= b < |s.U|
    requires t.L[u] == (if s.L[u] == a then b else s.L[u]) && t.R[u] == (if s.L[u] == a then s.R[u] else b)
    requires t.C == s.C[b := s.C[a]] && t.Bh == s.Bh[b := s.Bh[a]] && b != u && b != Sibling(s, u, a)
    ensures NoRedRed(t, u) == NoRedRed(s, u) && Balanced(t, u) == Balanced(s, u)
  {
  }

  /**
    When the successor was deeper than the removed node's right child, its
    right subtree `x` under its old parent `xp` is short by one exactly when
    the successor was black.
  */
  lemma DeepHoleHeights(s: Snap, t: Snap, next: int, xp: int, x: int, c: int)
    requires Sized(s) && Sized(t) && |t.U| == |s.U|
    requires 0 <= next < |s.U| && 0 <= xp < |s.U| && next != xp && Ref(s, x) && x != next
    requires Ref(s, s.R[xp]) && s.R[xp] != next
    requires s.L[xp] == next && s.L[next] == Nil && s.R[next] == x
    requires BhOf(s, Nil) == s.Bh[next] && BhOf(s, x) == s.Bh[next]
    requires BhOf(s, next) == s.Bh[xp] && BhOf(s, s.R[xp]) == s.Bh[xp]
    requires s.C[xp] ==> s.R[xp] == Nil || !s.C[s.R[xp]]
    requires t.L[xp] == x && t.R[xp] == s.R[xp]
    requires 0 <= c < |s.U| && t.C == s.C[next := s.C[c]] && t.Bh == s.Bh[next := s.Bh[c]]
    ensures BhOf(t, x) + (if s.C[next] then 0 else 1) == t.Bh[xp]
    ensures BhOf(t, Sibling(t, xp, x)) == t.Bh[xp]
    ensures t.C[xp] ==> Sibling(t, xp, x) == Nil || !t.C[Sibling(t, xp, x)]
  {
  }

  /**
    When the successor was the removed node's right child, its right subtree
    `x`, now under the successor in the removed node's place, is short by one
    exactly when the successor was black.
  */
  lemma NearHoleHeights(s: Snap, t: Snap, node: int, next: int, x: int)
    requires Sized(s) && Sized(t) && |t.U| == |s.U|
    requires 0 <= node < |s.U| && 0 <= next < |s.U| && Ref(s, x) && x != next
    requires 0 <= s.L[node] < |s.U| && s.L[node] != x && s.L[node] != next
    requires s.R[node] == next && s.L[next] == Nil && s.R[next] == x
    requires BhOf(s, Nil) == s.Bh[next] && BhOf(s, x) == s.Bh[next]
    requires BhOf(s, s.L[node]) == s.Bh[node] && BhOf(s, next) == s.Bh[node]
    requires s.C[node] ==> !s.C[s.L[node]]
    requires t.L[next] == s.L[node] && t.R[next] == x && t.C == s.C[next := s.C[node]] && t.Bh == s.Bh[next := s.Bh[node]]
    ensures BhOf(t, x) + (if s.C[next] then 0 else 1) == t.Bh[next]
    ensures BhOf(t, Sibling(t, next, x)) == t.Bh[next]
    ensures t.C[next] ==> Sibling(t, next, x) == Nil || !t.C[Sibling(t, next, x)]
  {
  }

  /** Away from the successor, its old parent and the removed node's parent, every node keeps its colouring conditions. */
  lemma SucceededSameColours(s: Snap, t: Snap, node: int, y: int)
    requires SucceededFrom(s, t, node) && Shaped(s) && Structured(t) && InTree(t, y) && y != s.U[node]
    requires var next := s.Contents[s.Pos[node] + 1];
      y != next && y != (if next == s.R[node] then next else s.U[next])
    ensures InTree(s, y) && NodeShaped(s, y) && NodeShaped(t, y)
    ensures NoRedRed(t, y) == NoRedRed(s, y) && Balanced(t, y) == Balanced(s, y)
  {
    SucceededAt(s, t, node, y);
    assert NodeShaped(s, y);
    assert SameColours(s, t, y);
    SameColoursTransfer(s, t, y);
  }

  /** The successor, when it was deeper than the removed node's right child, has the removed node's colouring conditions. */
  lemma SucceededHeirColours(s: Snap, t: Snap, node: int)
    requires SucceededFrom(s, t, node) && Shaped(s) && Structured(t)
    requires s.Contents[s.Pos[node] + 1] != s.R[node]
    ensures var next := s.Contents[s.Pos[node] + 1];
      && InTree(t, next) && NodeShaped(t, next)
      && NoRedRed(t, next) == NoRedRed(s, node) && Balanced(t, next) == Balanced(s, node)
  {
    var next := s.Contents[s.Pos[node] + 1];
    SucceededAt(s, t, node, next);
    MovedColours(s, t, node, next);
  }

  /** The removed node's parent keeps its colouring conditions with the successor in the removed node's place. */
  lemma SucceededParentColours(s: Snap, t: Snap, node: int)
    requires SucceededFrom(s, t, node) && Shaped(s) && Structured(t) && s.U[node] != Nil
    ensures var u := s.U[node];
      && InTree(s, u) && NodeShaped(s, u) && InTree(t, u) && NodeShaped(t, u)
      && NoRedRed(t, u) == NoRedRed(s, u) && Balanced(t, u) == Balanced(s, u)
  {
    var u, next := s.U[node], s.Contents[s.Pos[node] + 1];
    assert NodeShaped(s, u);
    SucceededAt(s, t, node, u);
    RelinkedColours(s, t, u, node, next);
  }

  /** After succeeding, the successor's old place is short exactly when the successor was black. */
  lemma SucceededHole(s: Snap, t: Snap, node: int)
    requires Valid(s) && SucceededFrom(s, t, node) && Structured(t)
    ensures var next := s.Contents[s.Pos[node] + 1];
      var xp, x := if next == s.R[node] then next else s.U[next], s.R[next];
      && InTree(t, xp) && NodeShaped(t, xp) && (t.L[xp] == x || t.R[xp] == x)
      && BhOf(t, x) + (if s.C[next] then 0 else 1) == t.Bh[xp]
      && BhOf(t, Sibling(t, xp, x)) == t.Bh[xp]
      && (t.C[xp] ==> Sibling(t, xp, x) == Nil || !t.C[Sibling(t, xp, x)])
  {
    if s.Contents[s.Pos[node] + 1] == s.R[node] {
      SucceededNearHole(s, t, node);
    } else {
      SucceededDeepHole(s, t, node);
    }
  }

  /** The hole when the successor is the removed node's right child: it sits under the successor. */
  lemma SucceededNearHole(s: Snap, t: Snap, node: int)
    requires Valid(s) && SucceededFrom(s, t, node) && Structured(t)
    requires s.Contents[s.Pos[node] + 1] == s.R[node]
    ensures var next := s.R[node];
      var x := s.R[next];
      && InTree(t, next) && NodeShaped(t, next) && (t.L[next] == x || t.R[next] == x)
      && BhOf(t, x) + (if s.C[next] then 0 else 1) == t.Bh[next]
      && BhOf(t, Sibling(t, next, x)) == t.Bh[next]
      && (t.C[next] ==> Sibling(t, next, x) == Nil || !t.C[Sibling(t, next, x)])
  {
    var next := s.R[node];
    assert Balanced(s, next);
    SucceededAt(s, t, node, next);
    assert NodeShaped(s, node) && Balanced(s, node) && NoRedRed(s, node);
    NearHoleHeights(s, t, node, next, s.R[next]);
  }

  /** The hole when the successor lies deeper: it sits under the successor's old parent. */
  lemma SucceededDeepHole(s: Snap, t: Snap, node: int)
    requires Valid(s) && SucceededFrom(s, t, node) && Structured(t)
    requires s.Contents[s.Pos[node] + 1] != s.R[node]
    ensures var next := s.Contents[s.Pos[node] + 1];
      var xp, x := s.U[next], s.R[next];
      && InTree(t, xp) && NodeShaped(t, xp) && (t.L[xp] == x || t.R[xp] == x)
      && BhOf(t, x) + (if s.C[next] then 0 else 1) == t.Bh[xp]
      && BhOf(t, Sibling(t, xp, x)) == t.Bh[xp]
      && (t.C[xp] ==> Sibling(t, xp, x) == Nil || !t.C[Sibling(t, xp, x)])
  {
    var next := s.Contents[s.Pos[node] + 1];
    var xp, x := s.U[next], s.R[next];
    assert Balanced(s, next);
    SucceededAt(s, t, node, next);
    assert NodeShaped(s, xp) && Balanced(s, xp) && NoRedRed(s, xp);
    SucceededAt(s, t, node, xp);
    DeepHoleHeights(s, t, next, xp, x, node);
  }

  /** Succeeding a node of a valid tree leaves the fix-up's invariant at the successor's old place. */
  lemma SucceededLoose(s: Snap, node: int)
    requires Valid(s) && Succeedable(s, node)
    ensures var next := s.Contents[s.Pos[node] + 1];
      var xp, x := if next == s.R[node] then next else s.U[next], s.R[next];
      && Loose(Succeeded(s, node), x, xp, !s.C[next])
      && (s.C[next] ==> x == Nil || !s.C[x])
  {
    var t := Succeeded(s, node);
    var u, next := s.U[node], s.Contents[s.Pos[node] + 1];
    var xp, x := if next == s.R[node] then next else s.U[next], s.R[next];
    SucceededIs(s, node);
    SucceededStructured(s, t, node);
    SucceededHole(s, t, node);
    assert NoRedRed(s, next);
    if x != Nil {
      SucceededAt(s, t, node, x);
      assert NodeShaped(s, x);
    }
    if u == Nil {
      assert s.root == node;
    } else {
      SucceededAt(s, t, node, s.root);
      assert s.root != next;
    }
    SucceededColours(s, t, node);
  }

  /** Every node but the hole's parent keeps the colouring rules after succeeding a node. */
  lemma SucceededColours(s: Snap, t: Snap, node: int)
    requires Valid(s) && SucceededFrom(s, t, node) && Structured(t)
    ensures var next := s.Contents[s.Pos[node] + 1];
      var xp := if next == s.R[node] then next else s.U[next];
      forall y | InTree(t, y) && y != xp :: Balanced(t, y) && NoRedRed(t, y)
  {
    var u, next := s.U[node], s.Contents[s.Pos[node] + 1];
    var xp := if next == s.R[node] then next else s.U[next];
    forall y | InTree(t, y) && y != xp
      ensures Balanced(t, y) && NoRedRed(t, y)
    {
      if y == u {
        SucceededParentColours(s, t, node);
      } else if y == next {
        SucceededHeirColours(s, t, node);
      } else {
        SucceededSameColours(s, t, node, y);
      }
    }
  }

  /**
    Unlinking a node of a valid tree leaves a structured tree listing the
    other nodes in order, with the node out of the threading, and the
    fix-up's invariant at the hole: short by one black exactly when the node
    that left the hole's place was black, and with no red node at a hole left
    by a red one.
  */
  lemma UnlinkedLoose(s: Snap, node: int)
    requires Valid(s) && InTree(s, node)
    ensures var t, h, k := Unlinked(s, node), HoleOf(s, node), s.Pos[node];
      && Loose(t, h.x, h.xp, !h.red) && (h.red ==> h.x == Nil || !t.C[h.x])
      && t.Contents == s.Contents[..k] + s.Contents[k + 1..] && |t.U| == |s.U|
      && t.Pos[node] == -1 && t.P[node] == Nil && t.N[node] == Nil
  {
    assert NodeShaped(s, node) && ThreadedAt(s, node);
    var t, h := Unlinked(s, node), HoleOf(s, node);
    if s.L[node] == Nil || s.R[node] == Nil {
      assert t == Spliced(s, node) && h == Hole(if s.L[node] == Nil then s.R[node] else s.L[node], s.U[node], s.C[node]);
      SplicedIs(s, node);
      SplicedLoose(s, node);
      UnthreadedAt(s, node, node);
    } else {
      SucceedableOf(s, node);
      var next := s.Contents[s.Pos[node] + 1];
      assert t == Succeeded(s, node) && h == Hole(s.R[next], if next == s.R[node] then next else s.U[next], s.C[next]);
      SucceededIs(s, node);
      SucceededLoose(s, node);
      UnthreadedAt(s, node, node);
    }
  }

  /** Unlinking makes the node's old neighbours in the threading adjacent. */
  lemma UnlinkedNeighbours(s: Snap, node: int)
    requires Valid(s) && InTree(s, node)
    ensures var t := Unlinked(s, node);
      && (s.P[node] != Nil ==> 0 <= s.P[node] < |t.N| && t.N[s.P[node]] == s.N[node])
      && (s.N[node] != Nil ==> 0 <= s.N[node] < |t.P| && t.P[s.N[node]] == s.P[node])
  {
    assert ThreadedAt(s, node);
    if s.L[node] == Nil || s.R[node] == Nil {
      SplicedIs(s, node);
    } else {
      SucceedableOf(s, node);
      SucceededIs(s, node);
    }
    if s.P[node] != Nil {
      UnthreadedAt(s, node, s.P[node]);
    }
    if s.N[node] != Nil {
      UnthreadedAt(s, node, s.N[node]);
    }
  }
}
