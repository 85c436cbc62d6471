/**
  The loop invariant of the red-black tree's remove fix-up. Once a node is
  unlinked, the subtree now hanging at `x` under `xp` may hold one black node
  too few on every path ("short"); everything else keeps the red-black rules,
  except that `x` may be red under a red `xp`, or be a red root. The fix-up
  either moves the shortage up one level or removes it by rotations, and
  finally paints `x` black.
*/
module RedBlackLoose {
  import opened RedBlackSpec

  /**
    The tree is structured; `x` (a node or null) is the child of `xp` (null
    exactly when `x` is the root); the black height through `x` is one short
    of what `xp` records when `short` holds, and matches it otherwise, while
    `x`'s sibling has the recorded height; every node but `xp` is balanced,
    every node but `x` and `xp` has no red child if red, a red `xp` has a
    black sibling of `x`, and the root is black unless it is `x`.
  */
  ghost predicate Loose(s: Snap, x: int, xp: int, short: bool) {
    && Structured(s)
    && (x == Nil || InTree(s, x))
    && (x != Nil ==> s.U[x] == xp)
    && (xp == Nil <==> x == s.root)
    && (xp != Nil ==>
          && InTree(s, xp) && NodeShaped(s, xp) && (s.L[xp] == x || s.R[xp] == x)
          && BhOf(s, x) + (if short then 1 else 0) == s.Bh[xp]
          && BhOf(s, Sibling(s, xp, x)) == s.Bh[xp]
          && (s.C[xp] ==> Sibling(s, xp, x) == Nil || !s.C[Sibling(s, xp, x)]))
    && (forall y {:trigger Balanced(s, y)} | InTree(s, y) && y != xp :: Balanced(s, y))
    && (forall y {:trigger NoRedRed(s, y)} | InTree(s, y) && y != xp && y != x :: NoRedRed(s, y))
    && (s.root == x || s.root == Nil || !s.C[s.root])
  }

  /** `y` is a node, and red (null counts as black). */
  ghost predicate Red(s: Snap, y: int) {
    0 <= y < |s.C| && s.C[y]
  }

  /** What the invariant says about one tree node `y`. */
  lemma LooseAt(s: Snap, x: int, xp: int, short: bool, y: int)
    requires Loose(s, x, xp, short) && InTree(s, y)
    ensures NodeShaped(s, y)
    ensures y != xp ==> Balanced(s, y)
    ensures y != xp && y != x ==> NoRedRed(s, y)
  {
    assert NodeShaped(s, y);
    if y != xp {
      assert Balanced(s, y);
    }
    if y != xp && y != x {
      assert NoRedRed(s, y);
    }
  }

  /** A valid tree satisfies the invariant at its root, with nothing short. */
  lemma ValidLoose(s: Snap)
    requires Valid(s)
    ensures Loose(s, s.root, Nil, false)
  {
  }

  /** The invariant below a node `xp`, assembled from its parts. */
  lemma LooseBelow(s: Snap, x: int, xp: int, short: bool)
    requires Structured(s) && InTree(s, xp) && NodeShaped(s, xp) && (s.L[xp] == x || s.R[xp] == x)
    requires x == Nil || (InTree(s, x) && s.U[x] == xp)
    requires x != s.root && s.root != Nil && !s.C[s.root]
    requires BhOf(s, x) + (if short then 1 else 0) == s.Bh[xp] && BhOf(s, Sibling(s, xp, x)) == s.Bh[xp]
    requires s.C[xp] ==> Sibling(s, xp, x) == Nil || !s.C[Sibling(s, xp, x)]
    requires forall y {:trigger Balanced(s, y)} | InTree(s, y) && y != xp :: Balanced(s, y)
    requires forall y {:trigger NoRedRed(s, y)} | InTree(s, y) && y != xp && y != x :: NoRedRed(s, y)
    ensures Loose(s, x, xp, short)
  {
  }

  /** Number of in-order positions the subtree at `x` spans (none for null). */
  ghost function Rank(s: Snap, x: int): int
    requires Sized(s) && (x == Nil || 0 <= x < |s.U|)
  {
    if x == Nil then 0 else s.Hi[x] - s.Lo[x] + 1
  }

  /** The root spans the whole tree, and any other `x` less. */
  lemma LooseRank(s: Snap, x: int, xp: int, short: bool)
    requires Loose(s, x, xp, short)
    ensures s.root != Nil ==> Rank(s, s.root) == |s.Contents|
    ensures x != s.root ==> 0 <= Rank(s, x) < |s.Contents|
  {
    if x != s.root && x != Nil {
      assert NodeShaped(s, x) && NodeShaped(s, xp);
    }
  }

  /**
    When nothing is short (the unlinked position was red) and `x` is not red,
    the red-black rules hold again.
  */
  lemma LooseSettled(s: Snap, x: int, xp: int)
    requires Loose(s, x, xp, false) && (x == Nil || !s.C[x])
    ensures Valid(s)
  {
    if xp != Nil {
      assert Balanced(s, xp) && NoRedRed(s, xp);
    }
  }

  /** The tree with `x` painted black, when there is an `x`. */
  ghost function PaintedBlack(s: Snap, x: int): Snap
    requires Sized(s) && (x == Nil || 0 <= x < |s.U|)
  {
    if x == Nil then s else s.(C := s.C[x := false])
  }

  /** Painting `x` black keeps the colouring rules at every node, given the conditions of `LoosePainted`. */
  lemma PaintedAt(s: Snap, x: int, xp: int, short: bool, y: int)
    requires Loose(s, x, xp, short) && (xp == Nil || (x != Nil && short && s.C[x]))
    requires InTree(s, y)
    ensures Indexed(PaintedBlack(s, x)) && NodeShaped(PaintedBlack(s, x), y)
    ensures NoRedRed(PaintedBlack(s, x), y) && Balanced(PaintedBlack(s, x), y)
  {
    assert NodeShaped(s, y);
    if y != xp {
      assert Balanced(s, y);
    }
    if y != xp && y != x {
      assert NoRedRed(s, y);
    }
  }

  /**
    When `x` is the root, or a red node whose subtree is one black short,
    painting it black restores the red-black rules.
  */
  lemma LoosePainted(s: Snap, x: int, xp: int, short: bool)
    requires Loose(s, x, xp, short) && (xp == Nil || (x != Nil && short && s.C[x]))
    ensures Valid(PaintedBlack(s, x))
  {
    var t := PaintedBlack(s, x);
    RepaintedStructured(s, t.C, t.Bh);
    assert t == s.(C := t.C, Bh := t.Bh);
    forall y | InTree(t, y)
      ensures NoRedRed(t, y) && Balanced(t, y)
    {
      PaintedAt(s, x, xp, short, y);
    }
  }
}
