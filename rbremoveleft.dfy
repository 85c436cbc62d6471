/**
  One step of the remove fix-up when the short subtree `x` is the left child
  of `xp`, with sibling `w`, the right child. A red sibling is first turned
  black and rotated above `xp` (case 1), which leaves a black sibling under a
  red `xp`. With no red child under the black sibling, the sibling turns red
  and the shortage moves up to `xp` (case 2). Otherwise a red inner nephew is
  first rotated to the outside (case 3), and then a rotation at `xp` with the
  outer nephew painted black makes up for the missing black node (case 4).
*/
module RedBlackRemoveLeft {
  import opened RedBlackSpec
  import opened RedBlackRotation
  import opened RedBlackLoose

  /** The fix-up's state at a step on the left: `x` (black or null) is short under `xp`, and not the root. */
  ghost predicate LeftShort(s: Snap, x: int, xp: int) {
    Loose(s, x, xp, true) && x != s.root && !Red(s, x) && s.L[xp] == x
  }

  /**
    What a step on the left needs to know about `x`, `xp`, the sibling `w`,
    its children and `xp`'s parent `g`: their shapes, black heights and
    colours, and that they are distinct nodes.
  */
  ghost predicate HoleFrame(s: Snap, x: int, xp: int)
    requires Indexed(s)
  {
    && InTree(s, xp) && NodeShaped(s, xp) && s.L[xp] == x && x != xp
    && var w, g := s.R[xp], s.U[xp];
    && (x != Nil ==> InTree(s, x) && NodeShaped(s, x) && s.U[x] == xp && !s.C[x] && x != w)
    && InTree(s, w) && NodeShaped(s, w) && s.U[w] == xp && w != xp
    && BhOf(s, x) + 1 == s.Bh[xp] && BhOf(s, w) == s.Bh[xp]
    && (s.C[xp] ==> !s.C[w]) && Balanced(s, w) && NoRedRed(s, w)
    && (s.L[w] != Nil ==>
          InTree(s, s.L[w]) && NodeShaped(s, s.L[w]) && Balanced(s, s.L[w]) && NoRedRed(s, s.L[w])
          && s.L[w] != x && s.L[w] != xp && s.L[w] != g)
    && (s.R[w] != Nil ==>
          InTree(s, s.R[w]) && NodeShaped(s, s.R[w]) && Balanced(s, s.R[w]) && NoRedRed(s, s.R[w])
          && s.R[w] != x && s.R[w] != xp && s.R[w] != g)
    && (g == Nil ==> xp == s.root)
    && (g != Nil ==>
          InTree(s, g) && NodeShaped(s, g) && Balanced(s, g) && NoRedRed(s, g)
          && g != x && g != w && g != xp && xp != s.root)
  }

  /** The local facts of a step on the left, drawn from the fix-up invariant. */
  lemma HoleFrameOf(s: Snap, x: int, xp: int)
    requires LeftShort(s, x, xp)
    ensures HoleFrame(s, x, xp)
    ensures Rank(s, x) < Rank(s, xp)
  {
    var w, g := s.R[xp], s.U[xp];
    LooseAt(s, x, xp, true, xp);
    LooseAt(s, x, xp, true, w);
    if x != Nil {
      LooseAt(s, x, xp, true, x);
    }
    if s.L[w] != Nil {
      LooseAt(s, x, xp, true, s.L[w]);
    }
    if s.R[w] != Nil {
      LooseAt(s, x, xp, true, s.R[w]);
    }
    if g != Nil {
      LooseAt(s, x, xp, true, g);
    }
  }

  /** Case 2: the black sibling turns red and `xp` loses one black level below it. */
  ghost function PushedUp(s: Snap, xp: int): Snap
    requires Sized(s) && 0 <= xp < |s.U| && 0 <= s.R[xp] < |s.U| && s.Bh[xp] >= 1
  {
    s.(C := s.C[s.R[xp] := true], Bh := s.Bh[xp := s.Bh[xp] - 1])
  }

  /** After case 2, `xp` is balanced over the short `x` and the reddened sibling. */
  lemma PushedUpAtParent(s: Snap, x: int, xp: int)
    requires Indexed(s) && HoleFrame(s, x, xp) && !s.C[s.R[xp]]
    requires Indexed(PushedUp(s, xp)) && NodeShaped(PushedUp(s, xp), xp)
    ensures Balanced(PushedUp(s, xp), xp)
  {
  }

  /** After case 2, the sibling is red over its black children, as balanced as before. */
  lemma PushedUpAtSibling(s: Snap, x: int, xp: int)
    requires Indexed(s) && HoleFrame(s, x, xp)
    requires !s.C[s.R[xp]] && !Red(s, s.L[s.R[xp]]) && !Red(s, s.R[s.R[xp]])
    requires Indexed(PushedUp(s, xp)) && NodeShaped(PushedUp(s, xp), s.R[xp])
    ensures Balanced(PushedUp(s, xp), s.R[xp]) && NoRedRed(PushedUp(s, xp), s.R[xp])
  {
  }

  /** Away from `xp`, the sibling and `g`, case 2 changes nothing a node's colouring conditions depend on. */
  lemma PushedUpFar(s: Snap, x: int, xp: int, y: int)
    requires Indexed(s) && InTree(s, xp) && 0 <= s.R[xp] < |s.U| && s.U[s.R[xp]] == xp && s.Bh[xp] >= 1
    requires InTree(s, y) && NodeShaped(s, y) && y != xp && y != s.R[xp] && y != s.U[xp]
    requires Indexed(PushedUp(s, xp)) && NodeShaped(PushedUp(s, xp), y)
    ensures Balanced(PushedUp(s, xp), y) == Balanced(s, y) && NoRedRed(PushedUp(s, xp), y) == NoRedRed(s, y)
  {
    var t := PushedUp(s, xp);
    assert SameColours(s, t, y);
    SameColoursTransfer(s, t, y);
  }

  /** Above `xp` after case 2: `g` sees `xp` one black short, and its other child unchanged. */
  lemma PushedUpAbove(s: Snap, x: int, xp: int)
    requires Indexed(s) && HoleFrame(s, x, xp) && !s.C[s.R[xp]] && s.U[xp] != Nil
    ensures var t, g := PushedUp(s, xp), s.U[xp];
      && BhOf(t, xp) + 1 == t.Bh[g] && BhOf(t, Sibling(t, g, xp)) == t.Bh[g]
      && (t.C[g] ==> Sibling(t, g, xp) == Nil || !t.C[Sibling(t, g, xp)])
  {
    var g := s.U[xp];
    var o := Sibling(s, g, xp);
    assert o != Nil ==> InTree(s, o) && s.U[o] == g;
  }

  /**
    Case 2 on the left: with a black sibling and no red nephew, the sibling
    turns red and the shortage moves up one level, to `xp` under its parent.
  */
  lemma PushUpCase(s: Snap, x: int, xp: int)
    requires LeftShort(s, x, xp) && HoleFrame(s, x, xp)
    requires !s.C[s.R[xp]] && !Red(s, s.L[s.R[xp]]) && !Red(s, s.R[s.R[xp]])
    ensures Loose(PushedUp(s, xp), xp, s.U[xp], true)
    ensures Rank(s, x) < Rank(PushedUp(s, xp), xp) && PushedUp(s, xp).Contents == s.Contents
  {
    var t, g := PushedUp(s, xp), s.U[xp];
    RepaintedStructured(s, t.C, t.Bh);
    assert t == s.(C := t.C, Bh := t.Bh);
    PushedUpColours(s, x, xp);
    if g != Nil {
      PushedUpAbove(s, x, xp);
      assert NodeShaped(t, g);
    }
    assert NodeShaped(t, xp);
  }

  /** After case 2 every node but `g` is balanced, and every node but `xp` and `g` has no red-red edge. */
  lemma PushedUpColours(s: Snap, x: int, xp: int)
    requires LeftShort(s, x, xp) && HoleFrame(s, x, xp)
    requires !s.C[s.R[xp]] && !Red(s, s.L[s.R[xp]]) && !Red(s, s.R[s.R[xp]])
    requires Indexed(PushedUp(s, xp)) && Shaped(PushedUp(s, xp))
    ensures var t, g := PushedUp(s, xp), s.U[xp];
      && (forall y {:trigger Balanced(t, y)} | InTree(t, y) && y != g :: Balanced(t, y))
      && (forall y {:trigger NoRedRed(t, y)} | InTree(t, y) && y != xp && y != g :: NoRedRed(t, y))
  {
    var t, w, g := PushedUp(s, xp), s.R[xp], s.U[xp];
    forall y | InTree(t, y)
      ensures (y != g ==> Balanced(t, y)) && (y != xp && y != g ==> NoRedRed(t, y))
    {
      LooseAt(s, x, xp, true, y);
      assert NodeShaped(t, y);
      if y == xp {
        PushedUpAtParent(s, x, xp);
      } else if y == w {
        PushedUpAtSibling(s, x, xp);
      } else if y != g {
        PushedUpFar(s, x, xp, y);
      }
    }
  }

  /** Case 1's repaint: the red sibling turns black and `xp` red. */
  ghost function SiblingPainted(s: Snap, xp: int): Snap
    requires Sized(s) && 0 <= xp < |s.U| && 0 <= s.R[xp] < |s.U|
  {
    s.(C := s.C[s.R[xp] := false][xp := true])
  }

  /** Case 1: repaint, then rotate left at `xp`, which lifts the sibling into its place. */
  ghost function SiblingLifted(s: Snap, xp: int): Snap
    requires LeftRotatable(s, xp)
  {
    RotatedLeft(SiblingPainted(s, xp), xp)
  }

  /** After case 1, `xp` is red with `x` on the left, one black short, and a black sibling of the recorded height. */
  lemma LiftedHole(s: Snap, x: int, xp: int)
    requires Indexed(s) && HoleFrame(s, x, xp) && s.C[s.R[xp]] && LeftRotatable(s, xp)
    ensures var t, wl := SiblingLifted(s, xp), s.L[s.R[xp]];
      && wl != Nil && t.L[xp] == x && t.R[xp] == wl && t.U[wl] == xp && t.C[xp] && !t.C[wl]
      && (x != Nil ==> t.U[x] == xp && t.Lo[x] == s.Lo[x] && t.Hi[x] == s.Hi[x] && !t.C[x])
      && BhOf(t, x) + 1 == t.Bh[xp] && BhOf(t, wl) == t.Bh[xp]
  {
    var s1, w := SiblingPainted(s, xp), s.R[xp];
    var wl := s.L[w];
    RotatedLeftCells(s1, xp, xp);
    RotatedLeftCells(s1, xp, wl);
    if x != Nil {
      RotatedLeftCells(s1, xp, x);
    }
  }

  /** After case 1, the lifted sibling is black over the red `xp` and its old right child. */
  lemma LiftedAtSibling(s: Snap, x: int, xp: int)
    requires Indexed(s) && HoleFrame(s, x, xp) && s.C[s.R[xp]] && LeftRotatable(s, xp)
    requires Indexed(SiblingLifted(s, xp)) && InTree(SiblingLifted(s, xp), s.R[xp])
    requires NodeShaped(SiblingLifted(s, xp), s.R[xp])
    ensures Balanced(SiblingLifted(s, xp), s.R[xp]) && NoRedRed(SiblingLifted(s, xp), s.R[xp])
  {
    var s1, w := SiblingPainted(s, xp), s.R[xp];
    RotatedLeftCells(s1, xp, w);
    RotatedLeftCells(s1, xp, xp);
    RotatedLeftCells(s1, xp, s.R[w]);
  }

  /** Case 1 puts the sibling, now black, where `xp` was under its parent, and changes nothing else there. */
  lemma LiftedAboveCells(s: Snap, xp: int)
    requires LeftRotatable(s, xp) && s.U[xp] != Nil
    requires var w, g := s.R[xp], s.U[xp];
      && (s.L[g] == xp || s.R[g] == xp) && g != w && Ref(s, Sibling(s, g, xp))
      && (Sibling(s, g, xp) != Nil ==> Sibling(s, g, xp) != xp && Sibling(s, g, xp) != w)
    ensures var t, w, g := SiblingLifted(s, xp), s.R[xp], s.U[xp]; var o := Sibling(s, g, xp);
      && t.L[g] == (if s.L[g] == xp then w else o) && t.R[g] == (if s.L[g] == xp then o else w)
      && !t.C[w] && t.Bh[w] == s.Bh[w] && t.C[g] == s.C[g] && t.Bh[g] == s.Bh[g]
      && (o != Nil ==> t.C[o] == s.C[o] && t.Bh[o] == s.Bh[o])
  {
    var s1, w, g := SiblingPainted(s, xp), s.R[xp], s.U[xp];
    RotatedLeftCells(s1, xp, g);
    RotatedLeftCells(s1, xp, w);
  }

  /** After case 1, `xp`'s old parent holds the black sibling where it held the black `xp`. */
  lemma LiftedAbove(s: Snap, x: int, xp: int)
    requires Indexed(s) && HoleFrame(s, x, xp) && s.C[s.R[xp]] && LeftRotatable(s, xp) && s.U[xp] != Nil
    requires Indexed(SiblingLifted(s, xp)) && InTree(SiblingLifted(s, xp), s.U[xp])
    requires NodeShaped(SiblingLifted(s, xp), s.U[xp])
    ensures Balanced(SiblingLifted(s, xp), s.U[xp]) && NoRedRed(SiblingLifted(s, xp), s.U[xp])
  {
    var t, w, g := SiblingLifted(s, xp), s.R[xp], s.U[xp];
    var o := Sibling(s, g, xp);
    assert InTree(s, g) && (s.L[g] == xp || s.R[g] == xp);
    assert o != Nil ==> InTree(s, o) && s.U[o] == g && o != xp && o != w;
    LiftedAboveCells(s, xp);
    assert !s.C[xp] && BhOf(t, w) == BhOf(s, xp);
  }

  /**
    Case 1 leaves the children, colours and black heights at and below the
    sibling's left child as they were.
  */
  lemma LiftedInnerSame(s: Snap, xp: int)
    requires LeftRotatable(s, xp) && s.L[s.R[xp]] != Nil
    requires var w, wl := s.R[xp], s.L[s.R[xp]];
      && Ref(s, s.L[wl]) && Ref(s, s.R[wl])
      && (s.L[wl] != Nil ==> s.L[wl] != w && s.L[wl] != xp)
      && (s.R[wl] != Nil ==> s.R[wl] != w && s.R[wl] != xp)
    ensures SameColours(s, SiblingLifted(s, xp), s.L[s.R[xp]])
  {
    var s1, t, wl := SiblingPainted(s, xp), SiblingLifted(s, xp), s.L[s.R[xp]];
    RotatedLeftCells(s1, xp, wl);
    assert t.C == s1.C && t.Bh == s.Bh && t.L[wl] == s.L[wl] && t.R[wl] == s.R[wl];
  }

  /** The subtree that moves from the sibling to `xp` keeps its colouring conditions. */
  lemma LiftedAtInner(s: Snap, x: int, xp: int)
    requires Indexed(s) && HoleFrame(s, x, xp) && s.C[s.R[xp]] && LeftRotatable(s, xp)
    requires Indexed(SiblingLifted(s, xp)) && InTree(SiblingLifted(s, xp), s.L[s.R[xp]])
    requires NodeShaped(SiblingLifted(s, xp), s.L[s.R[xp]])
    ensures Balanced(SiblingLifted(s, xp), s.L[s.R[xp]]) && NoRedRed(SiblingLifted(s, xp), s.L[s.R[xp]])
  {
    var t, w, wl := SiblingLifted(s, xp), s.R[xp], s.L[s.R[xp]];
    assert s.L[wl] != Nil ==> s.U[s.L[wl]] == wl && s.L[wl] != w && s.L[wl] != xp;
    assert s.R[wl] != Nil ==> s.U[s.R[wl]] == wl && s.R[wl] != w && s.R[wl] != xp;
    LiftedInnerSame(s, xp);
    SameColoursTransfer(s, t, wl);
  }

  /** Away from the rotation, case 1 changes nothing a node's colouring conditions depend on. */
  lemma LiftedFar(s: Snap, xp: int, y: int)
    requires Indexed(s) && LeftRotatable(s, xp) && InTree(s, y) && NodeShaped(s, y)
    requires y != xp && y != s.R[xp] && s.L[y] != xp && s.R[y] != xp && s.L[y] != s.R[xp] && s.R[y] != s.R[xp]
    requires Indexed(SiblingLifted(s, xp)) && SiblingLifted(s, xp).Contents == s.Contents
    requires Agree(SiblingPainted(s, xp), SiblingLifted(s, xp), y)
    ensures NodeShaped(SiblingLifted(s, xp), y)
    ensures Balanced(SiblingLifted(s, xp), y) == Balanced(s, y) && NoRedRed(SiblingLifted(s, xp), y) == NoRedRed(s, y)
  {
    var s1 := SiblingPainted(s, xp);
    assert SameColours(s, s1, y);
    SameColoursTransfer(s, s1, y);
    AgreeTransfer(s1, SiblingLifted(s, xp), y);
  }

  /** Case 1 keeps the tree structured; away from the rotation every node agrees. */
  lemma LiftedStructured(s: Snap, x: int, xp: int)
    requires LeftShort(s, x, xp) && HoleFrame(s, x, xp) && s.C[s.R[xp]]
    ensures LeftRotatable(s, xp) && Structured(SiblingLifted(s, xp)) && SiblingLifted(s, xp).Contents == s.Contents
    ensures forall y | InTree(s, y) && y != xp && y != s.R[xp] && y != s.U[xp] && y != s.L[s.R[xp]] ::
      NodeShaped(s, y) && Agree(SiblingPainted(s, xp), SiblingLifted(s, xp), y)
  {
    var s1, t := SiblingPainted(s, xp), SiblingLifted(s, xp);
    assert Structured(s1) by {
      RepaintedStructured(s, s1.C, s1.Bh);
      assert s.(C := s1.C, Bh := s1.Bh) == s1;
    }
    RotateLeftStructured(s1, xp);
    forall y | InTree(s, y) && y != xp && y != s.R[xp] && y != s.U[xp] && y != s.L[s.R[xp]]
      ensures NodeShaped(s, y) && Agree(s1, t, y)
    {
      assert InTree(s1, y);
    }
  }

  /** After case 1, a node other than `xp` is balanced, and free of red-red edges unless it is `x`. */
  lemma LiftedAt(s: Snap, x: int, xp: int, y: int)
    requires LeftShort(s, x, xp) && HoleFrame(s, x, xp) && s.C[s.R[xp]]
    requires LeftRotatable(s, xp) && Structured(SiblingLifted(s, xp)) && SiblingLifted(s, xp).Contents == s.Contents
    requires InTree(s, y) && y != xp
    requires y != s.R[xp] && y != s.U[xp] && y != s.L[s.R[xp]] ==>
      NodeShaped(s, y) && Agree(SiblingPainted(s, xp), SiblingLifted(s, xp), y)
    ensures Balanced(SiblingLifted(s, xp), y) && (y != x ==> NoRedRed(SiblingLifted(s, xp), y))
  {
    var t, w, g := SiblingLifted(s, xp), s.R[xp], s.U[xp];
    LooseAt(s, x, xp, true, y);
    assert NodeShaped(t, y);
    if y == w {
      LiftedAtSibling(s, x, xp);
    } else if y == g {
      LiftedAbove(s, x, xp);
    } else if y == s.L[w] {
      LiftedAtInner(s, x, xp);
    } else {
      LiftedFar(s, xp, y);
    }
  }

  /** After case 1 every node but `xp` is balanced and every node but `x` and `xp` free of red-red edges. */
  lemma LiftedColours(s: Snap, x: int, xp: int)
    requires LeftShort(s, x, xp) && HoleFrame(s, x, xp) && s.C[s.R[xp]]
    requires LeftRotatable(s, xp) && Structured(SiblingLifted(s, xp)) && SiblingLifted(s, xp).Contents == s.Contents
    requires forall y | InTree(s, y) && y != xp && y != s.R[xp] && y != s.U[xp] && y != s.L[s.R[xp]] ::
      NodeShaped(s, y) && Agree(SiblingPainted(s, xp), SiblingLifted(s, xp), y)
    ensures var t := SiblingLifted(s, xp);
      && (forall y {:trigger Balanced(t, y)} | InTree(t, y) && y != xp :: Balanced(t, y))
      && (forall y {:trigger NoRedRed(t, y)} | InTree(t, y) && y != xp && y != x :: NoRedRed(t, y))
  {
    var t := SiblingLifted(s, xp);
    forall y | InTree(t, y) && y != xp
      ensures Balanced(t, y) && (y != x ==> NoRedRed(t, y))
    {
      LiftedAt(s, x, xp, y);
    }
  }

  /**
    Case 1 on the left: a red sibling turns black and is rotated above `xp`,
    which turns red; `x` is still one black short under `xp`, and its new
    sibling is black.
  */
  lemma RedSiblingCase(s: Snap, x: int, xp: int)
    requires LeftShort(s, x, xp) && HoleFrame(s, x, xp) && s.C[s.R[xp]]
    ensures LeftRotatable(s, xp)
    ensures var t := SiblingLifted(s, xp);
      && LeftShort(t, x, xp) && t.C[xp] && 0 <= t.R[xp] < |t.C| && !t.C[t.R[xp]]
      && Rank(t, x) == Rank(s, x) && t.Contents == s.Contents
  {
    var t := SiblingLifted(s, xp);
    LiftedStructured(s, x, xp);
    LiftedColours(s, x, xp);
    LiftedHole(s, x, xp);
    LiftedRoot(s, x, xp);
    assert NodeShaped(t, xp) && Sibling(t, xp, x) == s.L[s.R[xp]];
    LooseBelow(t, x, xp, true);
  }

  /** After case 1 the root is still black, and neither `x` nor `xp`; `x` keeps its colour. */
  lemma LiftedRoot(s: Snap, x: int, xp: int)
    requires LeftShort(s, x, xp) && HoleFrame(s, x, xp) && s.C[s.R[xp]]
    ensures LeftRotatable(s, xp)
    ensures var t := SiblingLifted(s, xp);
      && t.root != x && t.root != xp && t.root != Nil && !t.C[t.root]
      && t.Pos == s.Pos && (x != Nil ==> t.C[x] == s.C[x])
  {
    var w, g := s.R[xp], s.U[xp];
    var s1 := SiblingPainted(s, xp);
    RotatedLeftCells(s1, xp, w);
    RotatedLeftCells(s1, xp, xp);
    if x != Nil {
      RotatedLeftCells(s1, xp, x);
    }
    if g != Nil {
      RotatedLeftCells(s1, xp, s.root);
    }
  }

  /** Case 3 applies: the sibling is black, its inner child red and its outer child black or null. */
  ghost predicate InnerRed(s: Snap, xp: int)
    requires Sized(s) && 0 <= xp < |s.U| && 0 <= s.R[xp] < |s.U|
  {
    !s.C[s.R[xp]] && Red(s, s.L[s.R[xp]]) && !Red(s, s.R[s.R[xp]])
  }

  /** What case 3 needs beyond `HoleFrame`: the subtree `b` that moves from the inner nephew to the sibling. */
  ghost predicate NephewFrame(s: Snap, x: int, xp: int)
    requires Indexed(s)
  {
    && HoleFrame(s, x, xp) && InnerRed(s, xp)
    && var w := s.R[xp]; var wl := s.L[w];
    && var b := s.R[wl];
    && (b != Nil ==>
          InTree(s, b) && NodeShaped(s, b) && Balanced(s, b) && NoRedRed(s, b)
          && b != x && b != xp && b != w && b != wl)
  }

  /** The local facts of case 3, drawn from the fix-up invariant. */
  lemma NephewFrameOf(s: Snap, x: int, xp: int)
    requires LeftShort(s, x, xp) && HoleFrame(s, x, xp) && InnerRed(s, xp)
    ensures NephewFrame(s, x, xp)
  {
    var w := s.R[xp];
    var wl := s.L[w];
    var b := s.R[wl];
    if b != Nil {
      LooseAt(s, x, xp, true, b);
      if x != Nil {
        assert NodeShaped(s, x);
      }
    }
  }

  /** Case 3's repaint: the red inner nephew turns black and the sibling red. */
  ghost function NephewPainted(s: Snap, xp: int): Snap
    requires Sized(s) && 0 <= xp < |s.U| && 0 <= s.R[xp] < |s.U| && 0 <= s.L[s.R[xp]] < |s.U|
  {
    s.(C := s.C[s.L[s.R[xp]] := false][s.R[xp] := true])
  }

  /** Case 3: repaint, then rotate right at the sibling, which lifts the inner nephew into its place. */
  ghost function NephewTurned(s: Snap, xp: int): Snap
    requires Sized(s) && 0 <= xp < |s.U| && 0 <= s.R[xp] < |s.U| && 0 <= s.L[s.R[xp]] < |s.U|
    requires RightRotatable(NephewPainted(s, xp), s.R[xp])
  {
    RotatedRight(NephewPainted(s, xp), s.R[xp])
  }

  /** Case 3 keeps the tree structured; away from the rotation every node agrees. */
  lemma TurnedStructured(s: Snap, x: int, xp: int)
    requires LeftShort(s, x, xp) && NephewFrame(s, x, xp)
    ensures RightRotatable(NephewPainted(s, xp), s.R[xp])
    ensures Structured(NephewTurned(s, xp)) && NephewTurned(s, xp).Contents == s.Contents
    ensures forall y | InTree(s, y) && y != xp && y != s.R[xp] && y != s.L[s.R[xp]] && y != s.R[s.L[s.R[xp]]] ::
      NodeShaped(s, y) && Agree(NephewPainted(s, xp), NephewTurned(s, xp), y)
  {
    var s1, t := NephewPainted(s, xp), NephewTurned(s, xp);
    assert Structured(s1) by {
      RepaintedStructured(s, s1.C, s1.Bh);
      assert s.(C := s1.C, Bh := s1.Bh) == s1;
    }
    RotateRightStructured(s1, s.R[xp]);
    forall y | InTree(s, y) && y != xp && y != s.R[xp] && y != s.L[s.R[xp]] && y != s.R[s.L[s.R[xp]]]
      ensures NodeShaped(s, y) && Agree(s1, t, y)
    {
      assert InTree(s1, y);
    }
  }

  /** After case 3, `xp` has `x` on the left, one black short, and the black nephew of the recorded height on the right. */
  lemma TurnedHole(s: Snap, x: int, xp: int)
    requires Indexed(s) && NephewFrame(s, x, xp) && RightRotatable(NephewPainted(s, xp), s.R[xp])
    ensures var t, w := NephewTurned(s, xp), s.R[xp]; var wl := s.L[w];
      && t.L[xp] == x && t.R[xp] == wl && t.U[wl] == xp && !t.C[wl] && t.R[wl] == w && t.C[w]
      && t.C[xp] == s.C[xp] && t.Pos == s.Pos
      && (x != Nil ==> t.U[x] == xp && !t.C[x])
      && BhOf(t, x) + 1 == t.Bh[xp] && BhOf(t, wl) == t.Bh[xp]
  {
    var s1, w := NephewPainted(s, xp), s.R[xp];
    var wl := s.L[w];
    RotatedRightCells(s1, w, xp);
    RotatedRightCells(s1, w, wl);
    RotatedRightCells(s1, w, w);
    if x != Nil {
      RotatedRightCells(s1, w, x);
    }
  }

  /** Case 3 keeps the root and its colour. */
  lemma TurnedRoot(s: Snap, x: int, xp: int)
    requires LeftShort(s, x, xp) && NephewFrame(s, x, xp) && RightRotatable(NephewPainted(s, xp), s.R[xp])
    ensures var t := NephewTurned(s, xp);
      t.root == s.root && (t.root != Nil ==> 0 <= t.root < |t.C| && t.C[t.root] == s.C[s.root])
  {
    var s1, w := NephewPainted(s, xp), s.R[xp];
    RotatedRightCells(s1, w, xp);
    if s.root != Nil {
      assert NodeShaped(s, s.root);
      RotatedRightCells(s1, w, s.root);
    }
  }

  /** After case 3, the nephew is black over its old left subtree and the reddened sibling. */
  lemma TurnedAtNephew(s: Snap, x: int, xp: int)
    requires Indexed(s) && NephewFrame(s, x, xp) && RightRotatable(NephewPainted(s, xp), s.R[xp])
    requires Indexed(NephewTurned(s, xp)) && InTree(NephewTurned(s, xp), s.L[s.R[xp]])
    requires NodeShaped(NephewTurned(s, xp), s.L[s.R[xp]])
    ensures Balanced(NephewTurned(s, xp), s.L[s.R[xp]]) && NoRedRed(NephewTurned(s, xp), s.L[s.R[xp]])
  {
    var s1, w := NephewPainted(s, xp), s.R[xp];
    var wl := s.L[w];
    RotatedRightCells(s1, w, wl);
    RotatedRightCells(s1, w, w);
    if s.L[wl] != Nil {
      assert InTree(s, s.L[wl]) && NodeShaped(s, wl);
      RotatedRightCells(s1, w, s.L[wl]);
    }
  }

  /** After case 3, the reddened sibling sits over the nephew's old right subtree and its own black right child. */
  lemma TurnedAtSibling(s: Snap, x: int, xp: int)
    requires Indexed(s) && NephewFrame(s, x, xp) && RightRotatable(NephewPainted(s, xp), s.R[xp])
    requires Indexed(NephewTurned(s, xp)) && InTree(NephewTurned(s, xp), s.R[xp])
    requires NodeShaped(NephewTurned(s, xp), s.R[xp])
    ensures Balanced(NephewTurned(s, xp), s.R[xp]) && NoRedRed(NephewTurned(s, xp), s.R[xp])
  {
    var s1, w := NephewPainted(s, xp), s.R[xp];
    var wl := s.L[w];
    assert NodeShaped(s, wl) && Balanced(s, wl) && NoRedRed(s, wl);
    RotatedRightCells(s1, w, w);
    RotatedRightCells(s1, w, wl);
    if s.R[wl] != Nil {
      RotatedRightCells(s1, w, s.R[wl]);
    }
    if s.R[w] != Nil {
      RotatedRightCells(s1, w, s.R[w]);
    }
  }

  /** The subtree that moves from the nephew to the sibling keeps its colouring conditions. */
  lemma TurnedAtInner(s: Snap, x: int, xp: int)
    requires Indexed(s) && NephewFrame(s, x, xp) && RightRotatable(NephewPainted(s, xp), s.R[xp])
    requires s.R[s.L[s.R[xp]]] != Nil
    requires Indexed(NephewTurned(s, xp)) && InTree(NephewTurned(s, xp), s.R[s.L[s.R[xp]]])
    requires NodeShaped(NephewTurned(s, xp), s.R[s.L[s.R[xp]]])
    ensures Balanced(NephewTurned(s, xp), s.R[s.L[s.R[xp]]]) && NoRedRed(NephewTurned(s, xp), s.R[s.L[s.R[xp]]])
  {
    var s1, t, w := NephewPainted(s, xp), NephewTurned(s, xp), s.R[xp];
    var b := s.R[s.L[w]];
    RotatedRightCells(s1, w, b);
    if s.L[b] != Nil {
      RotatedRightCells(s1, w, s.L[b]);
    }
    if s.R[b] != Nil {
      RotatedRightCells(s1, w, s.R[b]);
    }
    assert SameColours(s, t, b);
    SameColoursTransfer(s, t, b);
  }

  /** Away from the rotation, case 3 changes nothing a node's colouring conditions depend on. */
  lemma TurnedFar(s: Snap, xp: int, y: int)
    requires Indexed(s) && 0 <= xp < |s.U| && 0 <= s.R[xp] < |s.U| && 0 <= s.L[s.R[xp]] < |s.U|
    requires RightRotatable(NephewPainted(s, xp), s.R[xp])
    requires s.U[s.R[xp]] == xp && s.U[s.L[s.R[xp]]] == s.R[xp]
    requires InTree(s, y) && NodeShaped(s, y) && y != xp && y != s.R[xp] && y != s.L[s.R[xp]]
    requires Indexed(NephewTurned(s, xp)) && NephewTurned(s, xp).Contents == s.Contents
    requires Agree(NephewPainted(s, xp), NephewTurned(s, xp), y)
    ensures NodeShaped(NephewTurned(s, xp), y)
    ensures Balanced(NephewTurned(s, xp), y) == Balanced(s, y) && NoRedRed(NephewTurned(s, xp), y) == NoRedRed(s, y)
  {
    var s1 := NephewPainted(s, xp);
    assert SameColours(s, s1, y);
    SameColoursTransfer(s, s1, y);
    AgreeTransfer(s1, NephewTurned(s, xp), y);
  }

  /** After case 3 every node but `xp` is balanced and every node but `x` and `xp` free of red-red edges. */
  lemma TurnedColours(s: Snap, x: int, xp: int)
    requires LeftShort(s, x, xp) && NephewFrame(s, x, xp)
    requires RightRotatable(NephewPainted(s, xp), s.R[xp])
    requires Structured(NephewTurned(s, xp)) && NephewTurned(s, xp).Contents == s.Contents
    requires forall y | InTree(s, y) && y != xp && y != s.R[xp] && y != s.L[s.R[xp]] && y != s.R[s.L[s.R[xp]]] ::
      NodeShaped(s, y) && Agree(NephewPainted(s, xp), NephewTurned(s, xp), y)
    ensures var t := NephewTurned(s, xp);
      && (forall y {:trigger Balanced(t, y)} | InTree(t, y) && y != xp :: Balanced(t, y))
      && (forall y {:trigger NoRedRed(t, y)} | InTree(t, y) && y != xp && y != x :: NoRedRed(t, y))
  {
    var t, w := NephewTurned(s, xp), s.R[xp];
    var wl := s.L[w];
    forall y | InTree(t, y) && y != xp
      ensures Balanced(t, y) && (y != x ==> NoRedRed(t, y))
    {
      LooseAt(s, x, xp, true, y);
      assert NodeShaped(t, y);
      if y == w {
        TurnedAtSibling(s, x, xp);
      } else if y == wl {
        TurnedAtNephew(s, x, xp);
      } else if y == s.R[wl] {
        TurnedAtInner(s, x, xp);
      } else {
        TurnedFar(s, xp, y);
      }
    }
  }

  /**
    Case 3 on the left: a black sibling with a red inner and a black outer
    child swaps colours with the inner child and is rotated right under it;
    `x` is still one black short under `xp`, and its new sibling is black with
    a red outer child.
  */
  lemma InnerRedCase(s: Snap, x: int, xp: int)
    requires LeftShort(s, x, xp) && HoleFrame(s, x, xp) && InnerRed(s, xp)
    ensures RightRotatable(NephewPainted(s, xp), s.R[xp])
    ensures var t := NephewTurned(s, xp);
      && LeftShort(t, x, xp) && 0 <= t.R[xp] < |t.C| && !t.C[t.R[xp]] && Red(t, t.R[t.R[xp]])
      && t.Contents == s.Contents
  {
    var t := NephewTurned(s, xp);
    NephewFrameOf(s, x, xp);
    TurnedStructured(s, x, xp);
    TurnedColours(s, x, xp);
    TurnedHole(s, x, xp);
    TurnedRoot(s, x, xp);
    assert NodeShaped(t, xp);
  }

  /** Case 4 applies: the sibling is black and its outer child red. */
  ghost predicate OuterRed(s: Snap, xp: int)
    requires Sized(s) && 0 <= xp < |s.U| && 0 <= s.R[xp] < |s.U|
  {
    !s.C[s.R[xp]] && Red(s, s.R[s.R[xp]])
  }

  /**
    Case 4's repaint: the sibling takes `xp`'s colour, `xp` and the outer
    nephew turn black; after the rotation `xp` sits one black level lower and
    the sibling one higher.
  */
  ghost function FarPainted(s: Snap, xp: int): Snap
    requires Sized(s) && 0 <= xp < |s.U| && 0 <= s.R[xp] < |s.U| && 0 <= s.R[s.R[xp]] < |s.U| && s.Bh[xp] >= 1
  {
    var w := s.R[xp];
    s.(C := s.C[w := s.C[xp]][xp := false][s.R[w] := false], Bh := s.Bh[xp := s.Bh[xp] - 1][w := s.Bh[w] + 1])
  }

  /** Every colour and black height after case 4's repaint. */
  lemma FarPaintedCells(s: Snap, xp: int, y: int)
    requires Sized(s) && 0 <= xp < |s.U| && 0 <= s.R[xp] < |s.U| && 0 <= s.R[s.R[xp]] < |s.U| && s.Bh[xp] >= 1
    requires 0 <= y < |s.U| && xp != s.R[xp] && xp != s.R[s.R[xp]] && s.R[xp] != s.R[s.R[xp]]
    ensures var t, w := FarPainted(s, xp), s.R[xp];
      && t.C[y] == (if y == w then s.C[xp] else if y == xp || y == s.R[w] then false else s.C[y])
      && t.Bh[y] == (if y == w then s.Bh[w] + 1 else if y == xp then s.Bh[xp] - 1 else s.Bh[y])
  {
  }

  /** Case 4: repaint, then rotate left at `xp`, which lifts the sibling into its place. */
  ghost function Straightened(s: Snap, xp: int): Snap
    requires Sized(s) && 0 <= xp < |s.U| && 0 <= s.R[xp] < |s.U| && 0 <= s.R[s.R[xp]] < |s.U| && s.Bh[xp] >= 1
    requires LeftRotatable(FarPainted(s, xp), xp)
  {
    RotatedLeft(FarPainted(s, xp), xp)
  }

  /** The nodes case 4 touches are arena nodes, and `xp` has a black level to give. */
  ghost predicate StraightFrame(s: Snap, x: int, xp: int)
    requires Indexed(s)
  {
    HoleFrame(s, x, xp) && OuterRed(s, xp) && 0 <= s.R[s.R[xp]] < |s.U| && s.Bh[xp] >= 1
  }

  /** Case 4 keeps the tree structured; away from the rotation every node agrees. */
  lemma StraightenedStructured(s: Snap, x: int, xp: int)
    requires LeftShort(s, x, xp) && StraightFrame(s, x, xp)
    ensures LeftRotatable(FarPainted(s, xp), xp)
    ensures Structured(Straightened(s, xp)) && Straightened(s, xp).Contents == s.Contents
    ensures forall y | InTree(s, y) && y != xp && y != s.R[xp] && y != s.U[xp] && y != s.L[s.R[xp]] ::
      NodeShaped(s, y) && Agree(FarPainted(s, xp), Straightened(s, xp), y)
  {
    var s1, t := FarPainted(s, xp), Straightened(s, xp);
    assert Structured(s1) by {
      RepaintedStructured(s, s1.C, s1.Bh);
      assert s.(C := s1.C, Bh := s1.Bh) == s1;
    }
    RotateLeftStructured(s1, xp);
    forall y | InTree(s, y) && y != xp && y != s.R[xp] && y != s.U[xp] && y != s.L[s.R[xp]]
      ensures NodeShaped(s, y) && Agree(s1, t, y)
    {
      assert InTree(s1, y);
    }
  }

  /** After case 4, `xp` is black over the short `x` and the sibling's old inner subtree, both one level lower. */
  lemma StraightenedAtParent(s: Snap, x: int, xp: int)
    requires Indexed(s) && StraightFrame(s, x, xp) && LeftRotatable(FarPainted(s, xp), xp)
    requires Indexed(Straightened(s, xp)) && InTree(Straightened(s, xp), xp) && NodeShaped(Straightened(s, xp), xp)
    ensures Balanced(Straightened(s, xp), xp) && NoRedRed(Straightened(s, xp), xp)
  {
    var s1, w := FarPainted(s, xp), s.R[xp];
    RotatedLeftCells(s1, xp, xp);
    FarPaintedCells(s, xp, xp);
    if x != Nil {
      RotatedLeftCells(s1, xp, x);
      FarPaintedCells(s, xp, x);
    }
    if s.L[w] != Nil {
      RotatedLeftCells(s1, xp, s.L[w]);
      FarPaintedCells(s, xp, s.L[w]);
    }
  }

  /** After case 4, the sibling, in `xp`'s colour, is over the black `xp` and the blackened outer nephew. */
  lemma StraightenedAtSibling(s: Snap, x: int, xp: int)
    requires Indexed(s) && StraightFrame(s, x, xp) && LeftRotatable(FarPainted(s, xp), xp)
    requires Indexed(Straightened(s, xp)) && InTree(Straightened(s, xp), s.R[xp])
    requires NodeShaped(Straightened(s, xp), s.R[xp])
    ensures Balanced(Straightened(s, xp), s.R[xp]) && NoRedRed(Straightened(s, xp), s.R[xp])
  {
    var s1, w := FarPainted(s, xp), s.R[xp];
    RotatedLeftCells(s1, xp, w);
    RotatedLeftCells(s1, xp, xp);
    RotatedLeftCells(s1, xp, s.R[w]);
  }

  /** After case 4, the outer nephew is black, and as balanced as before. */
  lemma StraightenedAtOuter(s: Snap, x: int, xp: int)
    requires Indexed(s) && StraightFrame(s, x, xp) && LeftRotatable(FarPainted(s, xp), xp)
    requires Indexed(Straightened(s, xp)) && InTree(Straightened(s, xp), s.R[s.R[xp]])
    requires NodeShaped(Straightened(s, xp), s.R[s.R[xp]])
    ensures Balanced(Straightened(s, xp), s.R[s.R[xp]]) && NoRedRed(Straightened(s, xp), s.R[s.R[xp]])
  {
    var s1, w := FarPainted(s, xp), s.R[xp];
    var wr := s.R[w];
    RotatedLeftCells(s1, xp, wr);
    if s.L[wr] != Nil {
      assert InTree(s, s.L[wr]) && s.U[s.L[wr]] == wr;
      RotatedLeftCells(s1, xp, s.L[wr]);
    }
    if s.R[wr] != Nil {
      assert InTree(s, s.R[wr]) && s.U[s.R[wr]] == wr;
      RotatedLeftCells(s1, xp, s.R[wr]);
    }
  }

  /** Case 4 puts the sibling, in `xp`'s colour, where `xp` was under its parent, and changes nothing else there. */
  lemma StraightenedAboveCells(s: Snap, xp: int)
    requires Sized(s) && 0 <= xp < |s.U| && 0 <= s.R[xp] < |s.U| && 0 <= s.R[s.R[xp]] < |s.U| && s.Bh[xp] >= 1
    requires LeftRotatable(FarPainted(s, xp), xp) && s.U[xp] != Nil
    requires var w, g := s.R[xp], s.U[xp];
      && xp != s.R[w] && w != s.R[w] && g != s.R[w]
      && (s.L[g] == xp || s.R[g] == xp) && g != w && Ref(s, Sibling(s, g, xp))
      && (Sibling(s, g, xp) != Nil ==> Sibling(s, g, xp) != xp && Sibling(s, g, xp) != w && Sibling(s, g, xp) != s.R[w])
    ensures var t, w, g := Straightened(s, xp), s.R[xp], s.U[xp]; var o := Sibling(s, g, xp);
      && t.L[g] == (if s.L[g] == xp then w else o) && t.R[g] == (if s.L[g] == xp then o else w)
      && t.C[w] == s.C[xp] && t.Bh[w] == s.Bh[w] + 1 && t.C[g] == s.C[g] && t.Bh[g] == s.Bh[g]
      && (o != Nil ==> t.C[o] == s.C[o] && t.Bh[o] == s.Bh[o])
  {
    var s1, w, g := FarPainted(s, xp), s.R[xp], s.U[xp];
    var o := Sibling(s, g, xp);
    RotatedLeftCells(s1, xp, g);
    RotatedLeftCells(s1, xp, w);
    FarPaintedCells(s, xp, g);
    FarPaintedCells(s, xp, w);
    if o != Nil {
      RotatedLeftCells(s1, xp, o);
      FarPaintedCells(s, xp, o);
    }
  }

  /** After case 4, `xp`'s old parent holds the sibling, with `xp`'s old colour and black height through it. */
  lemma StraightenedAbove(s: Snap, x: int, xp: int)
    requires Indexed(s) && StraightFrame(s, x, xp) && LeftRotatable(FarPainted(s, xp), xp) && s.U[xp] != Nil
    requires Indexed(Straightened(s, xp)) && InTree(Straightened(s, xp), s.U[xp])
    requires NodeShaped(Straightened(s, xp), s.U[xp])
    ensures Balanced(Straightened(s, xp), s.U[xp]) && NoRedRed(Straightened(s, xp), s.U[xp])
  {
    var t, w, g := Straightened(s, xp), s.R[xp], s.U[xp];
    var o := Sibling(s, g, xp);
    assert InTree(s, g) && (s.L[g] == xp || s.R[g] == xp);
    assert s.U[s.R[w]] == w && xp != s.R[w] && w != s.R[w] && g != s.R[w];
    assert o != Nil ==> InTree(s, o) && s.U[o] == g && o != xp && o != w && o != s.R[w];
    StraightenedAboveCells(s, xp);
    assert BhOf(t, w) == BhOf(s, xp);
  }

  /** The subtree that moves from the sibling to `xp` keeps its colouring conditions. */
  lemma StraightenedAtInner(s: Snap, x: int, xp: int)
    requires Indexed(s) && StraightFrame(s, x, xp) && LeftRotatable(FarPainted(s, xp), xp)
    requires s.L[s.R[xp]] != Nil
    requires Indexed(Straightened(s, xp)) && InTree(Straightened(s, xp), s.L[s.R[xp]])
    requires NodeShaped(Straightened(s, xp), s.L[s.R[xp]])
    ensures Balanced(Straightened(s, xp), s.L[s.R[xp]]) && NoRedRed(Straightened(s, xp), s.L[s.R[xp]])
  {
    var s1, t, wl := FarPainted(s, xp), Straightened(s, xp), s.L[s.R[xp]];
    RotatedLeftCells(s1, xp, wl);
    FarPaintedCells(s, xp, wl);
    if s.L[wl] != Nil {
      assert s.U[s.L[wl]] == wl;
      RotatedLeftCells(s1, xp, s.L[wl]);
      FarPaintedCells(s, xp, s.L[wl]);
    }
    if s.R[wl] != Nil {
      assert s.U[s.R[wl]] == wl;
      RotatedLeftCells(s1, xp, s.R[wl]);
      FarPaintedCells(s, xp, s.R[wl]);
    }
    assert SameColours(s, t, wl);
    SameColoursTransfer(s, t, wl);
  }

  /** Away from the rotation and the outer nephew, case 4 changes nothing a node's colouring conditions depend on. */
  lemma StraightenedFar(s: Snap, xp: int, y: int)
    requires Indexed(s) && 0 <= xp < |s.U| && 0 <= s.R[xp] < |s.U| && 0 <= s.R[s.R[xp]] < |s.U| && s.Bh[xp] >= 1
    requires LeftRotatable(FarPainted(s, xp), xp)
    requires s.U[s.R[xp]] == xp && s.U[s.R[s.R[xp]]] == s.R[xp]
    requires InTree(s, y) && NodeShaped(s, y) && y != xp && y != s.R[xp] && y != s.U[xp] && y != s.R[s.R[xp]]
    requires Indexed(Straightened(s, xp)) && Straightened(s, xp).Contents == s.Contents
    requires Agree(FarPainted(s, xp), Straightened(s, xp), y)
    ensures NodeShaped(Straightened(s, xp), y)
    ensures Balanced(Straightened(s, xp), y) == Balanced(s, y) && NoRedRed(Straightened(s, xp), y) == NoRedRed(s, y)
  {
    var s1 := FarPainted(s, xp);
    assert SameColours(s, s1, y);
    SameColoursTransfer(s, s1, y);
    AgreeTransfer(s1, Straightened(s, xp), y);
  }

  /** After case 4 every node is balanced and free of red-red edges. */
  lemma StraightenedColours(s: Snap, x: int, xp: int)
    requires LeftShort(s, x, xp) && StraightFrame(s, x, xp)
    requires LeftRotatable(FarPainted(s, xp), xp)
    requires Structured(Straightened(s, xp)) && Straightened(s, xp).Contents == s.Contents
    requires forall y | InTree(s, y) && y != xp && y != s.R[xp] && y != s.U[xp] && y != s.L[s.R[xp]] ::
      NodeShaped(s, y) && Agree(FarPainted(s, xp), Straightened(s, xp), y)
    ensures var t := Straightened(s, xp);
      forall y | InTree(t, y) :: Balanced(t, y) && NoRedRed(t, y)
  {
    var t := Straightened(s, xp);
    forall y | InTree(t, y)
      ensures Balanced(t, y) && NoRedRed(t, y)
    {
      StraightenedAt(s, x, xp, y);
    }
  }

  /** After case 4 node `y` is balanced and free of red-red edges. */
  lemma StraightenedAt(s: Snap, x: int, xp: int, y: int)
    requires LeftShort(s, x, xp) && StraightFrame(s, x, xp)
    requires LeftRotatable(FarPainted(s, xp), xp)
    requires Structured(Straightened(s, xp)) && Straightened(s, xp).Contents == s.Contents
    requires forall y | InTree(s, y) && y != xp && y != s.R[xp] && y != s.U[xp] && y != s.L[s.R[xp]] ::
      NodeShaped(s, y) && Agree(FarPainted(s, xp), Straightened(s, xp), y)
    requires InTree(Straightened(s, xp), y)
    ensures Balanced(Straightened(s, xp), y) && NoRedRed(Straightened(s, xp), y)
  {
    var t, w, g := Straightened(s, xp), s.R[xp], s.U[xp];
    {
      assert NodeShaped(t, y);
      if y == xp {
        StraightenedAtParent(s, x, xp);
      } else if y == w {
        StraightenedAtSibling(s, x, xp);
      } else if y == s.R[w] {
        StraightenedAtOuter(s, x, xp);
      } else if y == g {
        StraightenedAbove(s, x, xp);
      } else if y == s.L[w] {
        StraightenedAtInner(s, x, xp);
      } else {
        LooseAt(s, x, xp, true, y);
        StraightenedFar(s, xp, y);
        if y == x {
          RotatedLeftCells(FarPainted(s, xp), xp, x);
        }
      }
    }
  }

  /** Case 4 leaves a black root. */
  lemma StraightenedRoot(s: Snap, x: int, xp: int)
    requires LeftShort(s, x, xp) && StraightFrame(s, x, xp) && LeftRotatable(FarPainted(s, xp), xp)
    ensures var t := Straightened(s, xp); t.root != Nil && 0 <= t.root < |t.C| && !t.C[t.root]
  {
    var s1, w, g := FarPainted(s, xp), s.R[xp], s.U[xp];
    RotatedLeftCells(s1, xp, w);
    if g != Nil {
      assert NodeShaped(s, s.root);
      RotatedLeftCells(s1, xp, s.root);
    }
  }

  /**
    Case 4 on the left: a black sibling with a red outer child is rotated
    into `xp`'s place and takes its colour, while `xp` and the outer child turn
    black. The missing black node is made up, and the tree is a valid
    red-black tree again.
  */
  lemma OuterRedCase(s: Snap, x: int, xp: int)
    requires LeftShort(s, x, xp) && HoleFrame(s, x, xp) && OuterRed(s, xp)
    ensures 0 <= s.R[s.R[xp]] < |s.U| && s.Bh[xp] >= 1 && LeftRotatable(FarPainted(s, xp), xp)
    ensures Valid(Straightened(s, xp)) && Straightened(s, xp).Contents == s.Contents
  {
    StraightenedStructured(s, x, xp);
    StraightenedColours(s, x, xp);
    StraightenedRoot(s, x, xp);
  }
}
