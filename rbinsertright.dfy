/**
  Cases 2 and 3 of the insert fix-up, when the red parent `p` of `cur` is the
  right child of the grandparent `g` and the uncle is black (or null). When
  `cur` is the inner grandchild (the left child of `p`), a right rotation at
  `p` swaps the two, which leaves the outer case. In the outer case `p` turns
  black and `g` red, and a left rotation at `g` lifts `p` into `g`'s place,
  after which no red node has a red parent.
*/
module RedBlackInsertRight {
  import opened RedBlackSpec
  import opened RedBlackRotation
  import opened RedBlackInsertFix

  /**
    `cur` hangs under a red parent `p` on side `inner` (the left when true),
    `p` is the right child of `g`, and the uncle, `g`'s left child, is black or null.
  */
  ghost predicate UnderRight(s: Snap, cur: int, inner: bool)
    requires Sized(s) && 0 <= cur < |s.U|
  {
    var p := s.U[cur];
    && 0 <= p < |s.U| && s.C[p] && (if inner then s.L[p] == cur else s.R[p] == cur)
    && 0 <= s.U[p] < |s.U| && s.R[s.U[p]] == p
    && (s.L[s.U[p]] == Nil || (0 <= s.L[s.U[p]] < |s.U| && !s.C[s.L[s.U[p]]]))
  }

  /**
    What the outer case needs to know about `cur`, its parent `p`, grandparent
    `g`, the subtree `b` that moves from `p` to `g`, the uncle and the
    grandparent's parent.
  */
  ghost predicate OuterFrame(s: Snap, cur: int, p: int, g: int)
    requires Indexed(s)
  {
    && InTree(s, cur) && InTree(s, p) && InTree(s, g)
    && NodeShaped(s, cur) && NodeShaped(s, p) && NodeShaped(s, g)
    && s.U[cur] == p && s.U[p] == g && s.R[p] == cur && s.R[g] == p
    && cur != p && cur != g && p != g && s.L[g] != p && s.L[p] != cur
    && s.C[cur] && s.C[p] && !s.C[g] && NoRedRed(s, cur)
    && (s.L[p] == Nil || !s.C[s.L[p]]) && (s.L[g] == Nil || !s.C[s.L[g]])
    && Balanced(s, p) && Balanced(s, g)
    && (s.L[p] != Nil ==> InTree(s, s.L[p]) && NodeShaped(s, s.L[p]))
    && (s.L[g] != Nil ==> InTree(s, s.L[g]) && NodeShaped(s, s.L[g]))
    && (s.U[g] != Nil ==>
          InTree(s, s.U[g]) && NodeShaped(s, s.U[g]) && Balanced(s, s.U[g]) && NoRedRed(s, s.U[g])
          && s.U[g] != cur)
  }

  /** The outer case's local facts, drawn from the fix-up invariant. */
  lemma OuterFrameOf(s: Snap, cur: int)
    requires FixingUp(s, cur) && UnderRight(s, cur, false)
    ensures OuterFrame(s, cur, s.U[cur], s.U[s.U[cur]])
  {
    var p := s.U[cur];
    RedParent(s, cur);
    var g := s.U[p];
    ParentSpan(s, cur);
    ParentSpan(s, p);
    assert NoRedRed(s, cur) && Balanced(s, p) && Balanced(s, g);
    if s.L[p] != Nil {
      assert NodeShaped(s, s.L[p]);
    }
    if s.L[g] != Nil {
      assert NodeShaped(s, s.L[g]);
    }
    if s.U[g] != Nil {
      ParentSpan(s, g);
      assert Balanced(s, s.U[g]) && NoRedRed(s, s.U[g]);
    }
  }

  /** The arena after the outer case: repaint, then rotate left at the grandparent. */
  ghost function Outer(s: Snap, p: int, g: int): Snap
    requires Sized(s) && 0 <= p < |s.U| && 0 <= g < |s.U| && LeftRotatable(Painted(s, p, g), g)
  {
    RotatedLeft(Painted(s, p, g), g)
  }

  /** After the outer case, `p` is black over `cur` and `g`, both red and balanced. */
  lemma OuterAtParent(s: Snap, cur: int, p: int, g: int)
    requires Indexed(s) && OuterFrame(s, cur, p, g) && LeftRotatable(Painted(s, p, g), g)
    requires Indexed(Outer(s, p, g)) && InTree(Outer(s, p, g), p) && NodeShaped(Outer(s, p, g), p)
    ensures Balanced(Outer(s, p, g), p) && NoRedRed(Outer(s, p, g), p) && !Outer(s, p, g).C[p]
  {
    var s2 := Painted(s, p, g);
    RotatedLeftCells(s2, g, p);
    RotatedLeftCells(s2, g, cur);
  }

  /** After the outer case, `g` is red over the moved subtree and the uncle, both black. */
  lemma OuterAtGrandparent(s: Snap, cur: int, p: int, g: int)
    requires Indexed(s) && OuterFrame(s, cur, p, g) && LeftRotatable(Painted(s, p, g), g)
    requires Indexed(Outer(s, p, g)) && InTree(Outer(s, p, g), g) && NodeShaped(Outer(s, p, g), g)
    ensures Balanced(Outer(s, p, g), g) && NoRedRed(Outer(s, p, g), g)
  {
    var s2 := Painted(s, p, g);
    RotatedLeftCells(s2, g, g);
    if s.L[p] != Nil {
      RotatedLeftCells(s2, g, s.L[p]);
    }
    if s.L[g] != Nil {
      RotatedLeftCells(s2, g, s.L[g]);
    }
  }

  /** Above the rotation, the black `p` stands where the black `g` stood. */
  lemma OuterAbove(s: Snap, cur: int, p: int, g: int)
    requires Indexed(s) && OuterFrame(s, cur, p, g) && LeftRotatable(Painted(s, p, g), g) && s.U[g] != Nil
    requires Indexed(Outer(s, p, g)) && InTree(Outer(s, p, g), s.U[g]) && NodeShaped(Outer(s, p, g), s.U[g])
    ensures Balanced(Outer(s, p, g), s.U[g]) && NoRedRed(Outer(s, p, g), s.U[g])
  {
    var s2, gg := Painted(s, p, g), s.U[g];
    var o := if s.R[gg] == g then s.L[gg] else s.R[gg];
    RotatedLeftCells(s2, g, gg);
    RotatedLeftCells(s2, g, p);
    if o != Nil {
      assert o != g && o != p;
      RotatedLeftCells(s2, g, o);
    }
  }

  /** The subtree that moves from `p` to `g` keeps its own colouring conditions. */
  lemma OuterAtInner(s: Snap, cur: int, p: int, g: int)
    requires Indexed(s) && OuterFrame(s, cur, p, g) && LeftRotatable(Painted(s, p, g), g) && s.L[p] != Nil
    requires Indexed(Outer(s, p, g)) && InTree(Outer(s, p, g), s.L[p]) && NodeShaped(Outer(s, p, g), s.L[p])
    ensures Balanced(Outer(s, p, g), s.L[p]) == Balanced(s, s.L[p])
    ensures NoRedRed(Outer(s, p, g), s.L[p]) == NoRedRed(s, s.L[p])
  {
    var s2, t, b := Painted(s, p, g), Outer(s, p, g), s.L[p];
    RotatedLeftCells(s2, g, b);
    if s.R[b] != Nil {
      RotatedLeftCells(s2, g, s.R[b]);
    }
    if s.L[b] != Nil {
      RotatedLeftCells(s2, g, s.L[b]);
    }
    assert SameColours(s, t, b);
    SameColoursTransfer(s, t, b);
  }

  /** Away from the rotation, repainting and rotating change no colouring condition. */
  lemma OuterFar(s: Snap, cur: int, p: int, g: int, x: int)
    requires Indexed(s) && OuterFrame(s, cur, p, g) && LeftRotatable(Painted(s, p, g), g)
    requires Indexed(Painted(s, p, g)) && Indexed(Outer(s, p, g)) && Outer(s, p, g).Contents == s.Contents
    requires InTree(s, x) && NodeShaped(s, x) && x != g && x != p && x != s.U[g]
    requires Agree(Painted(s, p, g), Outer(s, p, g), x)
    ensures NodeShaped(Outer(s, p, g), x)
    ensures Balanced(Outer(s, p, g), x) == Balanced(s, x) && NoRedRed(Outer(s, p, g), x) == NoRedRed(s, x)
  {
    var s2 := Painted(s, p, g);
    assert SameColours(s, s2, x);
    SameColoursTransfer(s, s2, x);
    AgreeTransfer(s2, Outer(s, p, g), x);
  }

  /** The colouring conditions at any node after the outer case, by where the node sits. */
  lemma OuterAt(s: Snap, cur: int, p: int, g: int, x: int)
    requires Indexed(s) && OuterFrame(s, cur, p, g) && LeftRotatable(Painted(s, p, g), g)
    requires Indexed(Painted(s, p, g)) && Indexed(Outer(s, p, g)) && Outer(s, p, g).Contents == s.Contents
    requires InTree(s, x) && NodeShaped(s, x) && InTree(Outer(s, p, g), x) && NodeShaped(Outer(s, p, g), x)
    requires x != p ==> Balanced(s, x) && NoRedRed(s, x)
    requires x != g && x != p && x != s.U[g] && x != s.L[p] ==> Agree(Painted(s, p, g), Outer(s, p, g), x)
    ensures Balanced(Outer(s, p, g), x) && NoRedRed(Outer(s, p, g), x)
  {
    if x == p {
      OuterAtParent(s, cur, p, g);
    } else if x == g {
      OuterAtGrandparent(s, cur, p, g);
    } else if x == s.U[g] {
      OuterAbove(s, cur, p, g);
    } else if x == s.L[p] {
      OuterAtInner(s, cur, p, g);
    } else {
      OuterFar(s, cur, p, g, x);
    }
  }

  /** The outer case keeps the tree structured; away from the rotation every node agrees. */
  lemma OuterStructured(s: Snap, cur: int)
    requires FixingUp(s, cur) && UnderRight(s, cur, false)
    ensures var p := s.U[cur]; var g := s.U[p];
      && OuterFrame(s, cur, p, g) && LeftRotatable(Painted(s, p, g), g)
      && Indexed(Painted(s, p, g)) && Structured(Outer(s, p, g)) && Outer(s, p, g).Contents == s.Contents
      && forall x | InTree(s, x) && x != g && x != p && x != s.U[g] && x != s.L[p] ::
           NodeShaped(s, x) && Agree(Painted(s, p, g), Outer(s, p, g), x)
  {
    var p := s.U[cur];
    var g := s.U[p];
    OuterFrameOf(s, cur);
    var s2 := Painted(s, p, g);
    RepaintedStructured(s, s2.C, s2.Bh);
    assert s.(C := s2.C, Bh := s2.Bh) == s2;
    RotateLeftStructured(s2, g);
  }

  /** After the outer case every node is balanced and free of red-red edges. */
  lemma OuterColours(s: Snap, cur: int)
    requires FixingUp(s, cur) && UnderRight(s, cur, false)
    requires var p := s.U[cur]; var g := s.U[p];
      && OuterFrame(s, cur, p, g) && LeftRotatable(Painted(s, p, g), g)
      && Indexed(Painted(s, p, g)) && Structured(Outer(s, p, g)) && Outer(s, p, g).Contents == s.Contents
      && forall x | InTree(s, x) && x != g && x != p && x != s.U[g] && x != s.L[p] ::
           NodeShaped(s, x) && Agree(Painted(s, p, g), Outer(s, p, g), x)
    ensures var p := s.U[cur]; var g := s.U[p];
      forall x | InTree(Outer(s, p, g), x) :: NodeShaped(Outer(s, p, g), x) && Balanced(Outer(s, p, g), x) && NoRedRed(Outer(s, p, g), x)
  {
    var p := s.U[cur];
    var g := s.U[p];
    var t := Outer(s, p, g);
    forall x | InTree(t, x)
      ensures NodeShaped(t, x) && Balanced(t, x) && NoRedRed(t, x)
    {
      assert NodeShaped(t, x) && InTree(s, x) && NodeShaped(s, x);
      if x != p {
        assert Balanced(s, x) && NoRedRed(s, x);
      }
      OuterAt(s, cur, p, g, x);
    }
  }

  /** After the outer case `cur` is still red under `p`, now black, and the root is black. */
  lemma OuterTop(s: Snap, cur: int, p: int, g: int)
    requires Indexed(s) && OuterFrame(s, cur, p, g) && LeftRotatable(Painted(s, p, g), g)
    requires s.U[g] != Nil ==> InTree(s, s.root) && s.U[s.root] == Nil && !s.C[s.root]
    ensures var t := Outer(s, p, g);
      && t.U[cur] == p && t.C[cur] && !t.C[p] && (t.root == cur || !t.C[t.root])
  {
    var s2 := Painted(s, p, g);
    RotatedLeftCells(s2, g, cur);
    RotatedLeftCells(s2, g, p);
    if s.U[g] != Nil {
      RotatedLeftCells(s2, g, s.root);
    }
  }

  /**
    Case 3 on the right: after repainting and a left rotation at the
    grandparent, `cur` is red under a black parent, so the fix-up ends.
  */
  lemma OuterCase(s: Snap, cur: int)
    requires FixingUp(s, cur) && UnderRight(s, cur, false)
    ensures var p := s.U[cur]; var g := s.U[p];
      && LeftRotatable(Painted(s, p, g), g)
      && FixingUp(Outer(s, p, g), cur) && Outer(s, p, g).U[cur] == p && !Outer(s, p, g).C[p]
  {
    var p := s.U[cur];
    var g := s.U[p];
    OuterStructured(s, cur);
    OuterColours(s, cur);
    if s.U[g] != Nil {
      assert s.root != cur;
    }
    OuterTop(s, cur, p, g);
  }

  /**
    What the inner case needs to know about `cur`, its parent `p`, grandparent
    `g` and the subtree `b` that moves from `cur` to `p`.
  */
  ghost predicate InnerFrame(s: Snap, cur: int, p: int, g: int)
    requires Indexed(s)
  {
    && InTree(s, cur) && InTree(s, p) && InTree(s, g)
    && NodeShaped(s, cur) && NodeShaped(s, p) && NodeShaped(s, g)
    && s.U[cur] == p && s.U[p] == g && s.L[p] == cur && s.R[g] == p
    && cur != p && cur != g && p != g && s.R[p] != cur && s.L[g] != p && s.L[g] != cur
    && s.C[cur] && s.C[p] && !s.C[g] && NoRedRed(s, cur)
    && (s.R[p] == Nil || !s.C[s.R[p]]) && (s.L[g] == Nil || !s.C[s.L[g]])
    && Balanced(s, cur) && Balanced(s, p) && Balanced(s, g)
    && (s.R[cur] != Nil ==> InTree(s, s.R[cur]) && NodeShaped(s, s.R[cur]))
  }

  /** The inner case's local facts, drawn from the fix-up invariant. */
  lemma InnerFrameOf(s: Snap, cur: int)
    requires FixingUp(s, cur) && UnderRight(s, cur, true)
    ensures InnerFrame(s, cur, s.U[cur], s.U[s.U[cur]])
  {
    var p := s.U[cur];
    RedParent(s, cur);
    var g := s.U[p];
    ParentSpan(s, cur);
    ParentSpan(s, p);
    assert NoRedRed(s, cur) && Balanced(s, cur) && Balanced(s, p) && Balanced(s, g);
    if s.R[cur] != Nil {
      assert NodeShaped(s, s.R[cur]);
    }
  }

  /** After the inner rotation, `p` is red over two black subtrees of equal black height. */
  lemma InnerAtParent(s: Snap, cur: int, p: int, g: int)
    requires Indexed(s) && InnerFrame(s, cur, p, g) && RightRotatable(s, p)
    requires Indexed(RotatedRight(s, p)) && InTree(RotatedRight(s, p), p) && NodeShaped(RotatedRight(s, p), p)
    ensures Balanced(RotatedRight(s, p), p) && NoRedRed(RotatedRight(s, p), p)
  {
    RotatedRightCells(s, p, p);
    if s.R[p] != Nil {
      RotatedRightCells(s, p, s.R[p]);
    }
    if s.R[cur] != Nil {
      RotatedRightCells(s, p, s.R[cur]);
    }
  }

  /** After the inner rotation, `cur` is balanced over `p` and its old left subtree. */
  lemma InnerAtCur(s: Snap, cur: int, p: int, g: int)
    requires Indexed(s) && InnerFrame(s, cur, p, g) && RightRotatable(s, p)
    requires Indexed(RotatedRight(s, p)) && InTree(RotatedRight(s, p), cur) && NodeShaped(RotatedRight(s, p), cur)
    ensures Balanced(RotatedRight(s, p), cur)
  {
    RotatedRightCells(s, p, cur);
    RotatedRightCells(s, p, p);
    if s.L[cur] != Nil {
      RotatedRightCells(s, p, s.L[cur]);
    }
  }

  /** After the inner rotation, `g` has `cur` where it had `p`, of the same black height. */
  lemma InnerAtGrandparent(s: Snap, cur: int, p: int, g: int)
    requires Indexed(s) && InnerFrame(s, cur, p, g) && RightRotatable(s, p)
    requires Indexed(RotatedRight(s, p)) && InTree(RotatedRight(s, p), g) && NodeShaped(RotatedRight(s, p), g)
    ensures Balanced(RotatedRight(s, p), g) && NoRedRed(RotatedRight(s, p), g)
  {
    RotatedRightCells(s, p, g);
    RotatedRightCells(s, p, cur);
    if s.L[g] != Nil {
      RotatedRightCells(s, p, s.L[g]);
    }
  }

  /** The subtree that moves from `cur` to `p` keeps its own colouring conditions. */
  lemma InnerAtInner(s: Snap, cur: int, p: int, g: int)
    requires Indexed(s) && InnerFrame(s, cur, p, g) && RightRotatable(s, p) && s.R[cur] != Nil
    requires Indexed(RotatedRight(s, p)) && InTree(RotatedRight(s, p), s.R[cur])
    requires NodeShaped(RotatedRight(s, p), s.R[cur])
    ensures Balanced(RotatedRight(s, p), s.R[cur]) == Balanced(s, s.R[cur])
    ensures NoRedRed(RotatedRight(s, p), s.R[cur]) == NoRedRed(s, s.R[cur])
  {
    var t, b := RotatedRight(s, p), s.R[cur];
    RotatedRightCells(s, p, b);
    assert SameColours(s, t, b);
    SameColoursTransfer(s, t, b);
  }

  /** The colouring conditions at any node after the inner rotation, by where the node sits. */
  lemma InnerAt(s: Snap, cur: int, p: int, g: int, x: int)
    requires Indexed(s) && InnerFrame(s, cur, p, g) && RightRotatable(s, p)
    requires Indexed(RotatedRight(s, p)) && RotatedRight(s, p).Contents == s.Contents
    requires InTree(s, x) && NodeShaped(s, x) && InTree(RotatedRight(s, p), x) && NodeShaped(RotatedRight(s, p), x)
    requires x != p ==> Balanced(s, x) && NoRedRed(s, x)
    requires x != g && x != p && x != cur && x != s.R[cur] ==> Agree(s, RotatedRight(s, p), x)
    ensures Balanced(RotatedRight(s, p), x) && (x != cur ==> NoRedRed(RotatedRight(s, p), x))
  {
    if x == p {
      InnerAtParent(s, cur, p, g);
    } else if x == cur {
      InnerAtCur(s, cur, p, g);
    } else if x == g {
      InnerAtGrandparent(s, cur, p, g);
    } else if x == s.R[cur] {
      InnerAtInner(s, cur, p, g);
    } else {
      AgreeTransfer(s, RotatedRight(s, p), x);
    }
  }

  /** The inner rotation keeps the tree structured; away from it every node agrees. */
  lemma InnerStructured(s: Snap, cur: int)
    requires FixingUp(s, cur) && UnderRight(s, cur, true)
    ensures var p := s.U[cur]; var g := s.U[p];
      && InnerFrame(s, cur, p, g) && RightRotatable(s, p)
      && Structured(RotatedRight(s, p)) && RotatedRight(s, p).Contents == s.Contents
      && forall x | InTree(s, x) && x != g && x != p && x != cur && x != s.R[cur] ::
           NodeShaped(s, x) && Agree(s, RotatedRight(s, p), x)
  {
    var p := s.U[cur];
    InnerFrameOf(s, cur);
    RotateRightStructured(s, p);
  }

  /** After the inner rotation every node is balanced, and all but `cur` free of red-red edges. */
  lemma InnerColours(s: Snap, cur: int)
    requires FixingUp(s, cur) && UnderRight(s, cur, true)
    requires var p := s.U[cur]; var g := s.U[p];
      && InnerFrame(s, cur, p, g) && RightRotatable(s, p)
      && Structured(RotatedRight(s, p)) && RotatedRight(s, p).Contents == s.Contents
      && forall x | InTree(s, x) && x != g && x != p && x != cur && x != s.R[cur] ::
           NodeShaped(s, x) && Agree(s, RotatedRight(s, p), x)
    ensures var t := RotatedRight(s, s.U[cur]);
      forall x | InTree(t, x) :: NodeShaped(t, x) && Balanced(t, x) && (x != cur ==> NoRedRed(t, x))
  {
    var p := s.U[cur];
    var g := s.U[p];
    var t := RotatedRight(s, p);
    forall x | InTree(t, x)
      ensures NodeShaped(t, x) && Balanced(t, x) && (x != cur ==> NoRedRed(t, x))
    {
      assert NodeShaped(t, x) && InTree(s, x) && NodeShaped(s, x);
      if x != p {
        assert Balanced(s, x) && NoRedRed(s, x);
      }
      InnerAt(s, cur, p, g, x);
    }
  }

  /**
    After the inner rotation `p` is red under `cur`, also red, and `cur` is
    the right child of `g` with the same black uncle; the root is unchanged.
  */
  lemma InnerTop(s: Snap, cur: int, p: int, g: int)
    requires Indexed(s) && InnerFrame(s, cur, p, g) && RightRotatable(s, p)
    requires InTree(s, s.root) && s.U[s.root] == Nil && !s.C[s.root]
    ensures var t := RotatedRight(s, p);
      && t.U[p] == cur && t.U[cur] == g && t.R[cur] == p && t.R[g] == cur && t.L[g] == s.L[g]
      && t.C == s.C && t.L[cur] == s.L[cur] && t.root == s.root
  {
    RotatedRightCells(s, p, p);
    RotatedRightCells(s, p, cur);
    RotatedRightCells(s, p, g);
  }

  /**
    Case 2 on the right: `cur` is the inner grandchild. A right rotation at the
    parent makes the old parent the red child of `cur`, on the outer side, and
    the fix-up continues from it.
  */
  lemma InnerCase(s: Snap, cur: int)
    requires FixingUp(s, cur) && UnderRight(s, cur, true)
    ensures 0 <= s.U[cur] < |s.U| && RightRotatable(s, s.U[cur])
    ensures var p := s.U[cur]; var t := RotatedRight(s, p);
      && FixingUp(t, p) && UnderRight(t, p, false) && t.U[p] == cur && t.U[cur] == s.U[p]
  {
    var p := s.U[cur];
    var g := s.U[p];
    InnerStructured(s, cur);
    InnerColours(s, cur);
    assert s.root != cur && s.root != p;
    InnerTop(s, cur, p, g);
    var t := RotatedRight(s, p);
    assert NoRedRed(s, cur);
  }
}
