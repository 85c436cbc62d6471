/**
  Cases 2 and 3 of the insert fix-up, when the red parent `p` of `cur` is the
  left child of the grandparent `g` and the uncle is black (or null). When
  `cur` is the inner grandchild (the right child of `p`), a left rotation at
  `p` swaps the two, which leaves the outer case. In the outer case `p` turns
  black and `g` red, and a right rotation at `g` lifts `p` into `g`'s place,
  after which no red node has a red parent.
*/
module RedBlackInsertLeft {
  import opened RedBlackSpec
  import opened RedBlackRotation
  import opened RedBlackInsertFix

  /**
    `cur` hangs under a red parent `p` on side `inner` (the right when true),
    `p` is the left child of `g`, and the uncle, `g`'s right child, is black or null.
  */
  ghost predicate UnderLeft(s: Snap, cur: int, inner: bool)
    requires Sized(s) && 0 <= cur < |s.U|
  {
    var p := s.U[cur];
    && 0 <= p < |s.U| && s.C[p] && (if inner then s.R[p] == cur else s.L[p] == cur)
    && 0 <= s.U[p] < |s.U| && s.L[s.U[p]] == p
    && (s.R[s.U[p]] == Nil || (0 <= s.R[s.U[p]] < |s.U| && !s.C[s.R[s.U[p]]]))
  }

  /**
    What the outer case needs to know about `cur`, its parent `p`, grandparent
    `g`, the subtree `b` that moves from `p` to `g`, the uncle and the
    grandparent's parent.
  */
  ghost predicate OuterFrame(s: Snap, cur: int, p: int, g: int)
    requires Indexed(s)
  {
    && InTree(s, cur) && InTree(s, p) && InTree(s, g)
    && NodeShaped(s, cur) && NodeShaped(s, p) && NodeShaped(s, g)
    && s.U[cur] == p && s.U[p] == g && s.L[p] == cur && s.L[g] == p
    && cur != p && cur != g && p != g && s.R[g] != p && s.R[p] != cur
    && s.C[cur] && s.C[p] && !s.C[g] && NoRedRed(s, cur)
    && (s.R[p] == Nil || !s.C[s.R[p]]) && (s.R[g] == Nil || !s.C[s.R[g]])
    && Balanced(s, p) && Balanced(s, g)
    && (s.R[p] != Nil ==> InTree(s, s.R[p]) && NodeShaped(s, s.R[p]))
    && (s.R[g] != Nil ==> InTree(s, s.R[g]) && NodeShaped(s, s.R[g]))
    && (s.U[g] != Nil ==>
          InTree(s, s.U[g]) && NodeShaped(s, s.U[g]) && Balanced(s, s.U[g]) && NoRedRed(s, s.U[g])
          && s.U[g] != cur)
  }

  /** The outer case's local facts, drawn from the fix-up invariant. */
  lemma OuterFrameOf(s: Snap, cur: int)
    requires FixingUp(s, cur) && UnderLeft(s, cur, false)
    ensures OuterFrame(s, cur, s.U[cur], s.U[s.U[cur]])
  {
    var p := s.U[cur];
    RedParent(s, cur);
    var g := s.U[p];
    ParentSpan(s, cur);
    ParentSpan(s, p);
    assert NoRedRed(s, cur) && Balanced(s, p) && Balanced(s, g);
    if s.R[p] != Nil {
      assert NodeShaped(s, s.R[p]);
    }
    if s.R[g] != Nil {
      assert NodeShaped(s, s.R[g]);
    }
    if s.U[g] != Nil {
      ParentSpan(s, g);
      assert Balanced(s, s.U[g]) && NoRedRed(s, s.U[g]);
    }
  }

  /** The arena after the outer case: repaint, then rotate right at the grandparent. */
  ghost function Outer(s: Snap, p: int, g: int): Snap
    requires Sized(s) && 0 <= p < |s.U| && 0 <= g < |s.U| && RightRotatable(Painted(s, p, g), g)
  {
    RotatedRight(Painted(s, p, g), g)
  }

  /** After the outer case, `p` is black over `cur` and `g`, both red and balanced. */
  lemma OuterAtParent(s: Snap, cur: int, p: int, g: int)
    requires Indexed(s) && OuterFrame(s, cur, p, g) && RightRotatable(Painted(s, p, g), g)
    requires Indexed(Outer(s, p, g)) && InTree(Outer(s, p, g), p) && NodeShaped(Outer(s, p, g), p)
    ensures Balanced(Outer(s, p, g), p) && NoRedRed(Outer(s, p, g), p) && !Outer(s, p, g).C[p]
  {
    var s2 := Painted(s, p, g);
    RotatedRightCells(s2, g, p);
    RotatedRightCells(s2, g, cur);
  }

  /** After the outer case, `g` is red over the moved subtree and the uncle, both black. */
  lemma OuterAtGrandparent(s: Snap, cur: int, p: int, g: int)
    requires Indexed(s) && OuterFrame(s, cur, p, g) && RightRotatable(Painted(s, p, g), g)
    requires Indexed(Outer(s, p, g)) && InTree(Outer(s, p, g), g) && NodeShaped(Outer(s, p, g), g)
    ensures Balanced(Outer(s, p, g), g) && NoRedRed(Outer(s, p, g), g)
  {
    var s2 := Painted(s, p, g);
    RotatedRightCells(s2, g, g);
    if s.R[p] != Nil {
      RotatedRightCells(s2, g, s.R[p]);
    }
    if s.R[g] != Nil {
      RotatedRightCells(s2, g, s.R[g]);
    }
  }

  /** Above the rotation, the black `p` stands where the black `g` stood. */
  lemma OuterAbove(s: Snap, cur: int, p: int, g: int)
    requires Indexed(s) && OuterFrame(s, cur, p, g) && RightRotatable(Painted(s, p, g), g) && s.U[g] != Nil
    requires Indexed(Outer(s, p, g)) && InTree(Outer(s, p, g), s.U[g]) && NodeShaped(Outer(s, p, g), s.U[g])
    ensures Balanced(Outer(s, p, g), s.U[g]) && NoRedRed(Outer(s, p, g), s.U[g])
  {
    var s2, gg := Painted(s, p, g), s.U[g];
    var o := if s.L[gg] == g then s.R[gg] else s.L[gg];
    RotatedRightCells(s2, g, gg);
    RotatedRightCells(s2, g, p);
    if o != Nil {
      assert o != g && o != p;
      RotatedRightCells(s2, g, o);
    }
  }

  /** The subtree that moves from `p` to `g` keeps its own colouring conditions. */
  lemma OuterAtInner(s: Snap, cur: int, p: int, g: int)
    requires Indexed(s) && OuterFrame(s, cur, p, g) && RightRotatable(Painted(s, p, g), g) && s.R[p] != Nil
    requires Indexed(Outer(s, p, g)) && InTree(Outer(s, p, g), s.R[p]) && NodeShaped(Outer(s, p, g), s.R[p])
    ensures Balanced(Outer(s, p, g), s.R[p]) == Balanced(s, s.R[p])
    ensures NoRedRed(Outer(s, p, g), s.R[p]) == NoRedRed(s, s.R[p])
  {
    var s2, t, b := Painted(s, p, g), Outer(s, p, g), s.R[p];
    RotatedRightCells(s2, g, b);
    if s.L[b] != Nil {
      RotatedRightCells(s2, g, s.L[b]);
    }
    if s.R[b] != Nil {
      RotatedRightCells(s2, g, s.R[b]);
    }
    assert SameColours(s, t, b);
    SameColoursTransfer(s, t, b);
  }

  /** Away from the rotation, repainting and rotating change no colouring condition. */
  lemma OuterFar(s: Snap, cur: int, p: int, g: int, x: int)
    requires Indexed(s) && OuterFrame(s, cur, p, g) && RightRotatable(Painted(s, p, g), g)
    requires Indexed(Painted(s, p, g)) && Indexed(Outer(s, p, g)) && Outer(s, p, g).Contents == s.Contents
    requires InTree(s, x) && NodeShaped(s, x) && x != g && x != p && x != s.U[g]
    requires Agree(Painted(s, p, g), Outer(s, p, g), x)
    ensures NodeShaped(Outer(s, p, g), x)
    ensures Balanced(Outer(s, p, g), x) == Balanced(s, x) && NoRedRed(Outer(s, p, g), x) == NoRedRed(s, x)
  {
    var s2 := Painted(s, p, g);
    assert SameColours(s, s2, x);
    SameColoursTransfer(s, s2, x);
    AgreeTransfer(s2, Outer(s, p, g), x);
  }

  /** The colouring conditions at any node after the outer case, by where the node sits. */
  lemma OuterAt(s: Snap, cur: int, p: int, g: int, x: int)
    requires Indexed(s) && OuterFrame(s, cur, p, g) && RightRotatable(Painted(s, p, g), g)
    requires Indexed(Painted(s, p, g)) && Indexed(Outer(s, p, g)) && Outer(s, p, g).Contents == s.Contents
    requires InTree(s, x) && NodeShaped(s, x) && InTree(Outer(s, p, g), x) && NodeShaped(Outer(s, p, g), x)
    requires x != p ==> Balanced(s, x) && NoRedRed(s, x)
    requires x != g && x != p && x != s.U[g] && x != s.R[p] ==> Agree(Painted(s, p, g), Outer(s, p, g), x)
    ensures Balanced(Outer(s, p, g), x) && NoRedRed(Outer(s, p, g), x)
  {
    if x == p {
      OuterAtParent(s, cur, p, g);
    } else if x == g {
      OuterAtGrandparent(s, cur, p, g);
    } else if x == s.U[g] {
      OuterAbove(s, cur, p, g);
    } else if x == s.R[p] {
      OuterAtInner(s, cur, p, g);
    } else {
      OuterFar(s, cur, p, g, x);
    }
  }

  /** The outer case keeps the tree structured; away from the rotation every node agrees. */
  lemma OuterStructured(s: Snap, cur: int)
    requires FixingUp(s, cur) && UnderLeft(s, cur, false)
    ensures var p := s.U[cur]; var g := s.U[p];
      && OuterFrame(s, cur, p, g) && RightRotatable(Painted(s, p, g), g)
      && Indexed(Painted(s, p, g)) && Structured(Outer(s, p, g)) && Outer(s, p, g).Contents == s.Contents
      && forall x | InTree(s, x) && x != g && x != p && x != s.U[g] && x != s.R[p] ::
           NodeShaped(s, x) && Agree(Painted(s, p, g), Outer(s, p, g), x)
  {
    var p := s.U[cur];
    var g := s.U[p];
    OuterFrameOf(s, cur);
    var s2 := Painted(s, p, g);
    RepaintedStructured(s, s2.C, s2.Bh);
    assert s.(C := s2.C, Bh := s2.Bh) == s2;
    RotateRightStructured(s2, g);
  }

  /** After the outer case every node is balanced and free of red-red edges. */
  lemma OuterColours(s: Snap, cur: int)
    requires FixingUp(s, cur) && UnderLeft(s, cur, false)
    requires var p := s.U[cur]; var g := s.U[p];
      && OuterFrame(s, cur, p, g) && RightRotatable(Painted(s, p, g), g)
      && Indexed(Painted(s, p, g)) && Structured(Outer(s, p, g)) && Outer(s, p, g).Contents == s.Contents
      && forall x | InTree(s, x) && x != g && x != p && x != s.U[g] && x != s.R[p] ::
           NodeShaped(s, x) && Agree(Painted(s, p, g), Outer(s, p, g), x)
    ensures var p := s.U[cur]; var g := s.U[p];
      forall x | InTree(Outer(s, p, g), x) :: NodeShaped(Outer(s, p, g), x) && Balanced(Outer(s, p, g), x) && NoRedRed(Outer(s, p, g), x)
  {
    var p := s.U[cur];
    var g := s.U[p];
    var t := Outer(s, p, g);
    forall x | InTree(t, x)
      ensures NodeShaped(t, x) && Balanced(t, x) && NoRedRed(t, x)
    {
      assert NodeShaped(t, x) && InTree(s, x) && NodeShaped(s, x);
      if x != p {
        assert Balanced(s, x) && NoRedRed(s, x);
      }
      OuterAt(s, cur, p, g, x);
    }
  }

  /** After the outer case `cur` is still red under `p`, now black, and the root is black. */
  lemma OuterTop(s: Snap, cur: int, p: int, g: int)
    requires Indexed(s) && OuterFrame(s, cur, p, g) && RightRotatable(Painted(s, p, g), g)
    requires s.U[g] != Nil ==> InTree(s, s.root) && s.U[s.root] == Nil && !s.C[s.root]
    ensures var t := Outer(s, p, g);
      && t.U[cur] == p && t.C[cur] && !t.C[p] && (t.root == cur || !t.C[t.root])
  {
    var s2 := Painted(s, p, g);
    RotatedRightCells(s2, g, cur);
    RotatedRightCells(s2, g, p);
    if s.U[g] != Nil {
      RotatedRightCells(s2, g, s.root);
    }
  }

  /**
    Case 3 on the left: after repainting and a right rotation at the
    grandparent, `cur` is red under a black parent, so the fix-up ends.
  */
  lemma OuterCase(s: Snap, cur: int)
    requires FixingUp(s, cur) && UnderLeft(s, cur, false)
    ensures var p := s.U[cur]; var g := s.U[p];
      && RightRotatable(Painted(s, p, g), g)
      && FixingUp(Outer(s, p, g), cur) && Outer(s, p, g).U[cur] == p && !Outer(s, p, g).C[p]
  {
    var p := s.U[cur];
    var g := s.U[p];
    OuterStructured(s, cur);
    OuterColours(s, cur);
    if s.U[g] != Nil {
      assert s.root != cur;
    }
    OuterTop(s, cur, p, g);
  }

  /**
    What the inner case needs to know about `cur`, its parent `p`, grandparent
    `g` and the subtree `b` that moves from `cur` to `p`.
  */
  ghost predicate InnerFrame(s: Snap, cur: int, p: int, g: int)
    requires Indexed(s)
  {
    && InTree(s, cur) && InTree(s, p) && InTree(s, g)
    && NodeShaped(s, cur) && NodeShaped(s, p) && NodeShaped(s, g)
    && s.U[cur] == p && s.U[p] == g && s.R[p] == cur && s.L[g] == p
    && cur != p && cur != g && p != g && s.L[p] != cur && s.R[g] != p && s.R[g] != cur
    && s.C[cur] && s.C[p] && !s.C[g] && NoRedRed(s, cur)
    && (s.L[p] == Nil || !s.C[s.L[p]]) && (s.R[g] == Nil || !s.C[s.R[g]])
    && Balanced(s, cur) && Balanced(s, p) && Balanced(s, g)
    && (s.L[cur] != Nil ==> InTree(s, s.L[cur]) && NodeShaped(s, s.L[cur]))
  }

  /** The inner case's local facts, drawn from the fix-up invariant. */
  lemma InnerFrameOf(s: Snap, cur: int)
    requires FixingUp(s, cur) && UnderLeft(s, cur, true)
    ensures InnerFrame(s, cur, s.U[cur], s.U[s.U[cur]])
  {
    var p := s.U[cur];
    RedParent(s, cur);
    var g := s.U[p];
    ParentSpan(s, cur);
    ParentSpan(s, p);
    assert NoRedRed(s, cur) && Balanced(s, cur) && Balanced(s, p) && Balanced(s, g);
    if s.L[cur] != Nil {
      assert NodeShaped(s, s.L[cur]);
    }
  }

  /** After the inner rotation, `p` is red over two black subtrees of equal black height. */
  lemma InnerAtParent(s: Snap, cur: int, p: int, g: int)
    requires Indexed(s) && InnerFrame(s, cur, p, g) && LeftRotatable(s, p)
    requires Indexed(RotatedLeft(s, p)) && InTree(RotatedLeft(s, p), p) && NodeShaped(RotatedLeft(s, p), p)
    ensures Balanced(RotatedLeft(s, p), p) && NoRedRed(RotatedLeft(s, p), p)
  {
    RotatedLeftCells(s, p, p);
    if s.L[p] != Nil {
      RotatedLeftCells(s, p, s.L[p]);
    }
    if s.L[cur] != Nil {
      RotatedLeftCells(s, p, s.L[cur]);
    }
  }

  /** After the inner rotation, `cur` is balanced over `p` and its old right subtree. */
  lemma InnerAtCur(s: Snap, cur: int, p: int, g: int)
    requires Indexed(s) && InnerFrame(s, cur, p, g) && LeftRotatable(s, p)
    requires Indexed(RotatedLeft(s, p)) && InTree(RotatedLeft(s, p), cur) && NodeShaped(RotatedLeft(s, p), cur)
    ensures Balanced(RotatedLeft(s, p), cur)
  {
    RotatedLeftCells(s, p, cur);
    RotatedLeftCells(s, p, p);
    if s.R[cur] != Nil {
      RotatedLeftCells(s, p, s.R[cur]);
    }
  }

  /** After the inner rotation, `g` has `cur` where it had `p`, of the same black height. */
  lemma InnerAtGrandparent(s: Snap, cur: int, p: int, g: int)
    requires Indexed(s) && InnerFrame(s, cur, p, g) && LeftRotatable(s, p)
    requires Indexed(RotatedLeft(s, p)) && InTree(RotatedLeft(s, p), g) && NodeShaped(RotatedLeft(s, p), g)
    ensures Balanced(RotatedLeft(s, p), g) && NoRedRed(RotatedLeft(s, p), g)
  {
    RotatedLeftCells(s, p, g);
    RotatedLeftCells(s, p, cur);
    if s.R[g] != Nil {
      RotatedLeftCells(s, p, s.R[g]);
    }
  }

  /** The subtree that moves from `cur` to `p` keeps its own colouring conditions. */
  lemma InnerAtInner(s: Snap, cur: int, p: int, g: int)
    requires Indexed(s) && InnerFrame(s, cur, p, g) && LeftRotatable(s, p) && s.L[cur] != Nil
    requires Indexed(RotatedLeft(s, p)) && InTree(RotatedLeft(s, p), s.L[cur])
    requires NodeShaped(RotatedLeft(s, p), s.L[cur])
    ensures Balanced(RotatedLeft(s, p), s.L[cur]) == Balanced(s, s.L[cur])
    ensures NoRedRed(RotatedLeft(s, p), s.L[cur]) == NoRedRed(s, s.L[cur])
  {
    var t, b := RotatedLeft(s, p), s.L[cur];
    RotatedLeftCells(s, p, b);
    assert SameColours(s, t, b);
    SameColoursTransfer(s, t, b);
  }

  /** The colouring conditions at any node after the inner rotation, by where the node sits. */
  lemma InnerAt(s: Snap, cur: int, p: int, g: int, x: int)
    requires Indexed(s) && InnerFrame(s, cur, p, g) && LeftRotatable(s, p)
    requires Indexed(RotatedLeft(s, p)) && RotatedLeft(s, p).Contents == s.Contents
    requires InTree(s, x) && NodeShaped(s, x) && InTree(RotatedLeft(s, p), x) && NodeShaped(RotatedLeft(s, p), x)
    requires x != p ==> Balanced(s, x) && NoRedRed(s, x)
    requires x != g && x != p && x != cur && x != s.L[cur] ==> Agree(s, RotatedLeft(s, p), x)
    ensures Balanced(RotatedLeft(s, p), x) && (x != cur ==> NoRedRed(RotatedLeft(s, p), x))
  {
    if x == p {
      InnerAtParent(s, cur, p, g);
    } else if x == cur {
      InnerAtCur(s, cur, p, g);
    } else if x == g {
      InnerAtGrandparent(s, cur, p, g);
    } else if x == s.L[cur] {
      InnerAtInner(s, cur, p, g);
    } else {
      AgreeTransfer(s, RotatedLeft(s, p), x);
    }
  }

  /** The inner rotation keeps the tree structured; away from it every node agrees. */
  lemma InnerStructured(s: Snap, cur: int)
    requires FixingUp(s, cur) && UnderLeft(s, cur, true)
    ensures var p := s.U[cur]; var g := s.U[p];
      && InnerFrame(s, cur, p, g) && LeftRotatable(s, p)
      && Structured(RotatedLeft(s, p)) && RotatedLeft(s, p).Contents == s.Contents
      && forall x | InTree(s, x) && x != g && x != p && x != cur && x != s.L[cur] ::
           NodeShaped(s, x) && Agree(s, RotatedLeft(s, p), x)
  {
    var p := s.U[cur];
    InnerFrameOf(s, cur);
    RotateLeftStructured(s, p);
  }

  /** After the inner rotation every node is balanced, and all but `cur` free of red-red edges. */
  lemma InnerColours(s: Snap, cur: int)
    requires FixingUp(s, cur) && UnderLeft(s, cur, true)
    requires var p := s.U[cur]; var g := s.U[p];
      && InnerFrame(s, cur, p, g) && LeftRotatable(s, p)
      && Structured(RotatedLeft(s, p)) && RotatedLeft(s, p).Contents == s.Contents
      && forall x | InTree(s, x) && x != g && x != p && x != cur && x != s.L[cur] ::
           NodeShaped(s, x) && Agree(s, RotatedLeft(s, p), x)
    ensures var t := RotatedLeft(s, s.U[cur]);
      forall x | InTree(t, x) :: NodeShaped(t, x) && Balanced(t, x) && (x != cur ==> NoRedRed(t, x))
  {
    var p := s.U[cur];
    var g := s.U[p];
    var t := RotatedLeft(s, p);
    forall x | InTree(t, x)
      ensures NodeShaped(t, x) && Balanced(t, x) && (x != cur ==> NoRedRed(t, x))
    {
      assert NodeShaped(t, x) && InTree(s, x) && NodeShaped(s, x);
      if x != p {
        assert Balanced(s, x) && NoRedRed(s, x);
      }
      InnerAt(s, cur, p, g, x);
    }
  }

  /**
    After the inner rotation `p` is red under `cur`, also red, and `cur` is
    the left child of `g` with the same black uncle; the root is unchanged.
  */
  lemma InnerTop(s: Snap, cur: int, p: int, g: int)
    requires Indexed(s) && InnerFrame(s, cur, p, g) && LeftRotatable(s, p)
    requires InTree(s, s.root) && s.U[s.root] == Nil && !s.C[s.root]
    ensures var t := RotatedLeft(s, p);
      && t.U[p] == cur && t.U[cur] == g && t.L[cur] == p && t.L[g] == cur && t.R[g] == s.R[g]
      && t.C == s.C && t.R[cur] == s.R[cur] && t.root == s.root
  {
    RotatedLeftCells(s, p, p);
    RotatedLeftCells(s, p, cur);
    RotatedLeftCells(s, p, g);
  }

  /**
    Case 2 on the left: `cur` is the inner grandchild. A left rotation at the
    parent makes the old parent the red child of `cur`, on the outer side, and
    the fix-up continues from it.
  */
  lemma InnerCase(s: Snap, cur: int)
    requires FixingUp(s, cur) && UnderLeft(s, cur, true)
    ensures 0 <= s.U[cur] < |s.U| && LeftRotatable(s, s.U[cur])
    ensures var p := s.U[cur]; var t := RotatedLeft(s, p);
      && FixingUp(t, p) && UnderLeft(t, p, false) && t.U[p] == cur && t.U[cur] == s.U[p]
  {
    var p := s.U[cur];
    var g := s.U[p];
    InnerStructured(s, cur);
    InnerColours(s, cur);
    assert s.root != cur && s.root != p;
    InnerTop(s, cur, p, g);
    var t := RotatedLeft(s, p);
    assert NoRedRed(s, cur);
  }
}
