/**
  The second half of the red-black tree's insert: restoring the colouring
  after a red leaf has been attached. While the current node `cur` has a red
  parent, either the red uncle lets the colours move two levels up (case 1),
  or one or two rotations around the grandparent end the walk (cases 2 and 3,
  on either side).
*/
module RedBlackInsertFix {
  import opened RedBlackSpec
  import opened RedBlackRotation
  import opened RedBlackAttach

  /**
    The loop invariant of the insert fix-up: the tree is structured and
    balanced, `cur` is red, the only red-red edge is the one from `cur`'s
    parent to `cur`, and the root is black unless it is `cur`.
  */
  ghost predicate FixingUp(s: Snap, cur: int) {
    && Structured(s) && InTree(s, cur) && NodeShaped(s, cur) && s.C[cur]
    && (forall x {:trigger Balanced(s, x)} | InTree(s, x) :: Balanced(s, x))
    && (forall x {:trigger NoRedRed(s, x)} | InTree(s, x) && x != s.U[cur] :: NoRedRed(s, x))
    && (s.U[cur] != Nil ==>
          NodeShaped(s, s.U[cur])
          && (s.C[s.U[cur]] ==> Sibling(s, s.U[cur], cur) == Nil || !s.C[Sibling(s, s.U[cur], cur)]))
    && (s.root == cur || !s.C[s.root])
  }

  /** In a structured tree, the parent's span strictly contains each child's. */
  lemma ParentSpan(s: Snap, x: int)
    requires Structured(s) && InTree(s, x) && s.U[x] != Nil
    ensures NodeShaped(s, x) && InTree(s, s.U[x]) && NodeShaped(s, s.U[x])
    ensures s.Lo[s.U[x]] <= s.Lo[x] && s.Hi[x] <= s.Hi[s.U[x]] && s.Hi[x] - s.Lo[x] < s.Hi[s.U[x]] - s.Lo[s.U[x]]
    ensures s.Pos[s.U[x]] < s.Lo[x] || s.Hi[x] < s.Pos[s.U[x]]
  {
    assert NodeShaped(s, x);
    assert NodeShaped(s, s.U[x]);
  }

  /** The freshly attached red leaf starts the fix-up. */
  lemma AttachedFixingUp(s: Snap, node: int, parent: int, right: bool)
    requires Attachable(s, node, parent, right) && Valid(s)
    ensures FixingUp(Attached(s, node, parent, right), node)
    ensures Attached(s, node, parent, right).U[node] == parent
  {
    var t := Attached(s, node, parent, right);
    AttachedStructured(s, node, parent, right);
    AttachedLinks(s, node, parent, right, node);
    forall x | InTree(t, x)
      ensures Balanced(t, x) && (x != parent ==> NoRedRed(t, x))
    {
      if x != node {
        AttachedNumbers(s, node, parent, right, x);
        assert Balanced(s, x) && NoRedRed(s, x);
      }
    }
    if parent != Nil {
      AttachedLinks(s, node, parent, right, parent);
      assert NoRedRed(s, parent);
      var sib := Sibling(t, parent, node);
      if sib != Nil {
        AttachedLinks(s, node, parent, right, sib);
      }
      AttachedLinks(s, node, parent, right, s.root);
    }
  }

  /**
    A red parent of `cur` is not the root, so it has a parent of its own,
    and that grandparent is black.
  */
  lemma RedParent(s: Snap, cur: int)
    requires FixingUp(s, cur) && s.U[cur] != Nil && s.C[s.U[cur]]
    ensures var p := s.U[cur];
      && InTree(s, p) && NodeShaped(s, p) && p != cur && (s.L[p] == cur || s.R[p] == cur)
      && s.U[p] != Nil && InTree(s, s.U[p]) && NodeShaped(s, s.U[p]) && !s.C[s.U[p]]
      && (s.L[s.U[p]] == p || s.R[s.U[p]] == p) && s.U[p] != cur
  {
    var p := s.U[cur];
    ParentSpan(s, cur);
    assert p != s.root;
    ParentSpan(s, p);
    assert NoRedRed(s, s.U[p]);
  }

  /** The case 3 repaint: the parent turns black and the grandparent red. */
  ghost function Painted(s: Snap, p: int, g: int): Snap
    requires Sized(s) && 0 <= p < |s.U| && 0 <= g < |s.U|
  {
    s.(C := s.C[p := false][g := true])
  }

  /** The case 1 recolouring: parent and uncle turn black, the grandparent red and one black level taller. */
  ghost function Recoloured(s: Snap, p: int, u: int, g: int): Snap
    requires Sized(s) && 0 <= p < |s.U| && 0 <= u < |s.U| && 0 <= g < |s.U|
  {
    s.(C := s.C[u := false][p := false][g := true], Bh := s.Bh[g := s.Bh[g] + 1])
  }

  /** Recolouring away from the three recoloured nodes and their parents changes nothing. */
  lemma RecolouredFar(s: Snap, p: int, u: int, g: int, x: int)
    requires Indexed(s) && 0 <= p < |s.U| && 0 <= u < |s.U| && 0 <= g < |s.U|
    requires Indexed(Recoloured(s, p, u, g))
    requires InTree(s, x) && NodeShaped(s, x) && NodeShaped(Recoloured(s, p, u, g), x)
    requires x != u && x != p && x != g
    requires s.L[x] != u && s.L[x] != p && s.L[x] != g && s.R[x] != u && s.R[x] != p && s.R[x] != g
    ensures var t := Recoloured(s, p, u, g);
      NoRedRed(t, x) == NoRedRed(s, x) && Balanced(t, x) == Balanced(s, x)
  {
    var t := Recoloured(s, p, u, g);
    assert SameColours(s, t, x);
    SameColoursTransfer(s, t, x);
  }

  /**
    What recolouring at a red parent `p` with a red sibling `u` under a black
    `g` needs to know: the local shape and balance of the three and of `g`'s
    parent `gg`.
  */
  ghost predicate RecolourFrame(s: Snap, p: int, u: int, g: int)
    requires Indexed(s)
  {
    && InTree(s, p) && InTree(s, u) && InTree(s, g)
    && NodeShaped(s, p) && NodeShaped(s, u) && NodeShaped(s, g)
    && s.U[p] == g && s.U[u] == g && p != u
    && ((s.L[g] == p && s.R[g] == u) || (s.L[g] == u && s.R[g] == p))
    && s.C[p] && s.C[u] && !s.C[g]
    && Balanced(s, p) && Balanced(s, u) && Balanced(s, g)
    && (s.U[g] != Nil ==> InTree(s, s.U[g]) && NodeShaped(s, s.U[g]) && Balanced(s, s.U[g]))
  }

  /** After the recolouring, the parent and the uncle are black and still balanced. */
  lemma RecolouredAtChild(s: Snap, p: int, u: int, g: int, x: int)
    requires Indexed(s) && RecolourFrame(s, p, u, g) && Indexed(Recoloured(s, p, u, g))
    requires x == p || x == u
    requires NodeShaped(Recoloured(s, p, u, g), x)
    ensures var t := Recoloured(s, p, u, g);
      Balanced(t, x) && NoRedRed(t, x)
  {
    var t, l, r := Recoloured(s, p, u, g), s.L[x], s.R[x];
    assert !t.C[x] && t.Bh[x] == s.Bh[x] && t.L[x] == l && t.R[x] == r;
    assert l != Nil ==> l != g && l != p && l != u && t.C[l] == s.C[l] && t.Bh[l] == s.Bh[l];
    assert r != Nil ==> r != g && r != p && r != u && t.C[r] == s.C[r] && t.Bh[r] == s.Bh[r];
  }

  /** After the recolouring, the grandparent is red over two black children, one black level taller. */
  lemma RecolouredAtTop(s: Snap, p: int, u: int, g: int)
    requires Indexed(s) && RecolourFrame(s, p, u, g) && Indexed(Recoloured(s, p, u, g))
    requires NodeShaped(Recoloured(s, p, u, g), g)
    ensures var t := Recoloured(s, p, u, g);
      Balanced(t, g) && NoRedRed(t, g) && t.C[g]
  {
  }

  /** Above the recoloured grandparent, the black height is unchanged. */
  lemma RecolouredAbove(s: Snap, p: int, u: int, g: int)
    requires Indexed(s) && RecolourFrame(s, p, u, g) && Indexed(Recoloured(s, p, u, g))
    requires s.U[g] != Nil && NodeShaped(Recoloured(s, p, u, g), s.U[g])
    ensures var t := Recoloured(s, p, u, g);
      Balanced(t, s.U[g])
  {
    var gg := s.U[g];
    var o := if s.L[gg] == g then s.R[gg] else s.L[gg];
    assert o != g && o != p && o != u;
  }

  /** The grouping of nodes a red-uncle recolouring looks at. */
  ghost predicate RedUncle(s: Snap, cur: int)
    requires Sized(s) && 0 <= cur < |s.U|
  {
    var p := s.U[cur];
    && 0 <= p < |s.U| && s.C[p] && 0 <= s.U[p] < |s.U|
    && var u := Sibling(s, s.U[p], p);
    && 0 <= u < |s.U| && s.C[u]
  }

  /** The local facts case 1 relies on, drawn from the fix-up invariant. */
  lemma Case1Frame(s: Snap, cur: int)
    requires FixingUp(s, cur) && RedUncle(s, cur)
    ensures var p := s.U[cur]; var g := s.U[p];
      RecolourFrame(s, p, Sibling(s, g, p), g)
  {
    var p := s.U[cur];
    RedParent(s, cur);
    var g := s.U[p];
    var u := Sibling(s, g, p);
    ParentSpan(s, p);
    assert InTree(s, u) && NodeShaped(s, u) && s.U[u] == g;
    assert Balanced(s, p) && Balanced(s, u) && Balanced(s, g);
    if s.U[g] != Nil {
      ParentSpan(s, g);
      assert Balanced(s, s.U[g]);
    }
  }

  /** In case 1, the walk moves two levels up to a node with a strictly larger span. */
  lemma Case1Around(s: Snap, cur: int)
    requires FixingUp(s, cur) && RedUncle(s, cur)
    ensures var p := s.U[cur]; var g := s.U[p]; var u := Sibling(s, g, p);
      && p != cur && g != cur && u != cur && g != p && u != p && u != g
      && s.Hi[cur] - s.Lo[cur] < s.Hi[g] - s.Lo[g]
      && (s.U[g] != Nil ==> InTree(s, s.U[g]) && s.U[g] != p && s.U[g] != u && (s.L[s.U[g]] == g || s.R[s.U[g]] == g))
  {
    var p := s.U[cur];
    RedParent(s, cur);
    var g := s.U[p];
    ParentSpan(s, cur);
    ParentSpan(s, p);
    assert s.U[Sibling(s, g, p)] == g;
    if s.U[g] != Nil {
      ParentSpan(s, g);
    }
  }

  /** Case 1 keeps every node balanced and, except the grandparent's parent, free of red-red edges. */
  lemma Case1Colours(s: Snap, cur: int)
    requires FixingUp(s, cur) && RedUncle(s, cur)
    requires var p := s.U[cur]; var g := s.U[p]; var u := Sibling(s, g, p);
      && RecolourFrame(s, p, u, g) && Structured(Recoloured(s, p, u, g))
    ensures var p := s.U[cur]; var g := s.U[p]; var t := Recoloured(s, p, Sibling(s, g, p), g);
      forall x | InTree(t, x) :: Balanced(t, x) && (x != s.U[g] ==> NoRedRed(t, x))
  {
    var p := s.U[cur];
    var g := s.U[p];
    var u := Sibling(s, g, p);
    var t := Recoloured(s, p, u, g);
    forall x | InTree(t, x)
      ensures Balanced(t, x) && (x != s.U[g] ==> NoRedRed(t, x))
    {
      assert NodeShaped(s, x) && NodeShaped(t, x);
      if x == p || x == u {
        RecolouredAtChild(s, p, u, g, x);
      } else if x == g {
        RecolouredAtTop(s, p, u, g);
      } else if x == s.U[g] {
        RecolouredAbove(s, p, u, g);
      } else {
        assert Balanced(s, x) && NoRedRed(s, x);
        RecolouredFar(s, p, u, g, x);
      }
    }
  }

  /**
    After the case 1 recolouring, the grandparent's parent is the only node
    that may have a red child under a red parent, and then its other child is
    black; the root is black unless it is the grandparent.
  */
  lemma Case1Top(s: Snap, cur: int)
    requires FixingUp(s, cur) && RedUncle(s, cur)
    requires var p := s.U[cur]; var g := s.U[p]; var u := Sibling(s, g, p);
      && RecolourFrame(s, p, u, g) && Structured(Recoloured(s, p, u, g))
      && p != cur && g != cur && u != cur && g != p && u != p && u != g
      && (s.U[g] != Nil ==> s.U[g] != p && s.U[g] != u && (s.L[s.U[g]] == g || s.R[s.U[g]] == g))
    ensures var p := s.U[cur]; var g := s.U[p]; var t := Recoloured(s, p, Sibling(s, g, p), g);
      && t.U[g] == s.U[g]
      && (t.U[g] != Nil ==>
            NodeShaped(t, t.U[g])
            && (t.C[t.U[g]] ==> Sibling(t, t.U[g], g) == Nil || !t.C[Sibling(t, t.U[g], g)]))
      && (t.root == g || !t.C[t.root])
  {
    var p := s.U[cur];
    var g := s.U[p];
    var gg := s.U[g];
    if gg != Nil {
      assert NoRedRed(s, gg);
    }
  }

  /**
    Case 1, a red uncle: after recolouring, the grandparent is the red node
    the walk continues from, two levels up.
  */
  lemma Case1(s: Snap, cur: int)
    requires FixingUp(s, cur) && RedUncle(s, cur)
    ensures var p := s.U[cur]; var g := s.U[p]; var u := Sibling(s, g, p);
      && FixingUp(Recoloured(s, p, u, g), g)
      && s.Hi[cur] - s.Lo[cur] < s.Hi[g] - s.Lo[g]
  {
    var p := s.U[cur];
    var g := s.U[p];
    var u := Sibling(s, g, p);
    var t := Recoloured(s, p, u, g);
    Case1Frame(s, cur);
    Case1Around(s, cur);
    RepaintedStructured(s, t.C, t.Bh);
    Case1Colours(s, cur);
    Case1Top(s, cur);
  }

  /**
    Once `cur` has no red parent, the fix-up ends by painting the root black,
    which leaves a valid red-black tree.
  */
  lemma Blackened(s: Snap, cur: int)
    requires FixingUp(s, cur) && (s.U[cur] == Nil || !s.C[s.U[cur]])
    ensures s.root != Nil && InTree(s, s.root)
    ensures Valid(s.(C := s.C[s.root := false]))
  {
    var t := s.(C := s.C[s.root := false]);
    RepaintedStructured(s, t.C, t.Bh);
    assert t == s.(C := t.C, Bh := t.Bh);
    forall x | InTree(t, x)
      ensures NoRedRed(t, x) && Balanced(t, x)
    {
      assert NodeShaped(s, x) && Balanced(s, x);
      if x != s.U[cur] {
        assert NoRedRed(s, x);
      }
      if s.L[x] != Nil {
        assert NodeShaped(s, s.L[x]);
      }
      if s.R[x] != Nil {
        assert NodeShaped(s, s.R[x]);
      }
    }
  }
}
