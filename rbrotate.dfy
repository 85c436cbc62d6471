/**
  Rotations of the red-black tree arena (the two helpers the insert and remove
  fix-ups use), and the proof that they keep the in-order sequence, the P/N
  threading and the U links consistent.
*/
module RedBlackRotation {
  import opened RedBlackSpec

  /** The nodes a left rotation at `p` touches are pairwise distinct. */
  ghost predicate LeftRotatable(s: Snap, p: int) {
    && Sized(s) && 0 <= p < |s.U| && 0 <= s.R[p] < |s.U|
    && Ref(s, s.U[p]) && Ref(s, s.L[s.R[p]])
    && s.R[p] != p && s.U[p] != p && s.U[p] != s.R[p]
    && (s.L[s.R[p]] != Nil ==> s.L[s.R[p]] != p && s.L[s.R[p]] != s.R[p] && s.L[s.R[p]] != s.U[p])
  }

  /**
    The arena after rotating left at `p`: its right child `q` takes its place
    under `p`'s parent (or as the root), `p` becomes `q`'s left child and
    `q`'s old left subtree `b` becomes `p`'s right subtree.
  */
  ghost function RotatedLeft(s: Snap, p: int): Snap
    requires LeftRotatable(s, p)
  {
    var q, par := s.R[p], s.U[p];
    var left := if par != Nil && s.L[par] == p then s.L[par := q] else s.L;
    var right := if par != Nil && s.L[par] != p then s.R[par := q] else s.R;
    var up := s.U[q := par][p := q];
    var right := right[p := left[q]];
    var up := if right[p] != Nil then up[right[p] := p] else up;
    var left := left[q := p];
    s.(root := if par == Nil then q else s.root, U := up, L := left, R := right,
       Lo := s.Lo[q := s.Lo[p]], Hi := s.Hi[p := if right[p] == Nil then s.Pos[p] else s.Hi[right[p]]])
  }

  /** Every cell of a left-rotated arena, in terms of the arena before. */
  lemma RotatedLeftCells(s: Snap, p: int, y: int)
    requires LeftRotatable(s, p) && 0 <= y < |s.U|
    ensures var t, q, par := RotatedLeft(s, p), s.R[p], s.U[p]; var b := s.L[q];
      && Sized(t) && |t.U| == |s.U|
      && t.Contents == s.Contents && t.Pos == s.Pos && t.P == s.P && t.N == s.N && t.C == s.C && t.Bh == s.Bh
      && t.root == (if par == Nil then q else s.root)
      && t.U[y] == (if y == q then par else if y == p then q else if y == b then p else s.U[y])
      && t.L[y] == (if y == q then p else if y == par && s.L[par] == p then q else s.L[y])
      && t.R[y] == (if y == p then b else if y == par && s.L[par] != p then q else s.R[y])
      && t.Lo[y] == (if y == q then s.Lo[p] else s.Lo[y])
      && t.Hi[y] == (if y == p then (if b == Nil then s.Pos[p] else s.Hi[b]) else s.Hi[y])
  {
  }

  /**
    What the proof of a left rotation at `p` needs to know about the arena
    before: the local shape at `p`, at its right child `q`, at its parent and at
    the three subtrees the rotation moves.
  */
  ghost predicate LeftFrame(s: Snap, p: int) {
    && Indexed(s) && LeftRotatable(s, p) && InTree(s, p) && NodeShaped(s, p)
    && var q, par, a := s.R[p], s.U[p], s.L[p];
    && var b, c := s.L[q], s.R[q];
    && InTree(s, q) && NodeShaped(s, q)
    && (a != Nil ==> NodeShaped(s, a))
    && (b != Nil ==> NodeShaped(s, b))
    && (c != Nil ==> NodeShaped(s, c))
    && (par != Nil ==> NodeShaped(s, par))
    && (par == Nil ==> s.Lo[p] == 0 && s.Hi[p] == |s.Contents| - 1)
  }

  /** A left rotation keeps `Contents`, `Pos` and the threading. */
  lemma RotatedLeftIndexed(s: Snap, p: int)
    requires LeftRotatable(s, p) && Indexed(s)
    ensures Indexed(RotatedLeft(s, p))
    ensures Threaded(s) ==> Threaded(RotatedLeft(s, p))
  {
    var t := RotatedLeft(s, p);
    assert t.Pos == s.Pos && t.Contents == s.Contents && t.P == s.P && t.N == s.N;
    if Threaded(s) {
      forall x | InTree(t, x)
        ensures ThreadedAt(t, x)
      {
        assert ThreadedAt(s, x);
      }
    }
  }

  /** Away from the rotated nodes every node keeps all it depends on. */
  lemma RotatedLeftOther(s: Snap, p: int, x: int)
    requires LeftFrame(s, p) && InTree(s, x) && NodeShaped(s, x)
    requires x != p && x != s.R[p] && x != s.U[p] && x != s.L[s.R[p]]
    ensures Agree(s, RotatedLeft(s, p), x)
  {
    var l, r, u := s.L[x], s.R[x], s.U[x];
    RotatedLeftCells(s, p, x);
    if l != Nil { RotatedLeftCells(s, p, l); }
    if r != Nil { RotatedLeftCells(s, p, r); }
    if u != Nil { RotatedLeftCells(s, p, u); }
  }

  /** `p` goes down-left: its right subtree is now `b`. */
  lemma RotatedLeftAtP(s: Snap, p: int)
    requires LeftFrame(s, p) && Indexed(RotatedLeft(s, p))
    ensures NodeShaped(RotatedLeft(s, p), p)
  {
    var q, a := s.R[p], s.L[p];
    var b := s.L[q];
    RotatedLeftCells(s, p, p);
    RotatedLeftCells(s, p, q);
    if a != Nil { RotatedLeftCells(s, p, a); }
    if b != Nil { RotatedLeftCells(s, p, b); }
  }

  /** `q` goes up: its left subtree is now `p`, and it hangs where `p` did. */
  lemma RotatedLeftAtQ(s: Snap, p: int)
    requires LeftFrame(s, p) && Indexed(RotatedLeft(s, p))
    ensures NodeShaped(RotatedLeft(s, p), s.R[p])
  {
    var q, par := s.R[p], s.U[p];
    var b, c := s.L[q], s.R[q];
    RotatedLeftCells(s, p, p);
    RotatedLeftCells(s, p, q);
    if b != Nil { RotatedLeftCells(s, p, b); }
    if c != Nil { RotatedLeftCells(s, p, c); }
    if par != Nil { RotatedLeftCells(s, p, par); }
  }

  /** `p`'s old parent now has `q` where it had `p`. */
  lemma RotatedLeftAtParent(s: Snap, p: int)
    requires LeftFrame(s, p) && Indexed(RotatedLeft(s, p)) && s.U[p] != Nil
    ensures NodeShaped(RotatedLeft(s, p), s.U[p])
  {
    var q, par := s.R[p], s.U[p];
    var l, r, g := s.L[par], s.R[par], s.U[par];
    RotatedLeftCells(s, p, par);
    RotatedLeftCells(s, p, q);
    if l != Nil { RotatedLeftCells(s, p, l); }
    if r != Nil { RotatedLeftCells(s, p, r); }
    if g != Nil { RotatedLeftCells(s, p, g); }
  }

  /** `b` changes parent from `q` to `p`. */
  lemma RotatedLeftAtInner(s: Snap, p: int)
    requires LeftFrame(s, p) && Indexed(RotatedLeft(s, p)) && s.L[s.R[p]] != Nil
    ensures NodeShaped(RotatedLeft(s, p), s.L[s.R[p]])
  {
    var q := s.R[p];
    var b := s.L[q];
    var l, r := s.L[b], s.R[b];
    RotatedLeftCells(s, p, b);
    RotatedLeftCells(s, p, p);
    if l != Nil { RotatedLeftCells(s, p, l); }
    if r != Nil { RotatedLeftCells(s, p, r); }
  }

  /** In a structured tree every node with a right child can be rotated left. */
  lemma LeftFrameOf(s: Snap, p: int)
    requires Structured(s) && InTree(s, p) && s.R[p] != Nil
    ensures LeftFrame(s, p)
  {
    assert NodeShaped(s, p);
    var q, par, a := s.R[p], s.U[p], s.L[p];
    assert NodeShaped(s, q);
    var b, c := s.L[q], s.R[q];
    if a != Nil { assert NodeShaped(s, a); }
    if b != Nil { assert NodeShaped(s, b); }
    if c != Nil { assert NodeShaped(s, c); }
    if par != Nil { assert NodeShaped(s, par); }
  }

  /** A left rotation keeps the shape conditions at every node. */
  lemma RotatedLeftShaped(s: Snap, p: int)
    requires LeftFrame(s, p) && Shaped(s) && Indexed(RotatedLeft(s, p))
    ensures Shaped(RotatedLeft(s, p))
  {
    var t, q, par := RotatedLeft(s, p), s.R[p], s.U[p];
    var b := s.L[q];
    forall x | InTree(t, x)
      ensures NodeShaped(t, x)
    {
      if x == p {
        RotatedLeftAtP(s, p);
      } else if x == q {
        RotatedLeftAtQ(s, p);
      } else if x == par {
        RotatedLeftAtParent(s, p);
      } else if x == b {
        RotatedLeftAtInner(s, p);
      } else {
        assert NodeShaped(s, x);
        RotatedLeftOther(s, p, x);
        AgreeTransfer(s, t, x);
      }
    }
    RotatedLeftCells(s, p, q);
    if par != Nil {
      RotatedLeftCells(s, p, s.root);
    }
  }

  /** A left rotation keeps the tree structured over the same in-order sequence. */
  lemma RotateLeftStructured(s: Snap, p: int)
    requires Structured(s) && InTree(s, p) && s.R[p] != Nil
    ensures LeftFrame(s, p) && Structured(RotatedLeft(s, p))
    ensures forall x | InTree(s, x) && x != p && x != s.R[p] && x != s.U[p] && x != s.L[s.R[p]] ::
      NodeShaped(s, x) && Agree(s, RotatedLeft(s, p), x)
  {
    LeftFrameOf(s, p);
    RotatedLeftIndexed(s, p);
    RotatedLeftShaped(s, p);
    forall x | InTree(s, x) && x != p && x != s.R[p] && x != s.U[p] && x != s.L[s.R[p]]
      ensures NodeShaped(s, x) && Agree(s, RotatedLeft(s, p), x)
    {
      assert NodeShaped(s, x);
      RotatedLeftOther(s, p, x);
    }
  }

  /** The nodes a right rotation at `p` touches are pairwise distinct. */
  ghost predicate RightRotatable(s: Snap, p: int) {
    && Sized(s) && 0 <= p < |s.U| && 0 <= s.L[p] < |s.U|
    && Ref(s, s.U[p]) && Ref(s, s.R[s.L[p]])
    && s.L[p] != p && s.U[p] != p && s.U[p] != s.L[p]
    && (s.R[s.L[p]] != Nil ==> s.R[s.L[p]] != p && s.R[s.L[p]] != s.L[p] && s.R[s.L[p]] != s.U[p])
  }

  /**
    The arena after rotating right at `p`: its left child `q` takes its place
    under `p`'s parent (or as the root), `p` becomes `q`'s right child and
    `q`'s old right subtree `b` becomes `p`'s left subtree.
  */
  ghost function RotatedRight(s: Snap, p: int): Snap
    requires RightRotatable(s, p)
  {
    var q, par := s.L[p], s.U[p];
    var left := if par != Nil && s.L[par] == p then s.L[par := q] else s.L;
    var right := if par != Nil && s.L[par] != p then s.R[par := q] else s.R;
    var up := s.U[q := par][p := q];
    var left := left[p := right[q]];
    var up := if left[p] != Nil then up[left[p] := p] else up;
    var right := right[q := p];
    s.(root := if par == Nil then q else s.root, U := up, L := left, R := right,
       Lo := s.Lo[p := if left[p] == Nil then s.Pos[p] else s.Lo[left[p]]], Hi := s.Hi[q := s.Hi[p]])
  }

  /** Every cell of a right-rotated arena, in terms of the arena before. */
  lemma RotatedRightCells(s: Snap, p: int, y: int)
    requires RightRotatable(s, p) && 0 <= y < |s.U|
    ensures var t, q, par := RotatedRight(s, p), s.L[p], s.U[p]; var b := s.R[q];
      && Sized(t) && |t.U| == |s.U|
      && t.Contents == s.Contents && t.Pos == s.Pos && t.P == s.P && t.N == s.N && t.C == s.C && t.Bh == s.Bh
      && t.root == (if par == Nil then q else s.root)
      && t.U[y] == (if y == q then par else if y == p then q else if y == b then p else s.U[y])
      && t.R[y] == (if y == q then p else if y == par && s.L[par] != p then q else s.R[y])
      && t.L[y] == (if y == p then b else if y == par && s.L[par] == p then q else s.L[y])
      && t.Hi[y] == (if y == q then s.Hi[p] else s.Hi[y])
      && t.Lo[y] == (if y == p then (if b == Nil then s.Pos[p] else s.Lo[b]) else s.Lo[y])
  {
  }

  /**
    What the proof of a right rotation at `p` needs to know about the arena
    before: the local shape at `p`, at its left child `q`, at its parent and at
    the three subtrees the rotation moves.
  */
  ghost predicate RightFrame(s: Snap, p: int) {
    && Indexed(s) && RightRotatable(s, p) && InTree(s, p) && NodeShaped(s, p)
    && var q, par, a := s.L[p], s.U[p], s.R[p];
    && var b, c := s.R[q], s.L[q];
    && InTree(s, q) && NodeShaped(s, q)
    && (a != Nil ==> NodeShaped(s, a))
    && (b != Nil ==> NodeShaped(s, b))
    && (c != Nil ==> NodeShaped(s, c))
    && (par != Nil ==> NodeShaped(s, par))
    && (par == Nil ==> s.Lo[p] == 0 && s.Hi[p] == |s.Contents| - 1)
  }

  /** A right rotation keeps `Contents`, `Pos` and the threading. */
  lemma RotatedRightIndexed(s: Snap, p: int)
    requires RightRotatable(s, p) && Indexed(s)
    ensures Indexed(RotatedRight(s, p))
    ensures Threaded(s) ==> Threaded(RotatedRight(s, p))
  {
    var t := RotatedRight(s, p);
    assert t.Pos == s.Pos && t.Contents == s.Contents && t.P == s.P && t.N == s.N;
    if Threaded(s) {
      forall x | InTree(t, x)
        ensures ThreadedAt(t, x)
      {
        assert ThreadedAt(s, x);
      }
    }
  }

  /** Away from the rotated nodes every node keeps all it depends on. */
  lemma RotatedRightOther(s: Snap, p: int, x: int)
    requires RightFrame(s, p) && InTree(s, x) && NodeShaped(s, x)
    requires x != p && x != s.L[p] && x != s.U[p] && x != s.R[s.L[p]]
    ensures Agree(s, RotatedRight(s, p), x)
  {
    var l, r, u := s.L[x], s.R[x], s.U[x];
    RotatedRightCells(s, p, x);
    if l != Nil { RotatedRightCells(s, p, l); }
    if r != Nil { RotatedRightCells(s, p, r); }
    if u != Nil { RotatedRightCells(s, p, u); }
  }

  /** `p` goes down-right: its left subtree is now `b`. */
  lemma RotatedRightAtP(s: Snap, p: int)
    requires RightFrame(s, p) && Indexed(RotatedRight(s, p))
    ensures NodeShaped(RotatedRight(s, p), p)
  {
    var q, a := s.L[p], s.R[p];
    var b := s.R[q];
    RotatedRightCells(s, p, p);
    RotatedRightCells(s, p, q);
    if a != Nil { RotatedRightCells(s, p, a); }
    if b != Nil { RotatedRightCells(s, p, b); }
  }

  /** `q` goes up: its right subtree is now `p`, and it hangs where `p` did. */
  lemma RotatedRightAtQ(s: Snap, p: int)
    requires RightFrame(s, p) && Indexed(RotatedRight(s, p))
    ensures NodeShaped(RotatedRight(s, p), s.L[p])
  {
    var q, par := s.L[p], s.U[p];
    var b, c := s.R[q], s.L[q];
    RotatedRightCells(s, p, p);
    RotatedRightCells(s, p, q);
    if b != Nil { RotatedRightCells(s, p, b); }
    if c != Nil { RotatedRightCells(s, p, c); }
    if par != Nil { RotatedRightCells(s, p, par); }
  }

  /** `p`'s old parent now has `q` where it had `p`. */
  lemma RotatedRightAtParent(s: Snap, p: int)
    requires RightFrame(s, p) && Indexed(RotatedRight(s, p)) && s.U[p] != Nil
    ensures NodeShaped(RotatedRight(s, p), s.U[p])
  {
    var q, par := s.L[p], s.U[p];
    var l, r, g := s.L[par], s.R[par], s.U[par];
    RotatedRightCells(s, p, par);
    RotatedRightCells(s, p, q);
    if l != Nil { RotatedRightCells(s, p, l); }
    if r != Nil { RotatedRightCells(s, p, r); }
    if g != Nil { RotatedRightCells(s, p, g); }
  }

  /** `b` changes parent from `q` to `p`. */
  lemma RotatedRightAtInner(s: Snap, p: int)
    requires RightFrame(s, p) && Indexed(RotatedRight(s, p)) && s.R[s.L[p]] != Nil
    ensures NodeShaped(RotatedRight(s, p), s.R[s.L[p]])
  {
    var q := s.L[p];
    var b := s.R[q];
    var l, r := s.L[b], s.R[b];
    RotatedRightCells(s, p, b);
    RotatedRightCells(s, p, p);
    if l != Nil { RotatedRightCells(s, p, l); }
    if r != Nil { RotatedRightCells(s, p, r); }
  }

  /** In a structured tree every node with a left child can be rotated right. */
  lemma RightFrameOf(s: Snap, p: int)
    requires Structured(s) && InTree(s, p) && s.L[p] != Nil
    ensures RightFrame(s, p)
  {
    assert NodeShaped(s, p);
    var q, par, a := s.L[p], s.U[p], s.R[p];
    assert NodeShaped(s, q);
    var b, c := s.R[q], s.L[q];
    if a != Nil { assert NodeShaped(s, a); }
    if b != Nil { assert NodeShaped(s, b); }
    if c != Nil { assert NodeShaped(s, c); }
    if par != Nil { assert NodeShaped(s, par); }
  }

  /** A right rotation keeps the shape conditions at every node. */
  lemma RotatedRightShaped(s: Snap, p: int)
    requires RightFrame(s, p) && Shaped(s) && Indexed(RotatedRight(s, p))
    ensures Shaped(RotatedRight(s, p))
  {
    var t, q, par := RotatedRight(s, p), s.L[p], s.U[p];
    var b := s.R[q];
    forall x | InTree(t, x)
      ensures NodeShaped(t, x)
    {
      if x == p {
        RotatedRightAtP(s, p);
      } else if x == q {
        RotatedRightAtQ(s, p);
      } else if x == par {
        RotatedRightAtParent(s, p);
      } else if x == b {
        RotatedRightAtInner(s, p);
      } else {
        assert NodeShaped(s, x);
        RotatedRightOther(s, p, x);
        AgreeTransfer(s, t, x);
      }
    }
    RotatedRightCells(s, p, q);
    if par != Nil {
      RotatedRightCells(s, p, s.root);
    }
  }

  /** A right rotation keeps the tree structured over the same in-order sequence. */
  lemma RotateRightStructured(s: Snap, p: int)
    requires Structured(s) && InTree(s, p) && s.L[p] != Nil
    ensures RightFrame(s, p) && Structured(RotatedRight(s, p))
    ensures forall x | InTree(s, x) && x != p && x != s.L[p] && x != s.U[p] && x != s.R[s.L[p]] ::
      NodeShaped(s, x) && Agree(s, RotatedRight(s, p), x)
  {
    RightFrameOf(s, p);
    RotatedRightIndexed(s, p);
    RotatedRightShaped(s, p);
    forall x | InTree(s, x) && x != p && x != s.L[p] && x != s.U[p] && x != s.R[s.L[p]]
      ensures NodeShaped(s, x) && Agree(s, RotatedRight(s, p), x)
    {
      assert NodeShaped(s, x);
      RotatedRightOther(s, p, x);
    }
  }
}
