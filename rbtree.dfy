/**
  The red-black tree itself: an arena of nodes whose links are updated in
  place. It carries the ghost bookkeeping of `RedBlackSpec` along, and every
  method is proved against the snapshot functions and lemmas over `Snap`.
*/
module RedBlackTree {
  import opened RedBlackSpec
  import opened RedBlackRotation
  import opened RedBlackAttach
  import opened RedBlackInsertFix
  import IL = RedBlackInsertLeft
  import IR = RedBlackInsertRight
  import opened RedBlackUnlink
  import opened RedBlackUnlinkColour
  import opened RedBlackLoose
  import RL = RedBlackRemoveLeft
  import RR = RedBlackRemoveRight

  /** The ghost bookkeeping of a tree, kept in one field. */
  datatype Book = Book(Contents: seq<int>, Pos: seq<int>, Lo: seq<int>, Hi: seq<int>, Bh: seq<nat>)

  class Tree {
    /** The root node, or `Nil` for the empty tree. */
    var root: int
    /** Per node: parent, left and right child, in-order predecessor and successor. */
    var U: seq<int>
    var L: seq<int>
    var R: seq<int>
    var P: seq<int>
    var N: seq<int>
    /** Per node: true for red, false for black. */
    var C: seq<bool>

    /** Ghost bookkeeping: in-order node sequence, positions, subtree spans, black heights. */
    ghost var G: Book

    /** The current state as a value. */
    ghost function View(): Snap
      reads this
    {
      Snap(root, U, L, R, P, N, C, G.Contents, G.Pos, G.Lo, G.Hi, G.Bh)
    }

    /** An empty tree over an empty arena. */
    constructor ()
      ensures Valid(View()) && View().Contents == [] && |U| == 0
    {
      root := Nil;
      U, L, R, P, N, C := [], [], [], [], [], [];
      G := Book([], [], [], [], []);
    }

    /**
      A fresh node with every link null and colour unset (black), not yet in
      the tree.
    */
    method NewNode() returns (x: int)
      modifies this
      ensures x == |old(U)| && View() == Grown(old(View()))
    {
      x := |U|;
      U, L, R, P, N, C := U + [Nil], L + [Nil], R + [Nil], P + [Nil], N + [Nil], C + [false];
      G := G.(Pos := G.Pos + [-1], Lo := G.Lo + [0], Hi := G.Hi + [0], Bh := G.Bh + [0]);
    }

    /** Reset `node`'s links to null and its colour to black, as for a node leaving the tree. */
    method Clear(node: int)
      requires Sized(View()) && 0 <= node < |U|
      modifies this
      ensures View() == Cleared(old(View()), node)
    {
      U, L, R := U[node := Nil], L[node := Nil], R[node := Nil];
      P, N, C := P[node := Nil], N[node := Nil], C[node := false];
    }

    /**
      The leftmost node of the subtree at `x`: the first of it in order. The
      walk reads only the L links, so the tree `s` it is stated over need agree
      with the current state on L alone.
    */
    method First(x: int, ghost s: Snap) returns (f: int)
      requires Structured(s) && InTree(s, x) && s.L == L
      ensures InTree(s, f) && L[f] == Nil
      ensures 0 <= s.Lo[x] < |s.Contents| && f == s.Contents[s.Lo[x]]
      ensures x == s.root ==> f == s.Contents[0] && s.P[f] == Nil
    {
      f := x;
      assert NodeShaped(s, f);
      while L[f] != Nil
        invariant InTree(s, f) && NodeShaped(s, f) && s.Lo[f] == s.Lo[x]
        decreases s.Pos[f]
      {
        f := L[f];
        assert NodeShaped(s, f);
      }
      assert ThreadedAt(s, f);
    }

    /** Rotate left at `p` (its right child takes its place), in the order the links are written. */
    method RotateLeft(p: int)
      requires LeftRotatable(View(), p)
      modifies this
      ensures View() == RotatedLeft(old(View()), p)
    {
      var up, left, right := U, L, R;
      var q, parent := right[p], up[p];
      if parent != Nil {
        if left[parent] == p {
          left := left[parent := q];
        } else {
          right := right[parent := q];
        }
      } else {
        root := q;
      }
      up := up[q := parent];
      up := up[p := q];
      right := right[p := left[q]];
      if right[p] != Nil {
        up := up[right[p] := p];
      }
      left := left[q := p];
      U, L, R := up, left, right;
      G := G.(Lo := G.Lo[q := G.Lo[p]], Hi := G.Hi[p := if right[p] == Nil then G.Pos[p] else G.Hi[right[p]]]);
    }
  
    /** Rotate right at `p` (its left child takes its place), the mirror image of `RotateLeft`. */
    method RotateRight(p: int)
      requires RightRotatable(View(), p)
      modifies this
      ensures View() == RotatedRight(old(View()), p)
    {
      var up, left, right := U, L, R;
      var q, parent := left[p], up[p];
      if parent != Nil {
        if left[parent] == p {
          left := left[parent := q];
        } else {
          right := right[parent := q];
        }
      } else {
        root := q;
      }
      up := up[q := parent];
      up := up[p := q];
      left := left[p := right[q]];
      if left[p] != Nil {
        up := up[left[p] := p];
      }
      right := right[q := p];
      U, L, R := up, left, right;
      G := G.(Lo := G.Lo[p := if left[p] == Nil then G.Pos[p] else G.Lo[left[p]]], Hi := G.Hi[q := G.Hi[p]]);
    }

    /**
      Where insert hangs the detached `node` so that it follows `after` in
      order (comes first when `after` is null): as the right child of `after`
      when that is free, else as the left child of the first node of `after`'s
      right subtree (of the whole tree when `after` is null), or as the root
      of an empty tree; `prev` and `next` are its in-order neighbours to be.
    */
    method Place(after: int, node: int) returns (parent: int, right: bool, prev: int, next: int)
      requires Valid(View()) && 0 <= node < |U| && G.Pos[node] == -1
      requires after == Nil || InTree(View(), after)
      ensures Attachable(View(), node, parent, right)
      ensures var k := AttachPos(View(), parent, right);
        && k == (if after == Nil then 0 else G.Pos[after] + 1)
        && prev == (if k == 0 then Nil else G.Contents[k - 1])
        && next == (if k == |G.Contents| then Nil else G.Contents[k])
    {
      ghost var s := View();
      if after != Nil {
        assert NodeShaped(s, after) && ThreadedAt(s, after);
        prev, next := after, N[after];
        if R[after] != Nil {
          parent := First(R[after], s);
          assert NodeShaped(s, R[after]) && NodeShaped(s, parent);
          right := false;
        } else {
          parent, right := after, true;
        }
      } else if root != Nil {
        parent := First(root, s);
        assert NodeShaped(s, parent);
        prev, next, right := Nil, parent, false;
      } else {
        parent, right, prev, next := Nil, false, Nil, Nil;
      }
    }

    /**
      The first half of insert: thread the detached `node` in between `prev`
      and `next` and hang it, red, as a leaf under `parent`, as `Place` chose.
    */
    method Link(after: int, node: int) returns (parent: int, right: bool)
      requires Valid(View()) && 0 <= node < |U| && G.Pos[node] == -1
      requires after == Nil || InTree(View(), after)
      modifies this
      ensures Attachable(old(View()), node, parent, right)
      ensures AttachPos(old(View()), parent, right) == if after == Nil then 0 else old(G.Pos[after]) + 1
      ensures View() == Attached(old(View()), node, parent, right)
    {
      ghost var s := View();
      var prev, next;
      parent, right, prev, next := Place(after, node);
      P := P[node := prev];
      N := N[node := next];
      if next != Nil {
        P := P[next := node];
      }
      if prev != Nil {
        N := N[prev := node];
      }
      if parent == Nil {
        root := node;
      } else if right {
        R := R[parent := node];
      } else {
        L := L[parent := node];
      }
      L := L[node := Nil];
      R := R[node := Nil];
      U := U[node := parent];
      C := C[node := true];
      ghost var t := Attached(s, node, parent, right);
      G := Book(t.Contents, t.Pos, t.Lo, t.Hi, t.Bh);
    }
  
    /**
      Insert fix-up with a red uncle: the parent and the uncle turn black and
      the grandparent red, and the walk continues from the grandparent.
    */
    method Recolour(after: int) returns (grandpa: int)
      requires FixingUp(View(), after) && RedUncle(View(), after)
      modifies this
      ensures FixingUp(View(), grandpa) && G.Contents == old(G.Contents) && |U| == |old(U)|
      ensures old(G.Hi[after] - G.Lo[after]) < G.Hi[grandpa] - G.Lo[grandpa]
    {
      ghost var s := View();
      Case1(s, after);
      var parent := U[after];
      grandpa := U[parent];
      var uncle := if parent == L[grandpa] then R[grandpa] else L[grandpa];
      C := C[uncle := false][parent := false][grandpa := true];
      G := G.(Bh := G.Bh[grandpa := G.Bh[grandpa] + 1]);
    }

    /**
      Insert fix-up with a black uncle when the parent is a left child: a
      left rotation at the parent first when `after` is the inner grandchild,
      then the repaint and a right rotation at the grandparent. The node
      returned is red under a black parent.
    */
    method RotateFixLeft(after: int) returns (cur: int)
      requires FixingUp(View(), after)
      requires IL.UnderLeft(View(), after, true) || IL.UnderLeft(View(), after, false)
      modifies this
      ensures FixingUp(View(), cur) && 0 <= U[cur] < |C| && !C[U[cur]] && G.Contents == old(G.Contents) && |U| == |old(U)|
    {
      cur := after;
      var parent := U[cur];
      if cur == R[parent] {
        IL.InnerCase(View(), cur);
        RotateLeft(parent);
        cur := parent;
        parent := U[cur];
      }
      var grandpa := U[parent];
      IL.OuterCase(View(), cur);
      C := C[parent := false][grandpa := true];
      RotateRight(grandpa);
    }

    /** The mirror image of `RotateFixLeft`, when the parent is a right child. */
    method RotateFixRight(after: int) returns (cur: int)
      requires FixingUp(View(), after)
      requires IR.UnderRight(View(), after, true) || IR.UnderRight(View(), after, false)
      modifies this
      ensures FixingUp(View(), cur) && 0 <= U[cur] < |C| && !C[U[cur]] && G.Contents == old(G.Contents) && |U| == |old(U)|
    {
      cur := after;
      var parent := U[cur];
      if cur == L[parent] {
        IR.InnerCase(View(), cur);
        RotateRight(parent);
        cur := parent;
        parent := U[cur];
      }
      var grandpa := U[parent];
      IR.OuterCase(View(), cur);
      C := C[parent := false][grandpa := true];
      RotateLeft(grandpa);
    }

    /**
      The second half of insert: while the red node `after` has a red parent,
      move the red-red edge up by recolouring (red uncle) or remove it by one
      or two rotations (black uncle); finally paint the root black.
    */
    method InsertFixup(node: int)
      requires FixingUp(View(), node)
      modifies this
      ensures Valid(View()) && G.Contents == old(G.Contents) && |U| == |old(U)|
    {
      var after := node;
      var parent := U[after];
      while parent != Nil && C[parent]
        invariant FixingUp(View(), after) && parent == U[after]
        invariant G.Contents == old(G.Contents) && |U| == |old(U)|
        decreases if parent != Nil && C[parent] then |G.Contents| - (G.Hi[after] - G.Lo[after]) else 0
      {
        after := FixUp(after);
        parent := U[after];
      }
      Blackened(View(), after);
      C := C[root := false];
    }

    /**
      One pass of the insertion fix-up loop, below a red parent: recolour when
      the uncle is red, rotate otherwise. The red-red edge left over, if any,
      sits on a strictly larger subtree.
    */
    method FixUp(after: int) returns (next: int)
      requires FixingUp(View(), after) && U[after] != Nil && C[U[after]]
      modifies this
      ensures FixingUp(View(), next) && G.Contents == old(G.Contents) && |U| == |old(U)|
      ensures U[next] != Nil && C[U[next]] ==> old(G.Hi[after] - G.Lo[after]) < G.Hi[next] - G.Lo[next]
    {
      RedParent(View(), after);
      var parent := U[after];
      var grandpa := U[parent];
      if parent == L[grandpa] {
        var uncle := R[grandpa];
        if uncle != Nil && C[uncle] {
          next := Recolour(after);
        } else {
          next := RotateFixLeft(after);
        }
      } else {
        var uncle := L[grandpa];
        if uncle != Nil && C[uncle] {
          next := Recolour(after);
        } else {
          next := RotateFixRight(after);
        }
      }
    }

    /**
      Insert the detached `node` into the tree as the in-order successor of
      `after`, or as the first node when `after` is null, and rebalance.
    */
    method Insert(after: int, node: int)
      requires Valid(View()) && 0 <= node < |U| && G.Pos[node] == -1
      requires after == Nil || InTree(View(), after)
      modifies this
      ensures Valid(View()) && |U| == |old(U)|
      ensures var k := if after == Nil then 0 else old(G.Pos[after]) + 1;
        0 <= k <= |old(G.Contents)| && G.Contents == old(G.Contents[..k] + [node] + G.Contents[k..])
      ensures P[node] == after
      ensures N[node] == old(if after != Nil then N[after] else if root == Nil then Nil else G.Contents[0])
    {
      ghost var s := View();
      var parent, right := Link(after, node);
      AttachedFixingUp(s, node, parent, right);
      AttachedNumbers(s, node, parent, right, node);
      InsertFixup(node);
      InsertedNeighbours(s, View(), after, node);
    }
 
    /** Take `node` out of the P/N threading: its neighbours become adjacent, its own P and N null. */
    method Unthread(node: int)
      requires Sized(View()) && 0 <= node < |U| && Ref(View(), P[node]) && Ref(View(), N[node])
      modifies this
      ensures View() == old(View()).(P := UnthreadedP(old(View()), node), N := UnthreadedN(old(View()), node))
    {
      if N[node] != Nil {
        P := P[N[node] := P[node]];
      }
      if P[node] != Nil {
        N := N[P[node] := N[node]];
      }
      N := N[node := Nil];
      P := P[node := Nil];
    }

    /** Put `next` in `node`'s place under `node`'s parent, or as the root when `node` has none. */
    method Replace(node: int, next: int)
      requires |L| == |U| && |R| == |U| && 0 <= node < |U| && (U[node] == Nil || 0 <= U[node] < |U|)
      modifies this
      ensures var u := old(U[node]);
        && root == (if u == Nil then next else old(root))
        && L == (if u != Nil && old(L[u]) == node then old(L)[u := next] else old(L))
        && R == (if u != Nil && old(L[u]) != node then old(R)[u := next] else old(R))
      ensures U == old(U) && P == old(P) && N == old(N) && C == old(C) && G == old(G)
    {
      var parent := U[node];
      if parent != Nil {
        if L[parent] == node {
          L := L[parent := next];
        } else {
          R := R[parent := next];
        }
      } else {
        root := next;
      }
    }

    /**
      Remove's tree surgery for a `node` with a null child: its other child
      `next` (or null) takes its place under its parent, or as the root.
      Returns the place that lost a node, and the colour that left it.
    */
    method SpliceOut(node: int, ghost s: Snap) returns (x: int, xp: int, red: bool)
      requires Spliceable(s, node) && root == s.root && U == s.U && L == s.L && R == s.R && C == s.C
      modifies this
      ensures var t := Spliced(s, node); root == t.root && U == t.U && L == t.L && R == t.R && C == t.C
      ensures P == old(P) && N == old(N) && G == old(G)
      ensures x == (if s.L[node] == Nil then s.R[node] else s.L[node]) && xp == s.U[node] && red == s.C[node]
    {
      var parent, left, right := U[node], L[node], R[node];
      var next := if left == Nil then right else left;
      Replace(node, next);
      red := C[node];
      x := next;
      if x != Nil {
        U := U[x := parent];
      }
      xp := parent;
    }

    /**
      Remove's tree surgery for a `node` with two children: its in-order
      successor `next` (the leftmost node of its right subtree) takes its
      place, colour and children; `next`'s own right subtree moves up into
      the place `next` leaves. Returns that place and the colour that left it.
    */
    method Succeed(node: int, next: int, ghost s: Snap) returns (x: int, xp: int, red: bool)
      requires Succeedable(s, node) && next == s.Contents[s.Pos[node] + 1]
      requires root == s.root && U == s.U && L == s.L && R == s.R && C == s.C
      modifies this
      ensures var t := Relinked(s, node); root == t.root && U == t.U && L == t.L && R == t.R && C == t.C
      ensures P == old(P) && N == old(N) && G == old(G)
      ensures var next := s.Contents[s.Pos[node] + 1];
        x == s.R[next] && xp == (if next == s.R[node] then next else s.U[next]) && red == s.C[next]
    {
      var parent, left, right := U[node], L[node], R[node];
      Replace(node, next);
      red := C[next];
      C := C[next := C[node]];
      L := L[next := left];
      U := U[left := next];
      if next != right {
        parent := U[next];
        U := U[next := U[node]];
        x := R[next];
        L := L[parent := x];
        R := R[next := right];
        U := U[right := next];
      } else {
        U := U[next := parent];
        parent := next;
        x := R[next];
      }
      if x != Nil {
        U := U[x := parent];
      }
      xp := parent;
    }

    /**
      The first half of remove: take `node` out of the P/N threading, then out
      of the tree. Returns the place `x` under `xp` that lost a node, and
      whether the node that left it was red.
    */
    method Unlink(node: int) returns (x: int, xp: int, red: bool)
      requires Valid(View()) && InTree(View(), node)
      modifies this
      ensures View() == Unlinked(old(View()), node) && HoleOf(old(View()), node) == Hole(x, xp, red)
    {
      ghost var s := View();
      assert NodeShaped(s, node) && ThreadedAt(s, node);
      Unthread(node);
      if L[node] == Nil || R[node] == Nil {
        x, xp, red := SpliceOut(node, s);
      } else {
        var next := First(R[node], s);
        SucceedableOf(s, node);
        x, xp, red := Succeed(node, next, s);
      }
      ghost var t := Unlinked(s, node);
      G := Book(t.Contents, t.Pos, t.Lo, t.Hi, t.Bh);
    }
 
    /** Remove fix-up case 1 on the left: the red sibling turns black, `parent` red, and a left rotation lifts the sibling. */
    method LiftSiblingLeft(parent: int)
      requires Sized(View()) && 0 <= parent < |U| && 0 <= R[parent] < |U|
      requires LeftRotatable(RL.SiblingPainted(View(), parent), parent)
      modifies this
      ensures View() == RL.SiblingLifted(old(View()), parent)
      ensures G.Contents == old(G.Contents) && G.Pos == old(G.Pos) && |U| == |old(U)| && P == old(P) && N == old(N)
    {
      var sibling := R[parent];
      C := C[sibling := false][parent := true];
      RotateLeft(parent);
    }

    /** Remove fix-up case 3 on the left: the red inner nephew turns black, the sibling red, and a right rotation lifts the nephew. */
    method TurnNephewLeft(parent: int)
      requires Sized(View()) && 0 <= parent < |U| && 0 <= R[parent] < |U| && 0 <= L[R[parent]] < |U|
      requires RightRotatable(RL.NephewPainted(View(), parent), R[parent])
      modifies this
      ensures View() == RL.NephewTurned(old(View()), parent)
      ensures G.Contents == old(G.Contents) && G.Pos == old(G.Pos) && |U| == |old(U)| && P == old(P) && N == old(N)
    {
      var sibling := R[parent];
      C := C[L[sibling] := false][sibling := true];
      RotateRight(sibling);
    }

    /**
      Remove fix-up case 4 on the left: the sibling takes `parent`'s colour,
      `parent` and the outer nephew turn black, and a left rotation at
      `parent` lifts the sibling into its place.
    */
    method StraightenLeft(parent: int)
      requires Sized(View()) && 0 <= parent < |U| && 0 <= R[parent] < |U| && 0 <= R[R[parent]] < |U| && G.Bh[parent] >= 1
      requires LeftRotatable(RL.FarPainted(View(), parent), parent)
      modifies this
      ensures View() == RL.Straightened(old(View()), parent)
      ensures G.Contents == old(G.Contents) && G.Pos == old(G.Pos) && |U| == |old(U)| && P == old(P) && N == old(N)
    {
      var sibling := R[parent];
      C := C[sibling := C[parent]][parent := false][R[sibling] := false];
      G := G.(Bh := G.Bh[parent := G.Bh[parent] - 1][sibling := G.Bh[sibling] + 1]);
      RotateLeft(parent);
    }

    /**
      The start of a remove fix-up step on the left: a red sibling of the
      short `node` turns black and is rotated above `parent` (case 1), so that
      the sibling returned is black.
    */
    method BlackSiblingLeft(node: int, parent: int) returns (sibling: int)
      requires RL.LeftShort(View(), node, parent)
      modifies this
      ensures G.Contents == old(G.Contents) && G.Pos == old(G.Pos) && |U| == |old(U)| && P == old(P) && N == old(N)
      ensures RL.LeftShort(View(), node, parent) && sibling == R[parent] && 0 <= sibling < |C| && !C[sibling]
      ensures Rank(View(), node) == old(Rank(View(), node))
    {
      ghost var s := View();
      RL.HoleFrameOf(s, node, parent);
      sibling := R[parent];
      if C[sibling] {
        RL.RedSiblingCase(s, node, parent);
        LiftSiblingLeft(parent);
        sibling := R[parent];
      }
    }

    /**
      The end of a remove fix-up step on the left, when the black sibling has
      a red child: a red inner nephew alone is first rotated to the outside
      (case 3), then the rotation at `parent` makes up the missing black node
      (case 4), which leaves a valid tree.
    */
    method RestoreLeft(node: int, parent: int)
      requires RL.LeftShort(View(), node, parent) && 0 <= R[parent] < |C| && !C[R[parent]]
      requires Red(View(), L[R[parent]]) || Red(View(), R[R[parent]])
      modifies this
      ensures G.Contents == old(G.Contents) && G.Pos == old(G.Pos) && |U| == |old(U)| && P == old(P) && N == old(N)
      ensures Valid(View())
    {
      ghost var s := View();
      RL.HoleFrameOf(s, node, parent);
      var sibling := R[parent];
      if R[sibling] == Nil || !C[R[sibling]] {
        RL.InnerRedCase(s, node, parent);
        TurnNephewLeft(parent);
        s := View();
        RL.HoleFrameOf(s, node, parent);
      }
      RL.OuterRedCase(s, node, parent);
      StraightenLeft(parent);
    }

    /**
      One step of the remove fix-up when the short `node` is the left child of
      `parent`. When the (black) sibling has a red child the tree is valid
      afterwards (`done`); otherwise the sibling is returned, black over black
      children, for case 2.
    */
    method FixLeft(node: int, parent: int) returns (sibling: int, done: bool)
      requires RL.LeftShort(View(), node, parent)
      modifies this
      ensures G.Contents == old(G.Contents) && G.Pos == old(G.Pos) && |U| == |old(U)| && P == old(P) && N == old(N)
      ensures done ==> Valid(View())
      ensures !done ==>
        && RL.LeftShort(View(), node, parent) && sibling == R[parent] && 0 <= sibling < |C|
        && !C[sibling] && !Red(View(), L[sibling]) && !Red(View(), R[sibling])
        && Rank(View(), node) == old(Rank(View(), node))
    {
      sibling := BlackSiblingLeft(node, parent);
      ghost var s := View();
      RL.HoleFrameOf(s, node, parent);
      if (L[sibling] != Nil && C[L[sibling]]) || (R[sibling] != Nil && C[R[sibling]]) {
        RestoreLeft(node, parent);
        done := true;
      } else {
        done := false;
      }
    }

    /** Remove fix-up case 1 on the right: the red sibling turns black, `parent` red, and a right rotation lifts the sibling. */
    method LiftSiblingRight(parent: int)
      requires Sized(View()) && 0 <= parent < |U| && 0 <= L[parent] < |U|
      requires RightRotatable(RR.SiblingPainted(View(), parent), parent)
      modifies this
      ensures View() == RR.SiblingLifted(old(View()), parent)
      ensures G.Contents == old(G.Contents) && G.Pos == old(G.Pos) && |U| == |old(U)| && P == old(P) && N == old(N)
    {
      var sibling := L[parent];
      C := C[sibling := false][parent := true];
      RotateRight(parent);
    }

    /** Remove fix-up case 3 on the right: the red inner nephew turns black, the sibling red, and a left rotation lifts the nephew. */
    method TurnNephewRight(parent: int)
      requires Sized(View()) && 0 <= parent < |U| && 0 <= L[parent] < |U| && 0 <= R[L[parent]] < |U|
      requires LeftRotatable(RR.NephewPainted(View(), parent), L[parent])
      modifies this
      ensures View() == RR.NephewTurned(old(View()), parent)
      ensures G.Contents == old(G.Contents) && G.Pos == old(G.Pos) && |U| == |old(U)| && P == old(P) && N == old(N)
    {
      var sibling := L[parent];
      C := C[R[sibling] := false][sibling := true];
      RotateLeft(sibling);
    }

    /**
      Remove fix-up case 4 on the right: the sibling takes `parent`'s colour,
      `parent` and the outer nephew turn black, and a right rotation at
      `parent` lifts the sibling into its place.
    */
    method StraightenRight(parent: int)
      requires Sized(View()) && 0 <= parent < |U| && 0 <= L[parent] < |U| && 0 <= L[L[parent]] < |U| && G.Bh[parent] >= 1
      requires RightRotatable(RR.FarPainted(View(), parent), parent)
      modifies this
      ensures View() == RR.Straightened(old(View()), parent)
      ensures G.Contents == old(G.Contents) && G.Pos == old(G.Pos) && |U| == |old(U)| && P == old(P) && N == old(N)
    {
      var sibling := L[parent];
      C := C[sibling := C[parent]][parent := false][L[sibling] := false];
      G := G.(Bh := G.Bh[parent := G.Bh[parent] - 1][sibling := G.Bh[sibling] + 1]);
      RotateRight(parent);
    }

    /**
      The start of a remove fix-up step on the right: a red sibling of the
      short `node` turns black and is rotated above `parent` (case 1), so that
      the sibling returned is black.
    */
    method BlackSiblingRight(node: int, parent: int) returns (sibling: int)
      requires RR.RightShort(View(), node, parent)
      modifies this
      ensures G.Contents == old(G.Contents) && G.Pos == old(G.Pos) && |U| == |old(U)| && P == old(P) && N == old(N)
      ensures RR.RightShort(View(), node, parent) && sibling == L[parent] && 0 <= sibling < |C| && !C[sibling]
      ensures Rank(View(), node) == old(Rank(View(), node))
    {
      ghost var s := View();
      RR.HoleFrameOf(s, node, parent);
      sibling := L[parent];
      if C[sibling] {
        RR.RedSiblingCase(s, node, parent);
        LiftSiblingRight(parent);
        sibling := L[parent];
      }
    }

    /**
      The end of a remove fix-up step on the right, when the black sibling has
      a red child: a red inner nephew alone is first rotated to the outside
      (case 3), then the rotation at `parent` makes up the missing black node
      (case 4), which leaves a valid tree.
    */
    method RestoreRight(node: int, parent: int)
      requires RR.RightShort(View(), node, parent) && 0 <= L[parent] < |C| && !C[L[parent]]
      requires Red(View(), R[L[parent]]) || Red(View(), L[L[parent]])
      modifies this
      ensures G.Contents == old(G.Contents) && G.Pos == old(G.Pos) && |U| == |old(U)| && P == old(P) && N == old(N)
      ensures Valid(View())
    {
      ghost var s := View();
      RR.HoleFrameOf(s, node, parent);
      var sibling := L[parent];
      if L[sibling] == Nil || !C[L[sibling]] {
        RR.InnerRedCase(s, node, parent);
        TurnNephewRight(parent);
        s := View();
        RR.HoleFrameOf(s, node, parent);
      }
      RR.OuterRedCase(s, node, parent);
      StraightenRight(parent);
    }

    /**
      One step of the remove fix-up when the short `node` is the right child of
      `parent`. When the (black) sibling has a red child the tree is valid
      afterwards (`done`); otherwise the sibling is returned, black over black
      children, for case 2.
    */
    method FixRight(node: int, parent: int) returns (sibling: int, done: bool)
      requires RR.RightShort(View(), node, parent)
      modifies this
      ensures G.Contents == old(G.Contents) && G.Pos == old(G.Pos) && |U| == |old(U)| && P == old(P) && N == old(N)
      ensures done ==> Valid(View())
      ensures !done ==>
        && RR.RightShort(View(), node, parent) && sibling == L[parent] && 0 <= sibling < |C|
        && !C[sibling] && !Red(View(), R[sibling]) && !Red(View(), L[sibling])
        && Rank(View(), node) == old(Rank(View(), node))
    {
      sibling := BlackSiblingRight(node, parent);
      ghost var s := View();
      RR.HoleFrameOf(s, node, parent);
      if (R[sibling] != Nil && C[R[sibling]]) || (L[sibling] != Nil && C[L[sibling]]) {
        RestoreRight(node, parent);
        done := true;
      } else {
        done := false;
      }
    }
 
    /**
      Remove fix-up case 2: the black sibling of the short `node`, with no red
      child, turns red, and the shortage moves up to `parent`.
    */
    method PushUp(node: int, parent: int, sibling: int)
      requires 0 <= parent < |U| && 0 <= sibling < |C| && !C[sibling]
      requires (RL.LeftShort(View(), node, parent) && sibling == R[parent])
            || (RR.RightShort(View(), node, parent) && sibling == L[parent])
      requires !Red(View(), L[sibling]) && !Red(View(), R[sibling])
      modifies this
      ensures G.Contents == old(G.Contents) && G.Pos == old(G.Pos) && |U| == |old(U)| && P == old(P) && N == old(N)
      ensures U == old(U) && Loose(View(), parent, U[parent], true)
      ensures old(Rank(View(), node)) < Rank(View(), parent)
    {
      ghost var s := View();
      if RL.LeftShort(s, node, parent) && sibling == R[parent] {
        RL.HoleFrameOf(s, node, parent);
        RL.PushUpCase(s, node, parent);
      } else {
        RR.HoleFrameOf(s, node, parent);
        RR.PushUpCase(s, node, parent);
      }
      C := C[sibling := true];
      G := G.(Bh := G.Bh[parent := G.Bh[parent] - 1]);
    }

    /**
      One round of the remove fix-up at the short, black, non-root `node`:
      either the tree is repaired (`done`), or the shortage has moved up to
      `parent`, a higher place in the tree.
    */
    method FixStep(node: int, parent: int) returns (done: bool)
      requires Loose(View(), node, parent, true) && !Red(View(), node) && node != root
      modifies this
      ensures G.Contents == old(G.Contents) && G.Pos == old(G.Pos) && |U| == |old(U)| && P == old(P) && N == old(N)
      ensures done ==> Valid(View())
      ensures !done ==> 0 <= parent < |U| && Loose(View(), parent, U[parent], true)
      ensures !done ==> old(Rank(View(), node)) < Rank(View(), parent)
    {
      var sibling;
      if node == L[parent] {
        sibling, done := FixLeft(node, parent);
      } else {
        sibling, done := FixRight(node, parent);
      }
      if !done {
        PushUp(node, parent, sibling);
      }
    }

    /**
      The remove fix-up: while the short `node` is neither the root nor red,
      repair one level (cases 1 to 4 on its side) or move the shortage up
      (case 2); finally paint `node` black.
    */
    method RemoveFixup(x: int, xp: int)
      requires Loose(View(), x, xp, true) && !Red(View(), x)
      modifies this
      ensures Valid(View())
      ensures G.Contents == old(G.Contents) && G.Pos == old(G.Pos) && |U| == |old(U)| && P == old(P) && N == old(N)
    {
      var node, parent := x, xp;
      ghost var short := true;
      while true
        invariant Loose(View(), node, parent, true) && !Red(View(), node)
        invariant G.Contents == old(G.Contents) && G.Pos == old(G.Pos) && |U| == |old(U)| && P == old(P) && N == old(N)
        decreases |G.Contents| - Rank(View(), node)
      {
        if node == root {
          break;
        }
        LooseRank(View(), node, parent, true);
        var done := FixStep(node, parent);
        if done {
          ValidLoose(View());
          node, parent, short := root, Nil, false;
          break;
        }
        node, parent := parent, U[parent];
        if C[node] {
          break;
        }
      }
      LoosePainted(View(), node, parent, short);
      if node != Nil {
        C := C[node := false];
      }
    }

    /**
      Remove `node` from the tree: it leaves the P/N threading, its old
      neighbours becoming adjacent, and the in-order sequence loses it; then
      rebalance.
    */
    method Remove(node: int)
      requires Valid(View()) && InTree(View(), node)
      modifies this
      ensures Valid(View()) && |U| == |old(U)|
      ensures var k := old(G.Pos[node]);
        0 <= k < |old(G.Contents)| && G.Contents == old(G.Contents[..k] + G.Contents[k + 1..])
      ensures G.Pos[node] == -1 && P[node] == Nil && N[node] == Nil
      ensures old(P[node]) != Nil ==> 0 <= old(P[node]) < |N| && N[old(P[node])] == old(N[node])
      ensures old(N[node]) != Nil ==> 0 <= old(N[node]) < |P| && P[old(N[node])] == old(P[node])
    {
      ghost var s := View();
      var x, xp, red := Unlink(node);
      UnlinkedLoose(s, node);
      UnlinkedNeighbours(s, node);
      if red {
        LooseSettled(View(), x, xp);
        return;
      }
      if x != Nil && C[x] {
        LoosePainted(View(), x, xp, true);
        C := C[x := false];
        return;
      }
      RemoveFixup(x, xp);
    }
  }
}
