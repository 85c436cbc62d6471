/**
  The circle-event queue: a red-black tree whose in-order sequence is the
  queue of pending circle events in sweep order, with `first` caching its
  head. Each arena node carries the circle event it stands for.

  Attaching a circle walks down from the root to find the node it is to be
  inserted after: it goes left past every node that is not strictly earlier
  than itself, so it lands after every strictly earlier circle and before
  every other one. Detaching a circle that has no predecessor moves `first`
  on to its successor.
*/
module VoronoiCircles {
  import opened RedBlackSpec
  import opened RedBlackTree
  import opened VoronoiEdges
  import opened VoronoiSweep

  /** The circles of `order`'s nodes, in that order. */
  function Keyed(order: seq<int>, data: seq<Circle>): (q: seq<Circle>)
    requires forall i | 0 <= i < |order| :: 0 <= order[i] < |data|
    ensures |q| == |order| && forall i | 0 <= i < |order| :: q[i] == data[order[i]]
  {
    seq(|order|, i requires 0 <= i < |order| => data[order[i]])
  }

  /** Inserting a node into the order inserts its circle into the queue at the same place. */
  lemma KeyedInserted(order: seq<int>, data: seq<Circle>, k: int, c: int)
    requires forall i | 0 <= i < |order| :: 0 <= order[i] < |data|
    requires 0 <= k <= |order| && 0 <= c < |data|
    ensures Keyed(order[..k] + [c] + order[k..], data) == Keyed(order, data)[..k] + [data[c]] + Keyed(order, data)[k..]
  {
  }

  /** Removing a node from the order removes its circle from the queue. */
  lemma KeyedRemoved(order: seq<int>, data: seq<Circle>, k: int)
    requires forall i | 0 <= i < |order| :: 0 <= order[i] < |data|
    requires 0 <= k < |order|
    ensures Keyed(order[..k] + order[k + 1..], data) == Keyed(order, data)[..k] + Keyed(order, data)[k + 1..]
  {
  }

  /** The circle of a node outside the order does not show in the queue. */
  lemma KeyedUpdated(order: seq<int>, data: seq<Circle>, c: int, v: Circle)
    requires forall i | 0 <= i < |order| :: 0 <= order[i] < |data| && order[i] != c
    requires 0 <= c < |data|
    ensures Keyed(order, data[c := v]) == Keyed(order, data)
  {
  }

  /**
    Inserting `c` after every strictly earlier circle and before every other
    one keeps the queue in sweep order.
  */
  lemma InsertedInOrder(q: seq<Circle>, k: int, c: Circle)
    requires QueueOrdered(q) && 0 <= k <= |q|
    requires forall i | 0 <= i < k :: Earlier(q[i].y, q[i].x, c.y, c.x)
    requires forall i | k <= i < |q| :: !Earlier(q[i].y, q[i].x, c.y, c.x)
    ensures QueueOrdered(q[..k] + [c] + q[k..])
  {
    var t := q[..k] + [c] + q[k..];
    forall i, j | 0 <= i < j < |t|
      ensures !Earlier(t[j].y, t[j].x, t[i].y, t[i].x)
    {
      var i' := if i < k then i else i - 1;
      var j' := if j <= k then j else j - 1;
      assert i == k || t[i] == q[i'];
      assert j == k || t[j] == q[j'];
    }
  }

  /** Taking any one circle out keeps the queue in sweep order. */
  lemma RemovedInOrder(q: seq<Circle>, k: int)
    requires QueueOrdered(q) && 0 <= k < |q|
    ensures QueueOrdered(q[..k] + q[k + 1..])
  {
    var t := q[..k] + q[k + 1..];
    forall i, j | 0 <= i < j < |t|
      ensures !Earlier(t[j].y, t[j].x, t[i].y, t[i].x)
    {
      assert t[i] == q[if i < k then i else i + 1];
      assert t[j] == q[if j < k then j else j + 1];
    }
  }

  /** A circle no later than the one at `pos` is no later than any circle after it either. */
  lemma NotEarlierOn(q: seq<Circle>, pos: int, c: Circle)
    requires QueueOrdered(q) && 0 <= pos < |q| && !Earlier(q[pos].y, q[pos].x, c.y, c.x)
    ensures forall i | pos <= i < |q| :: !Earlier(q[i].y, q[i].x, c.y, c.x)
  {
  }

  /** A circle later than the one at `pos` is later than any circle before it too. */
  lemma EarlierUpTo(q: seq<Circle>, pos: int, c: Circle)
    requires QueueOrdered(q) && 0 <= pos < |q| && Earlier(q[pos].y, q[pos].x, c.y, c.x)
    ensures forall i | 0 <= i <= pos :: Earlier(q[i].y, q[i].x, c.y, c.x)
  {
  }

  /**
    After removing the node at `k` from `order`, the head is the old
    successor `next` when the node had no predecessor `prev`, and the old head
    `head` otherwise.
  */
  lemma RemovedHead(order: seq<int>, k: int, head: int, prev: int, next: int)
    requires 0 <= k < |order| && forall i | 0 <= i < |order| :: order[i] != Nil
    requires head == order[0]
    requires prev == (if k == 0 then Nil else order[k - 1])
    requires next == (if k == |order| - 1 then Nil else order[k + 1])
    ensures var rest := order[..k] + order[k + 1..];
      (if prev == Nil then next else head) == (if |rest| == 0 then Nil else rest[0])
  {
  }

  class CircleQueue {
    /** The tree holding the pending circles in queue order. */
    const tree: Tree
    /** Per arena node: the circle event it stands for. */
    var data: seq<Circle>
    /** The head of the queue, or `Nil` when it is empty. */
    var first: int

    /** The pending circles, in queue order. */
    ghost function Queue(): seq<Circle>
      reads this, tree
      requires Indexed(tree.View()) && |data| == |tree.U|
    {
      Keyed(tree.G.Contents, data)
    }

    /** A valid red-black tree, in sweep order, with `first` its head. */
    ghost predicate Valid()
      reads this, tree
    {
      && RedBlackSpec.Valid(tree.View()) && |data| == |tree.U|
      && QueueOrdered(Queue())
      && first == (if |tree.G.Contents| == 0 then Nil else tree.G.Contents[0])
    }

    /** An empty queue. */
    constructor ()
      ensures Valid() && Queue() == [] && fresh(tree)
    {
      tree := new Tree();
      data := [];
      first := Nil;
    }

    /**
      The circle at `first`: the earliest pending circle, none when the queue
      is empty.
    */
    function FirstCircle(): (r: Option<Circle>)
      reads this, tree
      requires Valid()
      ensures r == Head(Queue())
      ensures r.Some? ==> forall i | 0 <= i < |Queue()| :: !Earlier(Queue()[i].y, Queue()[i].x, r.value.y, r.value.x)
    {
      if first == Nil then None else Some(data[first])
    }

    /** A fresh circle node, detached, for a circle event not yet placed. */
    method NewCircle(circle: Circle) returns (c: int)
      requires Valid()
      modifies this, tree
      ensures Valid() && Queue() == old(Queue())
      ensures c == old(|tree.U|) && |tree.U| == c + 1 && tree.G.Pos[c] == -1 && data[c] == circle
    {
      ghost var s := tree.View();
      c := tree.NewNode();
      GrownValid(s);
      data := data + [circle];
      assert Queue() == old(Queue());
    }

    /**
      The node the circle is to be inserted after: the last queued node
      strictly earlier than `circle`, or `Nil` when there is none. Every
      circle before the insertion point is strictly earlier, every circle from
      it on is not.
    */
    method Before(circle: Circle) returns (before: int)
      requires Valid()
      ensures before == Nil || InTree(tree.View(), before)
      ensures var q, k := Queue(), if before == Nil then 0 else tree.G.Pos[before] + 1;
        && 0 <= k <= |q|
        && (forall i | 0 <= i < k :: Earlier(q[i].y, q[i].x, circle.y, circle.x))
        && (forall i | k <= i < |q| :: !Earlier(q[i].y, q[i].x, circle.y, circle.x))
    {
      ghost var s, q := tree.View(), Queue();
      before := Nil;
      var node := tree.root;
      while node != Nil
        invariant node == Nil ==> |q| == 0
        invariant node != Nil ==> InTree(s, node) && NodeShaped(s, node)
        invariant node != Nil ==> forall i | 0 <= i < s.Lo[node] :: Earlier(q[i].y, q[i].x, circle.y, circle.x)
        invariant node != Nil ==> forall i | s.Hi[node] < i < |q| :: !Earlier(q[i].y, q[i].x, circle.y, circle.x)
        decreases if node == Nil then 0 else s.Hi[node] - s.Lo[node] + 1
      {
        var key := data[node];
        assert key == q[s.Pos[node]];
        if circle.y < key.y || (circle.y == key.y && circle.x <= key.x) {
          NotEarlierOn(q, s.Pos[node], circle);
          if tree.L[node] != Nil {
            node := tree.L[node];
            assert NodeShaped(s, node);
          } else {
            before := tree.P[node];
            assert ThreadedAt(s, node);
            break;
          }
        } else {
          EarlierUpTo(q, s.Pos[node], circle);
          if tree.R[node] != Nil {
            node := tree.R[node];
            assert NodeShaped(s, node);
          } else {
            before := node;
            break;
          }
        }
      }
    }

    /**
      Queue the detached node `c` for `circle`: it goes after every strictly
      earlier circle and before every other one, and becomes `first` when
      nothing precedes it.
    */
    method Attach(c: int, circle: Circle) returns (ghost k: int)
      requires Valid() && 0 <= c < |tree.U| && tree.G.Pos[c] == -1
      modifies this, tree
      ensures Valid() && |tree.U| == old(|tree.U|) && data[c] == circle
      ensures 0 <= k <= |old(Queue())|
      ensures tree.G.Contents == old(tree.G.Contents[..k] + [c] + tree.G.Contents[k..])
      ensures Queue() == old(Queue()[..k]) + [circle] + old(Queue()[k..])
      ensures forall i | 0 <= i < k :: Earlier(old(Queue())[i].y, old(Queue())[i].x, circle.y, circle.x)
      ensures forall i | k <= i < |old(Queue())| :: !Earlier(old(Queue())[i].y, old(Queue())[i].x, circle.y, circle.x)
    {
      ghost var q := Queue();
      KeyedUpdated(tree.G.Contents, data, c, circle);
      data := data[c := circle];
      var before := Before(circle);
      k := if before == Nil then 0 else tree.G.Pos[before] + 1;
      ghost var order := tree.G.Contents;
      tree.Insert(before, c);
      KeyedInserted(order, data, k, c);
      assert Queue() == q[..k] + [circle] + q[k..];
      InsertedInOrder(q, k, circle);
      assert tree.G.Contents[0] == if k == 0 then c else order[0];
      if before == Nil {
        first := c;
      }
    }

    /**
      Take the queued node `c` out of the queue, or do nothing for `Nil`;
      when `c` has no predecessor, `first` moves on to its successor. The
      node leaves with null links, ready to be queued again.
    */
    method Detach(c: int)
      requires Valid() && (c == Nil || InTree(tree.View(), c))
      modifies this, tree
      ensures Valid() && |tree.U| == old(|tree.U|) && data == old(data)
      ensures c == Nil ==> tree.G.Contents == old(tree.G.Contents)
      ensures c != Nil ==> var k := old(tree.G.Pos[c]);
        && tree.G.Contents == old(tree.G.Contents[..k] + tree.G.Contents[k + 1..])
        && Queue() == old(Queue()[..k] + Queue()[k + 1..])
        && tree.G.Pos[c] == -1 && tree.U[c] == tree.L[c] == tree.R[c] == tree.P[c] == tree.N[c] == Nil
      ensures c != Nil && c == old(first) ==> Queue() == old(Queue()[1..])
    {
      if c != Nil {
        ghost var s, q := tree.View(), Queue();
        assert ThreadedAt(s, c);
        RemovedHead(s.Contents, s.Pos[c], first, s.P[c], s.N[c]);
        if tree.P[c] == Nil {
          first := tree.N[c];
        }
        tree.Remove(c);
        ghost var k := s.Pos[c];
        assert tree.G.Contents == s.Contents[..k] + s.Contents[k + 1..];
        KeyedRemoved(s.Contents, data, k);
        assert Queue() == q[..k] + q[k + 1..];
        RemovedInOrder(q, k);
        ClearedValid(tree.View(), c);
        tree.Clear(c);
      }
    }
  }
}
