/**
  Voronoi cells: the half-edges collected around each site, and their
  preparation once the sweep is over.
*/
module VoronoiCells {
  import opened VoronoiEdges

  /** Both ends of the half-edge's edge are known. */
  predicate Finished(h: HalfEdge)
    reads h.edge
  {
    h.edge.a != None && h.edge.b != None
  }

  /** The half-edges `hs[k]` for which `keep[k]` holds, in their order in `hs`. */
  function Kept(hs: seq<HalfEdge>, keep: seq<bool>): (r: seq<HalfEdge>)
    requires |keep| == |hs|
    ensures |r| <= |hs|
  {
    if hs == [] then []
    else (if keep[0] then [hs[0]] else []) + Kept(hs[1..], keep[1..])
  }

  /**
    What `Kept` keeps: a sub-multiset of `hs` holding every half-edge whose
    flag is set, and only such half-edges.
  */
  lemma {:induction false} KeptContents(hs: seq<HalfEdge>, keep: seq<bool>)
    requires |keep| == |hs|
    ensures multiset(Kept(hs, keep)) <= multiset(hs)
    ensures forall k | 0 <= k < |hs| && keep[k] :: hs[k] in Kept(hs, keep)
    ensures forall h | h in Kept(hs, keep) :: exists k | 0 <= k < |hs| :: hs[k] == h && keep[k]
  {
    if hs != [] {
      KeptContents(hs[1..], keep[1..]);
      KeptStep(hs, keep, Kept(hs[1..], keep[1..]));
    }
  }

  /** One step of `Kept`: what holds of `rest` for `hs[1..]` holds of the result for `hs`. */
  lemma KeptStep(hs: seq<HalfEdge>, keep: seq<bool>, rest: seq<HalfEdge>)
    requires |keep| == |hs| > 0
    requires |rest| <= |hs| - 1 && multiset(rest) <= multiset(hs[1..])
    requires forall k | 0 <= k < |hs| - 1 && keep[1..][k] :: hs[1..][k] in rest
    requires forall h | h in rest :: exists k | 0 <= k < |hs| - 1 :: hs[1..][k] == h && keep[1..][k]
    ensures var r := (if keep[0] then [hs[0]] else []) + rest;
      && |r| <= |hs| && multiset(r) <= multiset(hs)
      && (forall k | 0 <= k < |hs| && keep[k] :: hs[k] in r)
      && (forall h | h in r :: exists k | 0 <= k < |hs| :: hs[k] == h && keep[k])
  {
    assert hs == [hs[0]] + hs[1..];
    var r := (if keep[0] then [hs[0]] else []) + rest;
    forall h | h in r ensures exists k | 0 <= k < |hs| :: hs[k] == h && keep[k] {
      if h in rest {
        var k :| 0 <= k < |hs| - 1 && hs[1..][k] == h && keep[1..][k];
        assert hs[k + 1] == h && keep[k + 1];
      } else {
        assert hs[0] == h && keep[0];
      }
    }
    forall k | 0 <= k < |hs| && keep[k] ensures hs[k] in r {
      if k > 0 { assert hs[k] == hs[1..][k - 1] && keep[1..][k - 1]; }
    }
  }

  /**
    Removing index `i` from `e`, which keeps `o` up to `i` and the kept part of
    the rest, leaves `o` before `i` and the kept part from `i + 1` on.
  */
  lemma KeptSplice(o: seq<HalfEdge>, keep: seq<bool>, i: nat, e: seq<HalfEdge>)
    requires |keep| == |o| && i < |o|
    requires e == o[..i + 1] + Kept(o[i + 1..], keep[i + 1..])
    ensures Kept(o[i..], keep[i..]) == (if keep[i] then [o[i]] else []) + Kept(o[i + 1..], keep[i + 1..])
    ensures i < |e| && e[i] == o[i]
    ensures e[..i] + e[i + 1..] == o[..i] + Kept(o[i + 1..], keep[i + 1..])
    ensures e == o[..i] + [o[i]] + Kept(o[i + 1..], keep[i + 1..])
  {
    assert o[i..][1..] == o[i + 1..] && keep[i..][1..] == keep[i + 1..];
    assert o[..i + 1] == o[..i] + [o[i]];
  }

  /** Which of the half-edges of `hs` have finished edges. */
  function FinishedFlags(hs: seq<HalfEdge>): (flags: seq<bool>)
    reads set i | 0 <= i < |hs| :: hs[i].edge
    ensures |flags| == |hs| && forall k | 0 <= k < |hs| :: flags[k] == Finished(hs[k])
  {
    seq(|hs|, k reads set i | 0 <= i < |hs| :: hs[i].edge => 0 <= k < |hs| && Finished(hs[k]))
  }

  /** The half-edges of `hs` whose edges are finished, in their order in `hs`. */
  function FinishedOnes(hs: seq<HalfEdge>): seq<HalfEdge>
    reads set i | 0 <= i < |hs| :: hs[i].edge
  {
    Kept(hs, FinishedFlags(hs))
  }

  /**
    The half-edges with finished edges: part of `hs`, holding each of its
    half-edges whose edge has both ends, and no other.
  */
  lemma FinishedOnesAre(hs: seq<HalfEdge>)
    ensures multiset(FinishedOnes(hs)) <= multiset(hs)
    ensures forall k | 0 <= k < |hs| && Finished(hs[k]) :: hs[k] in FinishedOnes(hs)
    ensures forall h | h in FinishedOnes(hs) :: Finished(h)
  {
    KeptContents(hs, FinishedFlags(hs));
  }

  /** The comparator the half-edges are sorted with: positive when `b` comes first. */
  function DescendingAngle(a: HalfEdge, b: HalfEdge): real {
    b.angle - a.angle
  }

  /** No half-edge of `hs` should come before one before it. */
  predicate Descending(hs: seq<HalfEdge>) {
    forall i, j | 0 <= i < j < |hs| :: DescendingAngle(hs[i], hs[j]) <= 0.0
  }

  /** The first `k` half-edges of `hs` are in descending order of angle. */
  predicate DescendingUpTo(hs: seq<HalfEdge>, k: nat)
    requires k <= |hs|
  {
    forall i, j | 0 <= i < j < k :: hs[i].angle >= hs[j].angle
  }

  /** `hs` with the element at `k` moved left to index `j`. */
  function MovedLeft<T>(hs: seq<T>, j: nat, k: nat): (r: seq<T>)
    requires j <= k < |hs|
    ensures |r| == |hs| && multiset(r) == multiset(hs)
  {
    var a, b, c := hs[..j], hs[j..k], hs[k + 1..];
    assert hs == a + b + [hs[k]] + c;
    assert multiset(hs) == multiset(a) + multiset(b) + multiset{hs[k]} + multiset(c);
    a + [hs[k]] + b + c
  }

  /** Where each element of `hs` ends up after `MovedLeft`. */
  lemma MovedLeftAt<T>(hs: seq<T>, j: nat, k: nat, m: nat)
    requires j <= k < |hs| && m < |hs|
    ensures MovedLeft(hs, j, k)[m] ==
      (if m < j then hs[m] else if m == j then hs[k] else if m <= k then hs[m - 1] else hs[m])
  {
  }

  /**
    Moving the half-edge at `k` left to `j`, past the ones of smaller angle,
    extends the sorted prefix by one.
  */
  lemma MovedLeftSorted(hs: seq<HalfEdge>, j: nat, k: nat)
    requires j <= k < |hs| && DescendingUpTo(hs, k)
    requires forall m | j <= m < k :: hs[m].angle < hs[k].angle
    requires j > 0 ==> hs[j - 1].angle >= hs[k].angle
    ensures DescendingUpTo(MovedLeft(hs, j, k), k + 1)
  {
    var r := MovedLeft(hs, j, k);
    forall a, b | 0 <= a < b < k + 1
      ensures r[a].angle >= r[b].angle
    {
      MovedLeftAt(hs, j, k, a);
      MovedLeftAt(hs, j, k, b);
      if b < j {
      } else if b == j {
        if a < j - 1 {
          assert hs[a].angle >= hs[j - 1].angle;
        }
      } else if a < j {
      } else if a == j {
      } else {
      }
    }
  }

  /**
    The sorting of the half-edges (the array sort with `DescendingAngle`): an
    insertion sort that moves each half-edge left past the ones of smaller angle.
  */
  method SortDescending(hs: seq<HalfEdge>) returns (sorted: seq<HalfEdge>)
    ensures Descending(sorted) && multiset(sorted) == multiset(hs)
  {
    sorted := hs;
    var k := 0;
    while k < |sorted|
      invariant k <= |sorted| == |hs| && multiset(sorted) == multiset(hs)
      invariant DescendingUpTo(sorted, k)
    {
      var h := sorted[k];
      var j := k;
      while j > 0 && sorted[j - 1].angle < h.angle
        invariant 0 <= j <= k
        invariant forall m | j <= m < k :: sorted[m].angle < h.angle
      {
        j := j - 1;
      }
      MovedLeftSorted(sorted, j, k);
      sorted := sorted[..j] + [h] + sorted[j..k] + sorted[k + 1..];
      k := k + 1;
    }
  }

  /**
    The half-edges of `hs` whose edges are finished: walks the list from its
    back and splices out each half-edge whose edge lacks an end.
  */
  method DropUnfinished(hs: seq<HalfEdge>) returns (kept: seq<HalfEdge>)
    ensures kept == FinishedOnes(hs)
  {
    ghost var flags := FinishedFlags(hs);
    kept := hs;
    var i := |hs|;
    while i > 0
      invariant 0 <= i <= |hs|
      invariant kept == hs[..i] + Kept(hs[i..], flags[i..])
    {
      i := i - 1;
      KeptSplice(hs, flags, i, kept);
      var edge := kept[i].edge;
      ghost var rest := Kept(hs[i + 1..], flags[i + 1..]);
      assert flags[i] == (edge.a != None && edge.b != None);
      if edge.b == None || edge.a == None {
        kept := kept[..i] + kept[i + 1..];
        assert kept == hs[..i] + rest;
      } else {
        assert kept == hs[..i] + ([hs[i]] + rest);
      }
    }
    assert hs[0..] == hs && flags[0..] == flags;
  }

  /** A Voronoi cell: its site and the half-edges around it. */
  class Cell {
    var site: Site
    var edges: seq<HalfEdge>

    constructor (s: Site)
      ensures site == s && edges == []
    {
      site, edges := s, [];
    }

    /**
      Drops the half-edges whose edge lacks an end, sorts the rest by
      descending angle and returns how many are left.
    */
    method Prepare() returns (count: nat)
      modifies this
      ensures site == old(site)
      ensures multiset(edges) == multiset(old(FinishedOnes(edges))) && Descending(edges)
      ensures count == |edges|
    {
      edges := DropUnfinished(edges);
      edges := SortDescending(edges);
      count := |edges|;
    }
  }
}
