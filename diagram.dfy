/**
  The diagram under construction: the list of edges and one cell per site,
  and the two ways the sweep adds an edge to it.
*/
module VoronoiDiagram {
  import opened VoronoiEdges
  import opened VoronoiCells

  /**
    The fields of a new edge between `lSite` and `rSite` once its known ends
    are recorded: `va` with `lSite` on the left, then `vb` with `rSite` on the
    left.
  */
  function Created(lSite: Site, rSite: Site, va: Option<Point>, vb: Option<Point>): (e: EdgeState)
    ensures e.r.Some? && {e.l, e.r.value} == {lSite, rSite}
  {
    var e := EdgeState(lSite, Some(rSite), None, None);
    var e := if va.Some? then WithEnd(e, lSite, rSite, va.value) else e;
    if vb.Some? then WithEnd(e, rSite, lSite, vb.value) else e
  }

  /**
    However many ends are known, the half-edge of `lSite` along a new edge runs
    from `va` to `vb`, and that of `rSite` from `vb` to `va`.
  */
  lemma CreatedRunsFromVaToVb(lSite: Site, rSite: Site, va: Option<Point>, vb: Option<Point>)
    requires lSite != rSite
    ensures var e := Created(lSite, rSite, va, vb);
      && StartFrom(e, lSite) == va && EndFrom(e, lSite) == vb
      && StartFrom(e, rSite) == vb && EndFrom(e, rSite) == va
  {
    var e0 := EdgeState(lSite, Some(rSite), None, None);
    var e1 := if va.Some? then WithEnd(e0, lSite, rSite, va.value) else e0;
    if va.Some? {
      assert e1 == EdgeState(lSite, Some(rSite), va, None);
    }
  }

  /** The edges found so far, and the cell of the site with index `i` at `cells[i]`. */
  class Diagram {
    var edges: seq<Edge>
    var cells: seq<Cell>

    /** An empty edge list over the given cells. */
    constructor (cs: seq<Cell>)
      ensures edges == [] && cells == cs
    {
      edges, cells := [], cs;
    }

    /** Every site has a cell of its own. */
    predicate DistinctCells()
      reads this
    {
      forall i, j | 0 <= i < j < |cells| :: cells[i] != cells[j]
    }

    /**
      A new edge between `lSite` and `rSite` with the ends that are known, and
      a half-edge onto it for each of the two cells. The half-edge angles are
      the caller's (they come from atan2 over the two sites).
    */
    method CreateEdge(lSite: Site, rSite: Site, va: Option<Point>, vb: Option<Point>, lAngle: real, rAngle: real)
      returns (edge: Edge)
      requires lSite.i < |cells| && rSite.i < |cells| && DistinctCells()
      modifies this, cells[lSite.i], cells[rSite.i]
      ensures fresh(edge) && edges == old(edges) + [edge] && cells == old(cells)
      ensures edge.State() == Created(lSite, rSite, va, vb)
      ensures forall c | c in cells :: c.site == old(c.site)
      ensures lSite.i != rSite.i ==>
        && cells[lSite.i].edges == old(cells[lSite.i].edges) + [HalfEdge(edge, lSite, lAngle)]
        && cells[rSite.i].edges == old(cells[rSite.i].edges) + [HalfEdge(edge, rSite, rAngle)]
      ensures lSite.i == rSite.i ==>
        cells[lSite.i].edges == old(cells[lSite.i].edges) + [HalfEdge(edge, lSite, lAngle), HalfEdge(edge, rSite, rAngle)]
    {
      edge := new Edge(lSite, Some(rSite));
      edges := edges + [edge];
      if va.Some? {
        SetEdgeEnd(edge, lSite, rSite, va.value);
      }
      if vb.Some? {
        SetEdgeEnd(edge, rSite, lSite, vb.value);
      }
      var lCell, rCell := cells[lSite.i], cells[rSite.i];
      lCell.edges := lCell.edges + [HalfEdge(edge, lSite, lAngle)];
      rCell.edges := rCell.edges + [HalfEdge(edge, rSite, rAngle)];
    }

    /** A new edge along the clipping border of the cell of `lSite`, from `va` to `vb`. */
    method CreateBorderEdge(lSite: Site, va: Point, vb: Point) returns (edge: Edge)
      modifies this
      ensures fresh(edge) && edges == old(edges) + [edge] && cells == old(cells)
      ensures edge.State() == EdgeState(lSite, None, Some(va), Some(vb))
      ensures StartFrom(edge.State(), lSite) == Some(va) && EndFrom(edge.State(), lSite) == Some(vb)
    {
      edge := new Edge(lSite, None);
      edge.a := Some(va);
      edge.b := Some(vb);
      edges := edges + [edge];
    }
  }
}
