/**
  Edges of the Voronoi diagram and the half-edges that cells see them through.

  An edge separates the cells of its left site `l` and right site `r` (none for
  an edge along the clipping border) and runs from vertex `a` to vertex `b`;
  either end stays unset until the sweep finds it. A half-edge is one cell's
  view of an edge: walking the boundary of the cell of `site`, it starts at `a`
  and ends at `b` when `site` is the edge's left site, and the other way round
  otherwise.
*/
module VoronoiEdges {

  datatype Option<T> = None | Some(value: T)

  /**
    An input point. `i` is its index in the input, which the diagram uses to
    find its cell; sites are distinct objects, so distinct sites have distinct
    indices and comparing sites as values compares their identities.
  */
  datatype Site = Site(x: real, y: real, i: nat)

  /** A vertex of the diagram. */
  datatype Point = Point(x: real, y: real)

  /** The fields of an edge, as a value. */
  datatype EdgeState = EdgeState(l: Site, r: Option<Site>, a: Option<Point>, b: Option<Point>)

  /** An edge object; its fields are filled in while the sweep runs. */
  class Edge {
    var l: Site
    var r: Option<Site>
    var a: Option<Point>
    var b: Option<Point>

    /** A new edge between two sites (or along the border when `rSite` is none), with no end yet. */
    constructor (lSite: Site, rSite: Option<Site>)
      ensures State() == EdgeState(lSite, rSite, None, None)
    {
      l, r := lSite, rSite;
      a, b := None, None;
    }

    /** The current fields of this edge. */
    function State(): EdgeState
      reads this
    {
      EdgeState(l, r, a, b)
    }
  }

  /**
    The edge after recording `vertex` as an end, where `lSite` is the site on
    the left when walking towards that end. An edge with no end yet takes the
    vertex as `a` and is re-oriented to run between `lSite` and `rSite`; an edge
    whose left site is `rSite` takes it as `b`; any other edge takes it as `a`.
  */
  function WithEnd(e: EdgeState, lSite: Site, rSite: Site, vertex: Point): (r: EdgeState)
    ensures (r.a == Some(vertex) && r.b == e.b) || (r.b == Some(vertex) && r.a == e.a)
    ensures e.a != None || e.b != None ==> r.l == e.l && r.r == e.r
  {
    if e.a == None && e.b == None then
      e.(a := Some(vertex), l := lSite, r := Some(rSite))
    else if e.l == rSite then
      e.(b := Some(vertex))
    else
      e.(a := Some(vertex))
  }

  /** Records `vertex` as an end of `edge`. */
  method SetEdgeEnd(edge: Edge, lSite: Site, rSite: Site, vertex: Point)
    modifies edge
    ensures edge.State() == WithEnd(old(edge.State()), lSite, rSite, vertex)
  {
    if edge.a == None && edge.b == None {
      edge.a := Some(vertex);
      edge.l := lSite;
      edge.r := Some(rSite);
    } else if edge.l == rSite {
      edge.b := Some(vertex);
    } else {
      edge.a := Some(vertex);
    }
  }

  /** Where the half-edge of `site` along an edge starts. */
  function StartFrom(e: EdgeState, site: Site): (p: Option<Point>)
    ensures p == e.a || p == e.b
  {
    if e.l == site then e.a else e.b
  }

  /** Where the half-edge of `site` along an edge ends. */
  function EndFrom(e: EdgeState, site: Site): (p: Option<Point>)
    ensures p == e.a || p == e.b
  {
    if e.l == site then e.b else e.a
  }

  /**
    A half-edge runs between the two ends of its edge, and the half-edges of two
    different sites on either side of the edge run in opposite directions.
  */
  lemma HalfEdgesOpposite(e: EdgeState, s1: Site, s2: Site)
    requires s1 != s2 && e.l in {s1, s2}
    ensures {StartFrom(e, s1), EndFrom(e, s1)} == {e.a, e.b}
    ensures StartFrom(e, s1) == EndFrom(e, s2) && EndFrom(e, s1) == StartFrom(e, s2)
  {
  }

  /**
    Recording an end makes it the start of the half-edge of `lSite` and leaves
    that half-edge's other end alone, provided the edge either has no end yet or
    already lies between `lSite` and `rSite`.
  */
  lemma WithEndStartsHalfEdge(e: EdgeState, lSite: Site, rSite: Site, vertex: Point)
    requires (e.a == None && e.b == None) || (lSite != rSite && e.l in {lSite, rSite})
    ensures StartFrom(WithEnd(e, lSite, rSite, vertex), lSite) == Some(vertex)
    ensures EndFrom(WithEnd(e, lSite, rSite, vertex), lSite) == EndFrom(e, lSite)
  {
  }

  /**
    One cell's view of an edge: `site` is the cell's site and `angle` orders the
    half-edges around the cell (computed with atan2 when the half-edge is made).
  */
  datatype HalfEdge = HalfEdge(edge: Edge, site: Site, angle: real) {
    /** The vertex this half-edge starts from, walking around the cell of `site`. */
    function Start(): Option<Point>
      reads edge
    {
      StartFrom(edge.State(), site)
    }

    /** The vertex this half-edge ends at. */
    function End(): Option<Point>
      reads edge
    {
      EndFrom(edge.State(), site)
    }
  }
}
