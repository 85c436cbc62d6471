/**
  The event loop of the sweep. Sites are sorted with `Lexicographic`, which
  leaves them in descending (y, x) order so that popping the array yields
  them in ascending order. At each step the next site is taken when there is
  no pending circle event or the site comes strictly earlier than the first
  circle; a site at the same point as the last site taken adds no beach.
  Otherwise the first circle fires and removes its arc from the beach line.

  The circle queue is the sequence of pending circles in queue order; firing
  a circle removes it from the head of the queue. The circles that adding or
  removing a beach attaches and detaches are not part of this sequence.
*/
module VoronoiSweep {
  import opened VoronoiEdges
  import VoronoiCells

  /** A pending circle event: the bottom point of the circle and the arc it squeezes out. */
  datatype Circle = Circle(x: real, y: real, arc: int)

  /** What one step of the sweep does: add a beach for a site, or remove the arc of a circle. */
  datatype Event = AddBeach(site: Site) | RemoveBeach(circle: Circle)

  /** Point `(y1, x1)` comes strictly before `(y2, x2)` in sweep order: lower y, then lower x. */
  predicate Earlier(y1: real, x1: real, y2: real, x2: real) {
    y1 < y2 || (y1 == y2 && x1 < x2)
  }

  /** The sort comparator for sites: the difference in y, or in x when the y are equal. */
  function Lexicographic(a: Site, b: Site): real {
    if b.y - a.y != 0.0 then b.y - a.y else b.x - a.x
  }

  /**
    The comparator is positive exactly when `a` comes strictly before `b`,
    negative exactly when `b` comes strictly before `a`, and zero exactly when
    the two sites share a point; swapping the arguments negates it.
  */
  lemma LexicographicOrder(a: Site, b: Site)
    ensures Lexicographic(a, b) > 0.0 <==> Earlier(a.y, a.x, b.y, b.x)
    ensures Lexicographic(a, b) < 0.0 <==> Earlier(b.y, b.x, a.y, a.x)
    ensures Lexicographic(a, b) == 0.0 <==> a.x == b.x && a.y == b.y
    ensures Lexicographic(a, b) == -Lexicographic(b, a)
  {
  }

  /** The order the comparator sort leaves the sites in: no site comes strictly before a later one. */
  predicate SortedForPop(sites: seq<Site>) {
    forall i, j | 0 <= i < j < |sites| :: Lexicographic(sites[i], sites[j]) <= 0.0
  }

  /** Sorting the sites leaves `a` before `b` only when `a` does not come strictly before `b`: the order is transitive. */
  lemma LexicographicTransitive(a: Site, b: Site, c: Site)
    requires Lexicographic(a, b) <= 0.0 && Lexicographic(b, c) <= 0.0
    ensures Lexicographic(a, c) <= 0.0
  {
    LexicographicOrder(a, b);
    LexicographicOrder(b, c);
    LexicographicOrder(a, c);
  }

  /** The first `k` sites are in the order the sort leaves them. */
  predicate SortedForPopUpTo(sites: seq<Site>, k: nat)
    requires k <= |sites|
  {
    forall i, j | 0 <= i < j < k :: Lexicographic(sites[i], sites[j]) <= 0.0
  }

  /**
    Moving the site at `k` left to `j`, past the sites that come strictly
    before it, extends the sorted prefix by one.
  */
  lemma MovedLeftForPop(sites: seq<Site>, j: nat, k: nat)
    requires j <= k < |sites| && SortedForPopUpTo(sites, k)
    requires forall m | j <= m < k :: Lexicographic(sites[m], sites[k]) > 0.0
    requires j > 0 ==> Lexicographic(sites[j - 1], sites[k]) <= 0.0
    ensures SortedForPopUpTo(VoronoiCells.MovedLeft(sites, j, k), k + 1)
  {
    var r := VoronoiCells.MovedLeft(sites, j, k);
    forall a, b | 0 <= a < b < k + 1
      ensures Lexicographic(r[a], r[b]) <= 0.0
    {
      VoronoiCells.MovedLeftAt(sites, j, k, a);
      VoronoiCells.MovedLeftAt(sites, j, k, b);
      if b < j {
      } else if b == j {
        if a < j - 1 {
          LexicographicTransitive(sites[a], sites[j - 1], sites[k]);
        }
      } else if a < j {
      } else if a == j {
        LexicographicOrder(sites[b - 1], sites[k]);
      } else {
      }
    }
  }

  /**
    The sort of the sites with `Lexicographic` (the array sort): an insertion
    sort that moves each site left past the sites that come strictly before it.
  */
  method SortForPop(sites: seq<Site>) returns (sorted: seq<Site>)
    ensures SortedForPop(sorted) && multiset(sorted) == multiset(sites)
  {
    sorted := sites;
    var k := 0;
    while k < |sorted|
      invariant k <= |sorted| == |sites| && multiset(sorted) == multiset(sites)
      invariant SortedForPopUpTo(sorted, k)
    {
      var h := sorted[k];
      var j := k;
      while j > 0 && Lexicographic(sorted[j - 1], h) > 0.0
        invariant 0 <= j <= k
        invariant forall m | j <= m < k :: Lexicographic(sorted[m], h) > 0.0
      {
        j := j - 1;
      }
      MovedLeftForPop(sorted, j, k);
      sorted := sorted[..j] + [h] + sorted[j..k] + sorted[k + 1..];
      k := k + 1;
    }
  }

  /** The circle queue is in sweep order. */
  predicate QueueOrdered(queue: seq<Circle>) {
    forall i, j | 0 <= i < j < |queue| :: !Earlier(queue[j].y, queue[j].x, queue[i].y, queue[i].x)
  }

  /** The site at the end of the array and the array without it; none from an empty array. */
  function Pop(sites: seq<Site>): (r: (Option<Site>, seq<Site>))
    ensures |sites| == 0 ==> r == (None, [])
    ensures |sites| > 0 ==> r.0 == Some(sites[|sites| - 1]) && sites == r.1 + [sites[|sites| - 1]]
  {
    if |sites| == 0 then (None, []) else (Some(sites[|sites| - 1]), sites[..|sites| - 1])
  }

  /** The site is taken before the circle: it comes strictly earlier. */
  predicate SiteFirst(site: Site, circle: Circle) {
    Earlier(site.y, site.x, circle.y, circle.x)
  }

  /** The first pending circle, if any. */
  function Head(queue: seq<Circle>): Option<Circle> {
    if |queue| == 0 then None else Some(queue[0])
  }

  /** Nothing is left to do: no site and no circle. */
  predicate Done(site: Option<Site>, queue: seq<Circle>) {
    site.None? && |queue| == 0
  }

  /**
    The events of the sweep from the current site, the unpopped sites, the
    circle queue and the point of the last site taken (none before the first).
  */
  function Events(site: Option<Site>, rest: seq<Site>, queue: seq<Circle>, last: Option<Point>): seq<Event>
    decreases |rest| + |queue| + (if site.Some? then 1 else 0)
  {
    var circle := Head(queue);
    if site.Some? && (circle.None? || SiteFirst(site.value, circle.value)) then
      var s := site.value;
      var (next, rest') := Pop(rest);
      if last != Some(Point(s.x, s.y)) then
        [AddBeach(s)] + Events(next, rest', queue, Some(Point(s.x, s.y)))
      else
        Events(next, rest', queue, last)
    else if circle.Some? then
      [RemoveBeach(circle.value)] + Events(site, rest, queue[1..], last)
    else
      []
  }

  /**
    One pass of the event loop: take the next site, adding a beach unless the
    site repeats the last point, or fire the first circle; `done` when neither
    is left. What it emits, followed by the events from the state it leaves,
    are the events from the state it started in.
  */
  method Step(site: Option<Site>, rest: seq<Site>, queue: seq<Circle>, last: Option<Point>)
    returns (emitted: seq<Event>, site': Option<Site>, rest': seq<Site>, queue': seq<Circle>, last': Option<Point>, done: bool)
    ensures done ==> Done(site, queue) && Events(site, rest, queue, last) == []
    ensures !done ==> Events(site, rest, queue, last) == emitted + Events(site', rest', queue', last')
    ensures !done ==> |rest'| + |queue'| + (if site'.Some? then 1 else 0) < |rest| + |queue| + (if site.Some? then 1 else 0)
  {
    var circle := Head(queue);
    emitted, site', rest', queue', last', done := [], site, rest, queue, last, false;
    if site.Some? && (circle.None? || SiteFirst(site.value, circle.value)) {
      var s := site.value;
      if last != Some(Point(s.x, s.y)) {
        emitted := [AddBeach(s)];
        last' := Some(Point(s.x, s.y));
      }
      site', rest' := Pop(rest).0, Pop(rest).1;
    } else if circle.Some? {
      emitted := [RemoveBeach(circle.value)];
      queue' := queue[1..];
    } else {
      done := true;
    }
  }

  /**
    Sorts the sites with `Lexicographic`, then runs the event loop over them
    and the circle queue; returns the sorted array and the events in order.
    With the queue in sweep order, the events come in sweep order, and the
    sites added to the beach are at distinct points covering every site.
  */
  method Sweep(sites: seq<Site>, circles: seq<Circle>) returns (sorted: seq<Site>, events: seq<Event>)
    ensures SortedForPop(sorted) && multiset(sorted) == multiset(sites)
    ensures events == Events(Pop(sorted).0, Pop(sorted).1, circles, None)
    ensures QueueOrdered(circles) ==> InSweepOrder(events)
    ensures QueueOrdered(circles) ==> Increasing(Added(events))
    ensures QueueOrdered(circles) ==> forall s | s in sites :: Point(s.x, s.y) in Added(events)
  {
    sorted := SortForPop(sites);
    var site, rest := Pop(sorted).0, Pop(sorted).1;
    ghost var first, others := site, rest;
    var queue := circles;
    var last: Option<Point> := None;
    events := [];
    ghost var all := Events(site, rest, queue, last);
    while true
      invariant events + Events(site, rest, queue, last) == all
      decreases |rest| + |queue| + (if site.Some? then 1 else 0)
    {
      var emitted, done;
      emitted, site, rest, queue, last, done := Step(site, rest, queue, last);
      if done {
        break;
      }
      assert events + emitted + Events(site, rest, queue, last) == all;
      events := events + emitted;
    }
    assert events == Events(first, others, circles, None);
    if QueueOrdered(circles) {
      ReadyAtStart(sorted, circles);
      EventsInOrder(first, others, circles, None);
      SitesAddedInOrder(first, others, circles, None);
      SitesAddedAll(first, others, circles, None);
      forall s | s in sites
        ensures Point(s.x, s.y) in Added(events)
      {
        assert s in multiset(sorted);
        assert s in sorted;
        if s !in others {
          assert first == Some(s);
        }
      }
    }
  }

  /** The sweep point of an event. */
  function Key(e: Event): Point {
    match e
    case AddBeach(s) => Point(s.x, s.y)
    case RemoveBeach(c) => Point(c.x, c.y)
  }

  /** Point `p` does not come before point `q`. */
  predicate NotBefore(p: Point, q: Point) {
    !Earlier(p.y, p.x, q.y, q.x)
  }

  /** The circles fired by a list of events, in order. */
  function Fired(events: seq<Event>): (r: seq<Circle>)
    ensures |r| <= |events|
  {
    if |events| == 0 then []
    else (if events[0].RemoveBeach? then [events[0].circle] else []) + Fired(events[1..])
  }

  /** Every circle in the queue fires, once, in queue order. */
  lemma {:induction false} EveryCircleFires(site: Option<Site>, rest: seq<Site>, queue: seq<Circle>, last: Option<Point>)
    ensures Fired(Events(site, rest, queue, last)) == queue
    decreases |rest| + |queue| + (if site.Some? then 1 else 0)
  {
    var circle := Head(queue);
    var evs := Events(site, rest, queue, last);
    if site.Some? && (circle.None? || SiteFirst(site.value, circle.value)) {
      var s := site.value;
      var (next, rest') := Pop(rest);
      if last != Some(Point(s.x, s.y)) {
        EveryCircleFires(next, rest', queue, Some(Point(s.x, s.y)));
        assert evs[1..] == Events(next, rest', queue, Some(Point(s.x, s.y)));
      } else {
        EveryCircleFires(next, rest', queue, last);
      }
    } else if circle.Some? {
      EveryCircleFires(site, rest, queue[1..], last);
      assert evs[1..] == Events(site, rest, queue[1..], last);
    }
  }

  /** The sites and circles still to come, none of them before point `k`. */
  predicate AllFrom(k: Point, site: Option<Site>, rest: seq<Site>, queue: seq<Circle>) {
    && (site.Some? ==> NotBefore(Point(site.value.x, site.value.y), k))
    && (forall i | 0 <= i < |rest| :: NotBefore(Point(rest[i].x, rest[i].y), k))
    && (forall i | 0 <= i < |queue| :: NotBefore(Point(queue[i].x, queue[i].y), k))
  }

  /** No event comes before a point that no pending site or circle comes before. */
  lemma {:induction false} EventsFrom(k: Point, site: Option<Site>, rest: seq<Site>, queue: seq<Circle>, last: Option<Point>)
    requires AllFrom(k, site, rest, queue)
    ensures forall i | 0 <= i < |Events(site, rest, queue, last)| :: NotBefore(Key(Events(site, rest, queue, last)[i]), k)
    decreases |rest| + |queue| + (if site.Some? then 1 else 0)
  {
    var circle := Head(queue);
    if site.Some? && (circle.None? || SiteFirst(site.value, circle.value)) {
      var s := site.value;
      var (next, rest') := Pop(rest);
      assert AllFrom(k, next, rest', queue);
      if last != Some(Point(s.x, s.y)) {
        EventsFrom(k, next, rest', queue, Some(Point(s.x, s.y)));
      } else {
        EventsFrom(k, next, rest', queue, last);
      }
    } else if circle.Some? {
      assert AllFrom(k, site, rest, queue[1..]);
      EventsFrom(k, site, rest, queue[1..], last);
    }
  }

  /**
    The state of the loop between steps: the unpopped sites are in the order
    the sort left them, the current site is the earliest of them, the last site
    taken comes no later than the current one, and the queue is ordered. An
    empty array has popped no site.
  */
  predicate Ready(site: Option<Site>, rest: seq<Site>, queue: seq<Circle>, last: Option<Point>) {
    && SortedForPop(rest) && QueueOrdered(queue)
    && (site.None? ==> |rest| == 0)
    && (site.Some? ==> forall i | 0 <= i < |rest| :: Lexicographic(rest[i], site.value) <= 0.0)
    && (last.Some? && site.Some? ==> NotBefore(Point(site.value.x, site.value.y), last.value))
  }

  /** Sorted sites and an ordered queue make the loop ready to start. */
  lemma ReadyAtStart(sites: seq<Site>, circles: seq<Circle>)
    requires SortedForPop(sites) && QueueOrdered(circles)
    ensures Ready(Pop(sites).0, Pop(sites).1, circles, None)
  {
    var rest := Pop(sites).1;
    assert SortedForPop(rest) by {
      forall i, j | 0 <= i < j < |rest|
        ensures Lexicographic(rest[i], rest[j]) <= 0.0
      {
        assert rest[i] == sites[i] && rest[j] == sites[j];
      }
    }
  }

  /** After a step the loop is ready again. */
  lemma ReadyStep(site: Option<Site>, rest: seq<Site>, queue: seq<Circle>, last: Option<Point>)
    requires Ready(site, rest, queue, last) && site.Some?
    ensures Ready(Pop(rest).0, Pop(rest).1, queue, Some(Point(site.value.x, site.value.y)))
    ensures last.Some? ==> Ready(Pop(rest).0, Pop(rest).1, queue, last)
  {
    var s := site.value;
    if |rest| > 0 {
      var n := rest[|rest| - 1];
      LexicographicOrder(n, s);
      forall i | 0 <= i < |rest| - 1
        ensures Lexicographic(rest[i], n) <= 0.0
      {
      }
    }
  }

  /** The sites popped from a sorted array come in sweep order. */
  lemma PoppedFrom(site: Option<Site>, rest: seq<Site>, queue: seq<Circle>, last: Option<Point>)
    requires Ready(site, rest, queue, last) && site.Some?
    ensures forall i | 0 <= i < |rest| :: NotBefore(Point(rest[i].x, rest[i].y), Point(site.value.x, site.value.y))
  {
    forall i | 0 <= i < |rest|
      ensures NotBefore(Point(rest[i].x, rest[i].y), Point(site.value.x, site.value.y))
    {
      LexicographicOrder(rest[i], site.value);
    }
  }

  /** No event of the list comes before an earlier one. */
  predicate InSweepOrder(evs: seq<Event>) {
    forall i, j | 0 <= i < j < |evs| :: NotBefore(Key(evs[j]), Key(evs[i]))
  }

  /** Events come in sweep order. */
  lemma {:induction false} EventsInOrder(site: Option<Site>, rest: seq<Site>, queue: seq<Circle>, last: Option<Point>)
    requires Ready(site, rest, queue, last)
    ensures InSweepOrder(Events(site, rest, queue, last))
    decreases |rest| + |queue| + (if site.Some? then 1 else 0)
  {
    var circle := Head(queue);
    var evs := Events(site, rest, queue, last);
    if site.Some? && (circle.None? || SiteFirst(site.value, circle.value)) {
      var s := site.value;
      var k := Point(s.x, s.y);
      var (next, rest') := Pop(rest);
      ReadyStep(site, rest, queue, last);
      PoppedFrom(site, rest, queue, last);
      assert AllFrom(k, next, rest', queue);
      if last != Some(k) {
        var tail := Events(next, rest', queue, Some(k));
        EventsInOrder(next, rest', queue, Some(k));
        EventsFrom(k, next, rest', queue, Some(k));
        assert evs == [AddBeach(s)] + tail;
        forall i, j | 0 <= i < j < |evs|
          ensures NotBefore(Key(evs[j]), Key(evs[i]))
        {
          assert evs[j] == tail[j - 1] && NotBefore(Key(tail[j - 1]), k);
          if i > 0 {
            assert evs[i] == tail[i - 1];
          }
        }
      } else {
        EventsInOrder(next, rest', queue, last);
        assert evs == Events(next, rest', queue, last);
      }
    } else if circle.Some? {
      var c := circle.value;
      var k := Point(c.x, c.y);
      assert Ready(site, rest, queue[1..], last);
      if site.Some? {
        PoppedFrom(site, rest, queue, last);
      }
      assert AllFrom(k, site, rest, queue[1..]);
      EventsInOrder(site, rest, queue[1..], last);
      EventsFrom(k, site, rest, queue[1..], last);
      assert evs == [RemoveBeach(c)] + Events(site, rest, queue[1..], last);
    }
  }

  /** The points of the sites added to the beach by a list of events, in order. */
  function Added(events: seq<Event>): (r: seq<Point>)
    ensures |r| <= |events|
  {
    if |events| == 0 then []
    else (if events[0].AddBeach? then [Key(events[0])] else []) + Added(events[1..])
  }

  /** Each point comes strictly after the ones before it; in particular no point repeats. */
  predicate Increasing(ps: seq<Point>) {
    forall i, j | 0 <= i < j < |ps| :: Earlier(ps[i].y, ps[i].x, ps[j].y, ps[j].x)
  }

  /** A point in front of later points, and after the last point unless it is that point, keeps the order. */
  lemma PrependedIncreasing(k: Point, ps: seq<Point>, last: Option<Point>)
    requires Increasing(ps) && forall i | 0 <= i < |ps| :: Earlier(k.y, k.x, ps[i].y, ps[i].x)
    requires last.Some? ==> NotBefore(k, last.value) && last != Some(k)
    ensures Increasing([k] + ps)
    ensures last.Some? ==> forall i | 0 <= i < |[k] + ps| :: Earlier(last.value.y, last.value.x, ([k] + ps)[i].y, ([k] + ps)[i].x)
  {
    var r := [k] + ps;
    forall i, j | 0 <= i < j < |r|
      ensures Earlier(r[i].y, r[i].x, r[j].y, r[j].x)
    {
      assert r[j] == ps[j - 1];
      if i > 0 {
        assert r[i] == ps[i - 1];
      }
    }
  }

  /**
    What skipping a site at the last point achieves: the sites added to the
    beach are at strictly increasing, hence distinct, points, all after the
    last point taken.
  */
  lemma {:induction false} SitesAddedInOrder(site: Option<Site>, rest: seq<Site>, queue: seq<Circle>, last: Option<Point>)
    requires Ready(site, rest, queue, last)
    ensures var ps := Added(Events(site, rest, queue, last));
      && Increasing(ps)
      && (last.Some? ==> forall i | 0 <= i < |ps| :: Earlier(last.value.y, last.value.x, ps[i].y, ps[i].x))
    decreases |rest| + |queue| + (if site.Some? then 1 else 0)
  {
    var circle := Head(queue);
    var evs := Events(site, rest, queue, last);
    if site.Some? && (circle.None? || SiteFirst(site.value, circle.value)) {
      var s := site.value;
      var k := Point(s.x, s.y);
      var (next, rest') := Pop(rest);
      ReadyStep(site, rest, queue, last);
      if last != Some(k) {
        var tail := Events(next, rest', queue, Some(k));
        assert Ready(next, rest', queue, Some(k)) && (last.Some? ==> NotBefore(k, last.value));
        SitesAddedInOrder(next, rest', queue, Some(k));
        assert evs[1..] == tail;
        assert Added(evs) == [k] + Added(tail);
        PrependedIncreasing(k, Added(tail), last);
      } else {
        assert Ready(next, rest', queue, last);
        SitesAddedInOrder(next, rest', queue, last);
        assert evs == Events(next, rest', queue, last);
      }
    } else if circle.Some? {
      assert Ready(site, rest, queue[1..], last);
      SitesAddedInOrder(site, rest, queue[1..], last);
      assert evs[1..] == Events(site, rest, queue[1..], last);
    }
  }

  /** Every site still to come is added to the beach, unless it lies at the last point taken. */
  lemma {:induction false} SitesAddedAll(site: Option<Site>, rest: seq<Site>, queue: seq<Circle>, last: Option<Point>)
    requires Ready(site, rest, queue, last)
    ensures var ps := Added(Events(site, rest, queue, last));
      && (site.Some? ==> Point(site.value.x, site.value.y) in ps || last == Some(Point(site.value.x, site.value.y)))
      && (forall s | s in rest :: Point(s.x, s.y) in ps || last == Some(Point(s.x, s.y)))
    decreases |rest| + |queue| + (if site.Some? then 1 else 0)
  {
    var circle := Head(queue);
    var evs := Events(site, rest, queue, last);
    if site.Some? && (circle.None? || SiteFirst(site.value, circle.value)) {
      var s := site.value;
      var k := Point(s.x, s.y);
      var (next, rest') := Pop(rest);
      ReadyStep(site, rest, queue, last);
      assert forall r | r in rest :: r in rest' || Some(r) == next;
      if last != Some(k) {
        var tail := Events(next, rest', queue, Some(k));
        SitesAddedAll(next, rest', queue, Some(k));
        assert evs[1..] == tail;
        assert Added(evs) == [k] + Added(tail);
      } else {
        SitesAddedAll(next, rest', queue, last);
        assert evs == Events(next, rest', queue, last);
      }
    } else if circle.Some? {
      assert Ready(site, rest, queue[1..], last);
      SitesAddedAll(site, rest, queue[1..], last);
      assert evs[1..] == Events(site, rest, queue[1..], last);
    }
  }
}
