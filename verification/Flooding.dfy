/** Pictures as maps from points to colours, and what a flood from a point covers. */
module Flooding {
  import opened Reachability

  // A column and a row.
  datatype Point = Point(x: int, y: int)

  type Picture = map<Point, int>

  // The picture with the points of s painted.
  function Paint(pic: Picture, s: set<Point>, color: int): (r: Picture)
    ensures r.Keys == pic.Keys
  {
    map p | p in pic :: if p in s then color else pic[p]
  }

  // The points from column l to column r of a row.
  function Span(l: int, r: int, row: int): (s: set<Point>)
    ensures forall p :: p in s <==> l <= p.x <= r && p.y == row
  {
    set i | l <= i <= r :: Point(i, row)
  }

  lemma PaintMore(pic: Picture, s: set<Point>, t: set<Point>, color: int)
    ensures Paint(Paint(pic, s, color), t, color) == Paint(pic, s + t, color)
  {
  }

  lemma PaintPoint(pic: Picture, s: set<Point>, p: Point, color: int)
    requires p in pic
    ensures Paint(pic, s, color)[p := color] == Paint(pic, s + {p}, color)
  {
  }

  lemma PaintNothing(pic: Picture, color: int)
    ensures Paint(pic, {}, color) == pic
  {
  }

  predicate SideBySide(a: Point, b: Point) {
    a.y == b.y && (a.x == b.x + 1 || b.x == a.x + 1)
  }

  predicate AboveOrBelow(a: Point, b: Point) {
    a.x == b.x && (a.y == b.y + 1 || b.y == a.y + 1)
  }

  // The steps of a flood: along a row inside wide, and from wide to the row above or
  // below inside narrow.  Where both are the same set this is touching inside it.
  ghost function Ways(wide: set<Point>, narrow: set<Point>): Edges<Point> {
    (set a, b | a in wide && b in wide && SideBySide(a, b) :: (a, b)) +
    set a, b | a in wide && b in narrow && AboveOrBelow(a, b) :: (a, b)
  }

  // All that a flood from start covers.
  ghost function Covered(wide: set<Point>, narrow: set<Point>, start: Point): set<Point> {
    set p | p in wide && Reaches(Ways(wide, narrow), start, p)
  }

  // What has been painted is reached from start.
  ghost predicate Grown(wide: set<Point>, narrow: set<Point>, done: set<Point>, start: Point) {
    done <= wide && forall p | p in done :: Reaches(Ways(wide, narrow), start, p)
  }

  // What has been painted, but for the points of open, leads only to what has been painted.
  ghost predicate Settled(wide: set<Point>, narrow: set<Point>, done: set<Point>, open: set<Point>) {
    forall p, q | p in done - open && (p, q) in Ways(wide, narrow) :: q in done
  }

  lemma NothingCovered(wide: set<Point>, narrow: set<Point>, start: Point)
    requires start !in wide
    ensures Covered(wide, narrow, start) == {}
  {
    forall p | Reaches(Ways(wide, narrow), start, p)
      ensures p == start
    {
      ClosedHoldsReached(Ways(wide, narrow), {start}, start, p);
    }
  }

  lemma CoveredIsSettled(wide: set<Point>, narrow: set<Point>, start: Point, p: Point, q: Point)
    requires narrow <= wide && p in Covered(wide, narrow, start) && (p, q) in Ways(wide, narrow)
    ensures q in Covered(wide, narrow, start)
  {
    ReachesThenEdge(Ways(wide, narrow), start, p, q);
  }

  // A settled flood is all that start covers.
  lemma SettledIsCovered(wide: set<Point>, narrow: set<Point>, done: set<Point>, start: Point)
    requires Grown(wide, narrow, done, start) && Settled(wide, narrow, done, {}) && start in done
    ensures done == Covered(wide, narrow, start)
  {
    forall p | p in Covered(wide, narrow, start)
      ensures p in done
    {
      ClosedHoldsReached(Ways(wide, narrow), done, start, p);
    }
  }

  // Inside wide and narrow, wide' and narrow' are what is left when done has been painted.
  ghost predicate LeftOver(wide: set<Point>, narrow: set<Point>, done: set<Point>, wide': set<Point>,
                           narrow': set<Point>) {
    && wide' <= wide <= wide' + done
    && narrow' <= narrow <= narrow' + done
    && narrow <= wide && narrow' <= wide'
  }

  lemma LeftOverWays(wide: set<Point>, narrow: set<Point>, done: set<Point>, wide': set<Point>, narrow': set<Point>)
    requires LeftOver(wide, narrow, done, wide', narrow')
    ensures Ways(wide', narrow') <= Ways(wide, narrow)
    ensures forall p, q | p in wide' && (p, q) in Ways(wide, narrow) && q !in done :: (p, q) in Ways(wide', narrow')
  {
  }

  // A flood of what is left over, from a point next to a painted one, carries the flood on.
  lemma FloodOn(wide: set<Point>, narrow: set<Point>, done: set<Point>, open: set<Point>, start: Point,
                wide': set<Point>, narrow': set<Point>, p: Point, q: Point)
    requires Grown(wide, narrow, done, start) && Settled(wide, narrow, done, open)
    requires LeftOver(wide, narrow, done, wide', narrow')
    requires p in done && q in narrow' && AboveOrBelow(p, q)
    ensures Grown(wide, narrow, done + Covered(wide', narrow', q), start)
    ensures Settled(wide, narrow, done + Covered(wide', narrow', q), open)
    ensures q in Covered(wide', narrow', q)
  {
    var more := Covered(wide', narrow', q);
    LeftOverWays(wide, narrow, done, wide', narrow');
    ReachesSelf(Ways(wide', narrow'), q);
    forall r | r in more
      ensures Reaches(Ways(wide, narrow), start, r)
    {
      ReachesMore(Ways(wide', narrow'), Ways(wide, narrow), q, r);
      ReachesThenEdge(Ways(wide, narrow), start, p, q);
      ReachesTrans(Ways(wide, narrow), start, q, r);
    }
    forall r, t | r in (done + more) - open && (r, t) in Ways(wide, narrow)
      ensures t in done + more
    {
      if r !in done && t !in done {
        CoveredIsSettled(wide', narrow', q, r, t);
      }
    }
  }

  // A row's span is reached from any point of it.
  lemma SpanIsReached(wide: set<Point>, narrow: set<Point>, l: int, r: int, x: int, row: int, i: int)
    requires l <= x <= r && Span(l, r, row) <= wide && l <= i <= r
    ensures Reaches(Ways(wide, narrow), Point(x, row), Point(i, row))
    decreases if i < x then x - i else i - x
  {
    if i == x {
      ReachesSelf(Ways(wide, narrow), Point(x, row));
    } else {
      var j := if i < x then i + 1 else i - 1;
      SpanIsReached(wide, narrow, l, r, x, row, j);
      ReachesThenEdge(Ways(wide, narrow), Point(x, row), Point(j, row), Point(i, row));
    }
  }

  // ----- painting a run of a row

  // The points of s, all inside the given set, have been painted.
  ghost predicate Painted(pic: Picture, pic': Picture, s: set<Point>, inside: set<Point>, color: int) {
    s <= inside && pic' == Paint(pic, s, color)
  }

  lemma PaintedNone(pic: Picture, l: int, row: int, inside: set<Point>, color: int)
    ensures Painted(pic, pic, Span(l, l - 1, row), inside, color)
  {
  }

  lemma PaintedLeft(pic: Picture, pic': Picture, l: int, r: int, row: int, inside: set<Point>, color: int)
    requires Painted(pic, pic', Span(l + 1, r, row), inside, color) && l <= r
    requires Point(l, row) in inside && Point(l, row) in pic
    ensures Painted(pic, pic'[Point(l, row) := color], Span(l, r, row), inside, color)
  {
    PaintPoint(pic, Span(l + 1, r, row), Point(l, row), color);
    assert Span(l + 1, r, row) + {Point(l, row)} == Span(l, r, row);
  }

  lemma PaintedRight(pic: Picture, pic': Picture, l: int, r: int, row: int, inside: set<Point>, color: int)
    requires Painted(pic, pic', Span(l, r - 1, row), inside, color) && l <= r
    requires Point(r, row) in inside && Point(r, row) in pic
    ensures Painted(pic, pic'[Point(r, row) := color], Span(l, r, row), inside, color)
  {
    PaintPoint(pic, Span(l, r - 1, row), Point(r, row), color);
    assert Span(l, r - 1, row) + {Point(r, row)} == Span(l, r, row);
  }

  lemma Unpainted(pic: Picture, pic': Picture, s: set<Point>, inside: set<Point>, color: int, p: Point)
    requires Painted(pic, pic', s, inside, color) && p !in s
    ensures (p in pic' <==> p in pic) && (p in pic ==> pic'[p] == pic[p])
  {
  }

  // Painting up to x and then on from there paints the span.
  lemma PaintedBoth(pic: Picture, pic': Picture, pic'': Picture, l: int, x: int, r: int, row: int,
                    inside: set<Point>, inside': set<Point>, color: int)
    requires Painted(pic, pic', Span(l, x, row), inside, color) &&
              Painted(pic', pic'', Span(x + 1, r, row), inside', color)
    requires l <= x <= r && inside' <= inside
    ensures Painted(pic, pic'', Span(l, r, row), inside, color)
  {
    PaintMore(pic, Span(l, x, row), Span(x + 1, r, row), color);
    assert Span(l, x, row) + Span(x + 1, r, row) == Span(l, r, row);
  }

  // ----- the stages of a flood

  // pic with done painted, which was reached from start and is settled but for open.
  ghost predicate Spread(pic: Picture, pic': Picture, wide: set<Point>, narrow: set<Point>,
                         done: set<Point>, start: Point, open: set<Point>, color: int) {
    && pic' == Paint(pic, done, color) && open <= done
    && Grown(wide, narrow, done, start) && Settled(wide, narrow, done, open)
  }

  lemma RunSpreads(pic: Picture, pic': Picture, wide: set<Point>, narrow: set<Point>, l: int, x: int, r: int,
                   row: int, color: int)
    requires Painted(pic, pic', Span(l, r, row), wide, color) && l <= x <= r
    ensures Spread(pic, pic', wide, narrow, Span(l, r, row), Point(x, row), Span(l, r, row), color)
  {
    forall p | p in Span(l, r, row)
      ensures Reaches(Ways(wide, narrow), Point(x, row), p)
    {
      SpanIsReached(wide, narrow, l, r, x, row, p.x);
    }
  }

  // Flooding what is left over, from a point next to the run, spreads the flood.
  lemma SpreadOn(pic: Picture, pic': Picture, wide: set<Point>, narrow: set<Point>, done: set<Point>, start: Point,
                 open: set<Point>, color: int, wide': set<Point>, narrow': set<Point>, p: Point, q: Point)
    returns (done': set<Point>)
    requires Spread(pic, pic', wide, narrow, done, start, open, color) && LeftOver(wide, narrow, done, wide', narrow')
    requires p in open && q in narrow' && AboveOrBelow(p, q)
    ensures Spread(pic, Paint(pic', Covered(wide', narrow', q), color), wide, narrow, done', start, open, color)
    ensures done <= done' && q in done'
    ensures forall n | SideBySide(q, n) :: n !in narrow - done'
  {
    done' := done + Covered(wide', narrow', q);
    FloodOn(wide, narrow, done, open, start, wide', narrow', p, q);
    PaintMore(pic, done, Covered(wide', narrow', q), color);
    forall n | SideBySide(q, n) && n in narrow
      ensures n in done'
    {
      if n !in done {
        CoveredIsSettled(wide', narrow', q, q, n);
      }
    }
  }

  // No point of the row next to a span is left to be painted.
  ghost predicate Passed(l: int, r: int, row: int, narrow: set<Point>) {
    forall i | l <= i <= r :: Point(i, row) !in narrow
  }

  lemma OutsideIsPassed(l: int, r: int, row: int, narrow: set<Point>, done: set<Point>)
    requires forall i | l <= i <= r :: Point(i, row) !in narrow
    ensures Passed(l, r, row, narrow - done)
  {
  }

  lemma PassedNext(l: int, r: int, row: int, narrow: set<Point>, done: set<Point>, done': set<Point>)
    requires Passed(l, r, row, narrow - done) && done <= done' && Point(r + 1, row) !in narrow - done'
    ensures Passed(l, r + 1, row, narrow - done')
  {
  }

  // When the span of start ends on both sides, and has been passed above and then
  // below, the flood has painted all that start covers.
  lemma SpreadIsAll(pic: Picture, pic': Picture, wide: set<Point>, narrow: set<Point>, above: set<Point>,
                    done: set<Point>, l: int, x: int, r: int, row: int, color: int)
    requires Spread(pic, pic', wide, narrow, done, Point(x, row), Span(l, r, row), color) && l <= x <= r
    requires Point(l - 1, row) !in wide && Point(r + 1, row) !in wide
    requires Passed(l, r, row - 1, narrow - above) && above <= done && Passed(l, r, row + 1, narrow - done)
    ensures pic' == Paint(pic, Covered(wide, narrow, Point(x, row)), color)
  {
    forall p, q | p in Span(l, r, row) && (p, q) in Ways(wide, narrow)
      ensures q in done
    {
      if SideBySide(p, q) {
        assert q in Span(l, r, row);
      } else {
        assert q == Point(p.x, row - 1) || q == Point(p.x, row + 1);
      }
    }
    SettledIsCovered(wide, narrow, done, Point(x, row));
  }

  // ----- floods from a whole row

  // All that floods from the points of a row cover.
  ghost function CoveredFrom(wide: set<Point>, narrow: set<Point>, row: int): set<Point> {
    set p | p in wide && exists q :: q in narrow && q.y == row && p in Covered(wide, narrow, q)
  }

  // pic with done painted, which is all that some points of the row cover, with those of
  // the first n columns among them.
  ghost predicate Poured(pic: Picture, pic': Picture, wide: set<Point>, narrow: set<Point>, done: set<Point>,
                         row: int, n: int, color: int) {
    && pic' == Paint(pic, done, color)
    && done <= CoveredFrom(wide, narrow, row) && Settled(wide, narrow, done, {})
    && forall i | 0 <= i < n :: Point(i, row) !in narrow - done
  }

  lemma PouredNone(pic: Picture, wide: set<Point>, narrow: set<Point>, row: int, color: int)
    ensures Poured(pic, pic, wide, narrow, {}, row, 0, color)
  {
  }

  lemma PouredPast(pic: Picture, pic': Picture, wide: set<Point>, narrow: set<Point>, done: set<Point>,
                   row: int, n: int, color: int)
    requires Poured(pic, pic', wide, narrow, done, row, n, color) && Point(n, row) !in narrow - done
    ensures Poured(pic, pic', wide, narrow, done, row, n + 1, color)
  {
  }

  // Flooding what is left over from one more point of the row.
  lemma PourOn(pic: Picture, pic': Picture, wide: set<Point>, narrow: set<Point>, done: set<Point>, row: int, n: int,
               color: int, wide': set<Point>, narrow': set<Point>) returns (done': set<Point>)
    requires Poured(pic, pic', wide, narrow, done, row, n, color) && LeftOver(wide, narrow, done, wide', narrow')
    requires Point(n, row) in narrow'
    ensures Poured(pic, Paint(pic', Covered(wide', narrow', Point(n, row)), color),
                   wide, narrow, done', row, n + 1, color)
    ensures done <= done' && Point(n + 1, row) !in narrow - done'
  {
    var q, n' := Point(n, row), Point(n + 1, row);
    var more := Covered(wide', narrow', q);
    done' := done + more;
    LeftOverWays(wide, narrow, done, wide', narrow');
    ReachesSelf(Ways(wide', narrow'), q);
    forall p | p in more
      ensures p in CoveredFrom(wide, narrow, row)
    {
      ReachesMore(Ways(wide', narrow'), Ways(wide, narrow), q, p);
      assert p in Covered(wide, narrow, q);
    }
    forall p, t | p in done' && (p, t) in Ways(wide, narrow)
      ensures t in done'
    {
      if p !in done && t !in done {
        CoveredIsSettled(wide', narrow', q, p, t);
      }
    }
    if n' in narrow && n' !in done {
      CoveredIsSettled(wide', narrow', q, q, n');
    }
    PaintMore(pic, done, more, color);
  }

  lemma PouredAll(pic: Picture, pic': Picture, wide: set<Point>, narrow: set<Point>, done: set<Point>,
                  row: int, n: int, color: int)
    requires Poured(pic, pic', wide, narrow, done, row, n, color)
    requires forall p | p in narrow && p.y == row :: 0 <= p.x < n
    ensures pic' == Paint(pic, CoveredFrom(wide, narrow, row), color)
  {
    forall p | p in CoveredFrom(wide, narrow, row)
      ensures p in done
    {
      var q :| q in narrow && q.y == row && p in Covered(wide, narrow, q);
      assert Point(q.x, row) == q;
      ClosedHoldsReached(Ways(wide, narrow), done, q, p);
    }
  }
}
