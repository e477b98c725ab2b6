/** What a drawn line is: its ends, its symmetry, and that it is nowhere more than half a pixel off. */
module LineLaws {
  import opened Arithmetic
  import opened Flooding
  import opened Lines

  // Which end is given first does not matter.
  lemma LineIsSymmetric(x1: int, y1: int, x2: int, y2: int)
    ensures LineOf(x1, y1, x2, y2) == LineOf(x2, y2, x1, y1)
  {
    hide Across, Down;
  }

  // A line that is higher than wide is a line that is wider than high with the axes exchanged.
  lemma LineTransposed(x1: int, y1: int, x2: int, y2: int, p: Point)
    requires Abs(y2 - y1) > Abs(x2 - x1)
    ensures p in LineOf(x1, y1, x2, y2) <==> Point(p.y, p.x) in LineOf(y1, x1, y2, x2)
  {
    hide Offset;
    var dx, dy := Abs(x2 - x1), Abs(y2 - y1);
    forall x, y, dir: int
      ensures p in Down(x, y, dir, dx, dy, dy) <==> Point(p.y, p.x) in Across(y, x, dir, dy, dx, dy)
    {
      DownIsAcross(x, y, dir, dx, dy, p);
    }
    hide Across, Down;
  }

  lemma DownIsAcross(x: int, y: int, dir: int, dx: nat, dy: nat, p: Point)
    ensures p in Down(x, y, dir, dx, dy, dy) <==> Point(p.y, p.x) in Across(y, x, dir, dy, dx, dy)
  {
    hide Offset;
    if p in Down(x, y, dir, dx, dy, dy) {
      var i: nat :| i <= dy && p == Point(x + dir * Offset(dy, dx, i), y + i);
      assert Point(p.y, p.x) == Point(y + i, x + dir * Offset(dy, dx, i));
    }
    if Point(p.y, p.x) in Across(y, x, dir, dy, dx, dy) {
      var i: nat :| i <= dy && Point(p.y, p.x) == Point(y + i, x + dir * Offset(dy, dx, i));
      assert p == Point(x + dir * Offset(dy, dx, i), y + i);
    }
  }

  // In each column from the left end on there is the one point that the offset gives.
  lemma InAcross(x: int, y: int, dir: int, dx: nat, dy: nat, p: Point)
    ensures p in Across(x, y, dir, dx, dy, dx) <==> 0 <= p.x - x <= dx && p.y == y + dir * Offset(dx, dy, p.x - x)
  {
    hide Offset;
    if p in Across(x, y, dir, dx, dy, dx) {
      var i: nat :| i <= dx && p == Point(x + i, y + dir * Offset(dx, dy, i));
    }
    if 0 <= p.x - x <= dx && p.y == y + dir * Offset(dx, dy, p.x - x) {
      assert p == Point(x + (p.x - x), y + dir * Offset(dx, dy, p.x - x));
    }
  }

  // Twice the area that p spans with the ends of the line: 0 on the line itself, and
  // dx for every pixel up or down.
  function Aside(x1: int, y1: int, x2: int, y2: int, p: Point): int {
    (p.y - y1) * (x2 - x1) - (p.x - x1) * (y2 - y1)
  }

  lemma AsideReversed(x1: int, y1: int, x2: int, y2: int, p: Point)
    ensures Aside(x2, y2, x1, y1, p) == -Aside(x1, y1, x2, y2, p)
  {
    var a, b, u, v := p.y - y1, p.x - x1, x2 - x1, y2 - y1;
    assert (p.y - y2) * (x1 - x2) == (a - v) * (-u) == -(a * u) + v * u;
    assert (p.x - x2) * (y1 - y2) == (b - u) * (-v) == -(b * v) + u * v;
  }

  lemma AsideAtEnds(x1: int, y1: int, x2: int, y2: int)
    ensures Aside(x1, y1, x2, y2, Point(x1, y1)) == 0 && Aside(x1, y1, x2, y2, Point(x2, y2)) == 0
  {
    assert (y2 - y1) * (x2 - x1) == (x2 - x1) * (y2 - y1);
  }

  // Of a line that is at least as wide as high, every point lies between its ends and
  // at most half a pixel above or below the true line; and every point between its
  // ends that is less than half a pixel off is on it.
  lemma WideLineIsNear(x1: int, y1: int, x2: int, y2: int, p: Point)
    requires Abs(y2 - y1) <= Abs(x2 - x1)
    ensures p in LineOf(x1, y1, x2, y2) ==>
              Min(x1, x2) <= p.x <= Max(x1, x2) && 2 * Abs(Aside(x1, y1, x2, y2, p)) <= Abs(x2 - x1)
    ensures Min(x1, x2) <= p.x <= Max(x1, x2) && 2 * Abs(Aside(x1, y1, x2, y2, p)) < Abs(x2 - x1) ==>
              p in LineOf(x1, y1, x2, y2)
  {
    if x1 <= x2 {
      LeftLineIsNear(x1, y1, x2, y2, p);
    } else {
      LeftLineIsNear(x2, y2, x1, y1, p);
      LineIsSymmetric(x1, y1, x2, y2);
      AsideReversed(x1, y1, x2, y2, p);
    }
  }

  lemma LeftLineIsNear(x1: int, y1: int, x2: int, y2: int, p: Point)
    requires x1 <= x2 && Abs(y2 - y1) <= x2 - x1
    ensures p in LineOf(x1, y1, x2, y2) ==> x1 <= p.x <= x2 && 2 * Abs(Aside(x1, y1, x2, y2, p)) <= x2 - x1
    ensures x1 <= p.x <= x2 && 2 * Abs(Aside(x1, y1, x2, y2, p)) < x2 - x1 ==> p in LineOf(x1, y1, x2, y2)
  {
    hide Across, Offset;
    var dx, dy, dir := x2 - x1, Abs(y2 - y1), if y2 > y1 then 1 else -1;
    InAcross(x1, y1, dir, dx, dy, p);
    if x1 <= p.x <= x2 && dx > 0 {
      var k := p.x - x1;
      OffsetIsNear(dx, dy, k);
      AsideFromLeft(dx, dy, dir, k, p.y - y1);
      if 2 * Abs(Aside(x1, y1, x2, y2, p)) < dx {
        NearIsOffset(dx, dy, k, dir * (p.y - y1));
        assert dir * (dir * (p.y - y1)) == p.y - y1;
      }
    }
  }

  // Up to its sign the area is the difference that the offset rounds away.
  lemma AsideFromLeft(dx: nat, dy: nat, dir: int, k: int, r: int)
    requires dir == 1 || dir == -1
    ensures r * dx - k * (dir * dy) == dir * (dx * (dir * r) - dy * k)
  {
    if dir == 1 {
      assert r * dx - k * dy == dx * r - dy * k;
    } else {
      assert k * (0 - dy) == -(dy * k) && dx * (-r) == -(r * dx);
    }
  }

  // Of a line that is higher than wide, the same with the axes exchanged.
  lemma HighLineIsNear(x1: int, y1: int, x2: int, y2: int, p: Point)
    requires Abs(y2 - y1) > Abs(x2 - x1)
    ensures p in LineOf(x1, y1, x2, y2) ==>
              Min(y1, y2) <= p.y <= Max(y1, y2) && 2 * Abs(Aside(x1, y1, x2, y2, p)) <= Abs(y2 - y1)
    ensures Min(y1, y2) <= p.y <= Max(y1, y2) && 2 * Abs(Aside(x1, y1, x2, y2, p)) < Abs(y2 - y1) ==>
              p in LineOf(x1, y1, x2, y2)
  {
    LineTransposed(x1, y1, x2, y2, p);
    WideLineIsNear(y1, x1, y2, x2, Point(p.y, p.x));
    assert Aside(y1, x1, y2, x2, Point(p.y, p.x)) == -Aside(x1, y1, x2, y2, p);
  }

  // A wide line has exactly one point in each column between its ends, and next
  // columns' points touch, at least with their corners.
  lemma OneInEachColumn(x1: int, y1: int, x2: int, y2: int, x: int) returns (y: int, next: int)
    requires Abs(y2 - y1) <= Abs(x2 - x1) && Min(x1, x2) <= x <= Max(x1, x2)
    ensures forall r :: Point(x, r) in LineOf(x1, y1, x2, y2) <==> r == y
    ensures x < Max(x1, x2) ==> y - 1 <= next <= y + 1 && Point(x + 1, next) in LineOf(x1, y1, x2, y2)
  {
    var dx, dy := Abs(x2 - x1), Abs(y2 - y1);
    var x0, y0, dir :=
      if x1 > x2 then x2 else x1,
      if x1 > x2 then y2 else y1,
      if x1 > x2 then (if y1 > y2 then 1 else -1) else (if y2 > y1 then 1 else -1);
    assert LineOf(x1, y1, x2, y2) == Across(x0, y0, dir, dx, dy, dx);
    hide Across, Offset;
    y := y0 + dir * Offset(dx, dy, x - x0);
    forall r
      ensures Point(x, r) in LineOf(x1, y1, x2, y2) <==> r == y
    {
      InAcross(x0, y0, dir, dx, dy, Point(x, r));
    }
    next := y;
    if x < Max(x1, x2) {
      next := y0 + dir * Offset(dx, dy, x + 1 - x0);
      InAcross(x0, y0, dir, dx, dy, Point(x + 1, next));
      DecisionStep(dx, dy, x - x0);
      Turn(dir, Offset(dx, dy, x - x0));
    }
  }

  // A line that is higher than wide has exactly one point in each row between its ends,
  // and next rows' points touch.
  lemma OneInEachRow(x1: int, y1: int, x2: int, y2: int, y: int) returns (x: int, next: int)
    requires Abs(y2 - y1) > Abs(x2 - x1) && Min(y1, y2) <= y <= Max(y1, y2)
    ensures forall r :: Point(r, y) in LineOf(x1, y1, x2, y2) <==> r == x
    ensures y < Max(y1, y2) ==> x - 1 <= next <= x + 1 && Point(next, y + 1) in LineOf(x1, y1, x2, y2)
  {
    hide Across, Down, LineOf;
    x, next := OneInEachColumn(y1, x1, y2, x2, y);
    forall r
      ensures Point(r, y) in LineOf(x1, y1, x2, y2) <==> r == x
    {
      LineTransposed(x1, y1, x2, y2, Point(r, y));
    }
    LineTransposed(x1, y1, x2, y2, Point(next, y + 1));
  }

  // Both ends are on the line.
  lemma LineHasEnds(x1: int, y1: int, x2: int, y2: int)
    ensures Point(x1, y1) in LineOf(x1, y1, x2, y2) && Point(x2, y2) in LineOf(x1, y1, x2, y2)
  {
    if Abs(y2 - y1) <= Abs(x2 - x1) {
      WideLineHasEnds(x1, y1, x2, y2);
    } else {
      WideLineHasEnds(y1, x1, y2, x2);
      LineTransposed(x1, y1, x2, y2, Point(x1, y1));
      LineTransposed(x1, y1, x2, y2, Point(x2, y2));
    }
  }

  lemma WideLineHasEnds(x1: int, y1: int, x2: int, y2: int)
    requires Abs(y2 - y1) <= Abs(x2 - x1)
    ensures Point(x1, y1) in LineOf(x1, y1, x2, y2) && Point(x2, y2) in LineOf(x1, y1, x2, y2)
  {
    if x1 == x2 {
      LeftLineHasEnds(x1, y1, x2, y2);
    } else {
      WideLineIsNear(x1, y1, x2, y2, Point(x1, y1));
      WideLineIsNear(x1, y1, x2, y2, Point(x2, y2));
      AsideAtEnds(x1, y1, x2, y2);
    }
  }

  lemma LeftLineHasEnds(x1: int, y1: int, x2: int, y2: int)
    requires x1 == x2 && y1 == y2
    ensures Point(x1, y1) in LineOf(x1, y1, x2, y2)
  {
    OffsetAtStart(0, 0);
    InAcross(x1, y1, -1, 0, 0, Point(x1, y1));
  }

  // ----- level lines

  lemma LevelLine(a: int, b: int, y: int)
    requires a <= b
    ensures LineOf(a, y, b, y) == Span(a, b, y)
  {
    assert LineOf(a, y, b, y) == Across(a, y, -1, b - a, 0, b - a);
    hide LineOf, Across;
    forall p
      ensures p in Across(a, y, -1, b - a, 0, b - a) <==> p in Span(a, b, y)
    {
      InAcross(a, y, -1, b - a, 0, p);
      if a <= p.x <= b {
        LevelOffset(b - a, p.x - a);
      }
      hide Offset;
    }
  }

  lemma LevelOffset(dx: nat, k: nat)
    ensures Offset(dx, 0, k) == 0
  {
    if dx > 0 {
      NearIsOffset(dx, 0, k, 0);
    }
  }
}
