/**
 Lines that leave the picture: which are drawn as their part in the picture, and how
 far the others can be off.
 */
module ClipLaws {
  import opened Arithmetic
  import opened Flooding
  import opened Lines
  import opened LineLaws
  import opened Clipping

  // ----- level, upright and diagonal lines

  predicate IsStraight(x1: int, y1: int, x2: int, y2: int) {
    x1 == x2 || y1 == y2 || Abs(x2 - x1) == Abs(y2 - y1)
  }

  predicate OnStraight(x1: int, y1: int, x2: int, y2: int, p: Point) {
    && IsBetween(x1, p.x, x2) && IsBetween(y1, p.y, y2)
    && (x1 == x2 || y1 == y2 || Abs(p.x - x1) == Abs(p.y - y1))
  }

  lemma DiagonalLine(x1: int, y1: int, x2: int, y2: int, p: Point)
    requires Abs(x2 - x1) == Abs(y2 - y1)
    ensures p in LineOf(x1, y1, x2, y2) <==> OnStraight(x1, y1, x2, y2, p)
  {
    var d := Abs(x2 - x1);
    var x0, y0, dir :=
      if x1 > x2 then x2 else x1,
      if x1 > x2 then y2 else y1,
      if x1 > x2 then (if y1 > y2 then 1 else -1) else (if y2 > y1 then 1 else -1);
    assert LineOf(x1, y1, x2, y2) == Across(x0, y0, dir, d, d, d);
    InAcross(x0, y0, dir, d, d, p);
    if 0 <= p.x - x0 <= d && d > 0 {
      NearIsOffset(d, d, p.x - x0, p.x - x0);
    }
    hide LineOf, Across, Offset;
  }

  // Every line is drawn alike with both coordinates exchanged.
  lemma TransposedLine(x1: int, y1: int, x2: int, y2: int, p: Point)
    ensures p in LineOf(x1, y1, x2, y2) <==> Point(p.y, p.x) in LineOf(y1, x1, y2, x2)
  {
    hide LineOf;
    if Abs(y2 - y1) > Abs(x2 - x1) {
      LineTransposed(x1, y1, x2, y2, p);
    } else if Abs(y2 - y1) < Abs(x2 - x1) {
      LineTransposed(y1, x1, y2, x2, Point(p.y, p.x));
    } else {
      DiagonalLine(x1, y1, x2, y2, p);
      DiagonalLine(y1, x1, y2, x2, Point(p.y, p.x));
    }
  }

  lemma LevelPoints(x1: int, x2: int, y: int, p: Point)
    ensures p in LineOf(x1, y, x2, y) <==> OnStraight(x1, y, x2, y, p)
  {
    hide LineOf;
    LineIsSymmetric(x1, y, x2, y);
    LevelLine(Min(x1, x2), Max(x1, x2), y);
  }

  // Such a line goes through whole points only.
  lemma StraightLine(x1: int, y1: int, x2: int, y2: int, p: Point)
    requires IsStraight(x1, y1, x2, y2)
    ensures p in LineOf(x1, y1, x2, y2) <==> OnStraight(x1, y1, x2, y2, p)
  {
    hide LineOf;
    if Abs(x2 - x1) == Abs(y2 - y1) {
      DiagonalLine(x1, y1, x2, y2, p);
    } else if y1 == y2 {
      LevelPoints(x1, x2, y1, p);
    } else {
      TransposedLine(x1, y1, x2, y2, p);
      LevelPoints(y1, y2, x1, Point(p.y, p.x));
    }
  }

  lemma MovedDiagonal(y: int, k: int, h: int)
    requires h != 0
    ensures Moved(y, h, k, h) == y + k && Moved(y, -h, k, h) == y - k
  {
    var q := (k * h) as real / h as real;
    assert (k * h) as real == k as real * h as real;
    assert q == k as real;
    assert k * -h == -(k * h);
    assert (k * -h) as real / h as real == -(k as real);
  }

  // Where the line is at column c.
  function HeightAt(x1: int, y1: int, x2: int, y2: int, c: int): int {
    if y1 == y2 then y1 else if y2 - y1 == x2 - x1 then y1 + (c - x1) else y1 - (c - x1)
  }

  lemma StraightMoved(x1: int, y1: int, x2: int, y2: int, c: int)
    requires IsStraight(x1, y1, x2, y2) && x1 != x2
    ensures Moved(y1, y2 - y1, c - x1, x2 - x1) == HeightAt(x1, y1, x2, y2, c)
    ensures Moved(y2, y2 - y1, c - x2, x2 - x1) == HeightAt(x1, y1, x2, y2, c)
  {
    if y1 == y2 {
      MovedLevel(y1, c - x1, x2 - x1);
      MovedLevel(y2, c - x2, x2 - x1);
    } else {
      MovedDiagonal(y1, c - x1, x2 - x1);
      MovedDiagonal(y2, c - x2, x2 - x1);
      assert y2 - y1 == x2 - x1 || y2 - y1 == -(x2 - x1);
    }
    hide Moved;
  }

  // So a cut leaves exactly its points on this side.
  lemma StraightCut(x1: int, y1: int, x2: int, y2: int, lo: int, hi: int, p: Point)
    requires IsStraight(x1, y1, x2, y2) && lo <= p.x <= hi
    ensures var e := Clip1d(x1, y1, x2, y2, lo, hi);
            && (e.Ends? ==> IsStraight(e.x0, e.y0, e.x1, e.y1))
            && (OnStraight(x1, y1, x2, y2, p) <==> e.Ends? && OnStraight(e.x0, e.y0, e.x1, e.y1, p))
  {
    hide Moved;
    if x1 != x2 {
      StraightMoved(x1, y1, x2, y2, lo);
      StraightMoved(x1, y1, x2, y2, hi);
    }
  }

  // Of a level, upright or diagonal line exactly the part in the picture is drawn.
  lemma StraightIsKept(sx: nat, sy: nat, x1: int, y1: int, x2: int, y2: int, p: Point)
    requires IsStraight(x1, y1, x2, y2) && InBox(sx, sy, p.x, p.y)
    ensures p in Drawn(sx, sy, x1, y1, x2, y2) <==> p in LineOf(x1, y1, x2, y2)
  {
    hide LineOf, Clip1d;
    StraightLine(x1, y1, x2, y2, p);
    StraightCut(x1, y1, x2, y2, 0, sx - 1, p);
    var e := Clip1d(x1, y1, x2, y2, 0, sx - 1);
    if e.Ends? {
      StraightCut(e.y0, e.x0, e.y1, e.x1, 0, sy - 1, Point(p.y, p.x));
      var f := Clip1d(e.y0, e.x0, e.y1, e.x1, 0, sy - 1);
      if f.Ends? {
        StraightLine(f.y0, f.x0, f.y1, f.x1, p);
      }
    }
  }

  // For a level line these are the points of its row from one end to the other.
  lemma LevelIsDrawn(sx: nat, sy: nat, x1: int, x2: int, y: int, p: Point)
    requires InBox(sx, sy, p.x, p.y)
    ensures p in Drawn(sx, sy, x1, y, x2, y) <==> p in Span(Min(x1, x2), Max(x1, x2), y)
  {
    StraightIsKept(sx, sy, x1, y, x2, y, p);
    LevelPoints(x1, x2, y, p);
  }

  // ----- other lines

  // What is drawn when only the columns behind m, or only the rows below m, are cut off.
  function CutColumns(m: nat, x1: int, y1: int, x2: int, y2: int): set<Point> {
    match Clip1d(x1, y1, x2, y2, 0, m)
    case Missed => {}
    case Ends(a, b, c, d) => LineOf(a, b, c, d)
  }

  function CutRows(m: nat, x1: int, y1: int, x2: int, y2: int): set<Point> {
    match Clip1d(y1, x1, y2, x2, 0, m)
    case Missed => {}
    case Ends(b, a, d, c) => LineOf(a, b, c, d)
  }

  lemma OnlyColumns(sx: nat, sy: nat, x1: int, y1: int, x2: int, y2: int)
    requires sx > 0 && 0 <= y1 < sy && 0 <= y2 < sy
    ensures Drawn(sx, sy, x1, y1, x2, y2) == CutColumns(sx - 1, x1, y1, x2, y2)
  {
    Clip1dIsBetween(x1, y1, x2, y2, 0, sx - 1);
    hide Moved, LineOf;
  }

  lemma OnlyRows(sx: nat, sy: nat, x1: int, y1: int, x2: int, y2: int)
    requires sy > 0 && 0 <= x1 < sx && 0 <= x2 < sx
    ensures Drawn(sx, sy, x1, y1, x2, y2) == CutRows(sy - 1, x1, y1, x2, y2)
  {
    hide Moved, LineOf;
  }

  // A point p of a line that is lost when the columns behind m, or the rows below m, are cut off.
  datatype Loss = Loss(rows: bool, m: nat, p: Point)

  predicate Loses(l: Loss, x1: int, y1: int, x2: int, y2: int) {
    && l.p in LineOf(x1, y1, x2, y2)
    && 0 <= l.p.x <= Max(x1, x2) && 0 <= l.p.y <= Max(y1, y2)
    && if l.rows then l.p.y <= l.m && l.p !in CutRows(l.m, x1, y1, x2, y2)
       else l.p.x <= l.m && l.p !in CutColumns(l.m, x1, y1, x2, y2)
  }

  lemma TransposedLoss(l: Loss, x1: int, y1: int, x2: int, y2: int)
    requires Loses(l, y1, x1, y2, x2)
    ensures Loses(Loss(!l.rows, l.m, Point(l.p.y, l.p.x)), x1, y1, x2, y2)
  {
    hide LineOf, Clip1d;
    TransposedLine(x1, y1, x2, y2, Point(l.p.y, l.p.x));
    var e := if l.rows then Clip1d(x1, y1, x2, y2, 0, l.m) else Clip1d(y1, x1, y2, x2, 0, l.m);
    if e.Ends? {
      TransposedLine(e.x0, e.y0, e.x1, e.y1, l.p);
      TransposedLine(e.y0, e.x0, e.y1, e.x1, l.p);
    }
  }

  lemma ReversedCut(x1: int, y1: int, x2: int, y2: int, lo: int, hi: int)
    requires lo <= hi
    ensures var e, f := Clip1d(x1, y1, x2, y2, lo, hi), Clip1d(x2, y2, x1, y1, lo, hi);
            if e.Missed? then f.Missed? else f == Ends(e.x1, e.y1, e.x0, e.y0)
  {
    hide Moved;
    if x1 != x2 {
      MovedReversed(y1, y2 - y1, lo - x1, x2 - x1);
      MovedReversed(y1, y2 - y1, hi - x1, x2 - x1);
      MovedReversed(y2, y2 - y1, lo - x2, x2 - x1);
      MovedReversed(y2, y2 - y1, hi - x2, x2 - x1);
      assert -(y2 - y1) == y1 - y2 && -(x2 - x1) == x1 - x2;
    }
  }

  lemma ReversedLoss(l: Loss, x1: int, y1: int, x2: int, y2: int)
    requires Loses(l, x2, y2, x1, y1)
    ensures Loses(l, x1, y1, x2, y2)
  {
    hide LineOf, Clip1d;
    LineIsSymmetric(x1, y1, x2, y2);
    ReversedCut(x1, y1, x2, y2, 0, l.m);
    ReversedCut(y1, x1, y2, x2, 0, l.m);
    var e := if l.rows then Clip1d(y1, x1, y2, x2, 0, l.m) else Clip1d(x1, y1, x2, y2, 0, l.m);
    if e.Ends? {
      LineIsSymmetric(e.x0, e.y0, e.x1, e.y1);
      LineIsSymmetric(e.y0, e.x0, e.y1, e.x1);
    }
  }

  // The height at which a line is cut off k columns from its first end, when it lies
  // between c and c + 1 there.
  lemma CutHeight(x1: int, y1: int, x2: int, y2: int, k: int, c: int)
    requires x1 < x2 && c >= 0 && c * (x2 - x1) <= y1 * (x2 - x1) + k * (y2 - y1) < c * (x2 - x1) + (x2 - x1)
    ensures Moved(y2, y2 - y1, x1 + k - x2, x2 - x1) == c
  {
    var w, h := y2 - y1, x2 - x1;
    MovedIs(x2, y2, w, h, x1 + k);
    SameFromBothEnds(x1, y1, x2, y2, x1 + k);
    FloorIs(y1, k * w, h, c);
    hide Truncated, Moved;
  }

  lemma FloorIs(y: int, n: int, h: int, c: int)
    requires h > 0 && c >= 0 && c * h <= y * h + n < c * h + h
    ensures Truncated(y as real + n as real / h as real) == c
  {
    var q := n as real / h as real;
    assert q * h as real == n as real;
    assert (c - y) * h == c * h - y * h && (c - y + 1) * h == c * h + h - y * h;
    BetweenTimes(c - y, q, c - y + 1, n, h);
    FloorOf(y, q, c);
  }

  lemma FloorOf(y: int, q: real, c: nat)
    requires (c - y) as real <= q < (c - y + 1) as real
    ensures Truncated(y as real + q) == c
  {
  }

  // Which way a line turns, seen from its left end.
  function Direction(y1: int, y2: int): int {
    if y2 > y1 then 1 else -1
  }

  // A wide line loses its point in the last column where it is cut off, when the cut
  // is not at the height of that point.
  lemma ColumnLoses(x1: int, y1: int, x2: int, y2: int, k: int, c: int, o: int)
    requires x1 >= 0 && y1 >= 0 && y2 >= 0 && x1 < x2 && Abs(y2 - y1) <= x2 - x1 && 0 < k < x2 - x1
    requires c >= 0 && c * (x2 - x1) <= y1 * (x2 - x1) + k * (y2 - y1) < c * (x2 - x1) + (x2 - x1)
    requires Near(x2 - x1, Abs(y2 - y1), k, o) && 0 <= y1 + Direction(y1, y2) * o <= Max(y1, y2)
    requires c != y1 + Direction(y1, y2) * o && Abs(c - y1) <= k
    ensures Loses(Loss(false, x1 + k, Point(x1 + k, y1 + Direction(y1, y2) * o)), x1, y1, x2, y2)
  {
    var dx, dy, p := x2 - x1, Abs(y2 - y1), Point(x1 + k, y1 + Direction(y1, y2) * o);
    NearIsOffset(dx, dy, k, o);
    InAcross(x1, y1, Direction(y1, y2), dx, dy, p);
    CutHeight(x1, y1, x2, y2, k, c);
    assert Clip1d(x1, y1, x2, y2, 0, x1 + k) == Ends(x1, y1, x1 + k, c);
    assert p in LineOf(x1, y1, x2, y2);
    hide LineOf, Across, Offset, Clip1d;
    OnlyItsEnd(x1, y1, x1 + k, c, p.y);
  }

  lemma OnlyItsEnd(x1: int, y1: int, x2: int, y2: int, y: int)
    requires x1 < x2 && Abs(y2 - y1) <= x2 - x1 && y != y2
    ensures Point(x2, y) !in LineOf(x1, y1, x2, y2)
  {
    hide LineOf;
    LineHasEnds(x1, y1, x2, y2);
    var only, next := OneInEachColumn(x1, y1, x2, y2, x2);
  }

  // A rising line: the first point that is above the row of the left end.
  lemma RisingLoses(x1: int, y1: int, x2: int, y2: int) returns (l: Loss)
    requires x1 >= 0 && y1 >= 0 && 0 < y2 - y1 < x2 - x1
    ensures Loses(l, x1, y1, x2, y2)
  {
    hide Loses;
    var dx, dy := x2 - x1, y2 - y1;
    var k := LeastMultiple(2 * dy, dx - 1);
    assert 2 * dy * k == 2 * (dy * k) && k * dy == dy * k;
    LessThanAll(dx, dy, k);
    ColumnLoses(x1, y1, x2, y2, k, y1, 1);
    l := Loss(false, x1 + k, Point(x1 + k, y1 + 1));
  }

  // The first multiple of b that is greater than t.
  lemma LeastMultiple(b: int, t: int) returns (k: int)
    requires b > 0 && t >= 0
    ensures k > 0 && b * k - b <= t < b * k
  {
    k := t / b + 1;
    QuotientBounds(t, b);
    assert b * k == b * (t / b) + b;
  }

  // Half of a line's columns come before it is a whole row off.
  lemma LessThanAll(dx: int, dy: int, k: int)
    requires 0 < dy < dx && k > 0 && dx <= 2 * (dy * k) < dx + 2 * dy
    ensures 0 < dy * k < dx && k < dx
  {
    if 2 * dy >= dx {
      if k > 1 {
        Multiples(dy, 1, k);
      }
      assert k == 1;
    }
    assert dy * (dx - 1) == dx * dy - dy && dx * 1 == dx;
    if k >= dx {
      Multiples(dy, dx - 1, k);
      Multiples(dx, 1, dy);
    }
  }

  // A line that falls by one row in two columns loses a point when the rows from the
  // left end's on are cut off.
  lemma HalfLoses(x1: int, y1: int, x2: int, y2: int) returns (l: Loss)
    requires x1 >= 0 && y2 >= 0 && y1 > y2 && x2 - x1 == 2 * (y1 - y2)
    ensures Loses(l, x1, y1, x2, y2)
  {
    var dx, dy, p := x2 - x1, y1 - y2, Point(x1 + 1, y1 - 1);
    NearIsOffset(dx, dy, 1, 1);
    InAcross(x1, y1, -1, dx, dy, p);
    assert p in LineOf(x1, y1, x2, y2);
    l := Loss(true, y1 - 1, p);
    MovedByTwo(x1, dy);
    assert Clip1d(y1, x1, y2, x2, 0, y1 - 1) == Ends(y1 - 1, x1 + 2, y2, x2);
    hide LineOf, Across, Offset, Clip1d, Moved;
    WideLineIsNear(x1 + 2, y1 - 1, x2, y2, p);
  }

  lemma MovedByTwo(x: int, dy: int)
    requires dy > 0
    ensures Moved(x, 2 * dy, -1, -dy) == x + 2
  {
    assert (-1 * (2 * dy)) as real / (-dy) as real == 2.0;
  }

  // A line that falls by more: the first point that is a row higher than on the diagonal.
  lemma SteepLoses(x1: int, y1: int, x2: int, y2: int) returns (l: Loss)
    requires x1 >= 0 && y2 >= 0 && y1 - y2 < x2 - x1 < 2 * (y1 - y2)
    ensures Loses(l, x1, y1, x2, y2)
  {
    hide Loses;
    var dx, dy := x2 - x1, y1 - y2;
    var b := dx - dy;
    var k := LeastMultiple(2 * b, dx);
    assert 2 * b * k == 2 * (b * k);
    SmallSlope(dx, b, k);
    SteepHeights(dx, dy, y1, k);
    ColumnLoses(x1, y1, x2, y2, k, y1 - k, k - 1);
    l := Loss(false, x1 + k, Point(x1 + k, y1 - (k - 1)));
  }

  lemma SmallSlope(dx: int, b: int, k: int)
    requires 0 < b && 2 * b < dx && k > 0 && dx < 2 * (b * k) <= dx + 2 * b
    ensures b * k < dx && 1 < k < dx
  {
    assert b * 1 == b && b * (dx - 1) == dx * b - b && dx * 1 == dx;
    if k >= dx {
      Multiples(b, dx - 1, k);
      Multiples(dx, 1, b);
    }
  }

  lemma SteepHeights(dx: int, dy: int, y1: int, k: int)
    requires 0 < dy < dx && dx < 2 * ((dx - dy) * k) && (dx - dy) * k < dx && 0 < k < dx && y1 >= dy
    ensures y1 - k >= 0 && (y1 - k) * dx <= y1 * dx + k * -dy < (y1 - k) * dx + dx
    ensures Near(dx, dy, k, k - 1)
  {
    assert (dx - dy) * k == dx * k - dy * k;
    assert (y1 - k) * dx == y1 * dx - dx * k && k * -dy == -(dy * k);
    assert dx * (k - 1) == dx * k - dx && dy * dx == dx * dy;
    if k > y1 {
      Multiples(dx, dy, k);
      Multiples(dy, k, dx);
    }
  }

  // A line that falls by less: the point next to the left end.
  lemma GentleLoses(x1: int, y1: int, x2: int, y2: int) returns (l: Loss)
    requires x1 >= 0 && y2 >= 0 && y1 > y2 && 2 * (y1 - y2) < x2 - x1
    ensures Loses(l, x1, y1, x2, y2)
  {
    hide Loses;
    var dx := x2 - x1;
    assert (y1 - 1) * dx == y1 * dx - dx && dx * 0 == 0;
    ColumnLoses(x1, y1, x2, y2, 1, y1 - 1, 0);
    l := Loss(false, x1 + 1, Point(x1 + 1, y1));
  }

  // A falling line, by its slope.
  lemma FallingLoses(x1: int, y1: int, x2: int, y2: int) returns (l: Loss)
    requires x1 >= 0 && y2 >= 0 && 0 < y1 - y2 < x2 - x1
    ensures Loses(l, x1, y1, x2, y2)
  {
    hide Loses;
    var dx, dy := x2 - x1, y1 - y2;
    if 2 * dy < dx {
      l := GentleLoses(x1, y1, x2, y2);
    } else if 2 * dy == dx {
      l := HalfLoses(x1, y1, x2, y2);
    } else {
      l := SteepLoses(x1, y1, x2, y2);
    }
  }

  lemma WideLoses(x1: int, y1: int, x2: int, y2: int) returns (l: Loss)
    requires x1 >= 0 && y1 >= 0 && x2 >= 0 && y2 >= 0 && 0 < Abs(y2 - y1) < Abs(x2 - x1)
    ensures Loses(l, x1, y1, x2, y2)
  {
    hide Loses;
    if x1 > x2 {
      if y1 > y2 {
        l := RisingLoses(x2, y2, x1, y1);
      } else {
        l := FallingLoses(x2, y2, x1, y1);
      }
      ReversedLoss(l, x1, y1, x2, y2);
    } else if y1 < y2 {
      l := RisingLoses(x1, y1, x2, y2);
    } else {
      l := FallingLoses(x1, y1, x2, y2);
    }
  }

  lemma SlopedLoses(x1: int, y1: int, x2: int, y2: int) returns (l: Loss)
    requires x1 >= 0 && y1 >= 0 && x2 >= 0 && y2 >= 0 && !IsStraight(x1, y1, x2, y2)
    ensures Loses(l, x1, y1, x2, y2)
  {
    if Abs(y2 - y1) < Abs(x2 - x1) {
      l := WideLoses(x1, y1, x2, y2);
    } else {
      var t := WideLoses(y1, x1, y2, x2);
      TransposedLoss(t, x1, y1, x2, y2);
      l := Loss(!t.rows, t.m, Point(t.p.y, t.p.x));
    }
  }

  // A line that loses a point is not drawn as its part in some picture.
  lemma LossShows(l: Loss, x1: int, y1: int, x2: int, y2: int) returns (sx: nat, sy: nat)
    requires x1 >= 0 && y1 >= 0 && x2 >= 0 && y2 >= 0 && Loses(l, x1, y1, x2, y2)
    ensures InBox(sx, sy, l.p.x, l.p.y) && l.p in LineOf(x1, y1, x2, y2) && l.p !in Drawn(sx, sy, x1, y1, x2, y2)
  {
    hide LineOf, CutRows, CutColumns, Drawn;
    if l.rows {
      sx, sy := Max(x1, x2) + 1, l.m + 1;
      OnlyRows(sx, sy, x1, y1, x2, y2);
    } else {
      sx, sy := l.m + 1, Max(y1, y2) + 1;
      OnlyColumns(sx, sy, x1, y1, x2, y2);
    }
  }

  // A line that begins and ends right of and below the corner of the picture is drawn
  // as its part in every picture exactly when it is level, upright or diagonal.
  lemma ClippingKeepsIff(x1: int, y1: int, x2: int, y2: int)
    requires x1 >= 0 && y1 >= 0 && x2 >= 0 && y2 >= 0
    ensures (forall sx: nat, sy: nat, p: Point | InBox(sx, sy, p.x, p.y) ::
               p in Drawn(sx, sy, x1, y1, x2, y2) <==> p in LineOf(x1, y1, x2, y2))
            <==> IsStraight(x1, y1, x2, y2)
  {
    hide LineOf, Drawn;
    if IsStraight(x1, y1, x2, y2) {
      forall sx: nat, sy: nat, p: Point | InBox(sx, sy, p.x, p.y)
        ensures p in Drawn(sx, sy, x1, y1, x2, y2) <==> p in LineOf(x1, y1, x2, y2)
      {
        StraightIsKept(sx, sy, x1, y1, x2, y2, p);
      }
    } else {
      var l := SlopedLoses(x1, y1, x2, y2);
      var sx, sy := LossShows(l, x1, y1, x2, y2);
    }
  }

  // A line that comes in over the edge: this one goes through the second row of the
  // first column, and is drawn in the first row there.
  lemma ClippingMoves()
    ensures Point(0, 1) in LineOf(-1, 0, 3, 2) && Point(0, 1) !in Drawn(4, 3, -1, 0, 3, 2)
    ensures Point(0, 0) !in LineOf(-1, 0, 3, 2) && Point(0, 0) in Drawn(4, 3, -1, 0, 3, 2)
  {
    assert Clip(4, 3, -1, 0, 3, 2) == Ends(0, 0, 3, 2);
    InAcross(-1, 0, 1, 4, 2, Point(0, 1));
    InAcross(-1, 0, 1, 4, 2, Point(0, 0));
    InAcross(0, 0, 1, 3, 2, Point(0, 1));
    InAcross(0, 0, 1, 3, 2, Point(0, 0));
  }

  // ----- how far off

  function Cross(a: int, b: int, c: int, d: int): int {
    a * b - c * d
  }

  lemma AsideIsCross(x1: int, y1: int, x2: int, y2: int, p: Point)
    ensures Aside(x1, y1, x2, y2, p) == Cross(p.y - y1, x2 - x1, p.x - x1, y2 - y1)
  {
  }

  // The line through 0 with run w and rise h, the line from (a, b) to (c, d), and (x, y).
  lemma Affine(w: int, h: int, a: int, b: int, c: int, d: int, x: int, y: int)
    ensures Cross(y, w, x, h) * (c - a) ==
            Cross(b, w, a, h) * (c - x) + Cross(d, w, c, h) * (x - a) + w * Cross(y - b, c - a, x - a, d - b)
    ensures Cross(y, w, x, h) * (d - b) ==
            Cross(b, w, a, h) * (d - y) + Cross(d, w, c, h) * (y - b) + h * Cross(y - b, c - a, x - a, d - b)
  {
  }

  // How far a point is aside of the line grows evenly along another line f, but for the
  // distance of the point from f: seen along the columns, and along the rows.
  lemma AsideAlong(x1: int, y1: int, x2: int, y2: int, f: Clipped, p: Point)
    requires f.Ends?
    ensures var a0, a1 := Aside(x1, y1, x2, y2, Point(f.x0, f.y0)), Aside(x1, y1, x2, y2, Point(f.x1, f.y1));
            var a, s := Aside(x1, y1, x2, y2, p), Aside(f.x0, f.y0, f.x1, f.y1, p);
            && a * (f.x1 - f.x0) == a0 * (f.x1 - p.x) + a1 * (p.x - f.x0) + (x2 - x1) * s
            && a * (f.y1 - f.y0) == a0 * (f.y1 - p.y) + a1 * (p.y - f.y0) + (y2 - y1) * s
  {
    hide Aside, Cross;
    Affine(x2 - x1, y2 - y1, f.x0 - x1, f.y0 - y1, f.x1 - x1, f.y1 - y1, p.x - x1, p.y - y1);
    AsideIsCross(x1, y1, x2, y2, Point(f.x0, f.y0));
    AsideIsCross(x1, y1, x2, y2, Point(f.x1, f.y1));
    AsideIsCross(x1, y1, x2, y2, p);
    AsideIsCross(f.x0, f.y0, f.x1, f.y1, p);
  }

  lemma AbsTimes(a: int, b: int)
    ensures Abs(a * b) == Abs(a) * Abs(b)
  {
    if a >= 0 && b < 0 {
      assert a * b == -(a * -b);
    } else if a < 0 && b >= 0 {
      assert a * b == -(-a * b);
    } else if a < 0 && b < 0 {
      assert a * b == -a * -b;
    }
  }

  // A mean of a0 and a1, and something more.
  lemma Mean(h: int, u: int, a0: int, a1: int, a: int, more: int, m: int)
    requires IsBetween(0, u, h) && Abs(a0) <= m && Abs(a1) <= m
    requires a * h == a0 * (h - u) + a1 * u + more
    ensures Abs(a) * Abs(h) <= m * Abs(h) + Abs(more)
  {
    AbsTimes(a, h);
    Share(a0, h - u, m);
    Share(a1, u, m);
    SumIsWithin(a * h, a0 * (h - u), a1 * u, more, m * Abs(h - u), m * Abs(u));
    Distribute(m, Abs(h - u), Abs(u), Abs(h));
  }

  lemma Share(a: int, b: int, m: int)
    requires Abs(a) <= m
    ensures Abs(a * b) <= m * Abs(b)
  {
    AbsTimes(a, b);
    Factor(Abs(a), m, Abs(b));
  }

  lemma SumIsWithin(n: int, p: int, q: int, more: int, a: int, b: int)
    requires n == p + q + more && Abs(p) <= a && Abs(q) <= b
    ensures Abs(n) <= a + b + Abs(more)
  {
  }

  lemma Distribute(m: int, a: int, b: int, c: int)
    requires a + b == c
    ensures m * a + m * b == m * c
  {
  }

  lemma Factor(a: int, b: int, c: nat)
    requires a <= b
    ensures a * c <= b * c
  {
    if c > 0 {
      if a < b {
        Multiples(c, a, b);
      }
    }
  }

  lemma TruncatedIsClose(y: int, n: int, h: int)
    requires h > 0
    ensures var t := Truncated(y as real + n as real / h as real); Abs((t - y) * h - n) < h
  {
    var q := n as real / h as real;
    var t := Truncated(y as real + q);
    assert q * h as real == n as real;
    TruncatedNear(y, q);
    hide Truncated;
    TimesBetween(t - y - 1, q, t - y + 1, n, h);
    assert (t - y - 1) * h == (t - y) * h - h && (t - y + 1) * h == (t - y) * h + h;
  }

  lemma TruncatedNear(y: int, q: real)
    ensures var t := Truncated(y as real + q); (t - y - 1) as real < q < (t - y + 1) as real
  {
  }

  lemma MovedIsClose(y: int, w: int, k: int, h: int)
    requires h != 0
    ensures Abs((Moved(y, w, k, h) - y) * h - k * w) < Abs(h)
  {
    if h > 0 {
      TruncatedIsClose(y, k * w, h);
    } else {
      TruncatedIsClose(y, k * -w, -h);
      MovedReversed(y, w, k, h);
      Opposites(Moved(y, w, k, h) - y, h, k, w);
    }
  }

  lemma Opposites(a: int, h: int, k: int, w: int)
    ensures a * -h - k * -w == -(a * h - k * w)
  {
  }

  // A cut leaves out less than a whole row.
  lemma CutIsClose(x0: int, y0: int, x1: int, y1: int, c: int)
    requires x0 != x1
    ensures Abs(Aside(x0, y0, x1, y1, Point(c, Moved(y0, y1 - y0, c - x0, x1 - x0)))) < Abs(x1 - x0)
    ensures Abs(Aside(x0, y0, x1, y1, Point(c, Moved(y1, y1 - y0, c - x1, x1 - x0)))) < Abs(x1 - x0)
  {
    MovedIsClose(y0, y1 - y0, c - x0, x1 - x0);
    SameCut(x0, y0, x1, y1, c);
    hide Moved;
  }

  lemma SameCut(x0: int, y0: int, x1: int, y1: int, c: int)
    requires x0 != x1
    ensures Moved(y1, y1 - y0, c - x1, x1 - x0) == Moved(y0, y1 - y0, c - x0, x1 - x0)
  {
    MovedIs(x0, y0, y1 - y0, x1 - x0, c);
    MovedIs(x1, y1, y1 - y0, x1 - x0, c);
    SameFromBothEnds(x0, y0, x1, y1, c);
    hide Moved, HeightFrom;
  }

  lemma Clip1dIsClose(x0: int, y0: int, x1: int, y1: int, lo: int, hi: int)
    ensures var e := Clip1d(x0, y0, x1, y1, lo, hi);
            e.Ends? ==>
              && Abs(Aside(x0, y0, x1, y1, Point(e.x0, e.y0))) <= Max(Abs(x1 - x0) - 1, 0)
              && Abs(Aside(x0, y0, x1, y1, Point(e.x1, e.y1))) <= Max(Abs(x1 - x0) - 1, 0)
              && (lo <= hi ==> IsBetween(x0, e.x0, x1) && IsBetween(x0, e.x1, x1))
              && (x0 == x1 ==> e == Ends(x0, y0, x1, y1))
  {
    hide Moved;
    AsideAtEnds(x0, y0, x1, y1);
    hide Aside;
    if x0 != x1 {
      CutIsClose(x0, y0, x1, y1, lo);
      CutIsClose(x0, y0, x1, y1, hi);
    }
  }

  // The second cut adds less than the height of the line to that.
  lemma EndIsClose(x1: int, y1: int, x2: int, y2: int, e: Clipped, q: Point)
    requires e.Ends? && (x1 != x2 || y1 != y2) && IsBetween(e.y0, q.y, e.y1)
    requires Abs(Aside(x1, y1, x2, y2, Point(e.x0, e.y0))) <= Max(Abs(x2 - x1) - 1, 0)
    requires Abs(Aside(x1, y1, x2, y2, Point(e.x1, e.y1))) <= Max(Abs(x2 - x1) - 1, 0)
    requires Abs(Aside(e.x0, e.y0, e.x1, e.y1, q)) <= Max(Abs(e.y1 - e.y0) - 1, 0)
    requires e.y0 == e.y1 ==> q.x == e.x0 || q.x == e.x1
    ensures Abs(Aside(x1, y1, x2, y2, q)) < Abs(x2 - x1) + Abs(y2 - y1)
  {
    var m, h, s, a := Max(Abs(x2 - x1) - 1, 0), e.y1 - e.y0, Aside(e.x0, e.y0, e.x1, e.y1, q), Aside(x1, y1, x2, y2, q);
    var dy := y2 - y1;
    AsideAlong(x1, y1, x2, y2, e, q);
    var a0, a1 := Aside(x1, y1, x2, y2, Point(e.x0, e.y0)), Aside(x1, y1, x2, y2, Point(e.x1, e.y1));
    hide Aside;
    if h != 0 {
      Mean(h, q.y - e.y0, a0, a1, a, dy * s, m);
      AbsTimes(dy, s);
      Factor(Abs(s), Abs(h) - 1, Abs(dy));
      Less(Abs(a), m, Abs(dy), Abs(h));
    }
  }

  lemma Less(a: nat, m: nat, d: nat, h: nat)
    requires h > 0 && a * h <= m * h + (h - 1) * d
    ensures a <= m + d && (d > 0 ==> a < m + d)
  {
    assert (m + d) * h == m * h + (h - 1) * d + d;
    if a >= m + d {
      Factor(m + d, a, h);
    }
    if a > m + d {
      Factor(m + d + 1, a, h);
    }
  }

  lemma AsideTransposed(x1: int, y1: int, x2: int, y2: int, p: Point)
    ensures Aside(y1, x1, y2, x2, Point(p.y, p.x)) == -Aside(x1, y1, x2, y2, p)
  {
  }

  lemma ClippedEndsAreClose(sx: nat, sy: nat, x1: int, y1: int, x2: int, y2: int)
    requires sy > 0 && (x1 != x2 || y1 != y2)
    ensures var f := Clip(sx, sy, x1, y1, x2, y2);
            f.Ends? ==>
              && Abs(Aside(x1, y1, x2, y2, Point(f.x0, f.y0))) < Abs(x2 - x1) + Abs(y2 - y1)
              && Abs(Aside(x1, y1, x2, y2, Point(f.x1, f.y1))) < Abs(x2 - x1) + Abs(y2 - y1)
  {
    hide Clip1d, Aside;
    Clip1dIsClose(x1, y1, x2, y2, 0, sx - 1);
    var e := Clip1d(x1, y1, x2, y2, 0, sx - 1);
    if e.Ends? {
      Clip1dIsClose(e.y0, e.x0, e.y1, e.x1, 0, sy - 1);
      var f := Clip(sx, sy, x1, y1, x2, y2);
      if f.Ends? {
        AsideTransposed(e.x0, e.y0, e.x1, e.y1, Point(f.x0, f.y0));
        AsideTransposed(e.x0, e.y0, e.x1, e.y1, Point(f.x1, f.y1));
        EndIsClose(x1, y1, x2, y2, e, Point(f.x0, f.y0));
        EndIsClose(x1, y1, x2, y2, e, Point(f.x1, f.y1));
      }
    }
  }

  lemma Half(a: nat, m: int, d: nat, h: nat, s: nat)
    requires h > 0 && 2 * s <= h && a * h <= m * h + d * s
    ensures 2 * a <= 2 * m + d
  {
    Factor(2 * s, h, d);
    assert d * h == h * d && 2 * s * d == 2 * (d * s);
    assert (2 * m + d) * h == 2 * (m * h) + d * h && (2 * a) * h == 2 * (a * h);
    assert (2 * m + d + 1) * h == (2 * m + d) * h + h;
    if 2 * a > 2 * m + d {
      Factor(2 * m + d + 1, 2 * a, h);
    }
  }

  // Rounding to whole points adds at most half of the longer side.
  lemma PointIsClose(x1: int, y1: int, x2: int, y2: int, f: Clipped, p: Point, m: int)
    requires f.Ends? && p in LineOf(f.x0, f.y0, f.x1, f.y1)
    requires Abs(Aside(x1, y1, x2, y2, Point(f.x0, f.y0))) <= m && Abs(Aside(x1, y1, x2, y2, Point(f.x1, f.y1))) <= m
    ensures 2 * Abs(Aside(x1, y1, x2, y2, p)) <= 2 * m + Max(Abs(x2 - x1), Abs(y2 - y1))
  {
    hide Aside, LineOf;
    var a, s := Aside(x1, y1, x2, y2, p), Aside(f.x0, f.y0, f.x1, f.y1, p);
    var a0, a1 := Aside(x1, y1, x2, y2, Point(f.x0, f.y0)), Aside(x1, y1, x2, y2, Point(f.x1, f.y1));
    var w, h, dx, dy := f.x1 - f.x0, f.y1 - f.y0, x2 - x1, y2 - y1;
    if w == 0 && h == 0 {
      StraightLine(f.x0, f.y0, f.x1, f.y1, p);
      assert p == Point(f.x0, f.y0);
    } else if Abs(h) <= Abs(w) {
      WideLineIsNear(f.x0, f.y0, f.x1, f.y1, p);
      AsideAlong(x1, y1, x2, y2, f, p);
      Mean(w, p.x - f.x0, a0, a1, a, dx * s, m);
      AbsTimes(dx, s);
      Half(Abs(a), m, Abs(dx), Abs(w), Abs(s));
    } else {
      HighLineIsNear(f.x0, f.y0, f.x1, f.y1, p);
      AsideAlong(x1, y1, x2, y2, f, p);
      Mean(h, p.y - f.y0, a0, a1, a, dy * s, m);
      AbsTimes(dy, s);
      Half(Abs(a), m, Abs(dy), Abs(h), Abs(s));
    }
  }

  // Along its shorter axis every drawn point is off the true line by less than one and a
  // half pixels and the slope of the line, so by less than two and a half.
  lemma ClippedIsClose(sx: nat, sy: nat, x1: int, y1: int, x2: int, y2: int, p: Point)
    requires InBox(sx, sy, p.x, p.y) && p in Drawn(sx, sy, x1, y1, x2, y2) && (x1 != x2 || y1 != y2)
    ensures var dx, dy := Abs(x2 - x1), Abs(y2 - y1);
            2 * Abs(Aside(x1, y1, x2, y2, p)) < 3 * Max(dx, dy) + 2 * Min(dx, dy)
  {
    hide LineOf, Aside, Clip;
    ClippedEndsAreClose(sx, sy, x1, y1, x2, y2);
    PointIsClose(x1, y1, x2, y2, Clip(sx, sy, x1, y1, x2, y2), p, Abs(x2 - x1) + Abs(y2 - y1) - 1);
  }

  // Two pixels would not be enough: this point is off by fifteen sevenths.
  lemma ClippedIsFarOff()
    ensures Point(9, 3) in Drawn(130, 102, -31, -34, 109, 88)
    ensures Abs(Aside(-31, -34, 109, 88, Point(9, 3))) > 2 * (109 - -31)
  {
    assert Moved(-34, 122, 31, 140) == -6;
    assert Clip1d(-31, -34, 109, 88, 0, 129) == Ends(0, -6, 109, 88);
    assert Moved(0, 109, 6, 94) == 6;
    assert Clip1d(-6, 0, 88, 109, 0, 101) == Ends(0, 6, 88, 109);
    NearIsOffset(103, 88, 3, 3);
    InAcross(6, 0, 1, 103, 88, Point(9, 3));
  }
}
