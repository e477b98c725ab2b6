/**
 A filled polygon said by its edges alone, in whole numbers: where each edge meets a row,
 to the nearest column, and the points that have an odd number of edges on their left.
 */
module PolygonEdges {
  import opened Arithmetic
  import opened Flooding
  import opened PolygonRows

  // The row lies between the ends of the edge, the upper one counted in; or it is the
  // last one looked at and the edge ends there.
  predicate Meets(a: Point, b: Point, y: int, last: int) {
    (a.y <= y) != (b.y <= y) || (y == last && a.y != b.y && Max(a.y, b.y) == y)
  }

  // For the edge down from a to b, 2 * height times the column at which it meets row y.
  function Doubled(a: Point, b: Point, y: int): int {
    2 * (a.x * (b.y - a.y)) + 2 * ((y - a.y) * (b.x - a.x))
  }

  // It meets the row left of column x by more than half a column.  The first column takes
  // in what is less than one and a half columns left of it.
  predicate MeetsLeft(a: Point, b: Point, y: int, x: int) {
    var h := b.y - a.y;
    if x > 0 then Doubled(a, b, y) + h < 2 * h * x else Doubled(a, b, y) + 3 * h <= 0
  }

  // It meets the row in column x: less than half a column to its right, or at most half a
  // column to its left.
  predicate MeetsAt(a: Point, b: Point, y: int, x: int) {
    var h := b.y - a.y;
    && Doubled(a, b, y) < 2 * h * x + h
    && if x > 0 then 2 * h * x - h <= Doubled(a, b, y) else -3 * h < Doubled(a, b, y)
  }

  // The column of a crossing is the nearest one, the right one of two; left of the picture
  // it is the next one to the right.
  lemma ColumnIsNearest(a: Point, b: Point, y: int)
    requires a.y < b.y
    ensures var h, c, n := b.y - a.y, Column(a, b, y), Doubled(a, b, y) + (b.y - a.y);
            && (n >= 0 ==> c >= 0 && 2 * h * c <= n < 2 * h * c + 2 * h)
            && (n < 0 ==> c <= 0 && 2 * h * c - 2 * h < n <= 2 * h * c)
  {
    var h, k, w := b.y - a.y, y - a.y, b.x - a.x;
    var q := (k * w) as real / h as real + 0.5 + a.x as real;
    DoubledIs(h, k * w, a.x);
    TruncatedTimes(q, 2 * (k * w) + h + 2 * (a.x * h), 2 * h);
    hide Truncated;
  }

  lemma DoubledIs(h: int, n: int, x: int)
    requires h > 0
    ensures (n as real / h as real + 0.5 + x as real) * (2 * h) as real == (2 * n + h + 2 * (x * h)) as real
  {
    var q := n as real / h as real;
    assert q * h as real == n as real;
    assert (x * h) as real == x as real * h as real;
    assert (2 * h) as real == 2.0 * h as real;
  }

  // So for ends in the picture the crossing is within half a column of the edge, and in
  // the rows of the ends at the ends.
  lemma ColumnIsNear(a: Point, b: Point, y: int)
    requires a.y < b.y && a.y <= y <= b.y && a.x >= 0 && b.x >= 0
    ensures var h := b.y - a.y;
            2 * (h * (Column(a, b, y) - a.x)) <= 2 * ((y - a.y) * (b.x - a.x)) + h
            < 2 * (h * (Column(a, b, y) - a.x)) + 2 * h
    ensures y == a.y ==> Column(a, b, y) == a.x
    ensures y == b.y ==> Column(a, b, y) == b.x
  {
    var h, c, k, w := b.y - a.y, Column(a, b, y), y - a.y, b.x - a.x;
    ColumnIsNearest(a, b, y);
    hide Column;
    Scaled(k, h, w);
    NotNegative(a.x, b.x, h, k * w);
    Shifted(h, c, a.x, k * w);
    if y == a.y {
      NoWay(w);
      OnlyMultiple(h, c, a.x);
    }
    if y == b.y {
      WholeWay(a.x, b.x, h);
      OnlyMultiple(h, c, b.x);
    }
  }

  lemma NoWay(w: int)
    ensures 0 * w == 0
  {
  }

  lemma WholeWay(x: int, x': int, h: int)
    ensures x * h + h * (x' - x) == x' * h
  {
  }

  lemma Shifted(h: int, c: int, x: int, n: int)
    requires 2 * h * c <= 2 * (x * h) + 2 * n + h < 2 * h * c + 2 * h
    ensures 2 * (h * (c - x)) <= 2 * n + h < 2 * (h * (c - x)) + 2 * h
    ensures 2 * (h * c) <= 2 * (x * h) + 2 * n + h < 2 * (h * c) + 2 * h
  {
    assert 2 * h * c == 2 * (h * c) && h * (c - x) == h * c - x * h;
  }

  lemma NotNegative(x: nat, x': nat, h: nat, n: int)
    requires if x' >= x then 0 <= n else (x' - x) * h <= n
    ensures 0 <= x * h + n
  {
    assert x' >= x ==> x * h >= 0;
    assert (x' - x) * h == x' * h - x * h;
  }

  lemma OnlyMultiple(h: int, c: int, x: int)
    requires h > 0 && 2 * (h * c) <= 2 * (x * h) + h < 2 * (h * c) + 2 * h
    ensures c == x
  {
    assert x * h == h * x;
    Multiples(h, c, x);
    Multiples(h, x, c);
  }

  lemma ColumnByEdge(a: Point, b: Point, y: int, x: nat)
    requires a.y < b.y
    ensures Column(a, b, y) < x <==> MeetsLeft(a, b, y, x)
    ensures Column(a, b, y) == x <==> MeetsAt(a, b, y, x)
  {
    var h, c := b.y - a.y, Column(a, b, y);
    ColumnIsNearest(a, b, y);
    hide Column, Doubled;
    Multiples(2 * h, c, x);
    Multiples(2 * h, x, c);
    Multiples(2 * h, c, -1);
    Multiples(2 * h, -1, c);
  }

  // ----- the rule

  function Upper(a: Point, b: Point): Point {
    if a.y < b.y then a else b
  }

  function Lower(a: Point, b: Point): Point {
    if a.y < b.y then b else a
  }

  // Of the first n edges, how many meet the row left of p.
  ghost function EdgesLeft(ps: seq<Point>, last: int, p: Point, n: nat): nat
    requires n <= |ps|
  {
    if n == 0 then 0
    else
      var a, b := Before(ps, n - 1), ps[n - 1];
      EdgesLeft(ps, last, p, n - 1) +
      if Meets(a, b, p.y, last) && MeetsLeft(Upper(a, b), Lower(a, b), p.y, p.x) then 1 else 0
  }

  // One of them meets it at p.
  ghost predicate EdgeAt(ps: seq<Point>, last: int, p: Point, n: nat)
    requires n <= |ps|
  {
    exists i | 0 <= i < n ::
      Meets(Before(ps, i), ps[i], p.y, last) &&
      MeetsAt(Upper(Before(ps, i), ps[i]), Lower(Before(ps, i), ps[i]), p.y, p.x)
  }

  // p is on an edge, or an odd number of edges is on its left.
  ghost predicate InsideByEdges(ps: seq<Point>, last: int, p: Point) {
    EdgeAt(ps, last, p, |ps|) || EdgesLeft(ps, last, p, |ps|) % 2 == 1
  }

  lemma LeftOfAppend(s: seq<int>, c: int, x: int)
    ensures LeftOf(s + [c], x) == LeftOf(s, x) + if c < x then 1 else 0
  {
    assert (s + [c])[..|s|] == s;
  }

  lemma {:induction false} CrossingsByEdges(ps: seq<Point>, last: int, p: Point, n: nat)
    requires n <= |ps| && p.x >= 0
    ensures LeftOf(Crossings(ps, p.y, last, n), p.x) == EdgesLeft(ps, last, p, n)
    ensures p.x in Crossings(ps, p.y, last, n) <==> EdgeAt(ps, last, p, n)
  {
    hide Column, LeftOf, MeetsAt, MeetsLeft;
    if n == 0 {
      assert LeftOf([], p.x) == 0 by {
        NoneLeft(p.x);
      }
    } else {
      var a, b, s := Before(ps, n - 1), ps[n - 1], Crossings(ps, p.y, last, n - 1);
      CrossingsByEdges(ps, last, p, n - 1);
      CutsIff(a, b, p.y, last);
      if Cuts(a, b, p.y, last) {
        ColumnByEdge(Upper(a, b), Lower(a, b), p.y, p.x);
        LeftOfAppend(s, Crossing(a, b, p.y), p.x);
      }
      OneMoreEdge(ps, last, p, n);
    }
  }

  lemma NoneLeft(x: int)
    ensures LeftOf([], x) == 0
  {
  }

  lemma OneMoreEdge(ps: seq<Point>, last: int, p: Point, n: nat)
    requires 0 < n <= |ps|
    ensures var a, b := Before(ps, n - 1), ps[n - 1];
            EdgeAt(ps, last, p, n) <==>
            EdgeAt(ps, last, p, n - 1) ||
            (Meets(a, b, p.y, last) && MeetsAt(Upper(a, b), Lower(a, b), p.y, p.x))
  {
    hide MeetsAt, Meets, Before;
  }

  // What the crossings say is what the edges say.
  lemma InsideIsByEdges(ps: seq<Point>, last: int, p: Point)
    requires p.x >= 0
    ensures Inside(Crossings(ps, p.y, last, |ps|), p.x) <==> InsideByEdges(ps, last, p)
  {
    CrossingsByEdges(ps, last, p, |ps|);
  }
}
