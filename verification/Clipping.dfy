/** Cutting a line off at the edges of a picture: first left and right, then above and below. */
module Clipping {
  import opened Arithmetic

  datatype Clipped = Missed | Ends(x0: int, y0: int, x1: int, y1: int)

  // A height after k more steps along a line that rises by w in h steps, without its
  // fraction.
  function Moved(y: int, w: int, k: int, h: int): int
    requires h != 0
  {
    Truncated(y as real + (k * w) as real / h as real)
  }

  // What lies between lo and hi of the line from (x0, y0) to (x1, y1).
  function Clip1d(x0: int, y0: int, x1: int, y1: int, lo: int, hi: int): Clipped {
    var w, h := y1 - y0, x1 - x0;
    if x0 < lo then
      if x1 < lo then Missed
      else if x1 > hi then Ends(lo, Moved(y0, w, lo - x0, h), hi, Moved(y1, w, hi - x1, h))
      else Ends(lo, Moved(y0, w, lo - x0, h), x1, y1)
    else if x0 > hi then
      if x1 > hi then Missed
      else if x1 < lo then Ends(hi, Moved(y0, w, hi - x0, h), lo, Moved(y1, w, lo - x1, h))
      else Ends(hi, Moved(y0, w, hi - x0, h), x1, y1)
    else if x1 > hi then Ends(x0, y0, hi, Moved(y1, w, hi - x1, h))
    else if x1 < lo then Ends(x0, y0, lo, Moved(y1, w, lo - x1, h))
    else Ends(x0, y0, x1, y1)
  }

  // Both cuts, for a picture of sx columns and sy rows.
  function Clip(sx: nat, sy: nat, x0: int, y0: int, x1: int, y1: int): Clipped {
    match Clip1d(x0, y0, x1, y1, 0, sx - 1)
    case Missed => Missed
    case Ends(a, b, c, d) =>
      match Clip1d(b, a, d, c, 0, sy - 1)
      case Missed => Missed
      case Ends(b', a', d', c') => Ends(a', b', c', d')
  }

  predicate InBox(sx: nat, sy: nat, x: int, y: int) {
    0 <= x < sx && 0 <= y < sy
  }

  // A line inside the picture is left as it is.
  lemma InsideStays(sx: nat, sy: nat, x0: int, y0: int, x1: int, y1: int)
    requires InBox(sx, sy, x0, y0) && InBox(sx, sy, x1, y1)
    ensures Clip(sx, sy, x0, y0, x1, y1) == Ends(x0, y0, x1, y1)
  {
  }

  // ----- a cut is between the ends

  predicate IsBetween(a: int, c: int, b: int) {
    a <= c <= b || b <= c <= a
  }

  // The height at c of the line, reckoned from its first point, or from its second.
  function HeightFrom(x: int, y: int, w: int, h: int, c: int): real
    requires h != 0
  {
    y as real + ((c - x) * w) as real / h as real
  }

  lemma MovedIs(x: int, y: int, w: int, h: int, c: int)
    requires h != 0
    ensures Moved(y, w, c - x, h) == Truncated(HeightFrom(x, y, w, h, c))
  {
  }

  lemma SameFromBothEnds(x0: int, y0: int, x1: int, y1: int, c: int)
    requires x0 != x1
    ensures HeightFrom(x1, y1, y1 - y0, x1 - x0, c) == HeightFrom(x0, y0, y1 - y0, x1 - x0, c)
    ensures HeightFrom(x1, y1, y0 - y1, x0 - x1, c) == HeightFrom(x0, y0, y1 - y0, x1 - x0, c)
  {
    var w, h := y1 - y0, x1 - x0;
    assert (c - x0) * w == (c - x1) * w + h * w;
    assert (h * w) as real / h as real == w as real;
    assert (c - x1) * -w == -((c - x1) * w);
    assert (-((c - x1) * w)) as real / (-h) as real == ((c - x1) * w) as real / h as real;
  }

  // Between two places where the line is, it is between the heights there.
  lemma HeightIsBetween(x0: int, y0: int, x1: int, y1: int, c: int)
    requires x0 < x1 && x0 <= c <= x1
    ensures Min(y0, y1) as real <= HeightFrom(x0, y0, y1 - y0, x1 - x0, c) <= Max(y0, y1) as real
  {
    var k, h, w := c - x0, x1 - x0, y1 - y0;
    var q := (k * w) as real / h as real;
    assert q * h as real == (k * w) as real;
    Scaled(k, h, w);
    Ratio(q, h, k * w, Min(w, 0), Max(w, 0));
  }

  lemma CutIsBetween(x0: int, y0: int, x1: int, y1: int, c: int)
    requires x0 != x1 && IsBetween(x0, c, x1)
    ensures IsBetween(y0, Moved(y0, y1 - y0, c - x0, x1 - x0), y1)
    ensures IsBetween(y0, Moved(y1, y1 - y0, c - x1, x1 - x0), y1)
  {
    MovedIs(x0, y0, y1 - y0, x1 - x0, c);
    MovedIs(x1, y1, y1 - y0, x1 - x0, c);
    SameFromBothEnds(x0, y0, x1, y1, c);
    if x0 < x1 {
      HeightIsBetween(x0, y0, x1, y1, c);
    } else {
      HeightIsBetween(x1, y1, x0, y0, c);
    }
    TruncatedBetween(HeightFrom(x0, y0, y1 - y0, x1 - x0, c), Min(y0, y1), Max(y0, y1));
  }

  lemma Clip1dIsBetween(x0: int, y0: int, x1: int, y1: int, lo: int, hi: int)
    requires lo <= hi
    ensures var e := Clip1d(x0, y0, x1, y1, lo, hi);
            e.Ends? ==> lo <= e.x0 <= hi && lo <= e.x1 <= hi && IsBetween(y0, e.y0, y1) && IsBetween(y0, e.y1, y1)
  {
    hide Moved;
    if x0 != x1 {
      if IsBetween(x0, lo, x1) {
        CutIsBetween(x0, y0, x1, y1, lo);
      }
      if IsBetween(x0, hi, x1) {
        CutIsBetween(x0, y0, x1, y1, hi);
      }
    }
  }

  // What is left of a line lies in the picture.
  lemma ClippedIsInside(sx: nat, sy: nat, x0: int, y0: int, x1: int, y1: int)
    requires sx > 0 && sy > 0
    ensures var e := Clip(sx, sy, x0, y0, x1, y1);
            e.Ends? ==> InBox(sx, sy, e.x0, e.y0) && InBox(sx, sy, e.x1, e.y1)
  {
    hide Clip1d;
    Clip1dIsBetween(x0, y0, x1, y1, 0, sx - 1);
    var e := Clip1d(x0, y0, x1, y1, 0, sx - 1);
    if e.Ends? {
      Clip1dIsBetween(e.y0, e.x0, e.y1, e.x1, 0, sy - 1);
    }
  }

  // ----- what is in the picture is not missed

  // A point with whole coordinates on the line.
  predicate OnLine(x0: int, y0: int, x1: int, y1: int, x: int, y: int) {
    IsBetween(x0, x, x1) && IsBetween(y0, y, y1) && (y - y0) * (x1 - x0) == (x - x0) * (y1 - y0)
  }

  lemma OnLineReversed(x0: int, y0: int, x1: int, y1: int, x: int, y: int)
    requires OnLine(x0, y0, x1, y1, x, y)
    ensures OnLine(x1, y1, x0, y0, x, y)
  {
    var w, h := y1 - y0, x1 - x0;
    assert (y - y1) * (x0 - x1) == h * w - (y - y0) * h;
    assert (x - x1) * (y0 - y1) == h * w - (x - x0) * w;
  }

  lemma MovedReversed(y: int, w: int, k: int, h: int)
    requires h != 0
    ensures Moved(y, w, k, h) == Moved(y, -w, k, -h)
  {
    assert k * -w == -(k * w);
    assert (-(k * w)) as real / (-h) as real == (k * w) as real / h as real;
  }

  lemma SameQuotient(a: int, b: int, c: int, d: int)
    requires b != 0 && d != 0 && a * d == c * b
    ensures a as real / b as real == c as real / d as real
  {
    var q := a as real / b as real;
    assert q * b as real == a as real;
    assert (a * d) as real == a as real * d as real && (c * b) as real == c as real * b as real;
    assert (q * d as real) * b as real == c as real * b as real;
    assert q * d as real == c as real;
  }

  // A cut between the first end and a point of the line is not past the point.
  lemma CutIsBefore(x0: int, y0: int, x1: int, y1: int, x: int, y: int, c: int)
    requires OnLine(x0, y0, x1, y1, x, y) && x0 != x && IsBetween(x0, c, x)
    ensures IsBetween(y0, Moved(y0, y1 - y0, c - x0, x1 - x0), y)
  {
    hide Moved;
    CutIsBetween(x0, y0, x, y, c);
    SameSlope(y0, y - y0, x - x0, y1 - y0, x1 - x0, c - x0);
  }

  lemma SameSlope(y: int, w: int, h: int, w': int, h': int, k: int)
    requires h != 0 && h' != 0 && w * h' == h * w'
    ensures Moved(y, w, k, h) == Moved(y, w', k, h')
  {
    Regrouped(k, w, h');
    Regrouped(k, w', h);
    SameQuotient(k * w, h, k * w', h');
  }

  lemma Regrouped(a: int, b: int, c: int)
    ensures (a * b) * c == a * (b * c) == a * (c * b)
  {
  }

  lemma CutIsBehind(x0: int, y0: int, x1: int, y1: int, x: int, y: int, c: int)
    requires OnLine(x0, y0, x1, y1, x, y) && x1 != x && IsBetween(x1, c, x)
    ensures IsBetween(y1, Moved(y1, y1 - y0, c - x1, x1 - x0), y)
  {
    OnLineReversed(x0, y0, x1, y1, x, y);
    CutIsBefore(x1, y1, x0, y0, x, y, c);
    MovedReversed(y1, y1 - y0, c - x1, x1 - x0);
  }

  lemma CutKeepsPoint(x0: int, y0: int, x1: int, y1: int, lo: int, hi: int, x: int, y: int)
    requires OnLine(x0, y0, x1, y1, x, y) && lo <= x <= hi
    ensures var e := Clip1d(x0, y0, x1, y1, lo, hi); e.Ends? && IsBetween(e.y0, y, e.y1)
  {
    hide Moved;
    if x0 < lo {
      CutIsBefore(x0, y0, x1, y1, x, y, lo);
    } else if x0 > hi {
      CutIsBefore(x0, y0, x1, y1, x, y, hi);
    }
    if x1 < lo {
      CutIsBehind(x0, y0, x1, y1, x, y, lo);
    } else if x1 > hi {
      CutIsBehind(x0, y0, x1, y1, x, y, hi);
    }
  }

  // A line that goes through a point of the picture is not missed.
  lemma TouchingIsNotMissed(sx: nat, sy: nat, x0: int, y0: int, x1: int, y1: int, x: int, y: int)
    requires OnLine(x0, y0, x1, y1, x, y) && InBox(sx, sy, x, y)
    ensures Clip(sx, sy, x0, y0, x1, y1).Ends?
  {
    CutKeepsPoint(x0, y0, x1, y1, 0, sx - 1, x, y);
  }

  // ----- level lines

  function Clamped(x: int, lo: int, hi: int): int {
    if x < lo then lo else if x > hi then hi else x
  }

  lemma MovedLevel(y: int, k: int, h: int)
    requires h != 0
    ensures Moved(y, 0, k, h) == y
  {
    assert (k * 0) as real / h as real == 0.0;
  }

  // A level line is cut off exactly.
  lemma LevelIsClamped(sx: nat, sy: nat, x0: int, x1: int, y: int)
    requires sx > 0
    ensures Clip(sx, sy, x0, y, x1, y) ==
            if Max(x0, x1) < 0 || Min(x0, x1) >= sx || y < 0 || y >= sy then Missed
            else Ends(Clamped(x0, 0, sx - 1), y, Clamped(x1, 0, sx - 1), y)
  {
    forall k: int, h: int | h != 0
      ensures Moved(y, 0, k, h) == y
    {
      MovedLevel(y, k, h);
    }
    hide Moved;
  }
}
