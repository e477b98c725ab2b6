/** What the fills mean: where they may start, when they can be undone, and when a border fill misses points. */
module FloodLaws {
  import opened Reachability
  import opened Flooding
  import opened FloodFill

  // Inside one set, steps can be taken back.
  lemma TouchingIsMutual(w: set<Point>, p: Point, q: Point)
    ensures Reaches(Ways(w, w), p, q) <==> Reaches(Ways(w, w), q, p)
  {
    forall a, b
      ensures (a, b) in Flip(Ways(w, w)) <==> (a, b) in Ways(w, w)
    {
      assert (b, a) in Ways(w, w) <==> (a, b) in Ways(w, w);
      assert (a, b) in Flip(Ways(w, w)) <==> (b, a) in Ways(w, w);
    }
    assert Flip(Ways(w, w)) == Ways(w, w);
    FlipReaches(Ways(w, w), p, q);
  }

  // From every point of a patch, the same patch is filled.
  lemma AnyPointFillsThePatch(pic: Picture, start: Point, p: Point)
    requires start in pic && p in Patch(pic, start)
    ensures Patch(pic, p) == Patch(pic, start)
  {
    var area := Area(pic, pic[start]);
    TouchingIsMutual(area, start, p);
    forall q | q in area
      ensures q in Patch(pic, p) <==> q in Patch(pic, start)
    {
      if q in Patch(pic, p) {
        ReachesTrans(Ways(area, area), start, p, q);
      }
      if q in Patch(pic, start) {
        ReachesTrans(Ways(area, area), p, start, q);
      }
    }
  }

  // A covered point is reached without leaving what is covered.
  lemma ReachedInside(w: set<Point>, start: Point, p: Point)
    requires p in Covered(w, w, start)
    ensures Reaches(Ways(Covered(w, w, start), Covered(w, w, start)), start, p)
  {
    var all := Covered(w, w, start);
    var path :| Connects(Ways(w, w), path, start, p);
    var i := 0;
    assert start in w by {
      if |path| > 1 {
        assert (path[0], path[1]) in Ways(w, w);
      }
    }
    ReachesSelf(Ways(w, w), start);
    ReachesSelf(Ways(all, all), start);
    while i < |path| - 1
      invariant 0 <= i < |path| && path[i] in all && Reaches(Ways(all, all), start, path[i])
    {
      CoveredIsSettled(w, w, start, path[i], path[i + 1]);
      ReachesThenEdge(Ways(all, all), start, path[i], path[i + 1]);
      i := i + 1;
    }
  }

  predicate Touch(p: Point, q: Point) {
    SideBySide(p, q) || AboveOrBelow(p, q)
  }

  // Filling back with the old colour restores the picture exactly when the patch did
  // not touch a point of the new colour.
  lemma FillBackIff(pic: Picture, start: Point, color: int)
    requires start in pic && pic[start] != color
    ensures var pic' := Paint(pic, Patch(pic, start), color);
            Paint(pic', Patch(pic', start), pic[start]) == pic
            <==> forall p, q | p in Patch(pic, start) && q in pic && Touch(p, q) :: pic[q] != color
  {
    var patch := Patch(pic, start);
    var pic' := Paint(pic, patch, color);
    ReachesSelf(Ways(Area(pic, pic[start]), Area(pic, pic[start])), start);
    GrowsBack(pic, start, color);
    if forall p, q | p in patch && q in pic && Touch(p, q) :: pic[q] != color {
      StaysInside(pic, start, color);
      assert Patch(pic', start) == patch;
    } else {
      var p, q :| p in patch && q in pic && Touch(p, q) && pic[q] == color;
      var area' := Area(pic', color);
      CoveredIsSettled(area', area', start, p, q);
      assert Paint(pic', Patch(pic', start), pic[start])[q] == pic[start];
    }
  }

  lemma GrowsBack(pic: Picture, start: Point, color: int)
    requires start in pic && pic[start] != color
    ensures var area' := Area(Paint(pic, Patch(pic, start), color), color);
            Patch(pic, start) <= Covered(area', area', start)
  {
    var patch := Patch(pic, start);
    var area' := Area(Paint(pic, patch, color), color);
    forall p | p in patch
      ensures Reaches(Ways(area', area'), start, p)
    {
      ReachedInside(Area(pic, pic[start]), start, p);
      ReachesMore(Ways(patch, patch), Ways(area', area'), start, p);
    }
  }

  lemma StaysInside(pic: Picture, start: Point, color: int)
    requires start in pic && pic[start] != color && start in Patch(pic, start)
    requires forall p, q | p in Patch(pic, start) && q in pic && Touch(p, q) :: pic[q] != color
    ensures var area' := Area(Paint(pic, Patch(pic, start), color), color);
            Covered(area', area', start) <= Patch(pic, start)
  {
    var patch := Patch(pic, start);
    var area' := Area(Paint(pic, patch, color), color);
    forall p | p in Covered(area', area', start)
      ensures p in patch
    {
      ClosedHoldsReached(Ways(area', area'), patch, start, p);
    }
  }

  // The points that are joined to start without crossing the border.
  ghost function Region(pic: Picture, start: Point, border: int): set<Point> {
    Covered(Passable(pic, border), Passable(pic, border), start)
  }

  // A border fill never leaves the region.
  lemma BorderedInRegion(pic: Picture, start: Point, border: int, color: int)
    ensures Bordered(pic, start, border, color) <= Region(pic, start, border)
  {
    var wide, narrow := Passable(pic, border), Open(pic, border, color);
    forall p | p in Covered(wide, narrow, start)
      ensures p in Region(pic, start, border)
    {
      ReachesMore(Ways(wide, narrow), Ways(wide, wide), start, p);
    }
  }

  // It covers the whole region exactly when it comes to every point of the new colour
  // that it has above or below itself.
  lemma BorderedIsRegionIff(pic: Picture, start: Point, border: int, color: int)
    requires border >= 0
    ensures Bordered(pic, start, border, color) == Region(pic, start, border) <==>
              forall p, q | p in Bordered(pic, start, border, color) && q in Passable(pic, border)
                            && AboveOrBelow(p, q) ::
                pic[q] == color ==> q in Bordered(pic, start, border, color)
  {
    var wide, narrow, done := Passable(pic, border), Open(pic, border, color), Bordered(pic, start, border, color);
    BorderedInRegion(pic, start, border, color);
    if start !in wide {
      NothingCovered(wide, narrow, start);
      NothingCovered(wide, wide, start);
    } else if forall p, q | p in done && q in wide && AboveOrBelow(p, q) :: pic[q] == color ==> q in done {
      ReachesSelf(Ways(wide, narrow), start);
      forall p, q | p in done && (p, q) in Ways(wide, wide)
        ensures q in done
      {
        if (p, q) in Ways(wide, narrow) {
          CoveredIsSettled(wide, narrow, start, p, q);
        }
      }
      AllInside(Ways(wide, wide), wide, done, start);
    } else {
      var p, q :| p in done && q in wide && AboveOrBelow(p, q) && pic[q] == color && q !in done;
      CoveredIsSettled(wide, wide, start, p, q);
    }
  }

  lemma AllInside(es: Edges<Point>, wide: set<Point>, closed: set<Point>, start: Point)
    requires start in closed && forall p, q | p in closed && (p, q) in es :: q in closed
    ensures forall r | r in wide && Reaches(es, start, r) :: r in closed
  {
    forall r | Reaches(es, start, r)
      ensures r in closed
    {
      ClosedHoldsReached(es, closed, start, r);
    }
  }

  // In particular when the new colour does not yet occur in the region.
  lemma BorderedIsRegion(pic: Picture, start: Point, border: int, color: int)
    requires border >= 0 && forall p | p in Region(pic, start, border) :: pic[p] != color
    ensures Bordered(pic, start, border, color) == Region(pic, start, border)
  {
    var wide := Passable(pic, border);
    BorderedInRegion(pic, start, border, color);
    forall p, q | p in Bordered(pic, start, border, color) && q in wide && AboveOrBelow(p, q)
      ensures pic[q] != color
    {
      CoveredIsSettled(wide, wide, start, p, q);
    }
    BorderedIsRegionIff(pic, start, border, color);
  }

  // From everywhere it covers the whole region exactly when every point of the new
  // colour is come to from each point above or below it.
  lemma AlwaysRegionIff(pic: Picture, border: int, color: int)
    requires border >= 0
    ensures (forall start | start in pic :: Bordered(pic, start, border, color) == Region(pic, start, border)) <==>
              forall p, q | p in Passable(pic, border) && q in Passable(pic, border) && AboveOrBelow(p, q) ::
                pic[q] == color ==> q in Bordered(pic, p, border, color)
  {
    var wide, narrow := Passable(pic, border), Open(pic, border, color);
    if forall start | start in pic :: Bordered(pic, start, border, color) == Region(pic, start, border) {
      forall p, q | p in wide && q in wide && AboveOrBelow(p, q)
        ensures q in Bordered(pic, p, border, color)
      {
        ReachesEdge(Ways(wide, wide), p, q);
        assert q in Region(pic, p, border);
      }
    }
    if forall p, q | p in wide && q in wide && AboveOrBelow(p, q) ::
         pic[q] == color ==> q in Bordered(pic, p, border, color) {
      forall start | start in pic
        ensures Bordered(pic, start, border, color) == Region(pic, start, border)
      {
        forall p, q | p in Bordered(pic, start, border, color) && q in wide && AboveOrBelow(p, q) && pic[q] == color
          ensures q in Bordered(pic, start, border, color)
        {
          ReachesTrans(Ways(wide, narrow), start, p, q);
        }
        BorderedIsRegionIff(pic, start, border, color);
      }
    }
  }

  // What a border fill has not come to, and the points of it that it stops at.
  ghost function Missing(pic: Picture, start: Point, border: int, color: int): set<Point> {
    Passable(pic, border) - Bordered(pic, start, border, color)
  }

  ghost predicate StopsAt(pic: Picture, start: Point, border: int, color: int, q: Point) {
    && q in Missing(pic, start, border, color)
    && exists p :: p in Bordered(pic, start, border, color) && AboveOrBelow(p, q)
  }

  // What lies behind such a point.
  ghost function Behind(pic: Picture, start: Point, border: int, color: int, q: Point): set<Point> {
    Covered(Missing(pic, start, border, color), Missing(pic, start, border, color), q)
  }

  // The points of the region that are missed are those behind the points stopped at.
  lemma MissedIsBehind(pic: Picture, start: Point, border: int, color: int, r: Point)
    requires border >= 0
    ensures r in Region(pic, start, border) - Bordered(pic, start, border, color) <==>
              exists q :: StopsAt(pic, start, border, color, q) && r in Behind(pic, start, border, color, q)
  {
    if r in Region(pic, start, border) - Bordered(pic, start, border, color) {
      MissedHasStop(pic, start, border, color, r);
    }
    if q :| StopsAt(pic, start, border, color, q) && r in Behind(pic, start, border, color, q) {
      BehindIsMissed(pic, start, border, color, q, r);
    }
  }

  lemma MissedHasStop(pic: Picture, start: Point, border: int, color: int, r: Point)
    requires border >= 0 && r in Region(pic, start, border) - Bordered(pic, start, border, color)
    ensures exists q :: StopsAt(pic, start, border, color, q) && r in Behind(pic, start, border, color, q)
  {
    var wide, narrow, done := Passable(pic, border), Open(pic, border, color), Bordered(pic, start, border, color);
    var rest := wide - done;
    var found := set p | p in rest && exists q ::
        StopsAt(pic, start, border, color, q) && p in Behind(pic, start, border, color, q);
    if start !in wide {
      NothingCovered(wide, wide, start);
    }
    ReachesSelf(Ways(wide, narrow), start);
    forall p, t | p in done + found && (p, t) in Ways(wide, wide)
      ensures t in done + found
    {
      if t !in done {
        if p in done {
          if (p, t) in Ways(wide, narrow) {
            CoveredIsSettled(wide, narrow, start, p, t);
          }
          ReachesSelf(Ways(rest, rest), t);
          assert StopsAt(pic, start, border, color, t) && t in Behind(pic, start, border, color, t);
        } else {
          var q :| StopsAt(pic, start, border, color, q) && p in Behind(pic, start, border, color, q);
          CoveredIsSettled(rest, rest, q, p, t);
        }
      }
    }
    ClosedHoldsReached(Ways(wide, wide), done + found, start, r);
  }

  lemma BehindIsMissed(pic: Picture, start: Point, border: int, color: int, q: Point, r: Point)
    requires border >= 0 && StopsAt(pic, start, border, color, q) && r in Behind(pic, start, border, color, q)
    ensures r in Region(pic, start, border) - Bordered(pic, start, border, color)
  {
    var wide := Passable(pic, border);
    var rest := Missing(pic, start, border, color);
    var p :| p in Bordered(pic, start, border, color) && AboveOrBelow(p, q);
    BorderedInRegion(pic, start, border, color);
    CoveredIsSettled(wide, wide, start, p, q);
    ReachesMore(Ways(rest, rest), Ways(wide, wide), q, r);
    ReachesTrans(Ways(wide, wide), start, q, r);
  }

  // So the picture is the one with the whole region filled exactly when nothing but
  // the new colour lies behind the points where the fill stops.
  lemma SamePictureIff(pic: Picture, start: Point, border: int, color: int)
    requires border >= 0
    ensures Paint(pic, Bordered(pic, start, border, color), color) == Paint(pic, Region(pic, start, border), color) <==>
              forall q, r | StopsAt(pic, start, border, color, q) && r in Behind(pic, start, border, color, q) ::
                  pic[r] == color
  {
    var done, region := Bordered(pic, start, border, color), Region(pic, start, border);
    BorderedInRegion(pic, start, border, color);
    forall r {
      MissedIsBehind(pic, start, border, color, r);
    }
    if forall r | r in region - done :: pic[r] == color {
      assert Paint(pic, done, color) == Paint(pic, region, color);
    } else {
      var r :| r in region - done && pic[r] != color;
      assert Paint(pic, done, color)[r] != Paint(pic, region, color)[r];
    }
  }

  // A point of the new colour can hide the rest of the region: of three points above
  // each other, filled from the top, the lowest is missed behind such a point.
  lemma BorderFillMisses(border: nat, color: nat, other: nat)
    requires border != color && border != other && color != other
    ensures var pic := map[Point(0, 0) := other, Point(0, 1) := color, Point(0, 2) := other];
            Point(0, 2) in Region(pic, Point(0, 0), border) - Bordered(pic, Point(0, 0), border, color)
  {
    var pic := map[Point(0, 0) := other, Point(0, 1) := color, Point(0, 2) := other];
    var wide, narrow := Passable(pic, border), Open(pic, border, color);
    ReachesEdge(Ways(wide, wide), Point(0, 0), Point(0, 1));
    ReachesThenEdge(Ways(wide, wide), Point(0, 0), Point(0, 1), Point(0, 2));
    if Point(0, 2) in Covered(wide, narrow, Point(0, 0)) {
      ClosedHoldsReached(Ways(wide, narrow), {Point(0, 0)}, Point(0, 0), Point(0, 2));
    }
  }

  // ----- fills from the right

  // The last column has the colour 0 in a row.
  predicate EndsOpen(pic: Picture, sx: nat, row: int) {
    Point(sx - 1, row) in pic && pic[Point(sx - 1, row)] == 0
  }

  // A fill from the right up to the first fill that it begins.  Where the row does not end
  // with the colour 0 it has painted nothing, and begins one in the next row, right of
  // the picture again.
  method FirstCall(im: Image, x: int, y: int, color: nat) returns (called: bool, call: Point)
    requires im.Valid() && x >= im.sx && 0 <= y < im.sy && color != 0
    modifies im.pixels
    ensures im.Pixels() == old(im.Pixels()) <==> !EndsOpen(old(im.Pixels()), im.sx, y)
    ensures !EndsOpen(old(im.Pixels()), im.sx, y) && im.sy > 1 ==> called && call == Point(im.sx, NextRow(y))
  {
    hide Image.Pixels;
    ghost var pic := im.Pixels();
    var was := im.GetPixel(x, y);
    var left := -1;
    var i := x;
    while i >= 0
      invariant i <= x && left == if i == x then -1 else i + 1
      invariant i >= im.sx - 1 ==> im.Pixels() == pic
      invariant i < im.sx - 1 ==> EndsOpen(pic, im.sx, y) && Point(im.sx - 1, y) in im.Pixels()
                                  && im.Pixels()[Point(im.sx - 1, y)] == color
    {
      if im.GetPixel(i, y) != was {
        break;
      }
      im.SetPixel(i, y, color);
      left := i;
      i := i - 1;
    }
    called, call := false, Point(0, 0);
    if y > 0 {
      called, call := FirstProbe(im, left, x, y - 1, was);
    }
    if !called && y < im.sy - 1 {
      called, call := FirstProbe(im, left, x, y + 1, was);
    }
  }

  // Looks along a row for the first point of a colour.
  method FirstProbe(im: Image, left: int, right: int, row: int, was: int) returns (called: bool, call: Point)
    requires im.Valid() && left <= right
    ensures im.GetPixel(left, row) == was ==> called && call == Point(left, row)
  {
    var i := left;
    while i <= right
      invariant left <= i && (i > left ==> im.GetPixel(left, row) != was)
    {
      if im.GetPixel(i, row) == was {
        return true, Point(i, row);
      }
      i := i + 1;
    }
    return false, Point(0, 0);
  }

  function NextRow(y: nat): nat {
    if y > 0 then y - 1 else y + 1
  }

  // The row of the n-th fill that is begun, each by the one before.
  function NthRow(y: nat, n: nat): nat {
    if n == 0 then y else NextRow(NthRow(y, n - 1))
  }

  // These are the rows up to the start, and the first two again and again.
  lemma {:induction false} NthRowIs(y: nat, n: nat)
    ensures NthRow(y, n) == if n <= y then y - n else (n - y) % 2
  {
    if n > 0 {
      NthRowIs(y, n - 1);
    }
  }

  ghost predicate NeverPaints(pic: Picture, sx: nat, y: nat) {
    forall n: nat :: !EndsOpen(pic, sx, NthRow(y, n))
  }

  ghost predicate NoneEndsOpen(pic: Picture, sx: nat, y: nat) {
    forall row: nat | row <= y || row == 1 :: !EndsOpen(pic, sx, row)
  }

  // So the fill never ends and never paints, going to and fro between the first two rows,
  // exactly when neither these nor the other rows up to its start end with the colour 0.
  lemma ToAndFroIff(pic: Picture, sx: nat, y: nat)
    ensures NeverPaints(pic, sx, y) <==> NoneEndsOpen(pic, sx, y)
  {
    if NoneEndsOpen(pic, sx, y) {
      forall n: nat
        ensures !EndsOpen(pic, sx, NthRow(y, n))
      {
        NthRowIs(y, n);
      }
    }
    if NeverPaints(pic, sx, y) {
      forall row: nat | row <= y || row == 1
        ensures !EndsOpen(pic, sx, row)
      {
        var n := if row <= y then y - row else y + 1;
        NthRowIs(y, n);
        assert NthRow(y, n) == row;
      }
    }
  }
}
