/** Filling a polygon row by row: collecting the crossings, sorting them in place, and drawing between pairs. */
module FilledPolygon {
  import opened Arithmetic
  import opened Flooding
  import opened FloodFill
  import opened Lines
  import opened Clipping
  import opened ClipLaws
  import opened PolygonRows
  import PolygonEdges
  import opened Sequences

  // ----- collecting and sorting the crossings of a row

  method Collect(ps: seq<Point>, y: int, maxy: int, buf: array<int>) returns (ints: nat)
    requires |ps| <= buf.Length
    modifies buf
    ensures ints <= |ps| && buf[..ints] == Crossings(ps, y, maxy, |ps|)
  {
    hide Truncated;
    ints := 0;
    var i := 0;
    while i < |ps|
      invariant 0 <= i <= |ps| && ints <= i && buf[..ints] == Crossings(ps, y, maxy, i)
    {
      var a, b := Before(ps, i), ps[i];
      if a.y != b.y {
        var lo, hi := if a.y < b.y then a else b, if a.y < b.y then b else a;
        if y >= lo.y && y < hi.y {
          buf[ints] := Column(lo, hi, y);
          ints := ints + 1;
        } else if y == maxy && y > lo.y && y <= hi.y {
          buf[ints] := Column(lo, hi, y);
          ints := ints + 1;
        }
      }
      i := i + 1;
    }
  }

  // Moves the elements before i that are greater than the one at i up by one, and
  // finds the place that is then free for it.
  method ShiftUp(buf: array<int>, i: nat) returns (j: nat)
    requires i < buf.Length
    modifies buf
    ensures j <= i && (j > 0 ==> buf[j - 1] <= old(buf[i])) && (j < i ==> old(buf[i]) < old(buf[j]))
    ensures forall k | 0 <= k < j || i < k < buf.Length :: buf[k] == old(buf[k])
    ensures forall k | j < k <= i :: buf[k] == old(buf[k - 1])
  {
    var index := buf[i];
    j := i;
    while j > 0 && buf[j - 1] > index
      invariant j <= i && (j < i ==> index < old(buf[j]))
      invariant forall k | 0 <= k < j || i < k < buf.Length :: buf[k] == old(buf[k])
      invariant forall k | j < k <= i :: buf[k] == old(buf[k - 1])
    {
      buf[j] := buf[j - 1];
      j := j - 1;
    }
  }

  // Moves the element at i down to a place j where it fits, among those before it.
  method SinkDown(buf: array<int>, i: nat) returns (ghost j: nat)
    requires i < buf.Length
    modifies buf
    ensures Fits(old(buf[..i]), old(buf[i]), j) && buf[..i + 1] == PutAt(old(buf[..i]), old(buf[i]), j)
    ensures forall k | i < k < buf.Length :: buf[k] == old(buf[k])
  {
    var index := buf[i];
    var place := ShiftUp(buf, i);
    buf[place] := index;
    j := place;
  }

  function PutAt(s: seq<int>, x: int, j: nat): seq<int>
    requires j <= |s|
  {
    s[..j] + [x] + s[j..]
  }

  predicate Fits(s: seq<int>, x: int, j: nat) {
    j <= |s| && (j > 0 ==> s[j - 1] <= x) && (j < |s| ==> x <= s[j])
  }

  lemma PutInPlace(s: seq<int>, x: int, j: nat)
    requires Sorted(s) && Fits(s, x, j)
    ensures Sorted(PutAt(s, x, j)) && multiset(PutAt(s, x, j)) == multiset(s) + multiset{x}
  {
    FitsInPlace(s, x, j);
    PutIn(s, j, x);
    hide Sorted;
  }

  lemma FitsInPlace(s: seq<int>, x: int, j: nat)
    requires Sorted(s) && Fits(s, x, j)
    ensures Sorted(PutAt(s, x, j))
  {
  }

  method SortRow(buf: array<int>, ints: nat)
    requires ints <= buf.Length
    modifies buf
    ensures Sorted(buf[..ints]) && multiset(buf[..ints]) == multiset(old(buf[..ints]))
  {
    if ints == 0 {
      return;
    }
    ghost var s := buf[..ints];
    assert Sorted(buf[..1]) && buf[..1] == s[..1];
    hide Sorted, Fits, PutAt;
    var i := 1;
    while i < ints
      invariant 1 <= i <= ints && Sorted(buf[..i]) && multiset(buf[..i]) == multiset(s[..i])
      invariant forall k | i <= k < ints :: buf[k] == s[k]
    {
      OneMore(s, i);
      ghost var r := buf[..i];
      ghost var j := SinkDown(buf, i);
      PutInPlace(r, s[i], j);
      i := i + 1;
    }
    OneMore(s, i);
  }

  lemma OneMore(s: seq<int>, i: nat)
    requires i <= |s|
    ensures i < |s| ==> multiset(s[..i + 1]) == multiset(s[..i]) + multiset{s[i]}
    ensures i == |s| ==> s[..i] == s
  {
    if i < |s| {
      assert s[..i + 1] == s[..i] + [s[i]];
    }
  }

  // ----- drawing a row

  ghost function RowOf(pic: Picture, s: seq<int>, y: int): set<Point>
    requires |s| % 2 == 0
  {
    set p | p in pic && p.y == y && Between(s, p.x)
  }

  lemma RowGrows(pic: Picture, s: seq<int>, y: int, a: int, b: int, c: int)
    requires |s| % 2 == 0
    ensures Paint(pic, RowOf(pic, s + [a, b], y), c) == Paint(pic, RowOf(pic, s, y) + Span(a, b, y), c)
  {
    forall p | p in pic && p.y == y
      ensures Between(s + [a, b], p.x) <==> Between(s, p.x) || a <= p.x <= b
    {
      BetweenPair(s + [a, b], p.x);
      assert (s + [a, b])[..|s|] == s;
    }
  }

  lemma LevelPaints(pic: Picture, sx: nat, sy: nat, a: int, b: int, y: int, c: int)
    requires a <= b && 0 <= y < sy && forall p | p in pic :: InBox(sx, sy, p.x, p.y)
    ensures Paint(pic, Drawn(sx, sy, a, y, b, y), c) == Paint(pic, Span(a, b, y), c)
  {
    forall p | p in pic {
      LevelIsDrawn(sx, sy, a, b, y, p);
    }
  }

  // Draws between the pairs, as far as they are in the picture.
  method DrawRow(im: Image, s: seq<int>, y: int, c: nat)
    requires im.Valid() && 0 <= y < im.sy && Sorted(s) && |s| % 2 == 0
    modifies im.pixels
    ensures im.Pixels() == Paint(old(im.Pixels()), RowOf(old(im.Pixels()), s, y), c)
  {
    hide Between, Drawn, RowOf, Paint, Span, Image.Pixels;
    ghost var pic := im.Pixels();
    RowOfNone(pic, y, c);
    var i := 0;
    while i < |s|
      invariant 0 <= i <= |s| && i % 2 == 0
      invariant im.Pixels() == Paint(pic, RowOf(pic, s[..i], y), c)
    {
      ghost var pic' := im.Pixels();
      Line(im, s[i], y, s[i + 1], y, c);
      LevelPaints(pic', im.sx, im.sy, s[i], s[i + 1], y, c);
      PaintMore(pic, RowOf(pic, s[..i], y), Span(s[i], s[i + 1], y), c);
      RowGrows(pic, s[..i], y, s[i], s[i + 1], c);
      assert s[..i] + [s[i], s[i + 1]] == s[..i + 2];
      i := i + 2;
    }
    assert s[..i] == s;
  }

  lemma RowOfNone(pic: Picture, y: int, c: int)
    ensures Paint(pic, RowOf(pic, [], y), c) == pic
  {
  }

  // ----- the polygon

  function MaxY(ps: seq<Point>): int
    requires ps != []
  {
    if |ps| == 1 then ps[0].y
    else
      var m := MaxY(ps[..|ps| - 1]);
      if ps[|ps| - 1].y > m then ps[|ps| - 1].y else m
  }

  lemma {:induction false} MaxYIsMax(ps: seq<Point>)
    requires ps != []
    ensures (forall p | p in ps :: p.y <= MaxY(ps)) && exists p :: p in ps && p.y == MaxY(ps)
  {
    if |ps| == 1 {
      assert ps == [ps[0]];
    } else {
      MaxYIsMax(ps[..|ps| - 1]);
      assert ps == ps[..|ps| - 1] + [ps[|ps| - 1]];
      assert ps[|ps| - 1] in ps;
    }
  }

  // The last row that is looked at.
  function LastRow(ps: seq<Point>, sy: nat): int
    requires ps != []
  {
    Min(MaxY(ps), sy - 1)
  }

  // The points of a polygon in a picture of sy rows, by the even-odd rule for the
  // crossings of each row.
  ghost function PolygonOf(pic: Picture, sy: nat, ps: seq<Point>): set<Point> {
    set p | p in pic && InPolygon(ps, sy, p)
  }

  ghost predicate InPolygon(ps: seq<Point>, sy: nat, p: Point) {
    ps != [] && PolygonRows.Inside(Crossings(ps, p.y, LastRow(ps, sy), |ps|), p.x)
  }

  // The same by the edges of the polygon.
  ghost function PolygonByEdges(pic: Picture, last: int, ps: seq<Point>): set<Point> {
    set p | p in pic && PolygonEdges.InsideByEdges(ps, last, p)
  }

  lemma SamePolygon(pic: Picture, sy: nat, ps: seq<Point>)
    requires ps != [] && forall p | p in pic :: p.x >= 0
    ensures PolygonOf(pic, sy, ps) == PolygonByEdges(pic, LastRow(ps, sy), ps)
  {
    forall p | p in pic
      ensures InPolygon(ps, sy, p) <==> PolygonEdges.InsideByEdges(ps, LastRow(ps, sy), p)
    {
      PolygonEdges.InsideIsByEdges(ps, LastRow(ps, sy), p);
    }
  }

  // A polygon that is cut off below has evenly many edges that end on the last row of
  // the picture, so that its crossings there come in pairs.
  predicate Paired(ps: seq<Point>, sy: nat) {
    ps == [] || MaxY(ps) < sy || EndsOn(ps, sy - 1, |ps|) % 2 == 0
  }

  lemma PairedIsEven(ps: seq<Point>, sy: nat, y: int)
    requires ps != [] && Paired(ps, sy)
    ensures |Crossings(ps, y, LastRow(ps, sy), |ps|)| % 2 == 0
  {
    if MaxY(ps) < sy {
      MaxYIsMax(ps);
      CrossingsAreEven(ps, y, MaxY(ps));
    } else {
      CrossingsAreEvenIff(ps, y, sy - 1);
    }
  }

  // No edge crosses a row above or below all corners.
  lemma {:induction false} NoCrossings(ps: seq<Point>, y: int, maxy: int, n: nat)
    requires n <= |ps| && ((forall p | p in ps :: y < p.y) || (y > maxy && forall p | p in ps :: p.y <= maxy))
    ensures Crossings(ps, y, maxy, n) == []
  {
    if n > 0 {
      NoCrossings(ps, y, maxy, n - 1);
    }
  }

  // The part of the polygon above row y.
  ghost function UpTo(pic: Picture, sy: nat, ps: seq<Point>, y: int): set<Point> {
    set p | p in PolygonOf(pic, sy, ps) && p.y < y
  }

  lemma UpToNext(pic: Picture, sy: nat, ps: seq<Point>, y: int, s: seq<int>)
    requires ps != [] && |s| % 2 == 0 && Sorted(s)
    requires multiset(s) == multiset(Crossings(ps, y, LastRow(ps, sy), |ps|))
    ensures UpTo(pic, sy, ps, y + 1) == UpTo(pic, sy, ps, y) + RowOf(pic, s, y)
  {
    forall x: int
      ensures Between(s, x) <==> PolygonRows.Inside(Crossings(ps, y, LastRow(ps, sy), |ps|), x)
    {
      BetweenIsInside(s, x);
      InsideIsOrderless(s, Crossings(ps, y, LastRow(ps, sy), |ps|), x);
    }
  }

  // Nothing of the polygon is in the picture above its first row.
  lemma FirstRow(pic: Picture, sy: nat, ps: seq<Point>, miny: int)
    requires ps != [] && miny >= 0 && (miny > 0 ==> forall p | p in ps :: miny <= p.y)
    requires forall p | p in pic :: 0 <= p.y < sy
    ensures UpTo(pic, sy, ps, miny) == {}
  {
    forall p | p in pic && p.y < miny
      ensures Crossings(ps, p.y, LastRow(ps, sy), |ps|) == []
    {
      NoCrossings(ps, p.y, LastRow(ps, sy), |ps|);
    }
  }

  // Nothing of it is in the picture below its last row.
  lemma BehindLastRow(pic: Picture, sy: nat, ps: seq<Point>, y: int)
    requires ps != [] && y > LastRow(ps, sy) && forall p | p in pic :: 0 <= p.y < sy
    ensures UpTo(pic, sy, ps, y) == PolygonOf(pic, sy, ps)
  {
    MaxYIsMax(ps);
    forall p | p in pic && p.y > LastRow(ps, sy)
      ensures Crossings(ps, p.y, LastRow(ps, sy), |ps|) == []
    {
      NoCrossings(ps, p.y, LastRow(ps, sy), |ps|);
    }
  }

  method FindRows(ps: seq<Point>) returns (miny: int, maxy: int)
    requires ps != []
    ensures maxy == MaxY(ps) && forall p | p in ps :: miny <= p.y <= maxy
    ensures (exists p :: p in ps && p.y == miny) && exists p :: p in ps && p.y == maxy
  {
    miny, maxy := ps[0].y, ps[0].y;
    var i := 1;
    while i < |ps|
      invariant 1 <= i <= |ps| && maxy == MaxY(ps[..i])
      invariant forall j | 0 <= j < i :: miny <= ps[j].y
      invariant exists p :: p in ps && p.y == miny
    {
      assert ps[..i + 1][..i] == ps[..i];
      if ps[i].y < miny {
        miny := ps[i].y;
      }
      if ps[i].y > maxy {
        maxy := ps[i].y;
      }
      i := i + 1;
    }
    assert ps[..i] == ps;
    MaxYIsMax(ps);
  }

  // Fills a polygon, as far as it is in the picture.
  method Fill(im: Image, ps: seq<Point>, buf: array<int>, c: nat)
    requires im.Valid() && |ps| <= buf.Length && Paired(ps, im.sy)
    modifies im.pixels, buf
    ensures im.Pixels() == Paint(old(im.Pixels()), PolygonOf(old(im.Pixels()), im.sy, ps), c)
    ensures ps != [] ==>
              im.Pixels() == Paint(old(im.Pixels()), PolygonByEdges(old(im.Pixels()), LastRow(ps, im.sy), ps), c)
  {
    hide Paint, PolygonOf, PolygonByEdges, Image.Pixels;
    if ps == [] {
      NoCorners(im.Pixels(), im.sy, c);
      return;
    }
    SamePolygon(im.Pixels(), im.sy, ps);
    var miny, maxy := FindRows(ps);
    if miny < 0 {
      miny := 0;
    }
    if maxy > im.sy - 1 {
      maxy := im.sy - 1;
    }
    FillRows(im, ps, buf, c, miny, maxy);
  }

  lemma NoCorners(pic: Picture, sy: nat, c: int)
    ensures Paint(pic, PolygonOf(pic, sy, []), c) == pic
  {
    PaintNothing(pic, c);
  }

  method FillRows(im: Image, ps: seq<Point>, buf: array<int>, c: nat, miny: int, maxy: int)
    requires im.Valid() && |ps| <= buf.Length && ps != [] && Paired(ps, im.sy)
    requires maxy == LastRow(ps, im.sy) && miny >= 0 && (miny > 0 ==> forall p | p in ps :: miny <= p.y)
    modifies im.pixels, buf
    ensures im.Pixels() == Paint(old(im.Pixels()), PolygonOf(old(im.Pixels()), im.sy, ps), c)
  {
    hide UpTo, PolygonOf, Crossings, RowOf, MaxY, Paired, Paint, Image.Pixels;
    ghost var pic := im.Pixels();
    FirstRow(pic, im.sy, ps, miny);
    PaintNothing(pic, c);
    var y := miny;
    while y <= maxy
      invariant miny <= y
      invariant im.Pixels() == Paint(pic, UpTo(pic, im.sy, ps, y), c)
    {
      FillOneRow(im, ps, buf, c, y, maxy, pic);
      y := y + 1;
    }
    BehindLastRow(pic, im.sy, ps, y);
  }

  method FillOneRow(im: Image, ps: seq<Point>, buf: array<int>, c: nat, y: int, maxy: int, ghost pic: Picture)
    requires im.Valid() && |ps| <= buf.Length && ps != [] && Paired(ps, im.sy)
    requires maxy == LastRow(ps, im.sy) && 0 <= y < im.sy
    requires im.Pixels() == Paint(pic, UpTo(pic, im.sy, ps, y), c)
    modifies im.pixels, buf
    ensures im.Pixels() == Paint(pic, UpTo(pic, im.sy, ps, y + 1), c)
  {
    hide UpTo, PolygonOf, Crossings, RowOf, MaxY, LastRow, Paint, Sorted, InPolygon, Paired, Image.Pixels;
    ghost var pic' := im.Pixels();
    var ints := Collect(ps, y, maxy, buf);
    PairedIsEven(ps, im.sy, y);
    SortRow(buf, ints);
    ghost var s := buf[..ints];
    SameMembers(s, Crossings(ps, y, maxy, |ps|));
    DrawRow(im, buf[..ints], y, c);
    UpToNext(pic, im.sy, ps, y, s);
    SameRow(pic, pic', s, y);
    PaintMore(pic, UpTo(pic, im.sy, ps, y), RowOf(pic, s, y), c);
  }

  lemma SameRow(pic: Picture, pic': Picture, s: seq<int>, y: int)
    requires pic.Keys == pic'.Keys && |s| % 2 == 0
    ensures RowOf(pic, s, y) == RowOf(pic', s, y)
  {
    assert forall p :: p in pic <==> p in pic.Keys;
    assert forall p :: p in pic' <==> p in pic'.Keys;
  }
}
