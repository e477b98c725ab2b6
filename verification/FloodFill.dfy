/**
 Flood filling of a picture with a plain colour: from a point over all points of
 its colour, or up to a border.  The pixels are those of a palette picture, or of
 a true-colour one without alpha blending, and all of the picture may be drawn on.
 */
module FloodFill {
  import opened Arithmetic
  import opened Flooding

  class Image {
    const sx: nat
    const sy: nat
    const pixels: array2<int>

    constructor (sx: nat, sy: nat)
      ensures this.sx == sx && this.sy == sy && Valid() && fresh(pixels)
      ensures forall p | p in Pixels() :: Pixels()[p] == 0
    {
      this.sx, this.sy := sx, sy;
      pixels := new int[sy, sx]((row, column) => 0);
    }

    predicate Valid() {
      pixels.Length0 == sy && pixels.Length1 == sx
    }

    ghost function Pixels(): (pic: Picture)
      requires Valid()
      reads pixels
      ensures forall p :: p in pic <==> 0 <= p.x < sx && 0 <= p.y < sy
    {
      map x, y | 0 <= x < sx && 0 <= y < sy :: Point(x, y) := pixels[y, x]
    }

    predicate Inside(x: int, y: int) {
      !((y < 0 || y > sy - 1) || (x < 0 || x > sx - 1))
    }

    function GetPixel(x: int, y: int): (c: int)
      requires Valid()
      reads pixels
      ensures c == if Point(x, y) in Pixels() then Pixels()[Point(x, y)] else 0
    {
      if Inside(x, y) then pixels[y, x] else 0
    }

    method SetPixel(x: int, y: int, color: nat)
      requires Valid()
      modifies pixels
      ensures Pixels() == if Point(x, y) in old(Pixels()) then old(Pixels())[Point(x, y) := color] else old(Pixels())
    {
      if Inside(x, y) {
        pixels[y, x] := color;
      }
    }
  }

  // ----- filling an area of one colour

  function Area(pic: Picture, color: int): set<Point> {
    set p | p in pic && pic[p] == color
  }

  // The patch of start's colour that start is in, along rows and columns.
  ghost function Patch(pic: Picture, start: Point): set<Point> {
    if start in pic then Covered(Area(pic, pic[start]), Area(pic, pic[start]), start) else {}
  }

  lemma AreaShrinks(pic: Picture, pic': Picture, done: set<Point>, was: int, color: int)
    requires was != color && pic' == Paint(pic, done, color)
    ensures Area(pic', was) == Area(pic, was) - done
    ensures LeftOver(Area(pic, was), Area(pic, was), done, Area(pic', was), Area(pic', was))
  {
  }

  // Paints from x to the left as far as the colour is the old one.
  method SeekLeft(im: Image, x: int, y: int, was: int, color: nat) returns (left: int)
    requires im.Valid() && Point(x, y) in Area(im.Pixels(), was)
    modifies im.pixels
    ensures 0 <= left <= x && Point(left - 1, y) !in Area(old(im.Pixels()), was)
    ensures Painted(old(im.Pixels()), im.Pixels(), Span(left, x, y), Area(old(im.Pixels()), was), color)
  {
    hide Painted, Image.Pixels;
    ghost var pic, area := im.Pixels(), Area(im.Pixels(), was);
    PaintedNone(pic, x + 1, y, area, color);
    left := -1;
    var i := x;
    while i >= 0
      invariant -1 <= i <= x && left == if i == x then -1 else i + 1
      invariant Painted(pic, im.Pixels(), Span(i + 1, x, y), area, color)
    {
      Unpainted(pic, im.Pixels(), Span(i + 1, x, y), area, color, Point(i, y));
      if im.GetPixel(i, y) != was {
        break;
      }
      PaintedLeft(pic, im.Pixels(), i, x, y, area, color);
      im.SetPixel(i, y, color);
      left := i;
      i := i - 1;
    }
  }

  // Goes on painting to the right of x.
  method SeekRight(im: Image, x: int, y: int, was: int, color: nat) returns (right: int)
    requires im.Valid() && Point(x, y) in im.Pixels()
    modifies im.pixels
    ensures x <= right < im.sx && Point(right + 1, y) !in Area(old(im.Pixels()), was)
    ensures Painted(old(im.Pixels()), im.Pixels(), Span(x + 1, right, y), Area(old(im.Pixels()), was), color)
  {
    hide Painted, Image.Pixels;
    ghost var pic, area := im.Pixels(), Area(im.Pixels(), was);
    PaintedNone(pic, x + 1, y, area, color);
    right := x;
    var i := x + 1;
    while i < im.sx
      invariant x <= right < im.sx && i == right + 1
      invariant Painted(pic, im.Pixels(), Span(x + 1, right, y), area, color)
    {
      Unpainted(pic, im.Pixels(), Span(x + 1, right, y), area, color, Point(i, y));
      if im.GetPixel(i, y) != was {
        break;
      }
      PaintedRight(pic, im.Pixels(), x + 1, i, y, area, color);
      im.SetPixel(i, y, color);
      right := i;
      i := i + 1;
    }
  }

  // Paints the run of one colour that x is in.
  method FillRun(im: Image, x: int, y: int, was: int, color: nat) returns (left: int, right: int)
    requires im.Valid() && Point(x, y) in Area(im.Pixels(), was) && was != color
    modifies im.pixels
    ensures 0 <= left <= x <= right < im.sx
    ensures Point(left - 1, y) !in Area(old(im.Pixels()), was) && Point(right + 1, y) !in Area(old(im.Pixels()), was)
    ensures Filling(im, old(im.Pixels()), Span(left, right, y), Point(x, y), was, color, Span(left, right, y))
    ensures Area(im.Pixels(), was) < old(Area(im.Pixels(), was))
  {
    ghost var pic, area := im.Pixels(), Area(im.Pixels(), was);
    left := SeekLeft(im, x, y, was, color);
    ghost var pic', area' := im.Pixels(), Area(im.Pixels(), was);
    right := SeekRight(im, x, y, was, color);
    AreaShrinks(pic, pic', Span(left, x, y), was, color);
    PaintedBoth(pic, pic', im.Pixels(), left, x, right, y, area, area', color);
    RunSpreads(pic, im.Pixels(), area, area, left, x, right, y, color);
    AreaShrinks(pic, im.Pixels(), Span(left, right, y), was, color);
  }

  // How far the fill of an area has come.
  ghost predicate Filling(im: Image, pic: Picture, done: set<Point>, start: Point, was: int, color: int,
                          open: set<Point>)
    requires im.Valid()
    reads im.pixels
  {
    was != color && Spread(pic, im.Pixels(), Area(pic, was), Area(pic, was), done, start, open, color)
  }

  // Looks along the row beside a run, and fills on from every border's end.
  method FillBeside(im: Image, left: int, right: int, row: int, ghost at: int, was: int, color: nat,
                    ghost pic: Picture, ghost done0: set<Point>, ghost start: Point) returns (ghost done: set<Point>)
    requires im.Valid() && 0 <= left <= right < im.sx && 0 <= row < im.sy && (at == row - 1 || at == row + 1)
    requires Filling(im, pic, done0, start, was, color, Span(left, right, at))
    modifies im.pixels
    ensures Filling(im, pic, done, start, was, color, Span(left, right, at))
    ensures done0 <= done && Passed(left, right, row, Area(pic, was) - done)
    ensures Area(im.Pixels(), was) <= old(Area(im.Pixels(), was))
    decreases Area(im.Pixels(), was), 3
  {
    hide Spread, Area;
    done := done0;
    var lastBorder := true;
    var i := left;
    while i <= right
      invariant left <= i <= right + 1
      invariant Filling(im, pic, done, start, was, color, Span(left, right, at)) && done0 <= done
      invariant Passed(left, i - 1, row, Area(pic, was) - done)
      invariant !lastBorder ==> Point(i, row) !in Area(pic, was) - done
      invariant Area(im.Pixels(), was) <= old(Area(im.Pixels(), was))
    {
      ghost var before := done;
      lastBorder, done := FillProbe(im, i, row, at, lastBorder, was, color, pic, done, start, Span(left, right, at));
      PassedNext(left, i - 1, row, Area(pic, was), before, done);
      i := i + 1;
    }
  }

  method FillProbe(im: Image, i: int, row: int, ghost at: int, border: bool, was: int, color: nat,
                   ghost pic: Picture, ghost done0: set<Point>, ghost start: Point, ghost open: set<Point>)
    returns (lastBorder: bool, ghost done: set<Point>)
    requires im.Valid() && Point(i, row) in im.Pixels() && (at == row - 1 || at == row + 1) && Point(i, at) in open
    requires Filling(im, pic, done0, start, was, color, open)
    requires !border ==> Point(i, row) !in Area(pic, was) - done0
    modifies im.pixels
    ensures Filling(im, pic, done, start, was, color, open) && done0 <= done
    ensures Point(i, row) !in Area(pic, was) - done && (!lastBorder ==> Point(i + 1, row) !in Area(pic, was) - done)
    ensures Area(im.Pixels(), was) <= old(Area(im.Pixels(), was))
    decreases Area(im.Pixels(), was), 2
  {
    hide Grown, Settled, Paint;
    done, lastBorder := done0, border;
    ghost var pic' := im.Pixels();
    var c := im.GetPixel(i, row);
    AreaShrinks(pic, pic', done, was, color);
    if lastBorder {
      if c == was {
        done := FillOn(im, i, row, at, was, color, pic, done, start, open);
        AreaShrinks(pic, im.Pixels(), done, was, color);
        lastBorder := false;
      }
    } else if c != was {
      lastBorder := true;
    }
  }

  method FillOn(im: Image, i: int, row: int, ghost at: int, was: int, color: nat,
                ghost pic: Picture, ghost done0: set<Point>, ghost start: Point, ghost open: set<Point>)
    returns (ghost done: set<Point>)
    requires im.Valid() && Point(i, row) in Area(im.Pixels(), was) && (at == row - 1 || at == row + 1)
    requires Point(i, at) in open
    requires Filling(im, pic, done0, start, was, color, open)
    modifies im.pixels
    ensures Filling(im, pic, done, start, was, color, open) && done0 <= done
    ensures Point(i, row) in done && Point(i + 1, row) !in Area(pic, was) - done
    decreases Area(im.Pixels(), was), 1
  {
    ghost var pic', area, area' := im.Pixels(), Area(pic, was), Area(im.Pixels(), was);
    AreaShrinks(pic, pic', done0, was, color);
    done := SpreadOn(pic, pic', area, area, done0, start, open, color, area', area', Point(i, at), Point(i, row));
    FillInside(im, i, row, color);
  }

  // Fills exactly the patch of one colour around a point of the picture.
  method FillInside(im: Image, x: int, y: int, color: nat)
    requires im.Valid() && Point(x, y) in im.Pixels()
    modifies im.pixels
    ensures im.Pixels() == Paint(old(im.Pixels()), Patch(old(im.Pixels()), Point(x, y)), color)
    decreases Area(im.Pixels(), im.GetPixel(x, y)), 0
  {
    hide Passed, Grown, Settled, Covered, Paint, Image.Pixels;
    ghost var pic := im.Pixels();
    var was := im.GetPixel(x, y);
    if was == color {
      PaintSame(pic, Point(x, y), color);
      return;
    }
    var left, right := FillRun(im, x, y, was, color);
    ghost var done := Span(left, right, y);
    if y > 0 {
      done := FillBeside(im, left, right, y - 1, y, was, color, pic, done, Point(x, y));
    } else {
      OutsideIsPassed(left, right, y - 1, Area(pic, was), done);
    }
    ghost var above := done;
    if y < im.sy - 1 {
      done := FillBeside(im, left, right, y + 1, y, was, color, pic, done, Point(x, y));
    } else {
      OutsideIsPassed(left, right, y + 1, Area(pic, was), done);
    }
    SpreadIsAll(pic, im.Pixels(), Area(pic, was), Area(pic, was), above, done, left, x, right, y, color);
  }

  lemma PaintSame(pic: Picture, start: Point, color: int)
    requires start in pic ==> pic[start] == color
    ensures Paint(pic, Patch(pic, start), color) == pic
  {
  }

  // ----- filling up to a border

  function Passable(pic: Picture, border: int): set<Point> {
    set p | p in pic && pic[p] != border
  }

  // The points that a fill starts from beside a run: neither border nor filled.
  function Open(pic: Picture, border: int, color: int): set<Point> {
    set p | p in pic && pic[p] != border && pic[p] != color
  }

  // What filling up to a border covers: along rows up to the border, but from row to
  // row only to points that do not have the new colour already.
  ghost function Bordered(pic: Picture, start: Point, border: int, color: int): set<Point> {
    if border < 0 then {} else Covered(Passable(pic, border), Open(pic, border, color), start)
  }

  lemma OpenShrinks(pic: Picture, pic': Picture, done: set<Point>, border: int, color: int)
    requires done <= Passable(pic, border) && pic' == Paint(pic, done, color)
    ensures Open(pic', border, color) == Open(pic, border, color) - done
    ensures LeftOver(Passable(pic, border), Open(pic, border, color), done,
                     Passable(pic', border), Open(pic', border, color))
  {
  }

  method SeekLeftBorder(im: Image, x: int, y: int, border: int, color: nat) returns (left: int)
    requires im.Valid() && x >= 0 && (Point(x, y) in im.Pixels() || border == 0)
    modifies im.pixels
    ensures Point(x, y) !in Passable(old(im.Pixels()), border) ==> left == -1 && im.Pixels() == old(im.Pixels())
    ensures Point(x, y) in Passable(old(im.Pixels()), border) ==> 0 <= left <= x
    ensures Point(left - 1, y) !in Passable(old(im.Pixels()), border)
    ensures left >= 0 ==>
              Painted(old(im.Pixels()), im.Pixels(), Span(left, x, y), Passable(old(im.Pixels()), border), color)
  {
    hide Painted, Image.Pixels;
    ghost var pic, inside := im.Pixels(), Passable(im.Pixels(), border);
    PaintedNone(pic, x + 1, y, inside, color);
    left := -1;
    var i := x;
    while i >= 0
      invariant -1 <= i <= x && left == if i == x then -1 else i + 1
      invariant i == x ==> im.Pixels() == pic
      invariant i < x ==> Point(x, y) in inside
      invariant Painted(pic, im.Pixels(), Span(i + 1, x, y), inside, color)
    {
      Unpainted(pic, im.Pixels(), Span(i + 1, x, y), inside, color, Point(i, y));
      if im.GetPixel(i, y) == border {
        break;
      }
      PaintedLeft(pic, im.Pixels(), i, x, y, inside, color);
      im.SetPixel(i, y, color);
      left := i;
      i := i - 1;
    }
  }

  method SeekRightBorder(im: Image, x: int, y: int, border: int, color: nat) returns (right: int)
    requires im.Valid() && Point(x, y) in im.Pixels()
    modifies im.pixels
    ensures x <= right < im.sx && Point(right + 1, y) !in Passable(old(im.Pixels()), border)
    ensures Painted(old(im.Pixels()), im.Pixels(), Span(x + 1, right, y), Passable(old(im.Pixels()), border), color)
  {
    hide Painted, Image.Pixels;
    ghost var pic, inside := im.Pixels(), Passable(im.Pixels(), border);
    PaintedNone(pic, x + 1, y, inside, color);
    right := x;
    var i := x + 1;
    while i < im.sx
      invariant x <= right < im.sx && i == right + 1
      invariant Painted(pic, im.Pixels(), Span(x + 1, right, y), inside, color)
    {
      Unpainted(pic, im.Pixels(), Span(x + 1, right, y), inside, color, Point(i, y));
      if im.GetPixel(i, y) == border {
        break;
      }
      PaintedRight(pic, im.Pixels(), x + 1, i, y, inside, color);
      im.SetPixel(i, y, color);
      right := i;
      i := i + 1;
    }
  }

  // How far the fill up to a border has come.
  ghost predicate Bordering(im: Image, pic: Picture, done: set<Point>, start: Point, border: int, color: int,
                            open: set<Point>)
    requires im.Valid()
    reads im.pixels
  {
    Spread(pic, im.Pixels(), Passable(pic, border), Open(pic, border, color), done, start, open, color)
  }

  method BorderRun(im: Image, x: int, y: int, left: int, border: int, color: nat,
                   ghost pic: Picture) returns (right: int)
    requires im.Valid() && Point(x, y) in im.Pixels() && 0 <= left <= x
    requires Painted(pic, im.Pixels(), Span(left, x, y), Passable(pic, border), color)
    modifies im.pixels
    ensures x <= right < im.sx && Point(right + 1, y) !in Passable(pic, border)
    ensures Bordering(im, pic, Span(left, right, y), Point(x, y), border, color, Span(left, right, y))
    ensures Open(im.Pixels(), border, color) <= Open(pic, border, color) - {Point(x, y)}
  {
    ghost var wide, narrow := Passable(pic, border), Open(pic, border, color);
    ghost var pic', wide' := im.Pixels(), Passable(im.Pixels(), border);
    right := SeekRightBorder(im, x, y, border, color);
    OpenShrinks(pic, pic', Span(left, x, y), border, color);
    Unpainted(pic, pic', Span(left, x, y), wide, color, Point(right + 1, y));
    PaintedBoth(pic, pic', im.Pixels(), left, x, right, y, wide, wide', color);
    RunSpreads(pic, im.Pixels(), wide, narrow, left, x, right, y, color);
    OpenShrinks(pic, im.Pixels(), Span(left, right, y), border, color);
  }

  method BorderBeside(im: Image, left: int, right: int, row: int, ghost at: int, border: int, color: nat,
                      ghost pic: Picture, ghost done0: set<Point>, ghost start: Point) returns (ghost done: set<Point>)
    requires im.Valid() && 0 <= left <= right < im.sx && 0 <= row < im.sy && (at == row - 1 || at == row + 1)
    requires Bordering(im, pic, done0, start, border, color, Span(left, right, at)) && border >= 0
    modifies im.pixels
    ensures Bordering(im, pic, done, start, border, color, Span(left, right, at))
    ensures done0 <= done && Passed(left, right, row, Open(pic, border, color) - done)
    ensures Open(im.Pixels(), border, color) <= old(Open(im.Pixels(), border, color))
    decreases Open(im.Pixels(), border, color), 3
  {
    hide Spread, Open;
    done := done0;
    var lastBorder := true;
    var i := left;
    while i <= right
      invariant left <= i <= right + 1
      invariant Bordering(im, pic, done, start, border, color, Span(left, right, at)) && done0 <= done
      invariant Passed(left, i - 1, row, Open(pic, border, color) - done)
      invariant !lastBorder ==> Point(i, row) !in Open(pic, border, color) - done
      invariant Open(im.Pixels(), border, color) <= old(Open(im.Pixels(), border, color))
    {
      ghost var before := done;
      lastBorder, done := BorderProbe(im, i, row, at, lastBorder, border, color, pic, done, start,
                                      Span(left, right, at));
      PassedNext(left, i - 1, row, Open(pic, border, color), before, done);
      i := i + 1;
    }
  }

  method BorderProbe(im: Image, i: int, row: int, ghost at: int, last: bool, border: int, color: nat,
                     ghost pic: Picture, ghost done0: set<Point>, ghost start: Point, ghost open: set<Point>)
    returns (lastBorder: bool, ghost done: set<Point>)
    requires im.Valid() && Point(i, row) in im.Pixels() && (at == row - 1 || at == row + 1) && Point(i, at) in open
    requires Bordering(im, pic, done0, start, border, color, open) && border >= 0
    requires !last ==> Point(i, row) !in Open(pic, border, color) - done0
    modifies im.pixels
    ensures Bordering(im, pic, done, start, border, color, open) && done0 <= done
    ensures Point(i, row) !in Open(pic, border, color) - done
    ensures !lastBorder ==> Point(i + 1, row) !in Open(pic, border, color) - done
    ensures Open(im.Pixels(), border, color) <= old(Open(im.Pixels(), border, color))
    decreases Open(im.Pixels(), border, color), 2
  {
    hide Settled, Paint;
    done, lastBorder := done0, last;
    ghost var pic' := im.Pixels();
    var c := im.GetPixel(i, row);
    OpenShrinks(pic, pic', done, border, color);
    if lastBorder {
      if c != border && c != color {
        done := BorderOn(im, i, row, at, border, color, pic, done, start, open);
        OpenShrinks(pic, im.Pixels(), done, border, color);
        lastBorder := false;
      }
    } else if c == border || c == color {
      lastBorder := true;
    }
  }

  method BorderOn(im: Image, i: int, row: int, ghost at: int, border: int, color: nat,
                  ghost pic: Picture, ghost done0: set<Point>, ghost start: Point, ghost open: set<Point>)
    returns (ghost done: set<Point>)
    requires im.Valid() && Point(i, row) in Open(im.Pixels(), border, color) && (at == row - 1 || at == row + 1)
    requires Bordering(im, pic, done0, start, border, color, open) && border >= 0 && Point(i, at) in open
    modifies im.pixels
    ensures Bordering(im, pic, done, start, border, color, open) && done0 <= done
    ensures Point(i, row) in done && Point(i + 1, row) !in Open(pic, border, color) - done
    decreases Open(im.Pixels(), border, color), 1
  {
    hide Image.Pixels, Passable;
    ghost var pic', wide, narrow := im.Pixels(), Passable(pic, border), Open(pic, border, color);
    OpenShrinks(pic, pic', done0, border, color);
    done := SpreadOn(pic, pic', wide, narrow, done0, start, open, color,
                     Passable(pic', border), Open(pic', border, color), Point(i, at), Point(i, row));
    assert Open(pic', border, color) + {Point(i, row)} == Open(pic', border, color);
    BorderInside(im, i, row, border, color);
  }

  // Fills exactly what Bordered says, from a point of the picture.
  method BorderInside(im: Image, x: int, y: int, border: int, color: nat)
    requires im.Valid() && Point(x, y) in im.Pixels() && border >= 0
    modifies im.pixels
    ensures im.Pixels() == Paint(old(im.Pixels()), Bordered(old(im.Pixels()), Point(x, y), border, color), color)
    decreases Open(im.Pixels(), border, color) + {Point(x, y)}, 0
  {
    hide Passed, Grown, Settled, Covered, Paint, Image.Pixels;
    ghost var pic := im.Pixels();
    var left := SeekLeftBorder(im, x, y, border, color);
    if left == -1 {
      NothingCovered(Passable(pic, border), Open(pic, border, color), Point(x, y));
      PaintNothing(pic, color);
      return;
    }
    var right := BorderRun(im, x, y, left, border, color, pic);
    BorderRows(im, x, y, left, right, right, border, color, pic);
  }

  // Looks along the rows above and below a run, and on in these rows up to column last,
  // which lies outside the picture when it is not the end of the run.
  method BorderRows(im: Image, x: int, y: int, left: int, right: int, last: int, border: int, color: nat,
                    ghost pic: Picture)
    requires im.Valid() && Point(x, y) in im.Pixels() && 0 <= left <= x <= right < im.sx && border >= 0
    requires Point(left - 1, y) !in Passable(pic, border) && Point(right + 1, y) !in Passable(pic, border)
    requires Bordering(im, pic, Span(left, right, y), Point(x, y), border, color, Span(left, right, y))
    requires last > right ==> right == im.sx - 1 && color == 0
    modifies im.pixels
    ensures im.Pixels() == Paint(pic, Bordered(pic, Point(x, y), border, color), color)
    decreases Open(im.Pixels(), border, color), 4
  {
    hide Passed, Grown, Settled, Covered, Paint, Image.Pixels;
    ghost var done := Span(left, right, y);
    if y > 0 {
      done := BorderBeside(im, left, right, y - 1, y, border, color, pic, done, Point(x, y));
      PassOutside(im, right + 1, last, y - 1, border, color);
    } else {
      OutsideIsPassed(left, right, y - 1, Open(pic, border, color), done);
    }
    ghost var above := done;
    if y < im.sy - 1 {
      done := BorderBeside(im, left, right, y + 1, y, border, color, pic, done, Point(x, y));
      PassOutside(im, right + 1, last, y + 1, border, color);
    } else {
      OutsideIsPassed(left, right, y + 1, Open(pic, border, color), done);
    }
    SpreadIsAll(pic, im.Pixels(), Passable(pic, border), Open(pic, border, color), above, done,
                left, x, right, y, color);
  }

  // Nothing is begun at points that have the colour already.
  method PassOutside(im: Image, first: int, last: int, row: int, border: int, color: nat)
    requires im.Valid() && (first <= last ==> first >= im.sx && color == 0)
  {
    var lastBorder: bool := *;
    var i := first;
    while i <= last
      invariant first <= i
    {
      var c := im.GetPixel(i, row);
      if lastBorder {
        if c != border && c != color {
          assert false;
        }
      } else if c == border || c == color {
        lastBorder := true;
      }
      i := i + 1;
    }
  }

  lemma NothingBordered(pic: Picture, x: int, y: int, border: int, color: int)
    requires border < 0 || Point(x, y) !in pic
    ensures Paint(pic, Bordered(pic, Point(x, y), border, color), color) == pic
  {
    if border >= 0 {
      NothingCovered(Passable(pic, border), Open(pic, border, color), Point(x, y));
    }
    PaintNothing(pic, color);
  }

  // ----- fills that start outside the picture, where pixels read as 0

  // Starts above and below the picture from which a fill comes to it row by row.  Next to
  // the picture they have to be over or under it; from further away the next row is begun
  // at its first column.
  predicate Facing(sx: nat, sy: nat, x: int, y: int) {
    x >= 0 && (y < 0 || y >= sy) && sx > 0 && (x < sx || y < -1 || y > sy)
  }

  // The row of the picture that such a fill comes to.
  function EdgeRow(sy: nat, y: int): int {
    if y < 0 then 0 else if y >= sy then sy - 1 else y
  }

  // How many rows it is away.
  function Beyond(sy: nat, y: int): nat {
    if y < 0 then -y else if y >= sy then y - sy + 1 else 0
  }

  // What a fill paints: the patch of its start, or, from outside with another colour
  // than 0, all patches of the colour 0 that reach the first or the last row.
  ghost function Filled(pic: Picture, sy: nat, x: int, y: int, color: int): set<Point> {
    if Point(x, y) in pic then Patch(pic, Point(x, y))
    else if x < 0 || color == 0 then {}
    else CoveredFrom(Area(pic, 0), Area(pic, 0), EdgeRow(sy, y))
  }

  // Outside nothing is painted, and nothing ends the row.
  method SeekOutside(im: Image, x: int, y: int, color: nat) returns (left: int, right: int)
    requires im.Valid() && (y < 0 || y >= im.sy)
    modifies im.pixels
    ensures im.Pixels() == old(im.Pixels())
    ensures left == (if x < 0 then -1 else 0) && right == Max(x, im.sx - 1)
  {
    hide Image.Pixels;
    left := -1;
    var i := x;
    while i >= 0
      invariant im.Pixels() == old(im.Pixels())
      invariant i < x || left == -1
      invariant x < 0 ==> i == x
      invariant x >= 0 ==> -1 <= i <= x && left == if i == x then -1 else i + 1
    {
      im.SetPixel(i, y, color);
      left := i;
      i := i - 1;
    }
    right := x;
    i := x + 1;
    while i < im.sx
      invariant im.Pixels() == old(im.Pixels())
      invariant x + 1 <= i && right == i - 1 && (i > x + 1 ==> i <= im.sx)
    {
      im.SetPixel(i, y, color);
      right := i;
      i := i + 1;
    }
  }

  method Fill(im: Image, x: int, y: int, color: nat)
    requires im.Valid() && (im.Inside(x, y) || x < 0 || color == 0 || Facing(im.sx, im.sy, x, y))
    modifies im.pixels
    ensures im.Pixels() == Paint(old(im.Pixels()), Filled(old(im.Pixels()), im.sy, x, y, color), color)
    decreases Beyond(im.sy, y), 0
  {
    hide Paint, Patch, CoveredFrom, Area, Image.Pixels;
    ghost var pic := im.Pixels();
    PaintNothing(pic, color);
    if im.Inside(x, y) {
      FillInside(im, x, y, color);
      return;
    }
    if im.GetPixel(x, y) == color || x < 0 {
      return;
    }
    var left, right := SeekOutside(im, x, y, color);
    if y > 0 {
      FillNearer(im, right, y - 1, color);
    }
    if y < im.sy - 1 {
      FillNearer(im, right, y + 1, color);
    }
    if im.sy == 0 {
      NoPicture(pic, Filled(pic, im.sy, x, y, color), color);
      NoPicture(im.Pixels(), Filled(pic, im.sy, x, y, color), color);
    }
  }

  lemma NoPicture(pic: Picture, s: set<Point>, color: int)
    requires pic.Keys == {}
    ensures Paint(pic, s, color) == pic
  {
  }

  // How far a fill has come along the next row: outside all is done from its first
  // column, and in the picture column by column.
  ghost predicate Nearing(im: Image, pic: Picture, done: set<Point>, row: int, i: int, color: int, lastBorder: bool)
    requires im.Valid()
    reads im.pixels
  {
    var area := Area(pic, 0);
    if 0 <= row < im.sy then
      && Poured(pic, im.Pixels(), area, area, done, row, i, color)
      && (!lastBorder ==> Point(i, row) !in area - done)
    else
      && lastBorder == (i == 0)
      && im.Pixels() == if i == 0 then pic else Paint(pic, CoveredFrom(area, area, EdgeRow(im.sy, row)), color)
  }

  method FillNearer(im: Image, right: int, row: int, color: nat)
    requires im.Valid() && color != 0 && im.sx > 0 && right >= 0 && (0 <= row < im.sy ==> right == im.sx - 1)
    modifies im.pixels
    ensures var area := Area(old(im.Pixels()), 0);
            im.Pixels() == Paint(old(im.Pixels()), CoveredFrom(area, area, EdgeRow(im.sy, row)), color)
    decreases Beyond(im.sy, row), 2
  {
    hide Paint, CoveredFrom, Area, Image.Pixels, Poured, Settled;
    ghost var pic, done := im.Pixels(), {};
    PouredNone(pic, Area(pic, 0), Area(pic, 0), row, color);
    var lastBorder := true;
    var i := 0;
    while i <= right
      invariant 0 <= i <= right + 1
      invariant Nearing(im, pic, done, row, i, color, lastBorder)
    {
      lastBorder, done := NearerProbe(im, i, row, lastBorder, color, pic, done);
      i := i + 1;
    }
    if 0 <= row < im.sy {
      RowWithin(pic, im.sx, row);
      PouredAll(pic, im.Pixels(), Area(pic, 0), Area(pic, 0), done, row, i, color);
    }
  }

  lemma RowWithin(pic: Picture, sx: nat, row: int)
    requires forall p | p in pic :: 0 <= p.x < sx
    ensures forall p | p in Area(pic, 0) && p.y == row :: 0 <= p.x < sx
  {
  }

  method NearerProbe(im: Image, i: int, row: int, border: bool, color: nat, ghost pic: Picture, ghost done0: set<Point>)
    returns (lastBorder: bool, ghost done: set<Point>)
    requires im.Valid() && color != 0 && im.sx > 0 && i >= 0 && (0 <= row < im.sy ==> i < im.sx)
    requires Nearing(im, pic, done0, row, i, color, border)
    modifies im.pixels
    ensures Nearing(im, pic, done, row, i + 1, color, lastBorder)
    decreases Beyond(im.sy, row), 1
  {
    hide Paint, CoveredFrom, Settled, Image.Pixels;
    done, lastBorder := done0, border;
    ghost var pic', area := im.Pixels(), Area(pic, 0);
    var c := im.GetPixel(i, row);
    if 0 <= row < im.sy {
      AreaShrinks(pic, pic', done, 0, color);
    }
    if lastBorder {
      if c == 0 {
        if 0 <= row < im.sy {
          done := PourOn(pic, pic', area, area, done0, row, i, color, Area(pic', 0), Area(pic', 0));
        }
        Fill(im, i, row, color);
        lastBorder := false;
      }
    } else if c != 0 {
      lastBorder := true;
    }
  }

  // What a fill up to a border paints.  From outside, next to the picture it goes on
  // everywhere along the first or the last row, and from further away only when 0 is
  // not the colour.  From the right, with the colour 0, it goes on in the row.
  ghost function BorderFilled(pic: Picture, sx: nat, sy: nat, x: int, y: int, border: int, color: int): set<Point> {
    if Point(x, y) in pic then Bordered(pic, Point(x, y), border, color)
    else if x < 0 || border <= 0 then {}
    else if 0 <= y < sy then Bordered(pic, Point(sx - 1, y), border, color)
    else if color == 0 && Beyond(sy, y) > 1 then {}
    else CoveredFrom(Passable(pic, border), Open(pic, border, color), EdgeRow(sy, y))
  }

  method FillToBorder(im: Image, x: int, y: int, border: int, color: nat)
    requires im.Valid()
    requires im.Inside(x, y) || x < 0 || border <= 0 || color == 0 || Facing(im.sx, im.sy, x, y)
    modifies im.pixels
    ensures var pic := old(im.Pixels());
            im.Pixels() == Paint(pic, BorderFilled(pic, im.sx, im.sy, x, y, border, color), color)
    decreases Beyond(im.sy, y), 0
  {
    hide Paint, Bordered, CoveredFrom, Passable, Open, Image.Pixels;
    ghost var pic := im.Pixels();
    PaintNothing(pic, color);
    if border < 0 {
      NothingBordered(pic, x, y, border, color);
      return;
    }
    if im.Inside(x, y) {
      BorderInside(im, x, y, border, color);
      return;
    }
    if x < 0 || im.GetPixel(x, y) == border {
      return;
    }
    if 0 <= y < im.sy {
      BorderFromRight(im, x, y, border, color);
      return;
    }
    var left, right := SeekOutside(im, x, y, color);
    if y > 0 {
      BorderNearer(im, right, y - 1, border, color);
    }
    if y < im.sy - 1 {
      BorderNearer(im, right, y + 1, border, color);
    }
    if im.sy == 0 {
      NoPicture(pic, BorderFilled(pic, im.sx, im.sy, x, y, border, color), color);
      NoPicture(im.Pixels(), BorderFilled(pic, im.sx, im.sy, x, y, border, color), color);
    }
  }

  // Seeks to the left over the points outside, and on in the picture.
  method SeekPast(im: Image, x: int, y: int, border: int, color: nat) returns (left: int)
    requires im.Valid() && x >= im.sx && 0 <= y < im.sy && border > 0
    modifies im.pixels
    ensures 0 <= left <= im.sx && Point(left - 1, y) !in Passable(old(im.Pixels()), border)
    ensures Painted(old(im.Pixels()), im.Pixels(), Span(left, im.sx - 1, y), Passable(old(im.Pixels()), border), color)
  {
    hide Painted, Image.Pixels;
    ghost var pic, inside := im.Pixels(), Passable(im.Pixels(), border);
    PaintedNone(pic, im.sx, y, inside, color);
    left := -1;
    var i := x;
    while i >= 0
      invariant -1 <= i <= x && left == (if i == x then -1 else i + 1)
      invariant i >= im.sx - 1 ==> im.Pixels() == pic
      invariant i < im.sx ==> Painted(pic, im.Pixels(), Span(i + 1, im.sx - 1, y), inside, color)
    {
      if i < im.sx {
        Unpainted(pic, im.Pixels(), Span(i + 1, im.sx - 1, y), inside, color, Point(i, y));
      }
      if im.GetPixel(i, y) == border {
        break;
      }
      if i < im.sx {
        PaintedLeft(pic, im.Pixels(), i, im.sx - 1, y, inside, color);
      }
      im.SetPixel(i, y, color);
      left := i;
      i := i - 1;
    }
  }

  // From the right with the colour 0.
  method BorderFromRight(im: Image, x: int, y: int, border: int, color: nat)
    requires im.Valid() && x >= im.sx && 0 <= y < im.sy && border > 0 && color == 0
    modifies im.pixels
    ensures var pic := old(im.Pixels());
            im.Pixels() == Paint(pic, Bordered(pic, Point(im.sx - 1, y), border, color), color)
  {
    hide Spread, Painted, Covered, Image.Pixels;
    ghost var pic, wide, narrow := im.Pixels(), Passable(im.Pixels(), border), Open(im.Pixels(), border, color);
    var left := SeekPast(im, x, y, border, color);
    if left == im.sx {
      if y > 0 {
        PassOutside(im, left, x, y - 1, border, color);
      }
      if y < im.sy - 1 {
        PassOutside(im, left, x, y + 1, border, color);
      }
      NothingCovered(wide, narrow, Point(im.sx - 1, y));
      PaintNothing(pic, color);
      NothingPainted(pic, im.Pixels(), im.sx, y, wide, color);
    } else {
      RunSpreads(pic, im.Pixels(), wide, narrow, left, im.sx - 1, im.sx - 1, y, color);
      BorderRows(im, im.sx - 1, y, left, im.sx - 1, x, border, color, pic);
    }
  }

  lemma NothingPainted(pic: Picture, pic': Picture, l: int, row: int, inside: set<Point>, color: int)
    requires Painted(pic, pic', Span(l, l - 1, row), inside, color)
    ensures pic' == pic
  {
    assert Span(l, l - 1, row) == {};
    PaintNothing(pic, color);
  }

  // How far a fill up to a border has come along the next row.
  ghost predicate BorderNearing(im: Image, pic: Picture, done: set<Point>, row: int, i: int, border: int, color: int,
                                lastBorder: bool)
    requires im.Valid()
    reads im.pixels
  {
    var wide, narrow := Passable(pic, border), Open(pic, border, color);
    if 0 <= row < im.sy then
      && Poured(pic, im.Pixels(), wide, narrow, done, row, i, color)
      && (!lastBorder ==> Point(i, row) !in narrow - done)
    else
      && lastBorder == (i == 0 || color == 0)
      && im.Pixels() == if lastBorder then pic else Paint(pic, CoveredFrom(wide, narrow, EdgeRow(im.sy, row)), color)
  }

  method BorderNearer(im: Image, right: int, row: int, border: int, color: nat)
    requires im.Valid() && border > 0 && right >= 0 && right >= im.sx - 1
    requires color == 0 || (im.sx > 0 && (0 <= row < im.sy ==> right == im.sx - 1))
    modifies im.pixels
    ensures var pic := old(im.Pixels());
            im.Pixels() == Paint(pic, if color == 0 && Beyond(im.sy, row) > 0 then {}
                                      else CoveredFrom(Passable(pic, border), Open(pic, border, color),
                                                       EdgeRow(im.sy, row)), color)
    decreases Beyond(im.sy, row), 2
  {
    hide Paint, CoveredFrom, Passable, Open, Image.Pixels, Poured, Settled;
    ghost var pic, done := im.Pixels(), {};
    PaintNothing(pic, color);
    PouredNone(pic, Passable(pic, border), Open(pic, border, color), row, color);
    var lastBorder := true;
    var i := 0;
    while i <= right
      invariant 0 <= i <= right + 1
      invariant BorderNearing(im, pic, done, row, i, border, color, lastBorder)
    {
      lastBorder, done := BorderNearerProbe(im, i, row, lastBorder, border, color, pic, done);
      i := i + 1;
    }
    if 0 <= row < im.sy {
      OpenWithin(pic, im.sx, row, border, color);
      PouredAll(pic, im.Pixels(), Passable(pic, border), Open(pic, border, color), done, row, i, color);
    }
  }

  lemma OpenWithin(pic: Picture, sx: nat, row: int, border: int, color: int)
    requires forall p | p in pic :: 0 <= p.x < sx
    ensures forall p | p in Open(pic, border, color) && p.y == row :: 0 <= p.x < sx
  {
  }

  method BorderNearerProbe(im: Image, i: int, row: int, last: bool, border: int, color: nat,
                           ghost pic: Picture, ghost done0: set<Point>)
    returns (lastBorder: bool, ghost done: set<Point>)
    requires im.Valid() && border > 0 && i >= 0
    requires color == 0 || (im.sx > 0 && (0 <= row < im.sy ==> i < im.sx))
    requires BorderNearing(im, pic, done0, row, i, border, color, last)
    modifies im.pixels
    ensures BorderNearing(im, pic, done, row, i + 1, border, color, lastBorder)
    decreases Beyond(im.sy, row), 1
  {
    hide Paint, Settled, Image.Pixels;
    done, lastBorder := done0, last;
    ghost var pic', wide, narrow := im.Pixels(), Passable(pic, border), Open(pic, border, color);
    var c := im.GetPixel(i, row);
    if 0 <= row < im.sy {
      assert done <= wide;
      OpenShrinks(pic, pic', done, border, color);
    }
    if lastBorder {
      if c != border && c != color {
        if 0 <= row < im.sy {
          done := PourOn(pic, pic', wide, narrow, done0, row, i, color,
                         Passable(pic', border), Open(pic', border, color));
        }
        FillToBorder(im, i, row, border, color);
        lastBorder := false;
      }
    } else if c == border || c == color {
      lastBorder := true;
    }
  }
}
