/**
 Lines one pixel wide between two points of a picture: which points they cover,
 and the loop that draws them with additions only.
 */
module Lines {
  import opened Arithmetic
  import opened Flooding
  import opened FloodFill
  import opened Clipping

  // ----- how far a line has turned aside after k steps of its longer side

  // Half of dx is added so that the quotient is rounded to the nearest.
  function Offset(dx: nat, dy: nat, k: nat): int {
    if dx == 0 then 0 else (2 * (dy * k) + dx) / (2 * dx)
  }

  // c is within half a step of where the line is after k steps.
  predicate Near(dx: nat, dy: nat, k: int, c: int) {
    0 - dx <= 2 * (dy * k) - 2 * (dx * c) < dx
  }

  lemma NearIsOffset(dx: nat, dy: nat, k: nat, c: int)
    requires dx > 0 && Near(dx, dy, k, c)
    ensures Offset(dx, dy, k) == c
  {
    assert (2 * dx) * c == 2 * (dx * c);
    QuotientIs(2 * (dy * k) + dx, 2 * dx, c);
  }

  lemma OffsetIsNear(dx: nat, dy: nat, k: nat)
    requires dx > 0
    ensures Near(dx, dy, k, Offset(dx, dy, k))
  {
    var a, b := 2 * (dy * k) + dx, 2 * dx;
    assert a == b * (a / b) + a % b;
    assert b * (a / b) == 2 * (dx * (a / b));
  }

  lemma OffsetAtStart(dx: nat, dy: nat)
    ensures Offset(dx, dy, 0) == 0
  {
    if dx > 0 {
      NearIsOffset(dx, dy, 0, 0);
    }
  }

  // The decision of the loop after k steps: the next step turns aside when it is not negative.
  function Decision(dx: nat, dy: nat, k: nat): int {
    2 * (dy * k) - 2 * (dx * Offset(dx, dy, k)) + 2 * dy - dx
  }

  lemma DecisionStep(dx: nat, dy: nat, k: nat)
    requires dy <= dx && dx > 0
    ensures Decision(dx, dy, k) < 0 ==>
              Offset(dx, dy, k + 1) == Offset(dx, dy, k) && Decision(dx, dy, k + 1) == Decision(dx, dy, k) + 2 * dy
    ensures Decision(dx, dy, k) >= 0 ==>
              Offset(dx, dy, k + 1) == Offset(dx, dy, k) + 1 &&
                  Decision(dx, dy, k + 1) == Decision(dx, dy, k) + 2 * (dy - dx)
  {
    var c := Offset(dx, dy, k);
    OffsetIsNear(dx, dy, k);
    assert dy * (k + 1) == dy * k + dy && dx * (c + 1) == dx * c + dx;
    NearIsOffset(dx, dy, k + 1, if Decision(dx, dy, k) < 0 then c else c + 1);
  }

  // ----- the points of a line

  // c points towards one side.
  function Turned(dir: int, c: int): int {
    dir * c
  }

  // k + 1 points to the right, turning up or down.
  function Across(x: int, y: int, dir: int, dx: nat, dy: nat, k: nat): set<Point> {
    set i: nat | i <= k :: Point(x + i, y + Turned(dir, Offset(dx, dy, i)))
  }

  // k + 1 points down, turning left or right.
  function Down(x: int, y: int, dir: int, dx: nat, dy: nat, k: nat): set<Point> {
    set i: nat | i <= k :: Point(x + Turned(dir, Offset(dy, dx, i)), y + i)
  }

  // The points of the line between two points: it starts from the left end, or from
  // the upper end when it is higher than wide.
  function LineOf(x1: int, y1: int, x2: int, y2: int): set<Point> {
    var dx, dy := Abs(x2 - x1), Abs(y2 - y1);
    if dy <= dx then
      if x1 > x2 then Across(x2, y2, if y1 > y2 then 1 else -1, dx, dy, dx)
      else Across(x1, y1, if y2 > y1 then 1 else -1, dx, dy, dx)
    else
      if y1 > y2 then Down(x2, y2, if x1 > x2 then 1 else -1, dx, dy, dy)
      else Down(x1, y1, if x2 > x1 then 1 else -1, dx, dy, dy)
  }

  lemma AcrossGrows(x: int, y: int, dir: int, dx: nat, dy: nat, k: nat)
    ensures Across(x, y, dir, dx, dy, k + 1) ==
              Across(x, y, dir, dx, dy, k) + {Point(x + k + 1, y + Turned(dir, Offset(dx, dy, k + 1)))}
  {
    var p := Point(x + k + 1, y + Turned(dir, Offset(dx, dy, k + 1)));
    forall q
      ensures q in Across(x, y, dir, dx, dy, k + 1) <==> q in Across(x, y, dir, dx, dy, k) || q == p
    {
      if q in Across(x, y, dir, dx, dy, k + 1) {
        var i: nat :| i <= k + 1 && q == Point(x + i, y + Turned(dir, Offset(dx, dy, i)));
      }
    }
  }

  lemma DownGrows(x: int, y: int, dir: int, dx: nat, dy: nat, k: nat)
    ensures Down(x, y, dir, dx, dy, k + 1) ==
              Down(x, y, dir, dx, dy, k) + {Point(x + Turned(dir, Offset(dy, dx, k + 1)), y + k + 1)}
  {
    var p := Point(x + Turned(dir, Offset(dy, dx, k + 1)), y + k + 1);
    forall q
      ensures q in Down(x, y, dir, dx, dy, k + 1) <==> q in Down(x, y, dir, dx, dy, k) || q == p
    {
      if q in Down(x, y, dir, dx, dy, k + 1) {
        var i: nat :| i <= k + 1 && q == Point(x + Turned(dir, Offset(dy, dx, i)), y + i);
      }
    }
  }

  // ----- drawing

  function Painting(pic: Picture, p: Point, color: int): Picture {
    if p in pic then pic[p := color] else pic
  }

  lemma PaintOneMore(pic: Picture, s: set<Point>, p: Point, color: int)
    ensures Paint(pic, s + {p}, color) == Painting(Paint(pic, s, color), p, color)
  {
  }

  // The points of what the clipping leaves of a line.
  function Drawn(sx: nat, sy: nat, x1: int, y1: int, x2: int, y2: int): set<Point> {
    match Clip(sx, sy, x1, y1, x2, y2)
    case Missed => {}
    case Ends(a, b, c, d) => LineOf(a, b, c, d)
  }

  method Line(im: Image, x1: int, y1: int, x2: int, y2: int, color: nat)
    requires im.Valid()
    modifies im.pixels
    ensures im.Pixels() == Paint(old(im.Pixels()), Drawn(im.sx, im.sy, x1, y1, x2, y2), color)
  {
    var clipped := Clip(im.sx, im.sy, x1, y1, x2, y2);
    match clipped
    case Missed => PaintNothing(im.Pixels(), color);
    case Ends(a, b, c, d) => Stroke(im, a, b, c, d, color);
  }

  method Stroke(im: Image, x1: int, y1: int, x2: int, y2: int, color: nat)
    requires im.Valid()
    modifies im.pixels
    ensures im.Pixels() == Paint(old(im.Pixels()), LineOf(x1, y1, x2, y2), color)
  {
    var dx, dy := Abs(x2 - x1), Abs(y2 - y1);
    if dy <= dx {
      var x, y, ydirflag, xend;
      if x1 > x2 {
        x, y, ydirflag, xend := x2, y2, -1, x1;
      } else {
        x, y, ydirflag, xend := x1, y1, 1, x2;
      }
      DrawAcross(im, x, y, xend, if (y2 - y1) * ydirflag > 0 then 1 else -1, dx, dy, color);
    } else {
      var x, y, xdirflag, yend;
      if y1 > y2 {
        x, y, xdirflag, yend := x2, y2, -1, y1;
      } else {
        x, y, xdirflag, yend := x1, y1, 1, y2;
      }
      DrawDown(im, x, y, yend, if (x2 - x1) * xdirflag > 0 then 1 else -1, dx, dy, color);
    }
  }

  // One step along, and aside when the decision says so, paints the next point.
  lemma AcrossStep(pic: Picture, x: int, y: int, dir: int, dx: nat, dy: nat, k: nat, color: int)
    requires dy <= dx && dx > 0
    ensures var d, c := Decision(dx, dy, k), Turned(dir, Offset(dx, dy, k));
            && Turned(dir, Offset(dx, dy, k + 1)) == (if d < 0 then c else c + dir)
            && Decision(dx, dy, k + 1) == d + (if d < 0 then 2 * dy else 2 * (dy - dx))
    ensures var p := Point(x + k + 1, y + Turned(dir, Offset(dx, dy, k + 1)));
            Paint(pic, Across(x, y, dir, dx, dy, k + 1), color) ==
            Painting(Paint(pic, Across(x, y, dir, dx, dy, k), color), p, color)
  {
    hide Paint, Across, Offset, Decision;
    DecisionStep(dx, dy, k);
    AcrossGrows(x, y, dir, dx, dy, k);
    Turn(dir, Offset(dx, dy, k));
    PaintOneMore(pic, Across(x, y, dir, dx, dy, k), Point(x + k + 1, y + Turned(dir, Offset(dx, dy, k + 1))), color);
  }

  method DrawAcross(im: Image, x0: int, y0: int, xend: int, dir: int, dx: nat, dy: nat, color: nat)
    requires im.Valid() && xend == x0 + dx && dy <= dx
    modifies im.pixels
    ensures im.Pixels() == Paint(old(im.Pixels()), Across(x0, y0, dir, dx, dy, dx), color)
  {
    hide Paint, Across, Offset, Decision, Turned, Image.Pixels;
    ghost var pic := im.Pixels();
    var d, incr1, incr2 := 2 * dy - dx, 2 * dy, 2 * (dy - dx);
    var x, y := x0, y0;
    AcrossStarts(pic, x0, y0, dir, dx, dy, color);
    im.SetPixel(x, y, color);
    while x < xend
      invariant x0 <= x <= xend && y == y0 + Turned(dir, Offset(dx, dy, x - x0))
      invariant dx > 0 ==> d == Decision(dx, dy, x - x0)
      invariant im.Pixels() == Paint(pic, Across(x0, y0, dir, dx, dy, x - x0), color)
    {
      AcrossStep(pic, x0, y0, dir, dx, dy, x - x0, color);
      x := x + 1;
      if d < 0 {
        d := d + incr1;
      } else {
        y := y + dir;
        d := d + incr2;
      }
      im.SetPixel(x, y, color);
    }
    assert x - x0 == dx;
  }

  lemma Turn(dir: int, c: int)
    ensures Turned(dir, c + 1) == Turned(dir, c) + dir
  {
  }

  lemma AcrossStarts(pic: Picture, x: int, y: int, dir: int, dx: nat, dy: nat, color: int)
    ensures Paint(pic, Across(x, y, dir, dx, dy, 0), color) ==
              if Point(x, y) in pic then pic[Point(x, y) := color] else pic
    ensures Turned(dir, Offset(dx, dy, 0)) == 0 && Decision(dx, dy, 0) == 2 * dy - dx
  {
    OffsetAtStart(dx, dy);
    assert Across(x, y, dir, dx, dy, 0) == {Point(x, y)} by {
      assert Point(x + 0, y + Turned(dir, Offset(dx, dy, 0))) == Point(x, y);
    }
  }

  // One step along, and aside when the decision says so, paints the next point.
  lemma DownStep(pic: Picture, x: int, y: int, dir: int, dx: nat, dy: nat, k: nat, color: int)
    requires dx <= dy && dy > 0
    ensures var d, c := Decision(dy, dx, k), Turned(dir, Offset(dy, dx, k));
            && Turned(dir, Offset(dy, dx, k + 1)) == (if d < 0 then c else c + dir)
            && Decision(dy, dx, k + 1) == d + (if d < 0 then 2 * dx else 2 * (dx - dy))
    ensures var p := Point(x + Turned(dir, Offset(dy, dx, k + 1)), y + k + 1);
            Paint(pic, Down(x, y, dir, dx, dy, k + 1), color) ==
            Painting(Paint(pic, Down(x, y, dir, dx, dy, k), color), p, color)
  {
    hide Paint, Down, Offset, Decision;
    DecisionStep(dy, dx, k);
    DownGrows(x, y, dir, dx, dy, k);
    Turn(dir, Offset(dy, dx, k));
    PaintOneMore(pic, Down(x, y, dir, dx, dy, k), Point(x + Turned(dir, Offset(dy, dx, k + 1)), y + k + 1), color);
  }

  method DrawDown(im: Image, x0: int, y0: int, yend: int, dir: int, dx: nat, dy: nat, color: nat)
    requires im.Valid() && yend == y0 + dy && dx <= dy
    modifies im.pixels
    ensures im.Pixels() == Paint(old(im.Pixels()), Down(x0, y0, dir, dx, dy, dy), color)
  {
    hide Paint, Down, Offset, Decision, Turned, Image.Pixels;
    ghost var pic := im.Pixels();
    var d, incr1, incr2 := 2 * dx - dy, 2 * dx, 2 * (dx - dy);
    var x, y := x0, y0;
    DownStarts(pic, x0, y0, dir, dx, dy, color);
    im.SetPixel(x, y, color);
    while y < yend
      invariant y0 <= y <= yend && x == x0 + Turned(dir, Offset(dy, dx, y - y0))
      invariant dy > 0 ==> d == Decision(dy, dx, y - y0)
      invariant im.Pixels() == Paint(pic, Down(x0, y0, dir, dx, dy, y - y0), color)
    {
      DownStep(pic, x0, y0, dir, dx, dy, y - y0, color);
      y := y + 1;
      if d < 0 {
        d := d + incr1;
      } else {
        x := x + dir;
        d := d + incr2;
      }
      im.SetPixel(x, y, color);
    }
    assert y - y0 == dy;
  }

  lemma DownStarts(pic: Picture, x: int, y: int, dir: int, dx: nat, dy: nat, color: int)
    ensures Paint(pic, Down(x, y, dir, dx, dy, 0), color) ==
              if Point(x, y) in pic then pic[Point(x, y) := color] else pic
    ensures Turned(dir, Offset(dy, dx, 0)) == 0 && Decision(dy, dx, 0) == 2 * dx - dy
  {
    OffsetAtStart(dy, dx);
    assert Down(x, y, dir, dx, dy, 0) == {Point(x, y)} by {
      assert Point(x + Turned(dir, Offset(dy, dx, 0)), y + 0) == Point(x, y);
    }
  }
}
