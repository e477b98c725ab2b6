/**
 Copying a rectangle of one picture into a rectangle of another size in another
 picture: every source column is repeated as often as its share of the new width
 holds whole columns, and so are the rows.  Both pictures are true-colour ones
 without alpha blending, and are not the same.
 */
module Resampling {
  import opened Arithmetic
  import opened Flooding
  import opened FloodFill

  // ----- which source column a new column comes from

  // Where the i-th of s parts begins when d columns are shared out.
  function Cut(d: nat, s: nat, i: nat): nat
    requires s > 0
  {
    d * i / s
  }

  function SourceOf(d: nat, s: nat, u: nat): int
    requires d > 0
  {
    ((u + 1) * s - 1) / d
  }

  lemma CutGrows(d: nat, s: nat, i: nat)
    requires s > 0
    ensures Cut(d, s, i) <= Cut(d, s, i + 1) && Cut(d, s, 0) == 0 && Cut(d, s, s) == d
  {
    QuotientReaches(d * (i + 1), s, Cut(d, s, i));
    QuotientBounds(d * i, s);
    assert d * (i + 1) == d * i + d;
    QuotientReaches(d * s, s, d);
    QuotientReaches(d * s, s, d + 1);
    assert s * d == d * s && s * (d + 1) == d * s + s;
  }

  // The part that a column falls into is the source column it comes from.
  lemma CutsIffSource(d: nat, s: nat, u: nat, i: nat)
    requires s > 0 && d > 0
    ensures Cut(d, s, i) <= u < Cut(d, s, i + 1) <==> SourceOf(d, s, u) == i
  {
    var a := (u + 1) * s - 1;
    QuotientReaches(d * i, s, u + 1);
    QuotientReaches(d * (i + 1), s, u + 1);
    assert a >= 0 by {
      assert (u + 1) * s >= s by {
        assert (u + 1) * s == u * s + s;
      }
    }
    QuotientReaches(a, d, i);
    QuotientReaches(a, d, i + 1);
    assert s * (u + 1) == (u + 1) * s;
  }

  // That is the one on which the right edge of the new column falls, with s columns put
  // across the width of d.
  lemma SourceUnderEdge(d: nat, s: nat, u: nat, c: nat)
    requires s > 0 && d > 0
    ensures SourceOf(d, s, u) == c <==> d * c < (u + 1) * s <= d * (c + 1)
  {
    var a := (u + 1) * s - 1;
    QuotientReaches(a, d, c);
    QuotientReaches(a, d, c + 1);
    assert (u + 1) * s == u * s + s;
  }

  // Copied at the same width, every column comes from its own.
  lemma SameWidthKeeps(d: nat, u: nat)
    requires u < d
    ensures SourceOf(d, d, u) == u
  {
    QuotientIs(d * u, d, u);
    QuotientIs(d * (u + 1), d, u + 1);
    CutsIffSource(d, d, u, u);
  }

  // Source columns are taken from left to right.
  lemma SourceGrows(d: nat, s: nat, u: nat, w: nat)
    requires d > 0 && s > 0 && u <= w < d
    ensures 0 <= SourceOf(d, s, u) <= SourceOf(d, s, w) < s
  {
    Multiples(s, 0, u + 1);
    Multiples(s, u + 1, w + 1);
    Multiples(s, w + 1, d);
    QuotientsGrow(s * (u + 1) - 1, s * (w + 1) - 1, d, s);
  }

  lemma QuotientsGrow(a: int, b: int, d: nat, s: nat)
    requires d > 0 && 0 <= a <= b < s * d
    ensures 0 <= a / d <= b / d < s
  {
    QuotientReaches(a, d, 0);
    QuotientReaches(b, d, a / d);
    QuotientBounds(a, d);
    QuotientReaches(b, d, s);
  }

  // The stretch vector: how often each source column is repeated.
  method Stretch(d: nat, s: nat) returns (st: array<int>)
    ensures fresh(st) && st.Length == s
    ensures forall i | 0 <= i < s :: st[i] == Cut(d, s, i + 1) - Cut(d, s, i) >= 0
  {
    hide Cut;
    st := new int[s];
    var i := 0;
    while i < s
      invariant 0 <= i <= s
      invariant forall k | 0 <= k < i :: st[k] == Cut(d, s, k + 1) - Cut(d, s, k) >= 0
    {
      CutGrows(d, s, i);
      st[i] := Cut(d, s, i + 1) - Cut(d, s, i);
      i := i + 1;
    }
  }

  function Sum(s: seq<int>): int {
    if s == [] then 0 else Sum(s[..|s| - 1]) + s[|s| - 1]
  }

  // The new columns are shared out completely.
  lemma {:induction false} StretchSums(d: nat, s: nat, st: seq<int>, n: nat)
    requires n <= |st| == s && forall i | 0 <= i < s :: st[i] == Cut(d, s, i + 1) - Cut(d, s, i)
    ensures s > 0 ==> Sum(st[..n]) == Cut(d, s, n)
  {
    if n > 0 {
      StretchSums(d, s, st, n - 1);
      assert st[..n][..n - 1] == st[..n - 1];
    } else if s > 0 {
      CutGrows(d, s, 0);
    }
  }

  lemma StretchIsWhole(d: nat, s: nat, st: seq<int>)
    requires |st| == s > 0 && forall i | 0 <= i < s :: st[i] == Cut(d, s, i + 1) - Cut(d, s, i)
    ensures Sum(st) == d
  {
    StretchSums(d, s, st, s);
    CutGrows(d, s, 0);
    assert st[..s] == st;
  }

  // ----- the picture that is to come about

  datatype Job = Job(dstX: int, dstY: int, srcX: int, srcY: int, dstW: nat, dstH: nat, srcW: nat, srcH: nat,
                     transparent: int)

  function At(pic: Picture, x: int, y: int): int {
    if Point(x, y) in pic then pic[Point(x, y)] else 0
  }

  // The colour that is copied to the new column u and row v.
  function Sample(j: Job, src: Picture, u: nat, v: nat): int
    requires u < j.dstW && v < j.dstH
  {
    At(src, j.srcX + SourceOf(j.dstW, j.srcW, u), j.srcY + SourceOf(j.dstH, j.srcH, v))
  }

  // The point has been reached when all rows above v and the first u columns of row v
  // have been copied.
  predicate Reached(j: Job, p: Point, u: nat, v: nat) {
    && 0 <= p.x - j.dstX < j.dstW && 0 <= p.y - j.dstY < j.dstH
    && (p.y - j.dstY < v || (p.y - j.dstY == v && p.x - j.dstX < u))
  }

  function Copied(j: Job, src: Picture, pic: Picture, u: nat, v: nat): Picture {
    map p | p in pic ::
      if Reached(j, p, u, v) && Sample(j, src, p.x - j.dstX, p.y - j.dstY) != j.transparent
      then Sample(j, src, p.x - j.dstX, p.y - j.dstY) else pic[p]
  }

  // All columns of all rows, unless there is nothing to copy from.
  function Resized(j: Job, src: Picture, pic: Picture): Picture {
    if j.srcW == 0 || j.srcH == 0 then pic else Copied(j, src, pic, 0, j.dstH)
  }

  lemma NothingCopied(j: Job, src: Picture, pic: Picture)
    ensures Copied(j, src, pic, 0, 0) == pic
  {
  }

  lemma RowCopied(j: Job, src: Picture, pic: Picture, v: nat)
    ensures Copied(j, src, pic, j.dstW, v) == Copied(j, src, pic, 0, v + 1)
  {
  }

  // Said without the cuts: a new point has the colour of the source column and row on
  // which its right and lower edges fall, unless that is the transparent one; the points
  // outside the new rectangle stay.
  lemma NewPointIs(j: Job, src: Picture, pic: Picture, u: nat, v: nat, c: nat, r: nat)
    requires j.srcW > 0 && j.srcH > 0 && u < j.dstW && v < j.dstH
    requires Point(j.dstX + u, j.dstY + v) in pic
    requires j.dstW * c < (u + 1) * j.srcW <= j.dstW * (c + 1)
    requires j.dstH * r < (v + 1) * j.srcH <= j.dstH * (r + 1)
    ensures var from, to := Point(j.srcX + c, j.srcY + r), Point(j.dstX + u, j.dstY + v);
            var colour := if from in src then src[from] else 0;
            Resized(j, src, pic)[to] == if colour == j.transparent then pic[to] else colour
  {
    SourceUnderEdge(j.dstW, j.srcW, u, c);
    SourceUnderEdge(j.dstH, j.srcH, v, r);
    hide SourceOf;
  }

  lemma OtherPointsStay(j: Job, src: Picture, pic: Picture, p: Point)
    requires p in pic
    requires j.srcW == 0 || j.srcH == 0 || !(j.dstX <= p.x < j.dstX + j.dstW && j.dstY <= p.y < j.dstY + j.dstH)
    ensures Resized(j, src, pic).Keys == pic.Keys && Resized(j, src, pic)[p] == pic[p]
  {
  }

  // The picture with n points of a row painted.
  function Stroke(pic: Picture, x: int, n: int, y: int, c: int): Picture {
    Paint(pic, Span(x, x + n - 1, y), c)
  }

  // Copying the share of source column i adds its span, or nothing if it is transparent.
  lemma ShareCopied(j: Job, src: Picture, pic: Picture, i: nat, l: nat, v: nat)
    requires i < j.srcW && l < j.srcH && v < j.dstH && SourceOf(j.dstH, j.srcH, v) == l
    ensures var c, from, to := At(src, j.srcX + i, j.srcY + l), Cut(j.dstW, j.srcW, i), Cut(j.dstW, j.srcW, i + 1);
            Copied(j, src, pic, to, v) ==
            if c == j.transparent then Copied(j, src, pic, from, v)
            else Stroke(Copied(j, src, pic, from, v), j.dstX + from, to - from, j.dstY + v, c)
  {
    hide Cut, SourceOf;
    var from, to := Cut(j.dstW, j.srcW, i), Cut(j.dstW, j.srcW, i + 1);
    CutAtMost(j.dstW, j.srcW, i + 1);
    CutGrows(j.dstW, j.srcW, i);
    forall u | from <= u < to
      ensures SourceOf(j.dstW, j.srcW, u) == i
    {
      CutsIffSource(j.dstW, j.srcW, u, i);
    }
  }

  lemma {:induction false} CutAtMost(d: nat, s: nat, i: nat)
    requires s > 0 && i <= s
    ensures Cut(d, s, i) <= d
    decreases s - i
  {
    CutGrows(d, s, i);
    if i < s {
      CutAtMost(d, s, i + 1);
    }
  }

  // ----- copying

  // Writes n pixels of a row.
  method CopyShare(dst: Image, x: int, y: int, n: int, c: int)
    requires dst.Valid() && n >= 0 && c >= 0
    modifies dst.pixels
    ensures dst.Pixels() == Stroke(old(dst.Pixels()), x, n, y, c)
  {
    hide Stroke, Image.Pixels;
    ghost var pic := dst.Pixels();
    StrokeGrows(pic, x, 0, y, c);
    var i := 0;
    while i < n
      invariant 0 <= i <= n && dst.Pixels() == Stroke(pic, x, i, y, c)
    {
      StrokeGrows(pic, x, i, y, c);
      dst.SetPixel(x + i, y, c);
      i := i + 1;
    }
  }

  lemma StrokeGrows(pic: Picture, x: int, n: nat, y: int, c: int)
    ensures Stroke(pic, x, 0, y, c) == pic
    ensures var pic', p := Stroke(pic, x, n, y, c), Point(x + n, y);
            Stroke(pic, x, n + 1, y, c) == if p in pic' then pic'[p := c] else pic'
  {
  }

  // What one source pixel gives to a new row.
  method CopyColumn(dst: Image, src: Image, j: Job, i: nat, tox: int, n: int, l: nat, v: nat, ghost pic: Picture)
    requires dst.Valid() && src.Valid() && src.pixels != dst.pixels
    requires forall p | p in src.Pixels() :: src.Pixels()[p] >= 0
    requires l < j.srcH && v < j.dstH && i < j.srcW && SourceOf(j.dstH, j.srcH, v) == l
    requires n == Cut(j.dstW, j.srcW, i + 1) - Cut(j.dstW, j.srcW, i) >= 0 && tox == j.dstX + Cut(j.dstW, j.srcW, i)
    requires dst.Pixels() == Copied(j, src.Pixels(), pic, Cut(j.dstW, j.srcW, i), v)
    modifies dst.pixels
    ensures dst.Pixels() == Copied(j, src.Pixels(), pic, Cut(j.dstW, j.srcW, i + 1), v)
  {
    hide Cut, SourceOf, Copied, Stroke, Image.Pixels;
    ShareCopied(j, src.Pixels(), pic, i, l, v);
    var c := src.GetPixel(j.srcX + i, j.srcY + l);
    if c != j.transparent {
      CopyShare(dst, tox, j.dstY + v, n, c);
    }
  }

  // One new row.
  method CopyRow(dst: Image, src: Image, j: Job, stx: array<int>, l: nat, v: nat, ghost pic: Picture)
    requires dst.Valid() && src.Valid() && src.pixels != dst.pixels
    requires forall p | p in src.Pixels() :: src.Pixels()[p] >= 0
    requires l < j.srcH && v < j.dstH && j.srcW > 0 && SourceOf(j.dstH, j.srcH, v) == l
    requires stx.Length == j.srcW
    requires forall i | 0 <= i < j.srcW :: stx[i] == Cut(j.dstW, j.srcW, i + 1) - Cut(j.dstW, j.srcW, i) >= 0
    requires dst.Pixels() == Copied(j, src.Pixels(), pic, 0, v)
    modifies dst.pixels
    ensures dst.Pixels() == Copied(j, src.Pixels(), pic, 0, v + 1)
  {
    hide Cut, SourceOf, Copied, Stroke, Image.Pixels;
    CutGrows(j.dstW, j.srcW, 0);
    ghost var spic := src.Pixels();
    var tox := j.dstX;
    var i := 0;
    while i < j.srcW
      invariant 0 <= i <= j.srcW && tox == j.dstX + Cut(j.dstW, j.srcW, i) && src.Pixels() == spic
      invariant dst.Pixels() == Copied(j, spic, pic, Cut(j.dstW, j.srcW, i), v)
    {
      if stx[i] != 0 {
        CopyColumn(dst, src, j, i, tox, stx[i], l, v, pic);
        tox := tox + stx[i];
      }
      i := i + 1;
    }
    RowCopied(j, spic, pic, v);
  }

  method CopyResized(dst: Image, src: Image, j: Job)
    requires dst.Valid() && src.Valid() && src.pixels != dst.pixels
    requires forall p | p in src.Pixels() :: src.Pixels()[p] >= 0
    modifies dst.pixels
    ensures dst.Pixels() == Resized(j, src.Pixels(), old(dst.Pixels()))
  {
    var stx := Stretch(j.dstW, j.srcW);
    var sty := Stretch(j.dstH, j.srcH);
    if j.srcW > 0 && j.srcH > 0 {
      CopyRows(dst, src, j, stx, sty);
    }
  }

  method CopyRows(dst: Image, src: Image, j: Job, stx: array<int>, sty: array<int>)
    requires dst.Valid() && src.Valid() && src.pixels != dst.pixels
    requires forall p | p in src.Pixels() :: src.Pixels()[p] >= 0
    requires j.srcW > 0 && j.srcH > 0 && stx.Length == j.srcW && sty.Length == j.srcH
    requires forall i | 0 <= i < j.srcW :: stx[i] == Cut(j.dstW, j.srcW, i + 1) - Cut(j.dstW, j.srcW, i) >= 0
    requires forall i | 0 <= i < j.srcH :: sty[i] == Cut(j.dstH, j.srcH, i + 1) - Cut(j.dstH, j.srcH, i) >= 0
    modifies dst.pixels
    ensures dst.Pixels() == Copied(j, src.Pixels(), old(dst.Pixels()), 0, j.dstH)
  {
    hide Cut, SourceOf, Copied, Image.Pixels;
    ghost var pic, spic := dst.Pixels(), src.Pixels();
    NothingCopied(j, spic, pic);
    CutGrows(j.dstH, j.srcH, 0);
    var v := 0;
    var l := 0;
    while l < j.srcH
      invariant 0 <= l <= j.srcH && v == Cut(j.dstH, j.srcH, l)
      invariant dst.Pixels() == Copied(j, spic, pic, 0, v)
    {
      CutAtMost(j.dstH, j.srcH, l + 1);
      var ydest := 0;
      while ydest < sty[l]
        invariant 0 <= ydest <= sty[l] && v == Cut(j.dstH, j.srcH, l) + ydest
        invariant dst.Pixels() == Copied(j, spic, pic, 0, v)
      {
        CutsIffSource(j.dstH, j.srcH, v, l);
        CopyRow(dst, src, j, stx, l, v, pic);
        v := v + 1;
        ydest := ydest + 1;
      }
      l := l + 1;
    }
  }
}
