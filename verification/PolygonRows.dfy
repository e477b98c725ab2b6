/**
 One row of a filled polygon: where its edges cross the row, why the crossings come
 in pairs, and which points lie between the pairs once they are sorted.
 */
module PolygonRows {
  import opened Arithmetic
  import opened Flooding
  import opened Sequences

  // ----- crossings

  // The corner before the i-th; the polygon is closed.
  function Before(ps: seq<Point>, i: nat): Point
    requires i < |ps|
  {
    if i == 0 then ps[|ps| - 1] else ps[i - 1]
  }

  // The edge between a and b counts on row y: corners count for the edge that leads
  // down from them, but on the last row for the one that leads down to them.
  predicate Cuts(a: Point, b: Point, y: int, maxy: int) {
    var lo, hi := if a.y < b.y then a.y else b.y, if a.y < b.y then b.y else a.y;
    lo < hi && ((y >= lo && y < hi) || (y == maxy && y > lo && y <= hi))
  }

  // Where the edge down from a to b crosses row y, rounded to a column.
  function Column(a: Point, b: Point, y: int): int
    requires a.y < b.y
  {
    Truncated(((y - a.y) * (b.x - a.x)) as real / (b.y - a.y) as real + 0.5 + a.x as real)
  }

  function Crossing(a: Point, b: Point, y: int): int
    requires a.y != b.y
  {
    if a.y < b.y then Column(a, b, y) else Column(b, a, y)
  }

  // The crossings of the first n edges with row y.
  function Crossings(ps: seq<Point>, y: int, maxy: int, n: nat): (r: seq<int>)
    requires n <= |ps|
    ensures |r| <= n
  {
    if n == 0 then []
    else
      var before := Crossings(ps, y, maxy, n - 1);
      var a, b := Before(ps, n - 1), ps[n - 1];
      if Cuts(a, b, y, maxy) then before + [Crossing(a, b, y)] else before
  }

  // An edge crosses a row between its ends.
  lemma ColumnIsBetween(a: Point, b: Point, y: int)
    requires a.y < b.y && a.y <= y <= b.y && a.x >= 0 && b.x >= 0
    ensures (if a.x < b.x then a.x else b.x) <= Column(a, b, y) <= (if a.x < b.x then b.x else a.x)
  {
    var k, h, w := y - a.y, b.y - a.y, b.x - a.x;
    var q := (k * w) as real / h as real;
    assert q * h as real == (k * w) as real;
    Scaled(k, h, w);
    Ratio(q, h, k * w, if w >= 0 then 0 else w, if w >= 0 then w else 0);
  }

  lemma {:induction false} CrossingsAreInside(ps: seq<Point>, y: int, maxy: int, n: nat, sx: int)
    requires n <= |ps| && forall p | p in ps :: 0 <= p.x < sx
    ensures forall x | x in Crossings(ps, y, maxy, n) :: 0 <= x < sx
  {
    if n > 0 {
      CrossingsAreInside(ps, y, maxy, n - 1, sx);
      var a, b := Before(ps, n - 1), ps[n - 1];
      if Cuts(a, b, y, maxy) {
        if a.y < b.y {
          ColumnIsBetween(a, b, y);
        } else {
          ColumnIsBetween(b, a, y);
        }
      }
    }
  }

  // ----- why they come in pairs

  // How many of the first n edges end on row y from above.
  function EndsOn(ps: seq<Point>, y: int, n: nat): nat
    requires n <= |ps|
  {
    if n == 0 then 0
    else
      var a, b := Before(ps, n - 1), ps[n - 1];
      EndsOn(ps, y, n - 1) + if (a.y < b.y == y) || (b.y < a.y == y) then 1 else 0
  }

  // An edge is cut when its ends are on different sides of the row, or else, on the
  // last row, when it ends there.
  lemma CutsIff(a: Point, b: Point, y: int, maxy: int)
    ensures Cuts(a, b, y, maxy) <==> (a.y <= y) != (b.y <= y) || (y == maxy && (a.y < b.y == y || b.y < a.y == y))
    ensures !((a.y <= y) != (b.y <= y) && (a.y < b.y == y || b.y < a.y == y))
  {
  }

  predicate Odd(n: nat) {
    n % 2 == 1
  }

  lemma OddNext(n: nat)
    ensures Odd(n + 1) <==> !Odd(n)
  {
  }

  // Going around, the corners change from one side of the row to the other as often as
  // back: on all rows but the last there is an even number of crossings, and on the
  // last row as many more as edges end on it.
  lemma {:induction false} SidesChange(ps: seq<Point>, y: int, maxy: int, n: nat)
    requires 0 < n <= |ps|
    ensures Odd(|Crossings(ps, y, maxy, n)|) <==>
            ((ps[n - 1].y <= y) != (ps[|ps| - 1].y <= y)) != (y == maxy && Odd(EndsOn(ps, y, n)))
  {
    CutsIff(Before(ps, n - 1), ps[n - 1], y, maxy);
    OddNext(|Crossings(ps, y, maxy, n - 1)|);
    OddNext(EndsOn(ps, y, n - 1));
    if n == 1 {
      assert Crossings(ps, y, maxy, 0) == [] && EndsOn(ps, y, 0) == 0;
      assert !Odd(0);
    } else {
      SidesChange(ps, y, maxy, n - 1);
    }
    hide Cuts, Odd;
  }

  lemma CrossingsAreEvenIff(ps: seq<Point>, y: int, maxy: int)
    requires ps != []
    ensures |Crossings(ps, y, maxy, |ps|)| % 2 == 0 <==> y != maxy || EndsOn(ps, y, |ps|) % 2 == 0
  {
    SidesChange(ps, y, maxy, |ps|);
    assert Odd(|Crossings(ps, y, maxy, |ps|)|) <==> y == maxy && Odd(EndsOn(ps, y, |ps|));
  }

  lemma {:induction false} EndsChange(ps: seq<Point>, y: int, n: nat)
    requires 0 < n <= |ps| && forall p | p in ps :: p.y <= y
    ensures EndsOn(ps, y, n) % 2 == if (ps[n - 1].y < y) == (ps[|ps| - 1].y < y) then 0 else 1
  {
    if n > 1 {
      EndsChange(ps, y, n - 1);
    } else {
      assert EndsOn(ps, y, 0) == 0;
    }
  }

  // On every row of a polygon that is not cut off below.
  lemma CrossingsAreEven(ps: seq<Point>, y: int, maxy: int)
    requires ps != [] && forall p | p in ps :: p.y <= maxy
    ensures |Crossings(ps, y, maxy, |ps|)| % 2 == 0
  {
    CrossingsAreEvenIff(ps, y, maxy);
    if y == maxy {
      EndsChange(ps, y, |ps|);
    }
  }

  // A triangle that is cut off at its middle corner has three crossings there.
  lemma OddWhenCutOff()
    ensures |Crossings([Point(0, 0), Point(2, 1), Point(0, 2)], 1, 1, 3)| == 3
  {
    var ps := [Point(0, 0), Point(2, 1), Point(0, 2)];
    assert Crossings(ps, 1, 1, 0) == [];
    assert |Crossings(ps, 1, 1, 1)| == 1;
    assert |Crossings(ps, 1, 1, 2)| == 2;
  }

  // ----- between the pairs

  ghost predicate Sorted(s: seq<int>) {
    forall i, j | 0 <= i < j < |s| :: s[i] <= s[j]
  }

  // How many of s are left of x.
  function LeftOf(s: seq<int>, x: int): nat {
    if s == [] then 0 else LeftOf(s[..|s| - 1], x) + if s[|s| - 1] < x then 1 else 0
  }

  // The even-odd rule: x is a crossing, or there is an odd number of them to its left.
  predicate Inside(s: seq<int>, x: int) {
    x in s || LeftOf(s, x) % 2 == 1
  }

  // x lies between a pair.
  predicate Between(s: seq<int>, x: int)
    requires |s| % 2 == 0
  {
    s != [] && (Between(s[..|s| - 2], x) || s[|s| - 2] <= x <= s[|s| - 1])
  }

  // For sorted crossings the points between the pairs are those of the even-odd rule.
  lemma {:induction false} BetweenIsInside(s: seq<int>, x: int)
    requires Sorted(s) && |s| % 2 == 0
    ensures Between(s, x) <==> Inside(s, x)
  {
    if s != [] {
      var n := |s|;
      var rest, a, b := s[..n - 2], s[n - 2], s[n - 1];
      BetweenIsInside(rest, x);
      LeftOfPair(s, x);
      BetweenPair(s, x);
      hide Between, LeftOf;
      assert Sorted(s) ==> a <= b && forall i | 0 <= i < n - 2 :: rest[i] <= a;
      if a < x {
        LeftOfAll(rest, x);
      }
      hide Sorted;
    }
  }

  lemma LeftOfPair(s: seq<int>, x: int)
    requires |s| >= 2
    ensures LeftOf(s, x) ==
            LeftOf(s[..|s| - 2], x) + (if s[|s| - 2] < x then 1 else 0) + if s[|s| - 1] < x then 1 else 0
  {
    var t := s[..|s| - 1];
    assert t[..|t| - 1] == s[..|s| - 2];
  }

  lemma BetweenPair(s: seq<int>, x: int)
    requires |s| >= 2 && |s| % 2 == 0
    ensures Between(s, x) <==> Between(s[..|s| - 2], x) || s[|s| - 2] <= x <= s[|s| - 1]
    ensures x in s <==> x in s[..|s| - 2] || x == s[|s| - 2] || x == s[|s| - 1]
  {
    assert s == s[..|s| - 2] + [s[|s| - 2], s[|s| - 1]];
  }

  lemma {:induction false} LeftOfAll(s: seq<int>, x: int)
    ensures (forall i | 0 <= i < |s| :: s[i] < x) ==> LeftOf(s, x) == |s|
    ensures (forall i | 0 <= i < |s| :: s[i] >= x) ==> LeftOf(s, x) == 0
  {
    if s != [] {
      LeftOfAll(s[..|s| - 1], x);
    }
  }

  // The rule does not depend on the order of the crossings.
  lemma {:induction false} InsideIsOrderless(s: seq<int>, t: seq<int>, x: int)
    requires multiset(s) == multiset(t)
    ensures Inside(s, x) <==> Inside(t, x)
  {
    LeftOfIsOrderless(s, t, x);
    assert x in s <==> x in multiset(s);
    assert x in t <==> x in multiset(t);
  }

  lemma {:induction false} LeftOfIsOrderless(s: seq<int>, t: seq<int>, x: int)
    requires multiset(s) == multiset(t)
    ensures LeftOf(s, x) == LeftOf(t, x)
    decreases |s|
  {
    hide LeftOf;
    if s == [] {
      SameMembers(s, t);
    } else {
      var i := OneLess(s, t);
      LeftOfIsOrderless(s[1..], t[..i] + t[i + 1..], x);
      LeftOfWithout(s, 0, x);
      assert s[..0] + s[1..] == s[1..];
      LeftOfWithout(t, i, x);
    }
  }

  lemma LeftOfWithout(t: seq<int>, i: nat, x: int)
    requires i < |t|
    ensures LeftOf(t, x) == LeftOf(t[..i] + t[i + 1..], x) + if t[i] < x then 1 else 0
  {
    var a, b, c := t[..i], [t[i]], t[i + 1..];
    assert LeftOf(b, x) == LeftOf(b[..0], x) + if t[i] < x then 1 else 0;
    hide LeftOf;
    LeftOfAll(b[..0], x);
    assert t == a + (b + c);
    LeftOfConcat(a, b + c, x);
    LeftOfConcat(b, c, x);
    LeftOfConcat(a, c, x);
  }

  lemma {:induction false} LeftOfConcat(a: seq<int>, b: seq<int>, x: int)
    ensures LeftOf(a + b, x) == LeftOf(a, x) + LeftOf(b, x)
    decreases |b|
  {
    if b == [] {
      assert a + b == a;
    } else {
      LeftOfConcat(a, b[..|b| - 1], x);
      assert (a + b)[..|a + b| - 1] == a + b[..|b| - 1];
    }
  }
}
