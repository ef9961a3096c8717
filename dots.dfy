/** Pending dots and how `Map#render` turns one into a drawing primitive:
    `dot_side` (the rounded edge of a square of the given area, scaled by the
    point size), the point-or-square choice, and the descending-area order
    in which a batch is drawn. */
module Dots {

  /** An entry of `@dots`: `[x, y, area]`. */
  datatype Dot = Dot(x: real, y: real, area: real)

  /** A primitive of the graphics context: `gc.point(x, y)` or
      `gc.rectangle(x1, y1, x2, y2)`. */
  datatype Shape = Point(x: real, y: real) | Rect(x1: real, y1: real, x2: real, y2: real)

  function Sq(v: real): real { v * v }

  function Abs(n: int): nat { if n < 0 then -n else n }

  lemma SqMonotone(a: real, b: real)
    requires 0.0 <= a <= b
    ensures Sq(a) <= Sq(b)
  {
    assert Sq(b) - Sq(a) == (b - a) * (b + a);
    assert (b - a) * (b + a) >= 0.0 by {
      assert b - a >= 0.0 && b + a >= 0.0;
    }
  }

  // ---------------------------------------------------------------------
  // dot_side: (@point_size * Math.sqrt(area)).round, over exact reals.
  // round(v) for v >= 0 is the n with n - 1/2 <= v < n + 1/2; squaring
  // both sides removes the root: (n - 1/2)^2 <= q < (n + 1/2)^2 for q = v^2.

  /** The nearest integer to the square root of `q`, halves rounded up,
      searched upwards from `n`. */
  function RoundedRootFrom(q: real, n: nat): (r: nat)
    requires q >= 0.0
    requires n == 0 || Sq(n as real - 0.5) <= q
    ensures n <= r
    ensures r == 0 || Sq(r as real - 0.5) <= q
    ensures q < Sq(r as real + 0.5)
    decreases q.Floor + 1 - n
  {
    if q < Sq(n as real + 0.5) then n
    else
      assert n as real <= q by {
        assert Sq(n as real + 0.5) == n as real * n as real + n as real + 0.25;
        assert n as real * n as real >= 0.0;
      }
      assert n <= q.Floor;
      assert (n + 1) as real - 0.5 == n as real + 0.5;
      RoundedRootFrom(q, n + 1)
  }

  /** `Math.sqrt(q).round` for `q >= 0`. */
  function RoundedRoot(q: real): (r: nat)
    requires q >= 0.0
    ensures r == 0 || Sq(r as real - 0.5) <= q
    ensures q < Sq(r as real + 0.5)
  {
    RoundedRootFrom(q, 0)
  }

  /** The two bounds pin the rounded root down: no other integer meets them. */
  lemma RoundedRootUnique(q: real, m: nat)
    requires q >= 0.0
    requires m == 0 || Sq(m as real - 0.5) <= q
    requires q < Sq(m as real + 0.5)
    ensures RoundedRoot(q) == m
  {
    var r := RoundedRoot(q);
    if m < r {
      SqMonotone(m as real + 0.5, r as real - 0.5);
    } else if r < m {
      SqMonotone(r as real + 0.5, m as real - 0.5);
    }
  }

  /** A larger radicand never gives a smaller rounded root. */
  lemma RoundedRootMonotone(q1: real, q2: real)
    requires 0.0 <= q1 <= q2
    ensures RoundedRoot(q1) <= RoundedRoot(q2)
  {
    var r1, r2 := RoundedRoot(q1), RoundedRoot(q2);
    if r1 > r2 {
      SqMonotone(r2 as real + 0.5, r1 as real - 0.5);
    }
  }

  /** `dot_side(area)` with `@point_size` = `pointSize`: the integer nearest
      to `pointSize * sqrt(area)`, halves rounded away from zero as
      `Float#round` does. `Math.sqrt` raises for a negative area, which the
      renderer checks before calling this. */
  function DotSide(pointSize: real, area: real): (side: int)
    requires area >= 0.0
    ensures pointSize >= 0.0 ==> side >= 0
    ensures pointSize < 0.0 ==> side <= 0
    ensures side == 0 || Sq(Abs(side) as real - 0.5) <= Sq(pointSize) * area
    ensures Sq(pointSize) * area < Sq(Abs(side) as real + 0.5)
  {
    var n: int := RoundedRoot(Sq(pointSize) * area);
    if pointSize >= 0.0 then n else -n
  }

  /** A dot of area 4.41 at unit point size has side 2. */
  lemma DotSideOfFractionalArea()
    ensures DotSide(1.0, 4.41) == 2
  {
    RoundedRootUnique(Sq(1.0) * 4.41, 2);
  }

  /** A dot of area 0 has side 0 whatever the point size: it is drawn as a point. */
  lemma DotSideOfZeroArea(pointSize: real)
    ensures DotSide(pointSize, 0.0) == 0
  {
    RoundedRootUnique(Sq(pointSize) * 0.0, 0);
  }

  /** At unit point size the side of a dot of area k*k is exactly k. */
  lemma DotSideOfSquareArea(k: nat)
    ensures DotSide(1.0, (k * k) as real) == k
  {
    var q := Sq(1.0) * (k * k) as real;
    assert q == k as real * k as real;
    assert Sq(k as real + 0.5) == k as real * k as real + k as real + 0.25;
    assert Sq(k as real - 0.5) == k as real * k as real - k as real + 0.25;
    RoundedRootUnique(q, k);
  }

  /** At a non-negative point size a larger area never gives a smaller side. */
  lemma DotSideMonotone(pointSize: real, a: real, b: real)
    requires pointSize >= 0.0
    requires 0.0 <= a <= b
    ensures DotSide(pointSize, a) <= DotSide(pointSize, b)
  {
    assert Sq(pointSize) >= 0.0;
    assert Sq(pointSize) * a <= Sq(pointSize) * b;
    RoundedRootMonotone(Sq(pointSize) * a, Sq(pointSize) * b);
  }

  /** `h = (0.5 * side).round` for a non-negative integer side: half the
      side, halves rounded up. */
  function HalfSide(side: int): (h: int)
    requires side >= 0
    ensures 2 * h - 1 <= side <= 2 * h
  {
    (side + 1) / 2
  }

  /** The primitive `render` issues for one dot: a point when the side is at
      most 1, otherwise a square with corners `x - h, y - h` and
      `x - h + side, y - h + side`. */
  function DotShape(d: Dot, pointSize: real): (s: Shape)
    requires d.area >= 0.0
    ensures s.Point? <==> DotSide(pointSize, d.area) <= 1
    ensures s.Point? ==> s == Point(d.x, d.y)
    ensures s.Rect? ==>
      && s.x2 - s.x1 == DotSide(pointSize, d.area) as real
      && s.y2 - s.y1 == DotSide(pointSize, d.area) as real
    ensures s.Rect? ==>
      && s.x1 == d.x - HalfSide(DotSide(pointSize, d.area)) as real
      && s.y1 == d.y - HalfSide(DotSide(pointSize, d.area)) as real
    ensures s.Rect? ==> s.x1 < d.x < s.x2 && s.y1 < d.y < s.y2
    ensures s.Rect? ==>
      && d.x - 0.5 <= (s.x1 + s.x2) / 2.0 <= d.x
      && d.y - 0.5 <= (s.y1 + s.y2) / 2.0 <= d.y
  {
    var side := DotSide(pointSize, d.area);
    if side <= 1 then Point(d.x, d.y)
    else
      var h := HalfSide(side) as real;
      var x1 := d.x - h;
      var y1 := d.y - h;
      Rect(x1, y1, x1 + side as real, y1 + side as real)
  }

  predicate AllNonNegative(dots: seq<Dot>)
  {
    forall i :: 0 <= i < |dots| ==> dots[i].area >= 0.0
  }

  /** The primitives for a sequence of dots, in that order. */
  function Shapes(dots: seq<Dot>, pointSize: real): (r: seq<Shape>)
    requires AllNonNegative(dots)
  {
    seq(|dots|, i requires 0 <= i < |dots| => DotShape(dots[i], pointSize))
  }

  // ---------------------------------------------------------------------
  // `@dots.sort! {|a, b| b[2] <=> a[2] }`: largest area first. Ruby's sort
  // is not stable, so the contracts promise only some ordering by area.

  predicate DescendingArea(dots: seq<Dot>)
  {
    forall i, j :: 0 <= i < j < |dots| ==> dots[i].area >= dots[j].area
  }

  /** `order` holds the same dots as `dots`, largest area first. */
  predicate IsAreaOrdering(order: seq<Dot>, dots: seq<Dot>)
  {
    multiset(order) == multiset(dots) && DescendingArea(order)
  }

  function InsertByArea(d: Dot, sorted: seq<Dot>): (r: seq<Dot>)
  {
    if sorted == [] || d.area >= sorted[0].area then [d] + sorted
    else [sorted[0]] + InsertByArea(d, sorted[1..])
  }

  /** The ordering the model's `sort!` produces (an insertion sort). */
  function SortByArea(dots: seq<Dot>): seq<Dot>
  {
    if dots == [] then [] else InsertByArea(dots[0], SortByArea(dots[1..]))
  }

  lemma {:induction false} InsertByAreaOrders(d: Dot, sorted: seq<Dot>)
    requires DescendingArea(sorted)
    ensures multiset(InsertByArea(d, sorted)) == multiset(sorted) + multiset{d}
    ensures DescendingArea(InsertByArea(d, sorted))
    ensures InsertByArea(d, sorted)[0] == d || InsertByArea(d, sorted)[0] == sorted[0]
    decreases |sorted|
  {
    if sorted == [] || d.area >= sorted[0].area {
    } else {
      var tail := sorted[1..];
      assert DescendingArea(tail);
      InsertByAreaOrders(d, tail);
      assert sorted == [sorted[0]] + tail;
      var r := InsertByArea(d, sorted);
      assert r == [sorted[0]] + InsertByArea(d, tail);
      forall i, j | 0 <= i < j < |r| ensures r[i].area >= r[j].area {
        if i == 0 {
          if tail == [] {
            assert r[j] == d;
          } else {
            assert r[j] in multiset(InsertByArea(d, tail));
            assert r[j] in multiset(tail) + multiset{d};
            if r[j] != d {
              assert r[j] in tail;
            }
          }
        }
      }
    }
  }

  /** The model's sort puts the pending dots in descending-area order
      without losing or adding any. */
  lemma {:induction false} SortByAreaOrders(dots: seq<Dot>)
    ensures IsAreaOrdering(SortByArea(dots), dots)
    decreases |dots|
  {
    if dots != [] {
      SortByAreaOrders(dots[1..]);
      InsertByAreaOrders(dots[0], SortByArea(dots[1..]));
      assert dots == [dots[0]] + dots[1..];
    }
  }

  /** Reordering keeps the question whether some area is negative. */
  lemma SameDotsSameSigns(a: seq<Dot>, b: seq<Dot>)
    requires multiset(a) == multiset(b)
    ensures AllNonNegative(a) <==> AllNonNegative(b)
  {
    if AllNonNegative(a) {
      forall i | 0 <= i < |b| ensures b[i].area >= 0.0 {
        assert b[i] in multiset(a);
      }
    }
    if AllNonNegative(b) {
      forall i | 0 <= i < |a| ensures a[i].area >= 0.0 {
        assert a[i] in multiset(b);
      }
    }
  }

  /** A batch's primitives are those of the pending dots taken largest area
      first, in some order Ruby's unstable sort may choose. */
  ghost predicate DrawsInAreaOrder(shapes: seq<Shape>, dots: seq<Dot>, pointSize: real)
  {
    exists order :: IsAreaOrdering(order, dots) && AllNonNegative(order) && shapes == Shapes(order, pointSize)
  }

  lemma ShapesConcat(a: seq<Dot>, b: seq<Dot>, pointSize: real)
    requires AllNonNegative(a) && AllNonNegative(b)
    ensures AllNonNegative(a + b)
    ensures Shapes(a + b, pointSize) == Shapes(a, pointSize) + Shapes(b, pointSize)
  {
    assert AllNonNegative(a + b) by {
      forall i | 0 <= i < |a + b| ensures (a + b)[i].area >= 0.0 {
        if i < |a| { assert (a + b)[i] == a[i]; } else { assert (a + b)[i] == b[i - |a|]; }
      }
    }
  }

  /** Taking one dot out of a sequence takes its primitive out of the
      primitives. */
  lemma ShapesRemove(b: seq<Dot>, j: nat, pointSize: real)
    requires AllNonNegative(b) && j < |b|
    ensures AllNonNegative(b[..j] + b[j + 1..])
    ensures multiset(Shapes(b, pointSize))
         == multiset(Shapes(b[..j] + b[j + 1..], pointSize)) + multiset{DotShape(b[j], pointSize)}
  {
    var l, d, r := b[..j], [b[j]], b[j + 1..];
    assert b == l + d + r;
    assert AllNonNegative(l) && AllNonNegative(d) && AllNonNegative(r);
    ShapesConcat(l, d, pointSize);
    ShapesConcat(l + d, r, pointSize);
    ShapesConcat(l, r, pointSize);
    assert Shapes(d, pointSize) == [DotShape(b[j], pointSize)];
  }

  /** Dots that are a permutation of each other give primitives that are a
      permutation of each other. */
  lemma {:induction false} PermutedShapes(a: seq<Dot>, b: seq<Dot>, pointSize: real)
    requires multiset(a) == multiset(b) && AllNonNegative(a)
    ensures AllNonNegative(b)
    ensures multiset(Shapes(a, pointSize)) == multiset(Shapes(b, pointSize))
    decreases |a|
  {
    SameDotsSameSigns(a, b);
    if a != [] {
      var d := a[0];
      assert d in multiset(b);
      var j :| 0 <= j < |b| && b[j] == d;
      var rest := b[..j] + b[j + 1..];
      assert b == b[..j] + [d] + b[j + 1..];
      assert a == [d] + a[1..];
      assert multiset(b) == multiset(b[..j]) + multiset{d} + multiset(b[j + 1..]);
      assert multiset(a) == multiset{d} + multiset(a[1..]);
      assert multiset(rest) == multiset(b[..j]) + multiset(b[j + 1..]);
      assert multiset(a[1..]) == multiset(a) - multiset{d};
      assert multiset(rest) == multiset(b) - multiset{d};
      assert AllNonNegative(a[1..]) by {
        forall i | 0 <= i < |a[1..]| ensures a[1..][i].area >= 0.0 { assert a[1..][i] == a[i + 1]; }
      }
      PermutedShapes(a[1..], rest, pointSize);
      ShapesRemove(b, j, pointSize);
      ShapesRemove(a, 0, pointSize);
      assert a[..0] + a[1..] == a[1..];
    }
  }

  /** A batch drawn from the pending dots has exactly one primitive per dot:
      every pending dot is drawn, and every primitive comes from a pending dot. */
  lemma DrawnShapesCoverDots(shapes: seq<Shape>, dots: seq<Dot>, pointSize: real)
    requires DrawsInAreaOrder(shapes, dots, pointSize)
    ensures AllNonNegative(dots)
    ensures |shapes| == |dots|
    ensures multiset(shapes) == multiset(Shapes(dots, pointSize))
    ensures forall i :: 0 <= i < |dots| ==> DotShape(dots[i], pointSize) in shapes
    ensures forall k :: 0 <= k < |shapes| ==>
      exists i :: 0 <= i < |dots| && shapes[k] == DotShape(dots[i], pointSize)
  {
    var order :| IsAreaOrdering(order, dots) && AllNonNegative(order) && shapes == Shapes(order, pointSize);
    SameDotsSameSigns(order, dots);
    PermutedShapes(order, dots, pointSize);
    assert |order| == |multiset(order)| == |multiset(dots)| == |dots|;
    forall i | 0 <= i < |dots| ensures DotShape(dots[i], pointSize) in shapes {
      assert dots[i] in multiset(order);
      var j :| 0 <= j < |order| && order[j] == dots[i];
      assert shapes[j] == DotShape(dots[i], pointSize);
    }
    forall k | 0 <= k < |shapes|
      ensures exists i :: 0 <= i < |dots| && shapes[k] == DotShape(dots[i], pointSize)
    {
      assert order[k] in multiset(dots);
      var i :| 0 <= i < |dots| && dots[i] == order[k];
      assert shapes[k] == DotShape(dots[i], pointSize);
    }
  }
  /** A single pending dot is drawn as its own primitive. */
  lemma DrawnSingleDot(shapes: seq<Shape>, d: Dot, pointSize: real)
    requires DrawsInAreaOrder(shapes, [d], pointSize)
    ensures shapes == [DotShape(d, pointSize)]
  {
    DrawnShapesCoverDots(shapes, [d], pointSize);
    assert Shapes([d], pointSize) == [DotShape(d, pointSize)];
    assert shapes[0] in multiset(shapes);
  }

}
