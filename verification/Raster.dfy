/**
 Integer line and circle drawing into the frame buffer. The points a primitive visits are
 pinned by rounding conditions, and the frame buffer changes at exactly the visible ones.
 */
module Raster {
  type Point = (int, int)

  function Abs(v: int): (r: nat)
    ensures r == v || r == -v
  {
    if v < 0 then -v else v
  }

  function Max(a: int, b: int): (r: int) { if a < b then b else a }

  function Min(a: int, b: int): (r: int) { if a < b then a else b }

  // ----- painting -----

  predicate Visible(p: Point, w: nat, h: nat) { 0 <= p.0 < w && 0 <= p.1 < h }

  lemma InBuffer(p: Point, w: nat, h: nat)
    requires Visible(p, w, h)
    ensures 0 <= p.1 * w + p.0 < w * h
  {
    assert (p.1 + 1) * w <= h * w;
  }

  lemma PlacesDiffer(p: Point, q: Point, w: nat, h: nat)
    requires Visible(p, w, h) && Visible(q, w, h) && p != q
    ensures p.1 * w + p.0 != q.1 * w + q.0
  {
    if p.1 < q.1 {
      assert (p.1 + 1) * w <= q.1 * w;
    } else if q.1 < p.1 {
      assert (q.1 + 1) * w <= p.1 * w;
    }
  }

  /** One pixel; points off the screen are ignored. */
  function Paint(fb: seq<int>, w: nat, h: nat, p: Point, color: int): (r: seq<int>)
    requires |fb| == w * h
    ensures |r| == w * h
  {
    if Visible(p, w, h) then InBuffer(p, w, h); fb[p.1 * w + p.0 := color] else fb
  }

  function PaintAll(fb: seq<int>, w: nat, h: nat, ps: seq<Point>, color: int): (r: seq<int>)
    requires |fb| == w * h
    ensures |r| == w * h
  {
    if ps == [] then fb else Paint(PaintAll(fb, w, h, ps[..|ps| - 1], color), w, h, ps[|ps| - 1], color)
  }

  function PixelAt(fb: seq<int>, w: nat, h: nat, p: Point): (r: int)
    requires |fb| == w * h && Visible(p, w, h)
  {
    InBuffer(p, w, h);
    fb[p.1 * w + p.0]
  }

  /** Painting colours the visible points of the list and leaves every other pixel. */
  lemma {:induction false} PaintAllAt(fb: seq<int>, w: nat, h: nat, ps: seq<Point>, color: int, p: Point)
    requires |fb| == w * h && Visible(p, w, h)
    ensures PixelAt(PaintAll(fb, w, h, ps, color), w, h, p) == if p in ps then color else PixelAt(fb, w, h, p)
    decreases |ps|
  {
    if ps != [] {
      var last := ps[|ps| - 1];
      PaintAllAt(fb, w, h, ps[..|ps| - 1], color, p);
      assert p in ps <==> p in ps[..|ps| - 1] || p == last;
      if Visible(last, w, h) && last != p {
        PlacesDiffer(last, p, w, h);
        InBuffer(last, w, h);
      }
      InBuffer(p, w, h);
    }
  }

  /** The buffer holds the rows one after another: place `k` is column `k % w` of row `k / w`. */
  lemma BufferAt(fb: seq<int>, w: nat, h: nat, ps: seq<Point>, color: int, k: nat)
    requires |fb| == w * h && k < w * h
    ensures w > 0 && PaintAll(fb, w, h, ps, color)[k] == if (k % w, k / w) in ps then color else fb[k]
  {
    Column(w, h, k);
    PaintAllAt(fb, w, h, ps, color, (k % w, k / w));
  }

  lemma Column(w: nat, h: nat, k: nat)
    requires k < w * h
    ensures w > 0 && Visible((k % w, k / w), w, h) && k / w * w + k % w == k
  {
    if h <= k / w {
      RowsGrow(h, k / w, w);
      assert false;
    }
  }

  lemma RowsGrow(a: nat, b: nat, w: nat)
    requires a <= b
    ensures a * w <= b * w
  {
  }

  // ----- lines -----

  /** How far, scaled, the point `i` right and `j` down is off the line to `dx` right and `dy` down. */
  function Off(dx: nat, dy: nat, i: nat, j: nat): (r: int) { dx * j - dy * i }

  /** The offset `v` is at most half a pixel of the axis `d`, halves up. */
  predicate Rounded(d: nat, v: int) { d == 0 || 0 < 2 * v + d <= 2 * d }

  /** After `k` steps: `i` along x and `j` along y, the longer axis stepping always and the other rounded. */
  predicate OnLine(dx: nat, dy: nat, k: nat, i: nat, j: nat) {
    if dx >= dy then i == k && Rounded(dx, Off(dx, dy, i, j)) && (dx == 0 ==> j == 0)
    else j == k && Rounded(dy, -Off(dx, dy, i, j))
  }

  lemma Times(d: nat, a: nat, b: nat)
    requires a < b
    ensures d * a + d <= d * b
  {
    assert d * (b - a - 1) >= 0;
  }

  /** A rounded position is determined by what it is rounded from. */
  lemma RoundedUnique(d: nat, a: nat, b: nat, v: int)
    requires d > 0 && Rounded(d, d * a - v) && Rounded(d, d * b - v)
    ensures a == b
  {
    if a < b {
      Times(d, a, b);
    } else if b < a {
      Times(d, b, a);
    }
  }

  /** The condition leaves one point for each step. */
  lemma OnLineUnique(dx: nat, dy: nat, k: nat, i: nat, j: nat, i': nat, j': nat)
    requires OnLine(dx, dy, k, i, j) && OnLine(dx, dy, k, i', j')
    ensures i == i' && j == j'
  {
    hide Rounded;
    if dx >= dy && dx > 0 {
      RoundedUnique(dx, j, j', dy * k);
    } else if dx < dy {
      RoundedUnique(dy, i, i', dx * k);
    }
  }

  /** The last step is at the end point, and no earlier one is. */
  lemma OnLineEnd(dx: nat, dy: nat, k: nat, i: nat, j: nat)
    requires OnLine(dx, dy, k, i, j) && k <= Max(dx, dy)
    ensures (i == dx && j == dy) <==> k == Max(dx, dy)
  {
    if k == Max(dx, dy) {
      assert dx * dy == dy * dx;
      assert Rounded(dx, 0) && Rounded(dy, 0);
      OnLineUnique(dx, dy, k, i, j, dx, dy);
    }
  }

  lemma RoundedBound(d: nat, a: nat, v: int, top: nat)
    requires d > 0 && Rounded(d, d * a - v) && v <= d * top
    ensures a <= top
  {
    if a > top {
      Times(d, top, a);
    }
  }

  lemma TimesUpTo(d: nat, a: nat, b: nat)
    requires a <= b
    ensures d * a <= d * b
  {
    if a < b {
      Times(d, a, b);
    }
  }

  /** Every point is in the box the end points span, and within half a pixel of the ideal line. */
  lemma OnLineBounds(dx: nat, dy: nat, k: nat, i: nat, j: nat)
    requires OnLine(dx, dy, k, i, j) && k <= Max(dx, dy)
    ensures i <= dx && j <= dy && 2 * Abs(Off(dx, dy, i, j)) <= Max(dx, dy)
  {
    if dx >= dy && dx > 0 {
      TimesUpTo(dy, i, dx);
      assert dy * dx == dx * dy;
      RoundedBound(dx, j, dy * i, dy);
    } else if dx < dy {
      TimesUpTo(dx, j, dy);
      assert dx * dy == dy * dx;
      RoundedBound(dy, i, dx * j, dx);
    }
  }

  /** The error term of the loop after `i` and `j` steps. */
  function Error(dx: nat, dy: nat, i: nat, j: nat): (r: int) { Off(dx, dy, i, j) + dx - dy }

  lemma OffNext(dx: nat, dy: nat, i: nat, j: nat)
    ensures Off(dx, dy, i + 1, j) == Off(dx, dy, i, j) - dy
    ensures Off(dx, dy, i, j + 1) == Off(dx, dy, i, j) + dx
  {
  }

  /** One turn of the loop takes the rounded point to the next rounded point. */
  lemma LineStep(dx: nat, dy: nat, k: nat, i: nat, j: nat)
    requires OnLine(dx, dy, k, i, j) && k < Max(dx, dy)
    ensures var e2 := 2 * Error(dx, dy, i, j);
            var i', j' := if e2 + dy >= 0 then i + 1 else i, if e2 <= dx then j + 1 else j;
            && OnLine(dx, dy, k + 1, i', j')
            && Error(dx, dy, i', j') ==
               Error(dx, dy, i, j) - (if e2 + dy >= 0 then dy else 0) + if e2 <= dx then dx else 0
  {
    hide Off;
    OffNext(dx, dy, i, j);
    OffNext(dx, dy, i + 1, j);
  }

  /** The point `i` and `j` steps from the start. */
  function Stepped(p0: Point, p1: Point, i: nat, j: nat): (r: Point) {
    (if p0.0 < p1.0 then p0.0 + i else p0.0 - i, if p0.1 < p1.1 then p0.1 + j else p0.1 - j)
  }

  /** `p` is the rounded point `k` of the line. */
  ghost predicate PointAt(p0: Point, p1: Point, k: nat, p: Point) {
    var dx, dy := Abs(p1.0 - p0.0), Abs(p1.1 - p0.1);
    exists i: nat, j: nat :: OnLine(dx, dy, k, i, j) && p == Stepped(p0, p1, i, j)
  }

  ghost predicate LineUpTo(p0: Point, p1: Point, ps: seq<Point>) {
    forall k :: 0 <= k < |ps| ==> PointAt(p0, p1, k, ps[k])
  }

  /** The points of the line from `p0` to `p1`, in order. */
  ghost predicate IsLine(p0: Point, p1: Point, ps: seq<Point>) {
    && |ps| == Steps(p0, p1) + 1
    && LineUpTo(p0, p1, ps)
  }

  lemma OnLineStart(dx: nat, dy: nat)
    ensures OnLine(dx, dy, 0, 0, 0) && Error(dx, dy, 0, 0) == dx - dy
  {
  }

  lemma PointBounds(p0: Point, p1: Point, k: nat, p: Point)
    requires PointAt(p0, p1, k, p) && k <= Max(Abs(p1.0 - p0.0), Abs(p1.1 - p0.1))
    ensures var dx, dy := Abs(p1.0 - p0.0), Abs(p1.1 - p0.1);
            && 2 * Abs(Off(dx, dy, Abs(p.0 - p0.0), Abs(p.1 - p0.1))) <= Max(dx, dy)
            && Min(p0.0, p1.0) <= p.0 <= Max(p0.0, p1.0) && Min(p0.1, p1.1) <= p.1 <= Max(p0.1, p1.1)
            && (k == 0 ==> p == p0) && (k == Max(dx, dy) ==> p == p1)
  {
    hide OnLine, Off, Rounded;
    var dx, dy := Abs(p1.0 - p0.0), Abs(p1.1 - p0.1);
    var i: nat, j: nat :| OnLine(dx, dy, k, i, j) && p == Stepped(p0, p1, i, j);
    OnLineBounds(dx, dy, k, i, j);
    OnLineEnd(dx, dy, k, i, j);
    if k == 0 {
      OnLineStart(dx, dy);
      OnLineUnique(dx, dy, 0, i, j, 0, 0);
    }
  }

  function Steps(p0: Point, p1: Point): (r: nat) { Max(Abs(p1.0 - p0.0), Abs(p1.1 - p0.1)) }

  /** One turn of the line loop, in its own variables. */
  lemma LineTurn(p0: Point, p1: Point, k: nat, i: nat, j: nat)
    requires k <= Steps(p0, p1) && OnLine(Abs(p1.0 - p0.0), Abs(p1.1 - p0.1), k, i, j)
    ensures Stepped(p0, p1, i, j) == p1 <==> k == Steps(p0, p1)
    ensures var dx: int, dy: int := Abs(p1.0 - p0.0), Abs(p1.1 - p0.1);
            var e2, at := 2 * Error(dx, dy, i, j), Stepped(p0, p1, i, j);
            var goX, goY := e2 >= -dy, e2 <= dx;
            var i', j' := if goX then i + 1 else i, if goY then j + 1 else j;
            k < Steps(p0, p1) ==>
              && OnLine(dx, dy, k + 1, i', j')
              && Error(dx, dy, i', j') == Error(dx, dy, i, j) + (if goX then -dy else 0) + (if goY then dx else 0)
              && Stepped(p0, p1, i', j') ==
                 (if !goX then at.0 else if p0.0 < p1.0 then at.0 + 1 else at.0 - 1,
                  if !goY then at.1 else if p0.1 < p1.1 then at.1 + 1 else at.1 - 1)
  {
    var dx, dy := Abs(p1.0 - p0.0), Abs(p1.1 - p0.1);
    OnLineEnd(dx, dy, k, i, j);
    OnLineBounds(dx, dy, k, i, j);
    if k < Steps(p0, p1) {
      LineStep(dx, dy, k, i, j);
    }
    hide OnLine, Error;
  }

  /** Main result on lines: ends at the ends, stays in the box, half a pixel off at most. */
  lemma LineIsStraight(p0: Point, p1: Point, ps: seq<Point>, k: nat)
    requires IsLine(p0, p1, ps) && k < |ps|
    ensures ps[0] == p0 && ps[|ps| - 1] == p1
    ensures var dx, dy := Abs(p1.0 - p0.0), Abs(p1.1 - p0.1);
            && 2 * Abs(Off(dx, dy, Abs(ps[k].0 - p0.0), Abs(ps[k].1 - p0.1))) <= Max(dx, dy)
            && Min(p0.0, p1.0) <= ps[k].0 <= Max(p0.0, p1.0) && Min(p0.1, p1.1) <= ps[k].1 <= Max(p0.1, p1.1)
  {
    hide PointAt, Off;
    PointBounds(p0, p1, 0, ps[0]);
    PointBounds(p0, p1, |ps| - 1, ps[|ps| - 1]);
    PointBounds(p0, p1, k, ps[k]);
  }

  /** There is one such list of points. */
  lemma LineUnique(p0: Point, p1: Point, ps: seq<Point>, qs: seq<Point>)
    requires IsLine(p0, p1, ps) && IsLine(p0, p1, qs)
    ensures ps == qs
  {
    hide OnLine;
    forall k | 0 <= k < |ps|
      ensures ps[k] == qs[k]
    {
      assert PointAt(p0, p1, k, ps[k]) && PointAt(p0, p1, k, qs[k]);
      var dx, dy := Abs(p1.0 - p0.0), Abs(p1.1 - p0.1);
      var i: nat, j: nat :| OnLine(dx, dy, k, i, j) && ps[k] == Stepped(p0, p1, i, j);
      var i': nat, j': nat :| OnLine(dx, dy, k, i', j') && qs[k] == Stepped(p0, p1, i', j');
      OnLineUnique(dx, dy, k, i, j, i', j');
    }
  }

  lemma QuotientIs(n: nat, m: nat, q: nat)
    requires m * q <= n < m * q + m
    ensures n / m == q
  {
    var a := n / m;
    assert m * a <= n < m * a + m;
    if a < q {
      Times(m, a, q);
    } else if q < a {
      Times(m, q, a);
    }
  }

  lemma RoundedIs(d: nat, a: nat, v: nat)
    requires d > 0 && Rounded(d, d * a - v)
    ensures a == Nearest(d, v)
  {
    assert 2 * d * a == 2 * (d * a);
    QuotientIs(2 * v + d, 2 * d, a);
  }

  lemma OnLineIs(dx: nat, dy: nat, k: nat, i: nat, j: nat)
    requires OnLine(dx, dy, k, i, j) && dx + dy > 0
    ensures dx >= dy ==> i == k && j == Nearest(dx, dy * k)
    ensures dx < dy ==> j == k && i == Nearest(dy, dx * k)
  {
    hide Rounded;
    if dx >= dy {
      RoundedIs(dx, j, dy * k);
    } else {
      RoundedIs(dy, i, dx * k);
    }
  }

  /** `v / d` to the nearest whole number, halves up. */
  function Nearest(d: nat, v: nat): (r: nat)
    requires d > 0
  {
    (2 * v + d) / (2 * d)
  }

  /** Point `k` in closed form: the longer axis takes every step, the other is rounded. */
  lemma LineClosed(p0: Point, p1: Point, ps: seq<Point>, k: nat)
    requires IsLine(p0, p1, ps) && k < |ps| && p0 != p1
    ensures var dx, dy := Abs(p1.0 - p0.0), Abs(p1.1 - p0.1);
            var i, j := if dx >= dy then k else Nearest(dy, dx * k), if dx >= dy then Nearest(dx, dy * k) else k;
            && |ps| == (if dx >= dy then dx else dy) + 1
            && ps[k] == (if p0.0 < p1.0 then p0.0 + i else p0.0 - i, if p0.1 < p1.1 then p0.1 + j else p0.1 - j)
  {
    hide OnLine, Nearest;
    var dx, dy := Abs(p1.0 - p0.0), Abs(p1.1 - p0.1);
    assert PointAt(p0, p1, k, ps[k]);
    var i: nat, j: nat :| OnLine(dx, dy, k, i, j) && ps[k] == Stepped(p0, p1, i, j);
    OnLineIs(dx, dy, k, i, j);
  }

  // ----- circles -----

  /** On row `y` the pixel `x` nearest the circle of radius `r`. */
  predicate Near(x: int, y: int, r: int) { -x <= x * x + y * y - r * r < x }

  predicate OnCircle(p: Point, r: int) {
    r >= 1 && Near(Max(Abs(p.0), Abs(p.1)), Min(Abs(p.0), Abs(p.1)), r)
  }

  lemma Growth(a: int, x: int)
    requires a > x >= 0
    ensures a * a - a >= x * x + x
  {
    assert a * a >= (x + 1) * a;
    assert (x + 1) * (a - 1) >= (x + 1) * x;
  }

  /** One pixel for each octant row. */
  lemma NearUnique(x: int, a: int, y: int, r: int)
    requires Near(x, y, r) && Near(a, y, r)
    ensures x == a
  {
    if a > x {
      Growth(a, x);
    } else if x > a {
      Growth(x, a);
    }
  }

  /** A pixel is taken exactly if the circle passes its row less than half a pixel away: (x - 1/2)^2 < r^2 - y^2 < (x + 1/2)^2. */
  lemma NearIsNearest(x: int, y: int, r: int)
    requires x >= 1
    ensures Near(x, y, r) <==> (2 * x - 1) * (2 * x - 1) < 4 * (r * r - y * y) < (2 * x + 1) * (2 * x + 1)
  {
    assert (2 * x - 1) * (2 * x - 1) == 4 * (x * x) - 4 * x + 1;
    assert (2 * x + 1) * (2 * x + 1) == 4 * (x * x) + 4 * x + 1;
  }

  /** So the points of a circle, by the larger and the smaller of their distances from the axes. */
  lemma OnCircleIff(p: Point, r: int)
    ensures var a, b := if Abs(p.0) >= Abs(p.1) then Abs(p.0) else Abs(p.1), if Abs(p.0) >= Abs(p.1) then Abs(p.1) else Abs(p.0);
            OnCircle(p, r) <==>
              r >= 1 && a >= 1 && (2 * a - 1) * (2 * a - 1) < 4 * (r * r - b * b) < (2 * a + 1) * (2 * a + 1)
  {
    var a, b := Max(Abs(p.0), Abs(p.1)), Min(Abs(p.0), Abs(p.1));
    if a >= 1 {
      NearIsNearest(a, b, r);
    }
  }

  /** No pixel of the circle lies on a row the loop did not reach. */
  lemma NoFurther(x: int, y: int, a: int, b: int, r: int)
    requires 0 <= x < y <= b <= a && Outside(x, y, r)
    ensures !Near(a, b, r)
  {
    Growth(a, x);
    assert b * b >= y * y;
  }

  /** The eight points of one turn of the loop, relative to the centre. */
  function Octants(x: int, y: int): (r: seq<Point>) {
    [(x, y), (-x, y), (x, -y), (-x, -y), (y, x), (-y, x), (y, -x), (-y, -x)]
  }

  predicate Has(ps: seq<Point>, p: Point) { p in ps }

  /** `p` seen from the centre `c`. */
  function From(c: Point, p: Point): (r: Point) { (p.0 - c.0, p.1 - c.1) }

  lemma OctantsAre(x: int, y: int, p: Point)
    requires x >= y >= 0
    ensures Has(Octants(x, y), p) <==> Max(Abs(p.0), Abs(p.1)) == x && Min(Abs(p.0), Abs(p.1)) == y
  {
    var o := Octants(x, y);
    if Max(Abs(p.0), Abs(p.1)) == x && Min(Abs(p.0), Abs(p.1)) == y {
      assert p == o[0] || p == o[1] || p == o[2] || p == o[3] || p == o[4] || p == o[5] || p == o[6] || p == o[7];
    }
  }

  /** The decision value of the loop on row `y`. */
  function Decision(x: int, y: int, r: int): (res: int) { (y + 1) * (y + 1) + x * x - x - r * r }

  /** The pixel after `x` on row `y` is outside. */
  predicate Outside(x: int, y: int, r: int) { x * x + x + y * y >= r * r }

  lemma CircleStart(r: int)
    requires r >= 1
    ensures Near(r, 0, r) && Outside(r, 0, r) && Decision(r, 0, r) == 1 - r
  {
  }

  /** One turn of the circle loop keeps the decision value and the nearness of the pixel. */
  lemma CircleStep(x: int, y: int, r: int)
    requires 0 <= y <= x && Near(x, y, r)
    ensures var d := Decision(x, y, r);
            var x' := if d < 0 then x else x - 1;
            && Decision(x', y + 1, r) == d + (if d < 0 then 2 * (y + 1) + 1 else 2 * (y + 1 - x') + 1)
            && Outside(x', y + 1, r)
            && (y + 1 <= x' ==> Near(x', y + 1, r))
            && (d >= 0 ==> x > 0)
  {
    assert (y + 1) * (y + 1) == y * y + 2 * y + 1;
    assert (y + 2) * (y + 2) == y * y + 4 * y + 4;
    assert (x - 1) * (x - 1) == x * x - 2 * x + 1;
  }

  class Display {
    const w: nat
    const h: nat
    const fb: array<int>

    ghost predicate Valid() { fb.Length == w * h }

    constructor (w: nat, h: nat)
      ensures Valid() && fresh(fb) && this.w == w && this.h == h
    {
      this.w := w;
      this.h := h;
      fb := new int[w * h](i => 0);
    }

    method Pixel(p: Point, color: int)
      requires Valid()
      modifies fb
      ensures fb[..] == Paint(old(fb[..]), w, h, p, color)
    {
      if p.0 < 0 || p.0 >= w || p.1 < 0 || p.1 >= h {
        return;
      }
      InBuffer(p, w, h);
      fb[p.1 * w + p.0] := color;
    }

    /** Paints one more point after the list `ps`. */
    method Plot(p: Point, color: int, ghost fb0: seq<int>, ghost ps: seq<Point>)
      requires Valid() && |fb0| == w * h && fb[..] == PaintAll(fb0, w, h, ps, color)
      modifies fb
      ensures fb[..] == PaintAll(fb0, w, h, ps + [p], color)
    {
      assert (ps + [p])[..|ps|] == ps;
      Pixel(p, color);
    }

    method Line(p0: Point, p1: Point, color: int) returns (ghost ps: seq<Point>)
      requires Valid()
      modifies fb
      ensures IsLine(p0, p1, ps)
      ensures fb[..] == PaintAll(old(fb[..]), w, h, ps, color)
    {
      var dx := Abs(p1.0 - p0.0);
      var ady: int := Abs(p1.1 - p0.1);
      var dy := -ady;
      var sx: int, sy: int := if p0.0 < p1.0 then 1 else -1, if p0.1 < p1.1 then 1 else -1;
      var err: int := dx + dy;
      var x, y := p0.0, p0.1;
      ghost var i: nat, j: nat := 0, 0;
      ps := [];
      OnLineStart(dx, ady);
      assert LineUpTo(p0, p1, ps) && fb[..] == PaintAll(fb[..], w, h, ps, color);
      assert (x, y) == Stepped(p0, p1, i, j);
      hide OnLine, Error, LineUpTo, PaintAll, Paint, Steps, Stepped;
      while true
        invariant |ps| <= Steps(p0, p1) && OnLine(dx, ady, |ps|, i, j)
        invariant (x, y) == Stepped(p0, p1, i, j) && err == Error(dx, ady, i, j)
        invariant LineUpTo(p0, p1, ps)
        invariant fb[..] == PaintAll(old(fb[..]), w, h, ps, color)
        decreases Steps(p0, p1) - |ps|
      {
        Plot((x, y), color, old(fb[..]), ps);
        LineMore(p0, p1, ps, i, j);
        LineTurn(p0, p1, |ps|, i, j);
        ps := ps + [(x, y)];
        if x == p1.0 && y == p1.1 {
          break;
        }
        var e2 := 2 * err;
        if e2 >= dy {
          err := err + dy;
          x := x + sx;
          i := i + 1;
        }
        if e2 <= dx {
          err := err + dx;
          y := y + sy;
          j := j + 1;
        }
      }
    }

    method Circle(c: Point, r: int, color: int) returns (ghost ps: seq<Point>)
      requires Valid()
      modifies fb
      ensures forall p: Point :: Has(ps, p) <==> OnCircle(From(c, p), r)
      ensures fb[..] == PaintAll(old(fb[..]), w, h, ps, color)
    {
      ps := [];
      if r <= 0 {
        return;
      }
      var x, y, d := r, 0, 1 - r;
      CircleStart(r);
      assert Covers(ps, c, r, 0) && fb[..] == PaintAll(fb[..], w, h, ps, color);
      hide Has, From, Covers, Abs, Max, Min, Near, Outside, Decision, OnCircle, PaintAll, Octants, RowsBelow;
      while x >= y
        invariant 0 <= y && 0 <= x && Outside(x, y, r) && d == Decision(x, y, r)
        invariant y <= x ==> Near(x, y, r)
        invariant Covers(ps, c, r, y)
        invariant fb[..] == PaintAll(old(fb[..]), w, h, ps, color)
        decreases x - y + 1
      {
        ghost var before := ps;
        ps := PlotOctants(c, x, y, color, old(fb[..]), ps);
        CircleStep(x, y, r);
        RowsStep(before, ps, c, r, x, y);
        y := y + 1;
        if d < 0 {
          d := d + 2 * y + 1;
        } else {
          x := x - 1;
          d := d + 2 * (y - x) + 1;
        }
      }
      RowsDone(ps, c, r, x, y);
    }

    method PlotOctants(c: Point, x: int, y: int, color: int, ghost fb0: seq<int>, ghost ps: seq<Point>)
      returns (ghost ps': seq<Point>)
      requires Valid() && |fb0| == w * h && fb[..] == PaintAll(fb0, w, h, ps, color)
      modifies fb
      ensures fb[..] == PaintAll(fb0, w, h, ps', color)
      ensures forall p: Point :: Has(ps', p) <==> Has(ps, p) || Has(Octants(x, y), From(c, p))
    {
      var o := Octants(x, y);
      ghost var q := Shifted(c, o);
      var k: nat := 0;
      ps' := ps;
      assert |o| == 8;
      hide Octants, PaintAll, Shifted;
      while k < 8
        invariant k <= 8
        invariant ps' == ps + q[..k]
        invariant fb[..] == PaintAll(fb0, w, h, ps', color)
      {
        Plot((c.0 + o[k].0, c.1 + o[k].1), color, fb0, ps');
        ps' := ps' + [(c.0 + o[k].0, c.1 + o[k].1)];
        k := k + 1;
      }
      forall p: Point
        ensures Has(ps', p) <==> Has(ps, p) || Has(o, From(c, p))
      {
        ShiftedAre(c, o, p);
        assert q[..8] == q;
      }
    }
  }

  lemma LineMore(p0: Point, p1: Point, ps: seq<Point>, i: nat, j: nat)
    requires LineUpTo(p0, p1, ps) && OnLine(Abs(p1.0 - p0.0), Abs(p1.1 - p0.1), |ps|, i, j)
    ensures LineUpTo(p0, p1, ps + [Stepped(p0, p1, i, j)])
  {
    assert PointAt(p0, p1, |ps|, Stepped(p0, p1, i, j));
    hide PointAt;
  }

  function Shifted(c: Point, o: seq<Point>): (r: seq<Point>)
    ensures |r| == |o|
    ensures forall k :: 0 <= k < |o| ==> r[k] == (c.0 + o[k].0, c.1 + o[k].1)
  {
    seq(|o|, (k: nat) requires k < |o| => (c.0 + o[k].0, c.1 + o[k].1))
  }

  lemma ShiftedAre(c: Point, o: seq<Point>, p: Point)
    ensures Has(Shifted(c, o), p) <==> Has(o, From(c, p))
  {
    if (p.0 - c.0, p.1 - c.1) in o {
      var k :| 0 <= k < |o| && o[k] == (p.0 - c.0, p.1 - c.1);
      assert Shifted(c, o)[k] == p;
    }
  }

  /** The points of the circle on octant rows below `y`. */
  predicate RowsBelow(p: Point, r: int, y: int) {
    OnCircle(p, r) && Min(Abs(p.0), Abs(p.1)) < y
  }

  /** The list is the circle's points on the rows below `y`. */
  ghost predicate Covers(ps: seq<Point>, c: Point, r: int, y: int) {
    forall p: Point :: Has(ps, p) <==> RowsBelow(From(c, p), r, y)
  }

  lemma RowsStep(ps: seq<Point>, ps': seq<Point>, c: Point, r: int, x: int, y: int)
    requires r >= 1 && 0 <= y <= x && Near(x, y, r) && Covers(ps, c, r, y)
    requires forall p: Point :: Has(ps', p) <==> Has(ps, p) || Has(Octants(x, y), From(c, p))
    ensures Covers(ps', c, r, y + 1)
  {
    hide RowsBelow, Near, Octants, Has, From;
    forall p: Point
      ensures Has(ps', p) <==> RowsBelow(From(c, p), r, y + 1)
    {
      RowsNext(From(c, p), r, x, y);
    }
  }

  lemma RowsDone(ps: seq<Point>, c: Point, r: int, x: int, y: int)
    requires r >= 1 && 0 <= x < y && Outside(x, y, r) && Covers(ps, c, r, y)
    ensures forall p: Point :: Has(ps, p) <==> OnCircle(From(c, p), r)
  {
    hide RowsBelow, OnCircle, Outside, Has, From;
    forall p: Point
      ensures Has(ps, p) <==> OnCircle(From(c, p), r)
    {
      RowsAll(From(c, p), r, x, y);
    }
  }

  lemma RowsNext(p: Point, r: int, x: int, y: int)
    requires r >= 1 && 0 <= y <= x && Near(x, y, r)
    ensures RowsBelow(p, r, y + 1) <==> RowsBelow(p, r, y) || Has(Octants(x, y), p)
  {
    OctantsAre(x, y, p);
    var a := Max(Abs(p.0), Abs(p.1));
    if Min(Abs(p.0), Abs(p.1)) == y && Near(a, y, r) {
      NearUnique(x, a, y, r);
    }
  }

  lemma RowsAll(p: Point, r: int, x: int, y: int)
    requires r >= 1 && 0 <= x < y && Outside(x, y, r)
    ensures RowsBelow(p, r, y) <==> OnCircle(p, r)
  {
    if Min(Abs(p.0), Abs(p.1)) >= y {
      NoFurther(x, y, Max(Abs(p.0), Abs(p.1)), Min(Abs(p.0), Abs(p.1)), r);
    }
  }
}
