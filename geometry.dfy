/**
  Plane geometry of the mind map: node rectangles and their connector points,
  the cubic connector path, snapping to the grid, the grid origin of the
  background and the collapse button. Coordinates are exact reals.
*/
module Geometry {

  datatype Point = Point(x: real, y: real)

  /** `QRectF(left, top, width, height)`. */
  datatype Rect = Rect(left: real, top: real, width: real, height: real)

  /** A cubic Bezier segment: `moveTo(start)`, `cubicTo(ctrl1, ctrl2, end)`. */
  datatype Path = Path(start: Point, ctrl1: Point, ctrl2: Point, end: Point)

  /** `Node.WIDTH`, `Node.HEIGHT`, the spacings and the text padding. */
  const NodeWidth: real := 200.0
  const MinHeight: real := 50.0
  const HorizontalSpacing: real := 300.0
  const VerticalSpacing: real := 100.0
  const Padding: real := 20.0

  /** `QRectF.contains(QPointF)`: the edges belong to the rectangle. */
  predicate Contains(r: Rect, p: Point) {
    r.left <= p.x <= r.left + r.width && r.top <= p.y <= r.top + r.height
  }

  /** `get_input_point`: the middle of the node's left edge. */
  function InputPoint(x: real, y: real, height: real): (p: Point)
    ensures Contains(Rect(x, y, NodeWidth, height), p) <== height >= 0.0
    ensures p.x == x && 2.0 * (p.y - y) == height
  {
    Point(x, y + height / 2.0)
  }

  /** `get_output_point`: the middle of the node's right edge. */
  function OutputPoint(x: real, y: real, height: real): (p: Point)
    ensures Contains(Rect(x, y, NodeWidth, height), p) <== height >= 0.0
    ensures p.x == x + NodeWidth && 2.0 * (p.y - y) == height
  {
    Point(x + NodeWidth, y + height / 2.0)
  }

  /** `Connection.update_path`: both control points stand on the vertical line halfway
      between the ends, the first level with the start and the second with the end. */
  function ConnectorPath(s: Point, e: Point): (p: Path)
    ensures p.start == s && p.end == e
    ensures p.ctrl1.x == p.ctrl2.x && 2.0 * p.ctrl1.x == s.x + e.x
    ensures p.ctrl1.y == s.y && p.ctrl2.y == e.y
  {
    var cx := s.x + (e.x - s.x) * 0.5;
    Path(s, Point(cx, s.y), Point(cx, e.y), e)
  }

  /** The control points lie between the ends horizontally, whichever way the connector runs. */
  lemma ControlPointsBetween(s: Point, e: Point)
    ensures var p := ConnectorPath(s, e);
      (s.x <= p.ctrl1.x <= e.x) || (e.x <= p.ctrl1.x <= s.x)
  {
  }

  /** Swapping the ends keeps the control column and swaps the control rows. */
  lemma ConnectorPathReversed(s: Point, e: Point)
    ensures var p := ConnectorPath(s, e); var q := ConnectorPath(e, s);
      p.ctrl1.x == q.ctrl1.x && p.ctrl1.y == q.ctrl2.y && p.ctrl2.y == q.ctrl1.y
  {
  }

  // ---------------------------------------------------------------------------
  // Rounding and snapping

  /** Python's `round(v)` on a float: the nearest integer, ties to the even one. */
  function RoundHalfEven(v: real): (r: int)
    ensures -0.5 <= v - r as real <= 0.5
    ensures (v - r as real == 0.5 || v - r as real == -0.5) ==> r % 2 == 0
  {
    var f := v.Floor;
    var d := v - f as real;
    if d < 0.5 then f
    else if d > 0.5 then f + 1
    else if f % 2 == 0 then f else f + 1
  }

  /** The two properties of `RoundHalfEven` determine it. */
  lemma RoundHalfEvenUnique(v: real, k: int)
    requires -0.5 <= v - k as real <= 0.5
    requires (v - k as real == 0.5 || v - k as real == -0.5) ==> k % 2 == 0
    ensures k == RoundHalfEven(v)
  {
    var r := RoundHalfEven(v);
    assert -1 <= k - r <= 1;
    assert k - r != 1 && k - r != -1 by {
      assert (r + 1) % 2 != r % 2 && (r - 1) % 2 != r % 2;
    }
  }

  /** Rounding leaves integers alone. */
  lemma RoundInteger(k: int)
    ensures RoundHalfEven(k as real) == k
  {
    RoundHalfEvenUnique(k as real, k);
  }

  /** `round(v / g) * g`: the coordinate snapped to the grid. */
  function Snap(v: real, g: int): (r: real)
    requires g > 0
    ensures OnGrid(r, g)
  {
    var k := RoundHalfEven(v / g as real);
    assert k as real * g as real / g as real == k as real;
    k as real * g as real
  }

  /** `v` is a whole multiple of the grid size `g`. */
  predicate OnGrid(v: real, g: int)
    requires g > 0
  {
    (v / g as real).Floor as real == v / g as real
  }

  /** A snapped coordinate is a multiple of the grid size at most half a cell away. */
  lemma SnapNearest(v: real, g: int)
    requires g > 0
    ensures OnGrid(Snap(v, g), g)
    ensures -(g as real) / 2.0 <= v - Snap(v, g) <= g as real / 2.0
  {
    var k := RoundHalfEven(v / g as real);
    var gr := g as real;
    var t := v / gr - k as real;
    assert Snap(v, g) == k as real * gr;
    assert Snap(v, g) / gr == k as real;
    assert v - k as real * gr == t * gr;
    ScaleHalf(t, gr);
  }

  lemma ScaleHalf(t: real, g: real)
    requires -0.5 <= t <= 0.5 && g > 0.0
    ensures -g / 2.0 <= t * g <= g / 2.0
  {
  }

  /** A multiple of the grid size does not move when snapped; so snapping twice is snapping once. */
  lemma SnapMultiple(k: int, g: int)
    requires g > 0
    ensures Snap(k as real * g as real, g) == k as real * g as real
  {
    assert (k as real * g as real) / g as real == k as real;
    RoundInteger(k);
  }

  lemma SnapIdempotent(v: real, g: int)
    requires g > 0
    ensures Snap(Snap(v, g), g) == Snap(v, g)
  {
    var k := RoundHalfEven(v / g as real);
    assert Snap(v, g) == k as real * g as real;
    SnapMultiple(k, g);
  }

  // ---------------------------------------------------------------------------
  // The background grid

  /** Python's `int(v)` on a float: truncation toward zero. */
  function Trunc(v: real): (r: int)
    ensures v >= 0.0 ==> r >= 0 && r as real <= v < r as real + 1.0
    ensures v < 0.0 ==> r <= 0 && r as real - 1.0 < v <= r as real
  {
    if v >= 0.0 then v.Floor else -((-v).Floor)
  }

  /** `int(L) - (int(L) % g)`; Python's `%` with a positive divisor agrees with Dafny's. */
  function GridOrigin(l: real, g: int): (r: int)
    requires g > 0
    ensures r % g == 0
    ensures r <= Trunc(l) < r + g
  {
    var t := Trunc(l);
    assert t - t % g == (t / g) * g;
    MulModZero(t / g, g);
    t - t % g
  }

  lemma SmallMultiple(m: int, g: int)
    requires g > 0 && 0 <= m * g < g
    ensures m == 0
  {
    assert m >= 0;
    assert m * g >= m;
  }

  lemma MulModZero(q: int, g: int)
    requires g > 0
    ensures (q * g) % g == 0
  {
    var n := q * g;
    var d := n / g;
    assert n == d * g + n % g;
    assert (q - d) * g == n % g;
    SmallMultiple(q - d, g);
  }

  lemma MultipleBelow(e: int, g: int)
    requires g > 0 && e * g < g
    ensures e * g <= 0
  {
    assert e < 1;
  }

  /** The first grid line drawn is the largest grid multiple not past the truncated edge. */
  lemma GridOriginGreatest(l: real, g: int, m: int)
    requires g > 0 && m % g == 0 && m <= Trunc(l)
    ensures m <= GridOrigin(l, g)
  {
    var t := Trunc(l);
    var r := GridOrigin(l, g);
    assert m == (m / g) * g + m % g;
    assert r == (t / g) * g;
    assert m - r == (m / g - t / g) * g;
    MultipleBelow(m / g - t / g, g);
  }

  // ---------------------------------------------------------------------------
  // The collapse button

  /** `QRectF(width - 20, height/2 - 10, 20, 20)`, in the node item's own coordinates. */
  function ButtonRect(height: real): (r: Rect)
    ensures r.width == 20.0 && r.height == 20.0
    ensures r.left + r.width == NodeWidth && 2.0 * (r.top + r.height / 2.0) == height
  {
    Rect(NodeWidth - 20.0, height / 2.0 - 10.0, 20.0, 20.0)
  }

  /** A press in the button is a press on the node: the button lies inside the node's rectangle. */
  lemma ButtonInsideNode(height: real, p: Point)
    requires height >= MinHeight
    requires Contains(ButtonRect(height), p)
    ensures Contains(Rect(0.0, 0.0, NodeWidth, height), p)
  {
  }

  /** `rect.adjusted(-2, -2, 2, 2)` placed at the item's position. */
  function BoundingRect(x: real, y: real, height: real): (r: Rect)
    ensures Contains(r, Point(x, y)) && Contains(r, Point(x + NodeWidth, y + height)) <== height >= 0.0
  {
    Rect(x - 2.0, y - 2.0, NodeWidth + 4.0, height + 4.0)
  }
}
