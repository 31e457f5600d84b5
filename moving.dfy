/**
  Where `RoundedRectItem.itemChange` lets a dragged node go. With snapping on, the
  requested position is rounded to the grid, and the rounded position is taken
  unless the node's rectangle there would overlap another node item; otherwise the
  requested position is taken as it is.
*/
module Moving {
  import opened Geometry
  import opened Graph
  import opened Wiring

  /** The two rectangles share interior area (`QRectF.intersects`). */
  predicate Overlaps(a: Rect, b: Rect) {
    a.left < b.left + b.width && b.left < a.left + a.width &&
    a.top < b.top + b.height && b.top < a.top + a.height
  }

  /** Node `j`'s item is one that `scene.items(r)` reports for the item of node `k`: a
      visible node item other than `k`'s whose bounding rectangle meets `r`. */
  predicate Blocks(ns: seq<NodeRec>, k: nat, j: nat, r: Rect)
    requires j < |ns|
  {
    j != k && ns[j].visible && Overlaps(r, BoundingRect(ns[j].x, ns[j].y, ns[j].height))
  }

  /** Some node of the scene blocks `r`. */
  predicate Collides(g: SceneState, k: nat, r: Rect)
    requires forall i :: 0 <= i < |g.nodes| ==> g.nodes[i] < |g.arena|
  {
    exists i :: 0 <= i < |g.nodes| && Blocks(g.arena, k, g.nodes[i], r)
  }

  /** The grid point nearest to `p`. */
  function SnapPoint(p: Point, grid: int): (r: Point)
    requires grid > 0
    ensures OnGrid(r.x, grid) && OnGrid(r.y, grid)
  {
    Point(Snap(p.x, grid), Snap(p.y, grid))
  }

  /** The position `itemChange` returns for node `k` asked to move to `value`. */
  function Accepted(g: SceneState, k: nat, value: Point, snap: bool, grid: int): (r: Point)
    requires k < |g.arena| && grid > 0
    requires forall i :: 0 <= i < |g.nodes| ==> g.nodes[i] < |g.arena|
    ensures r == value || (snap && r == SnapPoint(value, grid))
  {
    if !snap then value
    else
      var s := SnapPoint(value, grid);
      if Collides(g, k, Rect(s.x, s.y, NodeWidth, g.arena[k].height)) then value else s
  }

  /** Without snapping the node goes where it is dragged. */
  lemma AcceptedUnsnapped(g: SceneState, k: nat, value: Point, grid: int)
    requires k < |g.arena| && grid > 0
    requires forall i :: 0 <= i < |g.nodes| ==> g.nodes[i] < |g.arena|
    ensures Accepted(g, k, value, false, grid) == value
  {
  }

  /** With snapping, the node lands either on the nearest grid point, where nothing blocks
      it, or (when something does) exactly where it was dragged. */
  lemma AcceptedSnapped(g: SceneState, k: nat, value: Point, grid: int)
    requires k < |g.arena| && grid > 0
    requires forall i :: 0 <= i < |g.nodes| ==> g.nodes[i] < |g.arena|
    ensures var p := Accepted(g, k, value, true, grid); var s := SnapPoint(value, grid);
      (p == s && !Collides(g, k, Rect(s.x, s.y, NodeWidth, g.arena[k].height))) ||
      (p == value && Collides(g, k, Rect(s.x, s.y, NodeWidth, g.arena[k].height)))
    ensures var p := Accepted(g, k, value, true, grid);
      p != value ==>
        OnGrid(p.x, grid) && OnGrid(p.y, grid) &&
        -(grid as real) / 2.0 <= value.x - p.x <= grid as real / 2.0 &&
        -(grid as real) / 2.0 <= value.y - p.y <= grid as real / 2.0
  {
    SnapNearest(value.x, grid);
    SnapNearest(value.y, grid);
  }

  /** A node already standing on the grid with nothing in the way stays put when dropped
      where it is. */
  lemma AcceptedOnGrid(g: SceneState, k: nat, a: int, b: int, grid: int)
    requires k < |g.arena| && grid > 0
    requires forall i :: 0 <= i < |g.nodes| ==> g.nodes[i] < |g.arena|
    ensures var v := Point(a as real * grid as real, b as real * grid as real);
      Accepted(g, k, v, true, grid) == v
  {
    SnapMultiple(a, grid);
    SnapMultiple(b, grid);
  }
}
