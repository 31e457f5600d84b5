/**
  `MindMapView`: the two passes of `parse_markdown_headings` over the scene, the
  middle-button panning and the grid lines of the background. The first pass fills
  the scene's level counts, the second constructs and adds the nodes; both loops are
  proved to compute the functions of `HeadingParser` and `Layout`.
*/
module View {
  import opened Wrappers
  import opened Geometry
  import opened Graph
  import opened Wiring
  import opened HeadingParser
  import opened Layout
  import opened Scene

  /** A position in view coordinates (`event.pos()`, a `QPoint`). */
  datatype ViewPoint = ViewPoint(x: int, y: int)

  datatype Button = LeftButton | MiddleButton | RightButton

  /** Python's `range(start, stop, step)` for a positive step. */
  function Range(start: int, stop: int, step: int): (r: seq<int>)
    requires step > 0
    ensures forall i :: 0 <= i < |r| ==> r[i] == start + i * step && r[i] < stop
    decreases stop - start
  {
    if start >= stop then [] else [start] + Range(start + step, stop, step)
  }

  /** Every value of the range lies from `start` on, below `stop`, a whole number of steps
      from `start`. */
  lemma RangeOnly(start: int, stop: int, step: int, v: int)
    requires step > 0 && v in Range(start, stop, step)
    ensures start <= v < stop && (v - start) % step == 0
  {
    var r := Range(start, stop, step);
    var i :| 0 <= i < |r| && r[i] == v;
    assert v - start == i * step;
    MulModZero(i, step);
  }

  /** And every such point is a value of the range. */
  lemma {:induction false} RangeHas(start: int, stop: int, step: int, v: int)
    requires step > 0 && start <= v < stop && (v - start) % step == 0
    ensures v in Range(start, stop, step)
    decreases v - start
  {
    if v != start {
      ModPositive(v - start, step);
      ModShift(v - start, step);
      assert v - (start + step) == v - start - step;
      RangeHas(start + step, stop, step, v);
    }
  }

  lemma ModShift(d: int, g: int)
    requires g > 0 && d % g == 0
    ensures (d - g) % g == 0
  {
    assert d == (d / g) * g;
    assert d - g == (d / g - 1) * g;
    MulModZero(d / g - 1, g);
  }

  lemma ModShiftBack(d: int, g: int)
    requires g > 0 && d % g == 0
    ensures (d + g) % g == 0
  {
    assert d == (d / g) * g;
    assert d + g == (d / g + 1) * g;
    MulModZero(d / g + 1, g);
  }

  lemma ModPositive(d: int, g: int)
    requires g > 0 && d > 0 && d % g == 0
    ensures d >= g
  {
    assert d == (d / g) * g;
    assert d / g >= 1;
  }

  /** One step of panning: the scroll value after the cursor moved from `last` to `pos`. */
  function PanScroll(scroll: int, last: int, pos: int): int {
    scroll - (pos - last)
  }

  /** Dragging through the positions `moves`, one `mouseMoveEvent` each. */
  function Drag(scroll: int, last: int, moves: seq<int>): (r: int)
    decreases |moves|
  {
    if moves == [] then scroll
    else PanScroll(Drag(scroll, last, moves[..|moves| - 1]), if |moves| == 1 then last else moves[|moves| - 2], moves[|moves| - 1])
  }

  /** However the cursor wanders, the scroll value moves back by the net distance dragged:
      the point of the scene first under the cursor stays under it. */
  lemma {:induction false} DragTelescopes(scroll: int, last: int, moves: seq<int>)
    requires moves != []
    ensures Drag(scroll, last, moves) + moves[|moves| - 1] == scroll + last
    decreases |moves|
  {
    if |moves| > 1 {
      var n := |moves| - 1;
      var pre := moves[..n];
      DragTelescopes(scroll, last, pre);
      assert pre[|pre| - 1] == moves[n - 1];
    }
  }

  class MindMapView {
    const scene: MindMapScene
    var isPanning: bool
    var lastPanPoint: ViewPoint
    /** The horizontal and vertical scroll bar values. */
    var scrollX: int
    var scrollY: int

    ghost predicate Valid()
      reads this, scene
    {
      scene.Valid()
    }

    constructor()
      ensures Valid() && fresh(scene) && scene.State() == SceneState([], [], [])
      ensures scene.levelCounts == map[] && scene.selectedNode == None && !scene.snapToGrid
      ensures !isPanning && lastPanPoint == ViewPoint(0, 0) && scrollX == 0 && scrollY == 0
    {
      scene := new MindMapScene();
      isPanning := false;
      lastPanPoint := ViewPoint(0, 0);
      scrollX := 0;
      scrollY := 0;
    }

    method SetSnapToGrid(enabled: bool)
      requires Valid()
      modifies scene
      ensures Valid() && scene.snapToGrid == enabled
      ensures scene.State() == old(scene.State()) && scene.levelCounts == old(scene.levelCounts)
      ensures scene.selectedNode == old(scene.selectedNode)
    {
      scene.SetSnapToGrid(enabled);
    }

    /** The first pass: the number of candidate lines at each level. */
    method CountLevels(src: seq<SourceLine>)
      requires Valid()
      modifies scene
      ensures Valid() && scene.levelCounts == LevelCounts(Texts(src))
      ensures scene.State() == old(scene.State()) && scene.selectedNode == old(scene.selectedNode)
      ensures scene.snapToGrid == old(scene.snapToGrid)
    {
      scene.levelCounts := map[];
      var i := 0;
      while i < |src|
        invariant 0 <= i <= |src| && Valid()
        invariant scene.levelCounts == LevelCounts(Texts(src[..i]))
        invariant scene.State() == old(scene.State()) && scene.selectedNode == old(scene.selectedNode)
        invariant scene.snapToGrid == old(scene.snapToGrid)
      {
        var line := src[i].text;
        CountsSnoc(src, i);
        if IsCandidate(line) {
          var level := LevelOf(line);
          scene.levelCounts := scene.levelCounts[level := Get(scene.levelCounts, level, 0) + 1];
        }
        i := i + 1;
      }
      assert src[..i] == src;
    }

    /** `parse_markdown_headings` over prepared lines: the first pass, then the second,
        which creates one node per heading with a title, positions and colours it by
        level, and adds it as a root or under the last node seen one level up. The text
        of a node measures `textHeight(title)` high. */
    method ParseLines(src: seq<SourceLine>, textHeight: string -> real)
      requires Valid()
      modifies scene
      ensures Valid() && scene.levelCounts == LevelCounts(Texts(src))
      ensures scene.State() == PlaceAll(Pass(old(scene.State()), map[], map[]), Headings(src), LevelCounts(Texts(src)), textHeight).g
      ensures scene.selectedNode == old(scene.selectedNode) && scene.snapToGrid == old(scene.snapToGrid)
    {
      CountLevels(src);
      SecondPass(src, textHeight);
    }

    /** The second pass of `parse_markdown_headings`, with the level counts already in place. */
    method SecondPass(src: seq<SourceLine>, textHeight: string -> real)
      requires Valid()
      modifies scene
      ensures Valid() && scene.levelCounts == old(scene.levelCounts)
      ensures scene.State() == PlaceAll(Pass(old(scene.State()), map[], map[]), Headings(src), scene.levelCounts, textHeight).g
      ensures scene.selectedNode == old(scene.selectedNode) && scene.snapToGrid == old(scene.snapToGrid)
    {
      ghost var counts := scene.levelCounts;
      ghost var st0 := Pass(scene.State(), map[], map[]);
      var indices: map<int, nat> := map[];
      var current: map<int, nat> := map[];
      var i := 0;
      while i < |src|
        invariant 0 <= i <= |src| && Valid() && scene.levelCounts == counts
        invariant Pass(scene.State(), indices, current) == PlaceAll(st0, Headings(src[..i]), counts, textHeight)
        invariant scene.selectedNode == old(scene.selectedNode) && scene.snapToGrid == old(scene.snapToGrid)
      {
        PlaceAllLine(st0, src, i, counts, textHeight);
        indices, current := ParseLine(src[i], indices, current, textHeight);
        i := i + 1;
      }
      assert src[..i] == src;
      assert Pass(scene.State(), indices, current) == PlaceAll(st0, Headings(src), counts, textHeight);
    }

    /** One line of the second pass: a node for a candidate line with a title, nothing
        for any other line. */
    method ParseLine(line: SourceLine, indices: map<int, nat>, current: map<int, nat>, textHeight: string -> real)
      returns (indices': map<int, nat>, current': map<int, nat>)
      requires Valid() && CurrentBelow(Pass(scene.State(), indices, current))
      modifies scene
      ensures Valid() && scene.levelCounts == old(scene.levelCounts)
      ensures var st := Pass(old(scene.State()), indices, current);
        Pass(scene.State(), indices', current') ==
          if HeadingOf(line).Some? then Place(st, HeadingOf(line).value, scene.levelCounts, textHeight) else st
      ensures scene.selectedNode == old(scene.selectedNode) && scene.snapToGrid == old(scene.snapToGrid)
    {
      indices', current' := indices, current;
      if IsCandidate(line.text) {
        var level := LevelOf(line.text);
        var title := TitleOf(line.text);
        if title != [] {
          indices', current' := AddHeading(level, title, line.lineNumber, indices, current, textHeight);
        }
      }
    }

    /** One turn of the second pass, for a heading at `level` with a non-empty `title`. */
    method AddHeading(level: int, title: string, lineNumber: Option<nat>, indices: map<int, nat>, current: map<int, nat>,
                      textHeight: string -> real)
      returns (indices': map<int, nat>, current': map<int, nat>)
      requires Valid() && CurrentBelow(Pass(scene.State(), indices, current))
      modifies scene
      ensures Valid() && scene.levelCounts == old(scene.levelCounts)
      ensures Pass(scene.State(), indices', current') ==
        Place(Pass(old(scene.State()), indices, current), Heading(level, title, lineNumber), scene.levelCounts, textHeight)
      ensures scene.selectedNode == old(scene.selectedNode) && scene.snapToGrid == old(scene.snapToGrid)
    {
      ghost var g := scene.State();
      var index := NextIndex(indices, level);
      indices' := indices[level := index];
      var pos := Position(scene.levelCounts, level, index);
      var k := scene.CreateNode(title, pos.x, pos.y, lineNumber, ColorOf(level));
      ghost var g1 := scene.State();
      assert g1.arena[k] == NewNode(title, pos.x, pos.y, lineNumber, ColorOf(level));
      if level == 0 {
        scene.AddNode(k, None, textHeight(title));
      } else if level - 1 in current {
        scene.AddNode(k, Some(current[level - 1]), textHeight(title));
      }
      current' := current[level := k];
      assert scene.State() == PlaceScene(g1, k, level, current, textHeight(title));
    }

    /** The current variant's `parse_and_render_markdown(text)`: the scene is cleared and
        every line of `text.split('\n')` is read, stripped, with its index as line number. */
    method ParseAndRender(text: string, textHeight: string -> real)
      requires Valid()
      modifies scene
      ensures Valid() && scene.levelCounts == LevelCounts(Texts(CurrentLines(text)))
      ensures scene.State() == PlaceAll(Pass(SceneState([], [], []), map[], map[]), Headings(CurrentLines(text)), scene.levelCounts, textHeight).g
      ensures scene.selectedNode == None && scene.snapToGrid == old(scene.snapToGrid)
      ensures Consistent(scene.arena)
    {
      var _ := scene.ClearNodes();
      ParseLines(CurrentLines(text), textHeight);
      PlaceAllWired(Pass(SceneState([], [], []), map[], map[]), Headings(CurrentLines(text)), scene.levelCounts, textHeight);
    }

    /** The monolithic variants' `parse_and_render_markdown(text)`: the stripped text's
        non-blank lines, stripped, without line numbers. */
    method ParseAndRenderMonolithic(text: string, textHeight: string -> real)
      requires Valid()
      modifies scene
      ensures Valid() && scene.levelCounts == LevelCounts(Texts(MonolithicLines(text)))
      ensures scene.State() == PlaceAll(Pass(SceneState([], [], []), map[], map[]), Headings(MonolithicLines(text)), scene.levelCounts, textHeight).g
      ensures scene.selectedNode == None && scene.snapToGrid == old(scene.snapToGrid)
      ensures Consistent(scene.arena)
    {
      var _ := scene.ClearNodes();
      ParseLines(MonolithicLines(text), textHeight);
      PlaceAllWired(Pass(SceneState([], [], []), map[], map[]), Headings(MonolithicLines(text)), scene.levelCounts, textHeight);
    }

    /** `mousePressEvent`: the middle button starts panning from `pos` and is accepted;
        other buttons go to the default handling. */
    method MousePress(button: Button, pos: ViewPoint) returns (accepted: bool)
      modifies this
      ensures accepted == (button == MiddleButton)
      ensures accepted ==> isPanning && lastPanPoint == pos
      ensures !accepted ==> isPanning == old(isPanning) && lastPanPoint == old(lastPanPoint)
      ensures scrollX == old(scrollX) && scrollY == old(scrollY)
    {
      accepted := button == MiddleButton;
      if accepted {
        isPanning := true;
        lastPanPoint := pos;
      }
    }

    /** `mouseMoveEvent`: while panning, the scroll bars move back by the distance the
        cursor moved, so the scene point under the cursor stays under it. */
    method MouseMove(pos: ViewPoint) returns (accepted: bool)
      modifies this
      ensures accepted == old(isPanning) && isPanning == old(isPanning)
      ensures accepted ==>
        lastPanPoint == pos &&
        scrollX == PanScroll(old(scrollX), old(lastPanPoint).x, pos.x) &&
        scrollY == PanScroll(old(scrollY), old(lastPanPoint).y, pos.y)
      ensures accepted ==>
        scrollX + pos.x == old(scrollX) + old(lastPanPoint).x &&
        scrollY + pos.y == old(scrollY) + old(lastPanPoint).y
      ensures !accepted ==> lastPanPoint == old(lastPanPoint) && scrollX == old(scrollX) && scrollY == old(scrollY)
    {
      accepted := isPanning;
      if isPanning {
        var dx := pos.x - lastPanPoint.x;
        var dy := pos.y - lastPanPoint.y;
        scrollX := scrollX - dx;
        scrollY := scrollY - dy;
        lastPanPoint := pos;
      }
    }

    /** `mouseReleaseEvent`: releasing the middle button ends panning. */
    method MouseRelease(button: Button) returns (accepted: bool)
      modifies this
      ensures accepted == (button == MiddleButton)
      ensures isPanning == (old(isPanning) && !accepted)
      ensures lastPanPoint == old(lastPanPoint) && scrollX == old(scrollX) && scrollY == old(scrollY)
    {
      accepted := button == MiddleButton;
      if accepted {
        isPanning := false;
      }
    }

    /** The grid lines `drawBackground` draws over the exposed rectangle: vertical lines at
        `range(left, int(rect.right()), grid_size)` and horizontal ones likewise. */
    method GridLines(rect: Rect) returns (columns: seq<int>, rows: seq<int>)
      requires Valid()
      ensures columns == Range(GridOrigin(rect.left, scene.gridSize), Trunc(rect.left + rect.width), scene.gridSize)
      ensures rows == Range(GridOrigin(rect.top, scene.gridSize), Trunc(rect.top + rect.height), scene.gridSize)
    {
      var g := scene.gridSize;
      columns := Lines(GridOrigin(rect.left, g), Trunc(rect.left + rect.width), g);
      rows := Lines(GridOrigin(rect.top, g), Trunc(rect.top + rect.height), g);
    }

    /** One `for` loop of `drawBackground`. */
    static method Lines(start: int, stop: int, step: int) returns (r: seq<int>)
      requires step > 0
      ensures r == Range(start, stop, step)
    {
      r := [];
      var v := start;
      while v < stop
        invariant r + Range(v, stop, step) == Range(start, stop, step)
        decreases stop - v
      {
        assert Range(v, stop, step) == [v] + Range(v + step, stop, step);
        r := r + [v];
        v := v + step;
      }
    }
  }

  /** Every grid line drawn is on the grid, and every grid multiple inside the exposed span
      (after `int()` truncation) gets a line. */
  lemma GridLinesCover(l: real, r: real, g: int, v: int)
    requires g > 0
    ensures v in Range(GridOrigin(l, g), Trunc(r), g) ==> v % g == 0 && Trunc(l) - g < v < Trunc(r)
    ensures Trunc(l) <= v < Trunc(r) && v % g == 0 ==> v in Range(GridOrigin(l, g), Trunc(r), g)
  {
    var o := GridOrigin(l, g);
    if v in Range(o, Trunc(r), g) {
      RangeOnly(o, Trunc(r), g, v);
      assert v == (v - o) + o;
      ModSum(v - o, o, g);
    }
    if Trunc(l) <= v < Trunc(r) && v % g == 0 {
      ModDiff(v, o, g);
      RangeHas(o, Trunc(r), g, v);
    }
  }

  lemma ModSum(a: int, b: int, g: int)
    requires g > 0 && a % g == 0 && b % g == 0
    ensures (a + b) % g == 0
  {
    assert a == (a / g) * g && b == (b / g) * g;
    assert a + b == (a / g + b / g) * g;
    MulModZero(a / g + b / g, g);
  }

  lemma ModDiff(a: int, b: int, g: int)
    requires g > 0 && a % g == 0 && b % g == 0
    ensures (a - b) % g == 0
  {
    assert a == (a / g) * g && b == (b / g) * g;
    assert a - b == (a / g - b / g) * g;
    MulModZero(a / g - b / g, g);
  }
}
