/**
  The second pass of `parse_markdown_headings`: one node per heading, placed by
  `calculate_node_position`, coloured by level and attached under the last node
  seen one level up. `Place` is one turn of the loop (with its two dictionaries
  `level_indices` and `current_levels`); `Planned` says directly, from the list of
  headings alone, what each node ends up as.
*/
module Layout {
  import opened Wrappers
  import opened Geometry
  import opened Graph
  import opened Wiring
  import opened HeadingParser

  /** The five node colours, by level. */
  const Palette: seq<string> := ["#3498db", "#e74c3c", "#2ecc71", "#f1c40f", "#9b59b6"]

  /** `colors[level % len(colors)]`; Python's `%` agrees with Dafny's for a positive divisor. */
  function ColorOf(level: int): (c: string)
    ensures c in Palette
  {
    Palette[level % |Palette|]
  }

  /** `calculate_node_position(level, level_index)`. */
  function Position(counts: map<int, nat>, level: int, index: int): Point {
    var total := Get(counts, level, 1);
    Point(level as real * HorizontalSpacing, (index as real - (total as real - 1.0) / 2.0) * VerticalSpacing)
  }

  /** A column's nodes are spaced 100 apart and centred on y = 0: the `i`-th and the
      `i`-th from the end sit symmetrically. */
  lemma PositionCentred(counts: map<int, nat>, level: int, i: int)
    ensures var c := Get(counts, level, 1);
      Position(counts, level, i).y + Position(counts, level, c - 1 - i).y == 0.0 &&
      Position(counts, level, i + 1).y - Position(counts, level, i).y == VerticalSpacing &&
      Position(counts, level, i).x == Position(counts, level, i + 1).x
  {
  }

  /** An index inside the column's count keeps the node within the column's span. */
  lemma PositionWithinColumn(counts: map<int, nat>, level: int, i: int)
    requires 0 <= i < Get(counts, level, 1)
    ensures var c := Get(counts, level, 1) as real;
      -(c - 1.0) / 2.0 * VerticalSpacing <= Position(counts, level, i).y <= (c - 1.0) / 2.0 * VerticalSpacing
  {
  }

  // ---------------------------------------------------------------------------
  // The loop

  /** The loop's state: the scene's lists, `level_indices` and `current_levels` (arena indices). */
  datatype Pass = Pass(g: SceneState, indices: map<int, nat>, current: map<int, nat>)

  ghost predicate CurrentBelow(st: Pass) {
    forall l :: l in st.current ==> st.current[l] < |st.g.arena|
  }

  /** `level_indices.get(level, -1) + 1`. */
  function NextIndex(indices: map<int, nat>, level: int): nat {
    if level in indices then indices[level] + 1 else 0
  }

  /** The scene after the node `k` of a heading at `level` was constructed into `g1`: added
      as a root, under `current[level - 1]`, or not at all. */
  function PlaceScene(g1: SceneState, k: nat, level: int, current: map<int, nat>, th: real): SceneState
    requires k < |g1.arena| && forall l :: l in current ==> current[l] < |g1.arena|
  {
    if level == 0 then Attach(g1, k, None, th)
    else if level - 1 in current then Attach(g1, k, Some(current[level - 1]), th)
    else g1
  }

  /** One heading of the second pass: construct the node, add it as a root at level 0 or
      under `current_levels[level - 1]` when that exists, and record it. */
  function Place(st: Pass, h: Heading, counts: map<int, nat>, textHeight: string -> real): (r: Pass)
    requires CurrentBelow(st)
    ensures |r.g.arena| == |st.g.arena| + 1 && CurrentBelow(r)
  {
    var idx := NextIndex(st.indices, h.level);
    var pos := Position(counts, h.level, idx);
    var k := |st.g.arena|;
    var g1 := Construct(st.g, h.title, pos.x, pos.y, h.lineNumber, ColorOf(h.level));
    Pass(PlaceScene(g1, k, h.level, st.current, textHeight(h.title)), st.indices[h.level := idx], st.current[h.level := k])
  }

  function PlaceAll(st: Pass, hs: seq<Heading>, counts: map<int, nat>, textHeight: string -> real): (r: Pass)
    requires CurrentBelow(st)
    ensures |r.g.arena| == |st.g.arena| + |hs| && CurrentBelow(r)
    decreases |hs|
  {
    if hs == [] then st
    else Place(PlaceAll(st, hs[..|hs| - 1], counts, textHeight), hs[|hs| - 1], counts, textHeight)
  }

  /** The loop over one more heading is one more turn. */
  lemma PlaceAllSnoc(st: Pass, hs: seq<Heading>, h: Heading, counts: map<int, nat>, textHeight: string -> real)
    requires CurrentBelow(st)
    ensures PlaceAll(st, hs + [h], counts, textHeight) == Place(PlaceAll(st, hs, counts, textHeight), h, counts, textHeight)
  {
    assert (hs + [h])[..|hs|] == hs;
  }

  /** The loop over one more source line: a turn when the line yields a heading, nothing
      otherwise. */
  lemma PlaceAllLine(st: Pass, src: seq<SourceLine>, i: nat, counts: map<int, nat>, textHeight: string -> real)
    requires CurrentBelow(st) && i < |src|
    ensures var prev := PlaceAll(st, Headings(src[..i]), counts, textHeight);
      PlaceAll(st, Headings(src[..i + 1]), counts, textHeight) ==
        if HeadingOf(src[i]).Some? then Place(prev, HeadingOf(src[i]).value, counts, textHeight) else prev
  {
    HeadingsSnoc(src, i);
    if HeadingOf(src[i]).Some? {
      PlaceAllSnoc(st, Headings(src[..i]), HeadingOf(src[i]).value, counts, textHeight);
    } else {
      assert Headings(src[..i]) + [] == Headings(src[..i]);
    }
  }

  // ---------------------------------------------------------------------------
  // What the loop builds, stated from the headings alone

  /** The position of the last heading at `level`, if any. */
  function LastAt(hs: seq<Heading>, level: int): (r: Option<nat>)
    ensures r.Some? ==>
      r.value < |hs| && hs[r.value].level == level && forall j :: r.value < j < |hs| ==> hs[j].level != level
    ensures r.None? ==> forall j :: 0 <= j < |hs| ==> hs[j].level != level
    decreases |hs|
  {
    if hs == [] then None
    else if hs[|hs| - 1].level == level then Some(|hs| - 1)
    else LastAt(hs[..|hs| - 1], level)
  }

  /** Heading `j` is added: it is a root, or some earlier heading sits one level up. */
  predicate AddedAt(hs: seq<Heading>, j: nat)
    requires j < |hs|
  {
    hs[j].level == 0 || LastAt(hs[..j], hs[j].level - 1).Some?
  }

  /** The record of heading `j` once the loop is done, for the fields the loop alone decides. */
  ghost predicate Planned(n: NodeRec, hs: seq<Heading>, j: nat, base: nat, counts: map<int, nat>, textHeight: string -> real)
    requires j < |hs|
  {
    var h := hs[j];
    var pos := Position(counts, h.level, AtLevel(hs[..j], h.level));
    n.text == h.title && n.x == pos.x && n.y == pos.y && n.color == ColorOf(h.level) &&
    n.lineNumber == h.lineNumber && n.inScene == AddedAt(hs, j) &&
    n.parent == (if h.level != 0 && AddedAt(hs, j) then Some(base + LastAt(hs[..j], h.level - 1).value) else None) &&
    n.height == (if AddedAt(hs, j) then NodeHeight(textHeight(h.title)) else MinHeight) &&
    !n.collapsed && n.visible && !n.selected && n.z == 0
  }

  /** `level_indices` holds, per level seen, the last index used; `current_levels` holds the
      last node created at each level. */
  ghost predicate MapsMatch(st: Pass, hs: seq<Heading>, base: nat) {
    (forall l :: l in st.indices <==> AtLevel(hs, l) > 0) &&
    (forall l :: l in st.indices ==> st.indices[l] + 1 == AtLevel(hs, l)) &&
    (forall l :: l in st.current <==> LastAt(hs, l).Some?) &&
    (forall l :: l in st.current ==> st.current[l] == base + LastAt(hs, l).value)
  }

  lemma {:induction false} PlaceAllMaps(st: Pass, hs: seq<Heading>, counts: map<int, nat>, textHeight: string -> real)
    requires st.indices == map[] && st.current == map[]
    ensures MapsMatch(PlaceAll(st, hs, counts, textHeight), hs, |st.g.arena|)
    decreases |hs|
  {
    if hs != [] {
      var n := |hs| - 1;
      PlaceAllMaps(st, hs[..n], counts, textHeight);
      var prev := PlaceAll(st, hs[..n], counts, textHeight);
      PlaceMaps(prev, hs[n], counts, textHeight);
      MapsStep(prev, Place(prev, hs[n], counts, textHeight), hs[..n], hs[n], |st.g.arena|);
      assert hs[..n] + [hs[n]] == hs;
    }
  }

  /** One turn records the heading's index at its level and its node as the level's last. */
  lemma PlaceMaps(st: Pass, h: Heading, counts: map<int, nat>, textHeight: string -> real)
    requires CurrentBelow(st)
    ensures var r := Place(st, h, counts, textHeight);
      r.indices == st.indices[h.level := NextIndex(st.indices, h.level)] &&
      r.current == st.current[h.level := |st.g.arena|]
  {
  }

  /** Recording one more heading keeps the maps in step with the headings seen. */
  lemma MapsStep(st: Pass, r: Pass, pre: seq<Heading>, h: Heading, base: nat)
    requires MapsMatch(st, pre, base) && |st.g.arena| == base + |pre|
    requires r.indices == st.indices[h.level := NextIndex(st.indices, h.level)]
    requires r.current == st.current[h.level := |st.g.arena|]
    ensures MapsMatch(r, pre + [h], base)
  {
    var hs := pre + [h];
    assert hs[..|pre|] == pre;
    forall l ensures AtLevel(hs, l) == AtLevel(pre, l) + (if h.level == l then 1 else 0) {
      AtLevelAppend(pre, [h], l);
    }
    assert forall l :: LastAt(hs, l) == if h.level == l then Some(|pre|) else LastAt(pre, l);
  }

  /** A longer heading list plans its earlier nodes the same way. */
  lemma PlannedExtend(n: NodeRec, pre: seq<Heading>, h: Heading, j: nat, base: nat, counts: map<int, nat>, textHeight: string -> real)
    requires j < |pre| && Planned(n, pre, j, base, counts, textHeight)
    ensures Planned(n, pre + [h], j, base, counts, textHeight)
  {
    var hs := pre + [h];
    assert hs[..j] == pre[..j] && hs[j] == pre[j];
  }

  /** Adding children or connections to a node does not change its plan. */
  lemma PlannedLinks(n: NodeRec, m: NodeRec, hs: seq<Heading>, j: nat, base: nat, counts: map<int, nat>, textHeight: string -> real)
    requires j < |hs| && Planned(n, hs, j, base, counts, textHeight)
    requires m == n.(children := m.children, outgoing := m.outgoing)
    ensures Planned(m, hs, j, base, counts, textHeight)
  {
  }

  /** The effect of one turn on the records. */
  lemma PlaceEffect(st: Pass, h: Heading, counts: map<int, nat>, textHeight: string -> real)
    requires CurrentBelow(st)
    ensures var r := Place(st, h, counts, textHeight); var k := |st.g.arena|;
      var pos := Position(counts, h.level, NextIndex(st.indices, h.level));
      var made := NewNode(h.title, pos.x, pos.y, h.lineNumber, ColorOf(h.level));
      var added := h.level == 0 || h.level - 1 in st.current;
      var parent := if h.level != 0 && added then Some(st.current[h.level - 1]) else None;
      (forall i :: 0 <= i < k && (parent.None? || i != parent.value) ==> r.g.arena[i] == st.g.arena[i]) &&
      (parent.Some? ==> r.g.arena[parent.value] == st.g.arena[parent.value].(
         children := r.g.arena[parent.value].children, outgoing := r.g.arena[parent.value].outgoing)) &&
      (added ==> r.g.arena[k] == made.(height := NodeHeight(textHeight(h.title)), inScene := true,
         parent := parent, incoming := r.g.arena[k].incoming)) &&
      (!added ==> r.g.arena[k] == made) &&
      r.g.nodes == st.g.nodes + (if added then [k] else [])
  {
    var k := |st.g.arena|;
    var pos := Position(counts, h.level, NextIndex(st.indices, h.level));
    var g1 := Construct(st.g, h.title, pos.x, pos.y, h.lineNumber, ColorOf(h.level));
    if h.level == 0 {
      AttachEffect(g1, k, None, textHeight(h.title));
    } else if h.level - 1 in st.current {
      AttachEffect(g1, k, Some(st.current[h.level - 1]), textHeight(h.title));
    }
  }

  /** Heading `j` became record `base + j` of `arena` as planned. */
  ghost predicate PlannedAt(arena: seq<NodeRec>, hs: seq<Heading>, j: nat, base: nat, counts: map<int, nat>, textHeight: string -> real)
    requires j < |hs| && base + |hs| <= |arena|
  {
    Planned(arena[base + j], hs, j, base, counts, textHeight)
  }

  /** Every heading became its planned record. */
  ghost predicate AllPlanned(arena: seq<NodeRec>, hs: seq<Heading>, base: nat, counts: map<int, nat>, textHeight: string -> real)
    requires base + |hs| <= |arena|
  {
    forall j :: 0 <= j < |hs| ==> PlannedAt(arena, hs, j, base, counts, textHeight)
  }

  /** An earlier heading's record keeps its plan through one more turn. */
  lemma PlaceKeepsPlan(st: Pass, pre: seq<Heading>, h: Heading, j: nat, base: nat, counts: map<int, nat>, textHeight: string -> real)
    requires CurrentBelow(st) && MapsMatch(st, pre, base) && |st.g.arena| == base + |pre|
    requires j < |pre| && PlannedAt(st.g.arena, pre, j, base, counts, textHeight)
    ensures PlannedAt(Place(st, h, counts, textHeight).g.arena, pre + [h], j, base, counts, textHeight)
  {
    var r := Place(st, h, counts, textHeight);
    PlaceEffect(st, h, counts, textHeight);
    PlannedExtend(st.g.arena[base + j], pre, h, j, base, counts, textHeight);
    PlannedLinks(st.g.arena[base + j], r.g.arena[base + j], pre + [h], j, base, counts, textHeight);
  }

  /** The new heading's record is as planned. */
  lemma PlaceNewPlan(st: Pass, pre: seq<Heading>, h: Heading, base: nat, counts: map<int, nat>, textHeight: string -> real)
    requires CurrentBelow(st) && MapsMatch(st, pre, base) && |st.g.arena| == base + |pre|
    ensures PlannedAt(Place(st, h, counts, textHeight).g.arena, pre + [h], |pre|, base, counts, textHeight)
  {
    PlaceEffect(st, h, counts, textHeight);
    PlannedNew(Place(st, h, counts, textHeight).g.arena[|st.g.arena|], st, pre, h, base, counts, textHeight);
  }

  /** A record made as one turn makes it for heading `h` after `pre` is the plan for `h`. */
  lemma PlannedNew(n: NodeRec, st: Pass, pre: seq<Heading>, h: Heading, base: nat, counts: map<int, nat>, textHeight: string -> real)
    requires CurrentBelow(st) && MapsMatch(st, pre, base) && |st.g.arena| == base + |pre|
    requires var pos := Position(counts, h.level, NextIndex(st.indices, h.level));
      var made := NewNode(h.title, pos.x, pos.y, h.lineNumber, ColorOf(h.level));
      var added := h.level == 0 || h.level - 1 in st.current;
      var parent := if h.level != 0 && added then Some(st.current[h.level - 1]) else None;
      (added ==> n == made.(height := NodeHeight(textHeight(h.title)), inScene := true,
         parent := parent, incoming := n.incoming)) &&
      (!added ==> n == made)
    ensures Planned(n, pre + [h], |pre|, base, counts, textHeight)
  {
    var hs := pre + [h];
    assert hs[..|pre|] == pre && hs[|pre|] == h;
    assert NextIndex(st.indices, h.level) == AtLevel(pre, h.level);
    assert AddedAt(hs, |pre|) == (h.level == 0 || h.level - 1 in st.current);
  }

  lemma PlaceRecords(st: Pass, pre: seq<Heading>, h: Heading, base: nat, counts: map<int, nat>, textHeight: string -> real)
    requires CurrentBelow(st) && MapsMatch(st, pre, base) && |st.g.arena| == base + |pre|
    requires AllPlanned(st.g.arena, pre, base, counts, textHeight)
    ensures var r := Place(st, h, counts, textHeight);
      (forall i :: 0 <= i < base ==> r.g.arena[i] == st.g.arena[i]) &&
      AllPlanned(r.g.arena, pre + [h], base, counts, textHeight)
  {
    PlaceEffect(st, h, counts, textHeight);
    forall j | 0 <= j < |pre| ensures PlannedAt(Place(st, h, counts, textHeight).g.arena, pre + [h], j, base, counts, textHeight) {
      PlaceKeepsPlan(st, pre, h, j, base, counts, textHeight);
    }
    PlaceNewPlan(st, pre, h, base, counts, textHeight);
  }

  /** What the whole second pass builds, from an empty pair of dictionaries: the records
      before it are untouched, and heading `j` becomes record `base + j` as `Planned` says. */
  lemma {:induction false} PlaceAllRecords(st: Pass, hs: seq<Heading>, counts: map<int, nat>, textHeight: string -> real)
    requires st.indices == map[] && st.current == map[]
    ensures var r := PlaceAll(st, hs, counts, textHeight);
      (forall i :: 0 <= i < |st.g.arena| ==> r.g.arena[i] == st.g.arena[i]) &&
      AllPlanned(r.g.arena, hs, |st.g.arena|, counts, textHeight)
    decreases |hs|
  {
    if hs != [] {
      var n := |hs| - 1;
      PlaceAllRecords(st, hs[..n], counts, textHeight);
      PlaceAllMaps(st, hs[..n], counts, textHeight);
      PlaceRecords(PlaceAll(st, hs[..n], counts, textHeight), hs[..n], hs[n], |st.g.arena|, counts, textHeight);
      assert hs[..n] + [hs[n]] == hs;
    }
  }

  /** Every node a level points at in `current_levels` is expanded and visible. */
  ghost predicate CurrentOpen(st: Pass)
    requires CurrentBelow(st)
  {
    forall l :: l in st.current ==> !st.g.arena[st.current[l]].collapsed && st.g.arena[st.current[l]].visible
  }

  lemma PlanCurrentOpen(st: Pass, pre: seq<Heading>, base: nat, counts: map<int, nat>, textHeight: string -> real)
    requires CurrentBelow(st) && MapsMatch(st, pre, base) && |st.g.arena| == base + |pre|
    requires AllPlanned(st.g.arena, pre, base, counts, textHeight)
    ensures CurrentOpen(st)
  {
    forall l | l in st.current ensures !st.g.arena[st.current[l]].collapsed && st.g.arena[st.current[l]].visible {
      assert PlannedAt(st.g.arena, pre, LastAt(pre, l).value, base, counts, textHeight);
    }
  }

  /** Adding a freshly constructed node, as a root or under an expanded visible node,
      keeps the scene wired and the visibility invariant. */
  lemma PlaceSceneWired(g1: SceneState, k: nat, level: int, current: map<int, nat>, th: real)
    requires Wired(g1) && Consistent(g1.arena)
    requires k < |g1.arena| && !g1.arena[k].inScene && g1.arena[k].children == []
    requires forall l :: l in current ==> current[l] < k
    requires forall l :: l in current ==> !g1.arena[current[l]].collapsed && g1.arena[current[l]].visible
    ensures Wired(PlaceScene(g1, k, level, current, th)) && Consistent(PlaceScene(g1, k, level, current, th).arena)
  {
    if level == 0 {
      AttachWired(g1, k, None, th);
      AttachConsistent(g1, k, None, th);
    } else if level - 1 in current {
      AttachWired(g1, k, Some(current[level - 1]), th);
      AttachConsistent(g1, k, Some(current[level - 1]), th);
    }
  }

  /** One turn keeps the scene wired and the visibility invariant: the parent it attaches
      to is expanded and visible. */
  lemma PlaceWired(st: Pass, h: Heading, counts: map<int, nat>, textHeight: string -> real)
    requires CurrentBelow(st) && CurrentOpen(st)
    requires Wired(st.g) && Consistent(st.g.arena)
    ensures Wired(Place(st, h, counts, textHeight).g) && Consistent(Place(st, h, counts, textHeight).g.arena)
  {
    var k := |st.g.arena|;
    var pos := Position(counts, h.level, NextIndex(st.indices, h.level));
    var g1 := Construct(st.g, h.title, pos.x, pos.y, h.lineNumber, ColorOf(h.level));
    ConstructWired(st.g, h.title, pos.x, pos.y, h.lineNumber, ColorOf(h.level));
    ConstructConsistent(st.g, h.title, pos.x, pos.y, h.lineNumber, ColorOf(h.level));
    assert forall l :: l in st.current ==> g1.arena[st.current[l]] == st.g.arena[st.current[l]];
    PlaceSceneWired(g1, k, h.level, st.current, textHeight(h.title));
  }

  /** The second pass keeps the scene wired and every node's visibility consistent. */
  lemma {:induction false} PlaceAllWired(st: Pass, hs: seq<Heading>, counts: map<int, nat>, textHeight: string -> real)
    requires st.indices == map[] && st.current == map[]
    requires Wired(st.g) && Consistent(st.g.arena)
    ensures Wired(PlaceAll(st, hs, counts, textHeight).g) && Consistent(PlaceAll(st, hs, counts, textHeight).g.arena)
    decreases |hs|
  {
    if hs != [] {
      var n := |hs| - 1;
      var prev := PlaceAll(st, hs[..n], counts, textHeight);
      PlaceAllWired(st, hs[..n], counts, textHeight);
      PlaceAllRecords(st, hs[..n], counts, textHeight);
      PlaceAllMaps(st, hs[..n], counts, textHeight);
      PlanCurrentOpen(prev, hs[..n], |st.g.arena|, counts, textHeight);
      PlaceWired(prev, hs[n], counts, textHeight);
    }
  }

  /** The arena indices `base + j` of the headings that get added, in order. */
  function AddedIndices(hs: seq<Heading>, base: nat): (r: seq<nat>)
    ensures forall i :: 0 <= i < |r| ==> base <= r[i] < base + |hs|
    decreases |hs|
  {
    if hs == [] then []
    else
      var n := |hs| - 1;
      AddedIndices(hs[..n], base) + (if AddedAt(hs, n) then [base + n] else [])
  }

  lemma ConcatAssoc<T>(x: seq<T>, p: seq<T>, s: seq<T>, a: seq<T>, a2: seq<T>, t: seq<T>)
    requires x == p + t && p == s + a && a2 == a + t
    ensures x == s + a2
  {
  }

  /** A level is in `current_levels` once a heading of that level has been seen. */
  lemma PlaceAllCurrent(st: Pass, hs: seq<Heading>, l: int, counts: map<int, nat>, textHeight: string -> real)
    requires st.indices == map[] && st.current == map[]
    ensures l in PlaceAll(st, hs, counts, textHeight).current <==> LastAt(hs, l).Some?
  {
    PlaceAllMaps(st, hs, counts, textHeight);
  }

  lemma PlaceNodes(st: Pass, hs: seq<Heading>, front: seq<nat>, base: nat, counts: map<int, nat>, textHeight: string -> real)
    requires hs != [] && CurrentBelow(st) && |st.g.arena| == base + |hs| - 1
    requires st.g.nodes == front + AddedIndices(hs[..|hs| - 1], base)
    requires hs[|hs| - 1].level - 1 in st.current <==> LastAt(hs[..|hs| - 1], hs[|hs| - 1].level - 1).Some?
    ensures Place(st, hs[|hs| - 1], counts, textHeight).g.nodes == front + AddedIndices(hs, base)
  {
    var n := |hs| - 1;
    var before := AddedIndices(hs[..n], base);
    var x := Place(st, hs[n], counts, textHeight).g.nodes;
    PlaceEffect(st, hs[n], counts, textHeight);
    if AddedAt(hs, n) {
      assert x == st.g.nodes + [base + n];
      ConcatAssoc(x, st.g.nodes, front, before, AddedIndices(hs, base), [base + n]);
    } else {
      assert x == st.g.nodes;
    }
  }

  /** `scene.nodes` grows by the added headings' nodes, in heading order. */
  lemma {:induction false} PlaceAllNodes(st: Pass, hs: seq<Heading>, counts: map<int, nat>, textHeight: string -> real)
    requires st.indices == map[] && st.current == map[]
    ensures PlaceAll(st, hs, counts, textHeight).g.nodes == st.g.nodes + AddedIndices(hs, |st.g.arena|)
    decreases |hs|
  {
    if hs != [] {
      var n := |hs| - 1;
      PlaceAllNodes(st, hs[..n], counts, textHeight);
      PlaceAllCurrent(st, hs[..n], hs[n].level - 1, counts, textHeight);
      PlaceNodes(PlaceAll(st, hs[..n], counts, textHeight), hs, st.g.nodes, |st.g.arena|, counts, textHeight);
    }
  }

  // ---------------------------------------------------------------------------
  // Where the nodes land

  lemma {:induction false} AtLevelPrefix(hs: seq<Heading>, m: nat, level: int)
    requires m <= |hs|
    ensures AtLevel(hs[..m], level) <= AtLevel(hs, level)
    decreases |hs|
  {
    if m < |hs| {
      var n := |hs| - 1;
      assert hs[..n][..m] == hs[..m];
      AtLevelPrefix(hs[..n], m, level);
    } else {
      assert hs[..m] == hs;
    }
  }

  /** The index a heading gets within its level is below the first pass's count for that
      level: the two passes see the same headings. */
  lemma IndexBelowCount(src: seq<SourceLine>, j: nat)
    requires j < |Headings(src)|
    ensures var hs := Headings(src);
      AtLevel(hs[..j], hs[j].level) < Get(LevelCounts(Texts(src)), hs[j].level, 1)
  {
    var hs := Headings(src);
    var level := hs[j].level;
    assert hs[..j + 1] == hs[..j] + [hs[j]];
    AtLevelAppend(hs[..j], [hs[j]], level);
    AtLevelPrefix(hs, j + 1, level);
    HeadingsWithinCounts(src, level);
    assert hs[j] in hs;
  }

  /** Every node the second pass creates stands in its level's column, within the vertical
      span that the first pass's count gives that column. */
  lemma PlacedInColumn(st: Pass, src: seq<SourceLine>, j: nat, textHeight: string -> real)
    requires st.indices == map[] && st.current == map[]
    requires j < |Headings(src)|
    ensures var hs := Headings(src); var counts := LevelCounts(Texts(src));
      var n := PlaceAll(st, hs, counts, textHeight).g.arena[|st.g.arena| + j];
      var c := Get(counts, hs[j].level, 1) as real;
      n.x == hs[j].level as real * HorizontalSpacing &&
      -(c - 1.0) / 2.0 * VerticalSpacing <= n.y <= (c - 1.0) / 2.0 * VerticalSpacing
  {
    var hs := Headings(src);
    var counts := LevelCounts(Texts(src));
    PlaceAllRecords(st, hs, counts, textHeight);
    assert PlannedAt(PlaceAll(st, hs, counts, textHeight).g.arena, hs, j, |st.g.arena|, counts, textHeight);
    IndexBelowCount(src, j);
    PositionWithinColumn(counts, hs[j].level, AtLevel(hs[..j], hs[j].level));
  }
}
