/**
  `MindMapScene`: the object that owns the node list, the connections, the first
  pass's level counts, the selected node and the snap setting, and whose methods
  update them in place. Node objects live in the scene's arena (see `Graph`); the
  item-level handlers (`RoundedRectItem.toggle_collapse`, its `mousePressEvent` and
  `itemChange`, and `Node.toggle_children`) are methods here because they write the
  same records. Each method is proved to compute the function of `Wiring`,
  `Collapse`, `Search` or `Moving` that specifies it, and to keep `Valid`.
*/
module Scene {
  import opened Wrappers
  import opened Geometry
  import opened Graph
  import opened Wiring
  import opened Collapse
  import opened Search
  import opened Moving

  /** Exactly the selected node's item is selected. */
  ghost predicate SoleSelected(ns: seq<NodeRec>, sel: Option<nat>) {
    forall i :: 0 <= i < |ns| ==> (ns[i].selected <==> sel == Some(i))
  }

  /** The arena after a press on node `h`'s item while `prev` was selected. */
  function Pick(ns: seq<NodeRec>, prev: Option<nat>, h: nat): seq<NodeRec>
    requires h < |ns| && (prev.Some? ==> prev.value < |ns|)
  {
    var m := if prev.Some? then ns[prev.value := ns[prev.value].(selected := false)] else ns;
    m[h := m[h].(selected := true)]
  }

  /** The press selects the hit node, deselects the previous one, and changes nothing else. */
  lemma PickSpec(ns: seq<NodeRec>, prev: Option<nat>, h: nat)
    requires h < |ns| && (prev.Some? ==> prev.value < |ns|)
    ensures var r := Pick(ns, prev, h);
      SameLinks(ns, r) &&
      forall i :: 0 <= i < |ns| ==>
        r[i] == if i == h then ns[i].(selected := true)
                else if Some(i) == prev then ns[i].(selected := false)
                else ns[i]
  {
  }

  /** Selection is one of the four flags, and nodes outside the scene are never pressed. */
  lemma PickWired(g: SceneState, prev: Option<nat>, h: nat)
    requires Wired(g) && h < |g.arena| && g.arena[h].inScene && (prev.Some? ==> prev.value < |g.arena|)
    ensures Wired(g.(arena := Pick(g.arena, prev, h))) && Pick(g.arena, prev, h)[h].inScene
  {
    var r := Pick(g.arena, prev, h);
    PickSpec(g.arena, prev, h);
    SameLinksFields(g.arena, r);
    FlagsWired(g, r);
  }

  /** `setSelected(on)` and `setZValue` on a listed node keep the invariant. */
  lemma MarkWired(g: SceneState, sel: Option<nat>, k: nat, on: bool)
    requires Wired(g) && k < |g.arena|
    requires sel.Some? ==> sel.value < |g.arena| && g.arena[sel.value].inScene
    ensures var r := Mark(g.arena, k, on);
      Wired(g.(arena := r)) && (sel.Some? ==> r[sel.value].inScene)
  {
    var r := Mark(g.arena, k, on);
    SameLinksFields(g.arena, r);
    FlagsWired(g, r);
  }

  /** Clearing the selection flags of the listed nodes keeps the invariant. */
  lemma DeselectWired(g: SceneState, order: seq<nat>)
    requires Wired(g) && forall i :: 0 <= i < |order| ==> order[i] < |g.arena|
    ensures var r := Deselect(g.arena, order);
      Wired(g.(arena := r)) && forall x :: 0 <= x < |g.arena| ==> r[x].inScene == g.arena[x].inScene
  {
    var r := Deselect(g.arena, order);
    DeselectLinks(g.arena, order);
    SameLinksFields(g.arena, r);
    FlagsWired(g, r);
  }

  lemma {:induction false} DeselectLinks(ns: seq<NodeRec>, order: seq<nat>)
    requires forall i :: 0 <= i < |order| ==> order[i] < |ns|
    ensures SameLinks(ns, Deselect(ns, order))
    ensures OrphansOpen(ns) ==> OrphansOpen(Deselect(ns, order))
    decreases |order|
  {
    if order != [] {
      var n := |order| - 1;
      DeselectLinks(ns, order[..n]);
      var p := Deselect(ns, order[..n]);
      SameLinksTrans(ns, p, Mark(p, order[n], false));
    }
  }

  /** When exactly the selected node's item was selected, so it is after the press. */
  lemma PickSole(ns: seq<NodeRec>, prev: Option<nat>, h: nat)
    requires h < |ns| && (prev.Some? ==> prev.value < |ns|)
    requires SoleSelected(ns, prev)
    ensures SoleSelected(Pick(ns, prev, h), Some(h))
  {
    PickSpec(ns, prev, h);
  }

  /** Collapsing or expanding an added node keeps the invariant, and keeps the visibility
      invariant when no ancestor of the node is collapsed. */
  lemma ToggleWired(g: SceneState, k: nat)
    requires Wired(g) && k < |g.arena| && g.arena[k].inScene
    ensures Wired(g.(arena := AfterToggle(g.arena, k)))
    ensures forall i :: 0 <= i < |g.arena| ==> AfterToggle(g.arena, k)[i].inScene == g.arena[i].inScene
    ensures Consistent(g.arena) && !AnyAncCollapsed(g.arena, k) ==> Consistent(AfterToggle(g.arena, k))
  {
    var r := AfterToggle(g.arena, k);
    ToggleOrphans(g.arena, k);
    SameButFlagsLinks(g.arena, r);
    SameButFlagsParents(g.arena, r);
    FlagsWired(g, r);
    if Consistent(g.arena) && !AnyAncCollapsed(g.arena, k) {
      ToggleConsistent(g.arena, k);
    }
  }

  class MindMapScene {
    var arena: seq<NodeRec>
    var nodes: seq<nat>
    var conns: seq<Conn>
    var levelCounts: map<int, nat>
    var selectedNode: Option<nat>
    var snapToGrid: bool
    const gridSize: int

    function State(): SceneState
      reads this
    {
      SceneState(arena, nodes, conns)
    }

    /** The scene is wired, and the selected node (if any) is an added node. */
    ghost predicate Valid()
      reads this
    {
      Wired(State()) && gridSize == 20 &&
      (selectedNode.Some? ==> selectedNode.value < |arena| && arena[selectedNode.value].inScene)
    }

    constructor()
      ensures Valid() && State() == SceneState([], [], [])
      ensures levelCounts == map[] && selectedNode == None && !snapToGrid && gridSize == 20
    {
      arena := [];
      nodes := [];
      conns := [];
      levelCounts := map[];
      selectedNode := None;
      snapToGrid := false;
      gridSize := 20;
      EmptyWired();
    }

    method SetSnapToGrid(enabled: bool)
      requires Valid()
      modifies this
      ensures Valid() && snapToGrid == enabled
      ensures State() == old(State()) && levelCounts == old(levelCounts) && selectedNode == old(selectedNode)
    {
      snapToGrid := enabled;
    }

    /** `clear_nodes`: everything goes, and `nodeSelected` is emitted with `None`. */
    method ClearNodes() returns (emitted: Option<nat>)
      requires Valid()
      modifies this
      ensures Valid() && State() == SceneState([], [], [])
      ensures levelCounts == map[] && selectedNode == None && emitted == None
      ensures snapToGrid == old(snapToGrid)
    {
      arena := [];
      nodes := [];
      conns := [];
      levelCounts := map[];
      selectedNode := None;
      emitted := None;
      EmptyWired();
    }

    /** `Node(text, x, y, line_number, color)`: a new node object, not yet in the scene. */
    method CreateNode(text: string, x: real, y: real, lineNumber: Option<nat>, color: string) returns (k: nat)
      requires Valid()
      modifies this
      ensures Valid() && k == |old(arena)|
      ensures State() == Construct(old(State()), text, x, y, lineNumber, color)
      ensures levelCounts == old(levelCounts) && selectedNode == old(selectedNode) && snapToGrid == old(snapToGrid)
    {
      ConstructWired(State(), text, x, y, lineNumber, color);
      k := |arena|;
      arena := arena + [NewNode(text, x, y, lineNumber, color)];
    }

    /** `add_node(node, parent)` for the fresh node `k`, whose text measures `textHeight`. */
    method AddNode(k: nat, parent: Option<nat>, textHeight: real)
      requires Valid() && k < |arena| && !arena[k].inScene && arena[k].children == []
      requires parent.Some? ==> parent.value < k
      modifies this
      ensures Valid() && State() == Attach(old(State()), k, parent, textHeight)
      ensures levelCounts == old(levelCounts) && selectedNode == old(selectedNode) && snapToGrid == old(snapToGrid)
    {
      ghost var g := State();
      ghost var r := Attach(g, k, parent, textHeight);
      AttachWired(g, k, parent, textHeight);
      arena := arena[k := arena[k].(height := NodeHeight(textHeight), inScene := true)];
      if parent.Some? {
        var p := parent.value;
        var ci := |conns|;
        arena := arena[k := arena[k].(parent := Some(p), incoming := Some(ci))];
        arena := arena[p := arena[p].(children := arena[p].children + [k], outgoing := arena[p].outgoing + [ci])];
        conns := conns + [Conn(p, k, PathBetween(arena, p, k))];
      }
      nodes := nodes + [k];
      assert State() == r;
      assert selectedNode.Some? ==> arena[selectedNode.value].inScene by {
        if selectedNode.Some? {
          AttachInScene(g, k, parent, textHeight, selectedNode.value);
        }
      }
    }

    /** The scene's `mousePressEvent`. `hit` is what `itemAt` finds under the cursor when
        it is a node item: the node whose item it is. The previously selected node is
        deselected, the hit node is looked up in `nodes`, selected and reported. */
    method MousePress(hit: Option<nat>) returns (emitted: bool)
      requires Valid()
      requires hit.Some? ==> hit.value < |arena| && arena[hit.value].inScene
      modifies this
      ensures Valid() && nodes == old(nodes) && conns == old(conns)
      ensures hit.None? ==> arena == old(arena) && selectedNode == old(selectedNode) && !emitted
      ensures hit.Some? ==> arena == Pick(old(arena), old(selectedNode), hit.value) && selectedNode == hit && emitted
      ensures levelCounts == old(levelCounts) && snapToGrid == old(snapToGrid)
    {
      emitted := false;
      if hit.Some? {
        ghost var g := State();
        PickSpec(g.arena, selectedNode, hit.value);
        if selectedNode.Some? {
          var s := selectedNode.value;
          arena := arena[s := arena[s].(selected := false)];
        }
        var found := FindNode(hit.value);
        SceneListed(g, hit.value);
        selectedNode := found;
        var h := found.value;
        arena := arena[h := arena[h].(selected := true)];
        emitted := true;
        assert arena == Pick(g.arena, old(selectedNode), hit.value);
        PickWired(g, old(selectedNode), h);
        assert State() == g.(arena := arena);
      }
    }

    /** `next((node for node in self.nodes if node.rect_item == item), None)`, for the item
        of node `item`. */
    method FindNode(item: nat) returns (found: Option<nat>)
      ensures found == if item in nodes then Some(item) else None
    {
      found := None;
      var i := 0;
      while i < |nodes| && found.None?
        invariant 0 <= i <= |nodes|
        invariant found.None? ==> item !in nodes[..i]
        invariant found.Some? ==> found == Some(item) && item in nodes
      {
        if nodes[i] == item {
          found := Some(nodes[i]);
        }
        i := i + 1;
      }
      if found.None? {
        assert nodes[..i] == nodes;
      }
    }

    /** `node.toggle_children(c)` on node `k`. */
    method ToggleChildren(k: nat, c: bool)
      requires Tree(arena) && k < |arena|
      modifies this
      ensures arena == AfterHide(old(arena), k, c)
      ensures nodes == old(nodes) && conns == old(conns) && levelCounts == old(levelCounts)
      ensures selectedNode == old(selectedNode) && snapToGrid == old(snapToGrid)
      decreases |arena| - k
    {
      ghost var ns := arena;
      var children := arena[k].children;
      var i := 0;
      while i < |children|
        invariant 0 <= i <= |children| && children == ns[k].children
        invariant HidDone(ns, k, c, i, arena)
        invariant nodes == old(nodes) && conns == old(conns) && levelCounts == old(levelCounts)
        invariant selectedNode == old(selectedNode) && snapToGrid == old(snapToGrid)
      {
        var child := children[i];
        assert ns[child].parent == Some(k) && k < child < |ns|;
        HidDoneFlags(ns, k, c, i, arena);
        ghost var before := arena;
        var isVisible := !c;
        arena := arena[child := arena[child].(visible := isVisible)];
        assert SameButFlags(ns, arena) by {
          assert forall e :: 0 <= e < |ns| && e != child ==> arena[e] == before[e];
        }
        TreeFrame(ns, arena);
        var hideBelow := !isVisible || arena[child].collapsed;
        ToggleChildren(child, hideBelow);
        forall d | 0 <= d < |ns|
          ensures arena[d] == if Covered(ns, k, i + 1, d) then AfterHide(ns, k, c)[d] else ns[d]
        {
          HideStepAt(ns, k, c, i, before, d);
        }
        i := i + 1;
      }
      HideDone(ns, k, c, arena);
    }

    /** `RoundedRectItem.toggle_collapse` on node `k`'s item. */
    method ToggleCollapse(k: nat)
      requires Valid() && k < |arena| && arena[k].inScene
      modifies this
      ensures Valid() && arena == AfterToggle(old(arena), k)
      ensures nodes == old(nodes) && conns == old(conns) && levelCounts == old(levelCounts)
      ensures selectedNode == old(selectedNode) && snapToGrid == old(snapToGrid)
      ensures Consistent(old(arena)) && !AnyAncCollapsed(old(arena), k) ==> Consistent(arena)
    {
      ghost var g := State();
      if arena[k].children != [] {
        arena := arena[k := arena[k].(collapsed := !arena[k].collapsed)];
        assert arena == Flip(g.arena, k);
        TreeFrame(g.arena, arena);
        ToggleChildren(k, arena[k].collapsed);
      }
      assert arena == AfterToggle(g.arena, k);
      ToggleWired(g, k);
    }

    /** `RoundedRectItem.mousePressEvent` on node `k`'s item, at `pos` in item coordinates:
        a press inside the collapse button of a node with children toggles it and is
        accepted; any other press is passed on to Qt. */
    method ItemMousePress(k: nat, pos: Point) returns (accepted: bool)
      requires Valid() && k < |arena| && arena[k].inScene
      modifies this
      ensures accepted == (old(arena)[k].children != [] && Contains(ButtonRect(old(arena)[k].height), pos))
      ensures Valid() && arena == (if accepted then AfterToggle(old(arena), k) else old(arena))
      ensures nodes == old(nodes) && conns == old(conns) && levelCounts == old(levelCounts)
      ensures selectedNode == old(selectedNode) && snapToGrid == old(snapToGrid)
    {
      accepted := arena[k].children != [] && Contains(ButtonRect(arena[k].height), pos);
      if accepted {
        ToggleCollapse(k);
      }
    }

    /** `_ensure_parents_visible(d)`; `ok` is false when the walk reaches a parent that
        has no item (it was never added), where `_ensure_parents_visible` raises
        `AttributeError` reading `collapsed` on `node.parent.rect_item`, which is `None`. */
    method EnsureParentsVisible(d: nat) returns (ok: bool)
      requires Valid() && d < |arena|
      modifies this
      ensures Valid() && (arena, ok) == AfterEnsure(old(arena), d)
      ensures nodes == old(nodes) && conns == old(conns) && levelCounts == old(levelCounts)
      ensures selectedNode == old(selectedNode) && snapToGrid == old(snapToGrid)
      decreases d
    {
      if arena[d].parent.None? {
        ok := true;
        return;
      }
      var p := arena[d].parent.value;
      assert p < d;
      if !arena[p].inScene {
        ok := false;
        return;
      }
      ghost var ns := arena;
      if arena[p].collapsed {
        ToggleCollapse(p);
      }
      assert arena == if ns[p].collapsed then AfterToggle(ns, p) else ns;
      ok := EnsureParentsVisible(p);
    }

    /** The loop of `search_nodes` for an empty query. */
    method DeselectAll()
      requires Valid()
      modifies this
      ensures nodes == old(nodes) && conns == old(conns) && |arena| == |old(arena)|
      ensures Valid() && arena == Deselect(old(arena), nodes)
      ensures levelCounts == old(levelCounts) && selectedNode == old(selectedNode) && snapToGrid == old(snapToGrid)
    {
      assert Listed(State());
      DeselectWired(State(), nodes);
      arena := DeselectNodes(arena, nodes);
    }

    /** `search_nodes(query)`; `ok` is false when `_ensure_parents_visible` raised, which
        ends the loop. */
    method SearchNodes(query: string) returns (ok: bool)
      requires Valid()
      modifies this
      ensures nodes == old(nodes) && conns == old(conns) && |arena| == |old(arena)|
      ensures Valid() && (arena, ok) == Search.SearchNodes(old(arena), query, nodes)
      ensures levelCounts == old(levelCounts) && selectedNode == old(selectedNode) && snapToGrid == old(snapToGrid)
    {
      if query == [] {
        DeselectAll();
        ok := true;
        return;
      }
      ghost var g := State();
      assert Listed(g);
      ok := true;
      var i := 0;
      while i < |nodes|
        invariant 0 <= i <= |nodes| && Valid() && |arena| == |g.arena|
        invariant nodes == old(nodes) && conns == old(conns)
        invariant SearchLoop(g.arena, query, nodes[..i]) == (arena, true)
        invariant levelCounts == old(levelCounts) && selectedNode == old(selectedNode) && snapToGrid == old(snapToGrid)
      {
        SearchLoopSnoc(g.arena, query, nodes, i);
        var shown := SearchVisit(query, nodes[i]);
        if !shown {
          SearchLoopStops(g.arena, query, nodes, i + 1);
          ok := false;
          return;
        }
        i := i + 1;
      }
      assert nodes[..i] == nodes;
    }

    /** One pass of the loop of `search_nodes`, on node `k`. */
    method SearchVisit(query: string, k: nat) returns (ok: bool)
      requires Valid() && k < |arena|
      modifies this
      ensures nodes == old(nodes) && conns == old(conns) && |arena| == |old(arena)|
      ensures Valid() && (arena, ok) == SearchStep(old(arena), query, k)
      ensures levelCounts == old(levelCounts) && selectedNode == old(selectedNode) && snapToGrid == old(snapToGrid)
    {
      if Matches(query, arena[k].text) {
        MarkWired(State(), selectedNode, k, true);
        arena := arena[k := arena[k].(selected := arena[k].visible, z := 1)];
        assert arena == Mark(old(arena), k, true);
        ok := EnsureParentsVisible(k);
      } else {
        MarkWired(State(), selectedNode, k, false);
        arena := arena[k := arena[k].(selected := false, z := 0)];
        assert arena == Mark(old(arena), k, false);
        ok := true;
      }
    }

    /** `RoundedRectItem.itemChange` for a position change of node `k`'s item to `value`:
        the accepted position, the node moved there, and its connections redrawn. */
    method ItemChange(k: nat, value: Point) returns (newPos: Point)
      requires Valid() && k < |arena| && arena[k].inScene
      modifies this
      ensures newPos == Accepted(old(State()), k, value, snapToGrid, gridSize)
      ensures Valid() && State() == Move(old(State()), k, newPos)
      ensures levelCounts == old(levelCounts) && selectedNode == old(selectedNode) && snapToGrid == old(snapToGrid)
    {
      ghost var g := State();
      newPos := value;
      if snapToGrid {
        var snapped := Point(Snap(value.x, gridSize), Snap(value.y, gridSize));
        var check := Rect(snapped.x, snapped.y, NodeWidth, arena[k].height);
        var collision := FindCollision(State(), k, check);
        if !collision {
          newPos := snapped;
        }
      }
      arena := arena[k := arena[k].(x := newPos.x, y := newPos.y)];
      assert arena == Move(g, k, newPos).arena && Touching(arena[k]) == Touching(g.arena[k]);
      RedrawTouching(g, k, newPos);
      RedrawConnections(k);
      MoveWired(g, k, newPos);
      assert State() == Move(g, k, newPos);
    }

    /** `itemChange`'s redrawing: `k`'s incoming connection, then its outgoing ones. */
    method RedrawConnections(k: nat)
      requires k < |arena| && EndsIn(arena, conns)
      requires forall i :: 0 <= i < |Touching(arena[k])| ==> Touching(arena[k])[i] < |conns|
      modifies this
      ensures arena == old(arena) && nodes == old(nodes) && levelCounts == old(levelCounts)
      ensures conns == RedrawList(arena, old(conns), Touching(arena[k]))
      ensures selectedNode == old(selectedNode) && snapToGrid == old(snapToGrid)
    {
      var cs := RedrawAll(arena, conns, arena[k]);
      conns := cs;
    }
  }

  /** The scan of `itemChange` over the scene's items for one that `check` would overlap. */
  method FindCollision(g: SceneState, k: nat, check: Rect) returns (collision: bool)
    requires forall i :: 0 <= i < |g.nodes| ==> g.nodes[i] < |g.arena|
    ensures collision == Collides(g, k, check)
  {
    collision := false;
    var i := 0;
    while i < |g.nodes| && !collision
      invariant 0 <= i <= |g.nodes|
      invariant collision <==> exists j :: 0 <= j < i && Blocks(g.arena, k, g.nodes[j], check)
    {
      var j := g.nodes[i];
      if j != k && g.arena[j].visible && Overlaps(check, BoundingRect(g.arena[j].x, g.arena[j].y, g.arena[j].height)) {
        collision := true;
      }
      i := i + 1;
    }
  }

  /** The redrawing loop of `itemChange` on the connection list `cs0`, for the node record `n`:
      its incoming connection first, then its outgoing ones, in `Touching(n)`'s order. */
  method RedrawAll(a: seq<NodeRec>, cs0: seq<Conn>, n: NodeRec) returns (cs: seq<Conn>)
    requires EndsIn(a, cs0)
    requires forall i :: 0 <= i < |Touching(n)| ==> Touching(n)[i] < |cs0|
    ensures cs == RedrawList(a, cs0, Touching(n))
  {
    var order := Touching(n);
    cs := cs0;
    var i := 0;
    while i < |order|
      invariant 0 <= i <= |order| && cs == RedrawList(a, cs0, order[..i])
    {
      RedrawNext(a, cs0, order, i, cs);
      cs := Redraw(a, cs, order[i]);
      i := i + 1;
    }
    assert order[..i] == order;
  }

  /** The loop of `search_nodes` for an empty query, on the records `ns`: each listed node
      is deselected and lowered in turn. */
  method DeselectNodes(ns: seq<NodeRec>, order: seq<nat>) returns (r: seq<NodeRec>)
    requires forall i :: 0 <= i < |order| ==> order[i] < |ns|
    ensures r == Deselect(ns, order)
  {
    r := ns;
    var i := 0;
    while i < |order|
      invariant 0 <= i <= |order| && r == Deselect(ns, order[..i])
    {
      assert order[..i + 1][..i] == order[..i];
      r := r[order[i] := r[order[i]].(selected := false, z := 0)];
      i := i + 1;
    }
    assert order[..i] == order;
  }
}
