/**
  The scene's node objects as an arena. Every `Node` constructed since the last
  `clear_nodes` is one record, addressed by its creation index; `parent`,
  `children`, `incoming` and `outgoing` hold indices. A record whose node was
  never passed to `add_node` (a heading whose parent level was missing) has
  `inScene == false`: it has no rectangle item, so no `collapsed`, selection or
  z value of its own, and it never gets a parent.
*/
module Graph {
  import opened Wrappers
  import opened Geometry

  /** One `Node`, together with the state of its `RoundedRectItem` (`collapsed`,
      `isSelected()`, `zValue()`); `visible` is `node.visible`, which is also the
      visibility of the item and of the node's incoming connection. */
  datatype NodeRec = NodeRec(
    text: string, x: real, y: real, height: real, color: string, lineNumber: Option<nat>,
    parent: Option<nat>, children: seq<nat>, outgoing: seq<nat>, incoming: Option<nat>,
    inScene: bool, collapsed: bool, visible: bool, selected: bool, z: int)

  /** A `Connection` from `start` (the parent) to `end` (the child), with its current path. */
  datatype Conn = Conn(start: nat, end: nat, path: Path)

  /** `Node(text, x, y, line_number, color)`: not yet in the scene, visible, 50 high. */
  function NewNode(text: string, x: real, y: real, lineNumber: Option<nat>, color: string): NodeRec {
    NodeRec(text, x, y, MinHeight, color, lineNumber, None, [], [], None, false, false, true, false, 0)
  }

  // ---------------------------------------------------------------------------
  // Parent chains

  /** `a` is a proper ancestor of `d`. */
  predicate Anc(ns: seq<NodeRec>, a: nat, d: nat)
    decreases d
  {
    d < |ns| && ns[d].parent.Some? && ns[d].parent.value < d &&
    (ns[d].parent.value == a || Anc(ns, a, ns[d].parent.value))
  }

  /** Some node strictly between `a` and its descendant `d` is collapsed. */
  predicate HiddenBelow(ns: seq<NodeRec>, a: nat, d: nat)
    decreases d
  {
    d < |ns| && ns[d].parent.Some? && ns[d].parent.value < d && ns[d].parent.value != a &&
    (ns[ns[d].parent.value].collapsed || HiddenBelow(ns, a, ns[d].parent.value))
  }

  /** Some proper ancestor of `d` is collapsed. */
  predicate AnyAncCollapsed(ns: seq<NodeRec>, d: nat)
    decreases d
  {
    d < |ns| && ns[d].parent.Some? && ns[d].parent.value < d &&
    (ns[ns[d].parent.value].collapsed || AnyAncCollapsed(ns, ns[d].parent.value))
  }

  /** Every proper ancestor of `d` is in the scene (has a rectangle item). */
  predicate ChainInScene(ns: seq<NodeRec>, d: nat)
    decreases d
  {
    d < |ns| && ns[d].parent.Some? && ns[d].parent.value < d ==>
      ns[ns[d].parent.value].inScene && ChainInScene(ns, ns[d].parent.value)
  }

  /** The visibility invariant: a node is visible exactly when no proper ancestor is collapsed. */
  ghost predicate Consistent(ns: seq<NodeRec>) {
    forall d :: 0 <= d < |ns| ==> ns[d].visible == !AnyAncCollapsed(ns, d)
  }

  /** Parent links point to earlier nodes, and `children` lists, once each, exactly the
      nodes whose parent is this one. */
  ghost predicate Tree(ns: seq<NodeRec>) {
    ParentsListed(ns) && ChildrenLinked(ns) && ChildrenDistinct(ns)
  }

  /** Each parent is earlier and lists its child. */
  ghost predicate ParentsListed(ns: seq<NodeRec>) {
    forall i :: 0 <= i < |ns| && ns[i].parent.Some? ==>
      ns[i].parent.value < i && i in ns[ns[i].parent.value].children
  }

  /** Each listed child names this node as its parent. */
  ghost predicate ChildrenLinked(ns: seq<NodeRec>) {
    forall i, j :: 0 <= i < |ns| && 0 <= j < |ns[i].children| ==>
      ns[i].children[j] < |ns| && ns[ns[i].children[j]].parent == Some(i)
  }

  /** No child is listed twice. */
  ghost predicate ChildrenDistinct(ns: seq<NodeRec>) {
    forall i, j, k :: 0 <= i < |ns| && 0 <= j < k < |ns[i].children| ==>
      ns[i].children[j] != ns[i].children[k]
  }

  /** A node that was never added keeps the state it was constructed with: no parent,
      not collapsed, visible. */
  ghost predicate OrphansOpen(ns: seq<NodeRec>) {
    forall i :: 0 <= i < |ns| && !ns[i].inScene ==>
      ns[i].parent == None && !ns[i].collapsed && ns[i].visible
  }

  // ---------------------------------------------------------------------------
  // Facts about chains

  /** An ancestor comes earlier. */
  lemma {:induction false} AncBefore(ns: seq<NodeRec>, a: nat, d: nat)
    requires Anc(ns, a, d)
    ensures a < d
    decreases d
  {
    var p := ns[d].parent.value;
    if p != a {
      AncBefore(ns, a, p);
    }
  }

  /** No node is its own ancestor. */
  lemma AncIrreflexive(ns: seq<NodeRec>, k: nat)
    ensures !Anc(ns, k, k)
  {
    if Anc(ns, k, k) {
      AncBefore(ns, k, k);
    }
  }

  /** The parent's ancestors are ancestors. */
  lemma AncParent(ns: seq<NodeRec>, a: nat, d: nat)
    requires d < |ns| && ns[d].parent.Some? && ns[d].parent.value < d
    ensures Anc(ns, a, d) <==> a == ns[d].parent.value || Anc(ns, a, ns[d].parent.value)
  {
  }

  /** Ancestry is transitive. */
  lemma {:induction false} AncTrans(ns: seq<NodeRec>, a: nat, b: nat, d: nat)
    requires Anc(ns, a, b) && Anc(ns, b, d)
    ensures Anc(ns, a, d)
    decreases d
  {
    var p := ns[d].parent.value;
    if p != b {
      AncTrans(ns, a, b, p);
    }
  }

  /** Below an ancestor `a`, a collapsed ancestor of `d` is `a`, lies between, or lies above `a`. */
  lemma {:induction false} AnyAncSplit(ns: seq<NodeRec>, a: nat, d: nat)
    requires Anc(ns, a, d) && a < |ns|
    ensures AnyAncCollapsed(ns, d) == (ns[a].collapsed || HiddenBelow(ns, a, d) || AnyAncCollapsed(ns, a))
    decreases d
  {
    var p := ns[d].parent.value;
    if p != a {
      AnyAncSplit(ns, a, p);
    }
  }

  /** Moving the upper end of a chain one step up adds that step's node to the inside. */
  lemma {:induction false} HiddenBelowExtend(ns: seq<NodeRec>, a: nat, b: nat, d: nat)
    requires Anc(ns, b, d) && b < |ns| && ns[b].parent == Some(a) && a < b
    ensures Anc(ns, a, d)
    ensures HiddenBelow(ns, a, d) == (ns[b].collapsed || HiddenBelow(ns, b, d))
    decreases d
  {
    AncBefore(ns, b, d);
    var p := ns[d].parent.value;
    if p != b {
      HiddenBelowExtend(ns, a, b, p);
      AncBefore(ns, a, p);
    }
  }

  /** `ChainInScene` holds exactly when every proper ancestor is in the scene. */
  lemma {:induction false} ChainInSceneAll(ns: seq<NodeRec>, d: nat)
    requires d < |ns|
    ensures ChainInScene(ns, d) <==> forall a: nat :: Anc(ns, a, d) ==> a < |ns| && ns[a].inScene
    decreases d
  {
    forall a: nat | Anc(ns, a, d) ensures a < |ns| {
      AncBefore(ns, a, d);
    }
    if ns[d].parent.Some? && ns[d].parent.value < d {
      var p := ns[d].parent.value;
      ChainInSceneAll(ns, p);
      forall a: nat ensures Anc(ns, a, d) <==> a == p || Anc(ns, a, p) {
        AncParent(ns, a, d);
      }
    }
  }

  // ---------------------------------------------------------------------------
  // Frames: which fields the chain relations read

  /** The two arenas have the same length and the same parent links. */
  ghost predicate SameParents(ns: seq<NodeRec>, ms: seq<NodeRec>) {
    |ns| == |ms| && forall i :: 0 <= i < |ns| ==> ns[i].parent == ms[i].parent
  }

  lemma {:induction false} AncFrame(ns: seq<NodeRec>, ms: seq<NodeRec>, a: nat, d: nat)
    requires SameParents(ns, ms)
    ensures Anc(ns, a, d) == Anc(ms, a, d)
    decreases d
  {
    if d < |ns| && ns[d].parent.Some? && ns[d].parent.value < d {
      AncFrame(ns, ms, a, ns[d].parent.value);
    }
  }

  lemma {:induction false} ChainInSceneFrame(ns: seq<NodeRec>, ms: seq<NodeRec>, d: nat)
    requires SameParents(ns, ms)
    requires forall i :: 0 <= i < |ns| ==> ns[i].inScene == ms[i].inScene
    ensures ChainInScene(ns, d) == ChainInScene(ms, d)
    decreases d
  {
    if d < |ns| && ns[d].parent.Some? && ns[d].parent.value < d {
      ChainInSceneFrame(ns, ms, ns[d].parent.value);
    }
  }

  /** Collapsed flags that differ only at `k` do not matter to a node that `k` is not above. */
  lemma {:induction false} FlipFrame(ns: seq<NodeRec>, ms: seq<NodeRec>, k: nat, d: nat)
    requires SameParents(ns, ms)
    requires forall i :: 0 <= i < |ns| && i != k ==> ns[i].collapsed == ms[i].collapsed
    requires !Anc(ns, k, d)
    ensures AnyAncCollapsed(ns, d) == AnyAncCollapsed(ms, d)
    decreases d
  {
    if d < |ns| && ns[d].parent.Some? && ns[d].parent.value < d {
      var p := ns[d].parent.value;
      AncParent(ns, k, d);
      FlipFrame(ns, ms, k, p);
    }
  }

  /** Only the collapsed flags and the visibility differ; every other field agrees. */
  ghost predicate SameButFlags(ns: seq<NodeRec>, ms: seq<NodeRec>) {
    |ns| == |ms| &&
    forall i :: 0 <= i < |ns| ==> ms[i].(collapsed := ns[i].collapsed, visible := ns[i].visible) == ns[i]
  }

  lemma SameButFlagsParents(ns: seq<NodeRec>, ms: seq<NodeRec>)
    requires SameButFlags(ns, ms)
    ensures SameParents(ns, ms)
    ensures forall i :: 0 <= i < |ns| ==>
      ns[i].inScene == ms[i].inScene && ns[i].children == ms[i].children &&
      ns[i].selected == ms[i].selected && ns[i].z == ms[i].z
  {
    forall i | 0 <= i < |ns|
      ensures ns[i].parent == ms[i].parent && ns[i].inScene == ms[i].inScene &&
        ns[i].children == ms[i].children && ns[i].selected == ms[i].selected && ns[i].z == ms[i].z
    {
      assert ms[i].(collapsed := ns[i].collapsed, visible := ns[i].visible) == ns[i];
    }
  }

  lemma SameButFlagsTrans(ns: seq<NodeRec>, ms: seq<NodeRec>, ls: seq<NodeRec>)
    requires SameButFlags(ns, ms) && SameButFlags(ms, ls)
    ensures SameButFlags(ns, ls)
  {
    forall i | 0 <= i < |ns|
      ensures ls[i].(collapsed := ns[i].collapsed, visible := ns[i].visible) == ns[i]
    {
      assert ms[i].(collapsed := ns[i].collapsed, visible := ns[i].visible) == ns[i];
      assert ls[i].(collapsed := ms[i].collapsed, visible := ms[i].visible) == ms[i];
    }
  }

  /** Flags that differ only at `k` give the same answer for the part of a chain below `k`. */
  lemma {:induction false} HiddenBelowFlipFrame(ns: seq<NodeRec>, ms: seq<NodeRec>, k: nat, d: nat)
    requires SameParents(ns, ms)
    requires forall i :: 0 <= i < |ns| && i != k ==> ns[i].collapsed == ms[i].collapsed
    requires Anc(ns, k, d)
    ensures HiddenBelow(ns, k, d) == HiddenBelow(ms, k, d)
    decreases d
  {
    var p := ns[d].parent.value;
    if p != k {
      HiddenBelowFlipFrame(ns, ms, k, p);
    }
  }

  /** The tree shape reads only parent and child links. */
  lemma TreeFrame(ns: seq<NodeRec>, ms: seq<NodeRec>)
    requires Tree(ns) && SameButFlags(ns, ms)
    ensures Tree(ms)
  {
    SameButFlagsParents(ns, ms);
  }

  /** Only the collapsed, visibility, selection and z fields differ. */
  ghost predicate SameLinks(ns: seq<NodeRec>, ms: seq<NodeRec>) {
    |ns| == |ms| &&
    forall i :: 0 <= i < |ns| ==>
      ms[i].(collapsed := ns[i].collapsed, visible := ns[i].visible, selected := ns[i].selected, z := ns[i].z) == ns[i]
  }

  lemma SameButFlagsLinks(ns: seq<NodeRec>, ms: seq<NodeRec>)
    requires SameButFlags(ns, ms)
    ensures SameLinks(ns, ms)
  {
    forall i | 0 <= i < |ns|
      ensures ms[i].(collapsed := ns[i].collapsed, visible := ns[i].visible, selected := ns[i].selected, z := ns[i].z) == ns[i]
    {
      assert ms[i].(collapsed := ns[i].collapsed, visible := ns[i].visible) == ns[i];
    }
  }

  lemma SameLinksTrans(ns: seq<NodeRec>, ms: seq<NodeRec>, ls: seq<NodeRec>)
    requires SameLinks(ns, ms) && SameLinks(ms, ls)
    ensures SameLinks(ns, ls)
  {
    forall i | 0 <= i < |ns|
      ensures ls[i].(collapsed := ns[i].collapsed, visible := ns[i].visible, selected := ns[i].selected, z := ns[i].z) == ns[i]
    {
      assert ms[i].(collapsed := ns[i].collapsed, visible := ns[i].visible, selected := ns[i].selected, z := ns[i].z) == ns[i];
      assert ls[i].(collapsed := ms[i].collapsed, visible := ms[i].visible, selected := ms[i].selected, z := ms[i].z) == ms[i];
    }
  }

  /** The fields other than the four flags agree. */
  lemma SameLinksFields(ns: seq<NodeRec>, ms: seq<NodeRec>)
    requires SameLinks(ns, ms)
    ensures SameParents(ns, ms)
    ensures forall i :: 0 <= i < |ns| ==>
      ns[i].inScene == ms[i].inScene && ns[i].children == ms[i].children && ns[i].text == ms[i].text &&
      ns[i].x == ms[i].x && ns[i].y == ms[i].y && ns[i].height == ms[i].height &&
      ns[i].incoming == ms[i].incoming && ns[i].outgoing == ms[i].outgoing
  {
    forall i | 0 <= i < |ns|
      ensures ns[i].parent == ms[i].parent && ns[i].inScene == ms[i].inScene &&
        ns[i].children == ms[i].children && ns[i].text == ms[i].text &&
        ns[i].x == ms[i].x && ns[i].y == ms[i].y && ns[i].height == ms[i].height &&
        ns[i].incoming == ms[i].incoming && ns[i].outgoing == ms[i].outgoing
    {
      assert ms[i].(collapsed := ns[i].collapsed, visible := ns[i].visible, selected := ns[i].selected, z := ns[i].z) == ns[i];
    }
  }

  /** The collapsed-ancestor relation reads only parent links and collapsed flags. */
  lemma {:induction false} CollapsedFrame(ns: seq<NodeRec>, ms: seq<NodeRec>, d: nat)
    requires SameParents(ns, ms)
    requires forall i :: 0 <= i < |ns| ==> ns[i].collapsed == ms[i].collapsed
    ensures AnyAncCollapsed(ns, d) == AnyAncCollapsed(ms, d)
    decreases d
  {
    if d < |ns| && ns[d].parent.Some? && ns[d].parent.value < d {
      CollapsedFrame(ns, ms, ns[d].parent.value);
    }
  }
}
