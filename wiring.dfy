/**
  The scene's lists as one value: the arena of constructed nodes, `scene.nodes`
  (the nodes passed to `add_node`, as arena indices) and the connections. The
  operations that rewire it (`add_node`, moving a node) are functions here; the
  scene class is proved to compute them, and the invariant `Wired` that they keep
  is proved once, on values.
*/
module Wiring {
  import opened Wrappers
  import opened Geometry
  import opened Graph

  datatype SceneState = SceneState(arena: seq<NodeRec>, nodes: seq<nat>, conns: seq<Conn>)

  /** The path `Connection.update_path` draws from `s`'s output point to `e`'s input point. */
  function PathBetween(ns: seq<NodeRec>, s: nat, e: nat): (r: Path)
    requires s < |ns| && e < |ns|
    ensures r.start.x == ns[s].x + NodeWidth && 2.0 * (r.start.y - ns[s].y) == ns[s].height
    ensures r.end.x == ns[e].x && 2.0 * (r.end.y - ns[e].y) == ns[e].height
  {
    ConnectorPath(OutputPoint(ns[s].x, ns[s].y, ns[s].height), InputPoint(ns[e].x, ns[e].y, ns[e].height))
  }

  /** Only added nodes have parents, and every node is at least `Node.HEIGHT` high. */
  ghost predicate Added(ns: seq<NodeRec>) {
    forall i :: 0 <= i < |ns| ==> (ns[i].parent.Some? ==> ns[i].inScene) && ns[i].height >= MinHeight
  }

  /** Exactly the nodes with a parent have an incoming connection. */
  ghost predicate LinkedFlags(g: SceneState) {
    forall i {:trigger g.arena[i].incoming} :: 0 <= i < |g.arena| ==>
      (g.arena[i].incoming.Some? <==> g.arena[i].parent.Some?)
  }

  /** A node's incoming connection runs from its parent to it. */
  ghost predicate LinkedIncoming(g: SceneState) {
    forall i {:trigger g.arena[i].incoming} :: 0 <= i < |g.arena| && g.arena[i].incoming.Some? && g.arena[i].parent.Some? ==>
      g.arena[i].incoming.value < |g.conns| &&
      g.conns[g.arena[i].incoming.value] == Conn(g.arena[i].parent.value, i, g.conns[g.arena[i].incoming.value].path)
  }

  /** A node's outgoing connections start at it. */
  ghost predicate LinkedOutgoing(g: SceneState) {
    forall i, j :: 0 <= i < |g.arena| && 0 <= j < |g.arena[i].outgoing| ==>
      g.arena[i].outgoing[j] < |g.conns| && g.conns[g.arena[i].outgoing[j]].start == i
  }

  /** Each connection is the incoming one of its end and an outgoing one of its start. */
  ghost predicate LinkedConns(g: SceneState) {
    forall c {:trigger g.conns[c]} :: 0 <= c < |g.conns| ==>
      g.conns[c].start < |g.arena| && g.conns[c].end < |g.arena| &&
      g.arena[g.conns[c].end].incoming == Some(c) && c in g.arena[g.conns[c].start].outgoing
  }

  /** Each child has one incoming connection from its parent, listed among the parent's
      outgoing connections, and each connection is the incoming one of its end. */
  ghost predicate Linked(g: SceneState) {
    LinkedFlags(g) && LinkedIncoming(g) && LinkedOutgoing(g) && LinkedConns(g)
  }

  /** `scene.nodes` lists each added node once, and nothing else. */
  ghost predicate Listed(g: SceneState) {
    (forall j :: 0 <= j < |g.nodes| ==> g.nodes[j] < |g.arena| && g.arena[g.nodes[j]].inScene) &&
    (forall i :: 0 <= i < |g.arena| && g.arena[i].inScene ==> i in g.nodes) &&
    (forall j, l :: 0 <= j < l < |g.nodes| ==> g.nodes[j] != g.nodes[l])
  }

  /** Every connection is drawn between its ends' current connector points. */
  ghost predicate PathsCurrent(g: SceneState) {
    forall c :: 0 <= c < |g.conns| ==>
      g.conns[c].start < |g.arena| && g.conns[c].end < |g.arena| &&
      g.conns[c].path == PathBetween(g.arena, g.conns[c].start, g.conns[c].end)
  }

  /** The scene's structural invariant. */
  ghost predicate Wired(g: SceneState) {
    Tree(g.arena) && OrphansOpen(g.arena) && Added(g.arena) && Linked(g) && Listed(g) && PathsCurrent(g)
  }

  /** The empty scene, as after `clear_nodes`. */
  lemma EmptyWired()
    ensures Wired(SceneState([], [], []))
  {
  }

  // ---------------------------------------------------------------------------
  // Constructing and adding nodes

  /** `Node(text, x, y, line_number, color)`: one more record, outside the scene. */
  function Construct(g: SceneState, text: string, x: real, y: real, lineNumber: Option<nat>, color: string): (r: SceneState)
    ensures r.nodes == g.nodes && r.conns == g.conns && |r.arena| == |g.arena| + 1
    ensures r.arena[..|g.arena|] == g.arena && r.arena[|g.arena|] == NewNode(text, x, y, lineNumber, color)
  {
    g.(arena := g.arena + [NewNode(text, x, y, lineNumber, color)])
  }

  lemma ConstructWired(g: SceneState, text: string, x: real, y: real, lineNumber: Option<nat>, color: string)
    requires Wired(g)
    ensures Wired(Construct(g, text, x, y, lineNumber, color))
  {
    var r := Construct(g, text, x, y, lineNumber, color);
    var n := |g.arena|;
    assert forall i :: 0 <= i < n ==> r.arena[i] == g.arena[i];
    assert Tree(r.arena) by { ExtendTree(g.arena, r.arena); }
    assert Linked(r) by { ExtendLinked(g, r); }
    assert Listed(r) by { ExtendListed(g, r); }
    assert PathsCurrent(r) by { ExtendPaths(g, r); }
  }

  /** A new node of its own does not change the visibility invariant. */
  lemma ConstructConsistent(g: SceneState, text: string, x: real, y: real, lineNumber: Option<nat>, color: string)
    requires Consistent(g.arena)
    ensures Consistent(Construct(g, text, x, y, lineNumber, color).arena)
  {
    var r := Construct(g, text, x, y, lineNumber, color);
    assert forall i :: 0 <= i < |g.arena| ==> r.arena[i] == g.arena[i];
    forall d | 0 <= d < |g.arena| ensures AnyAncCollapsed(r.arena, d) == AnyAncCollapsed(g.arena, d) {
      PrefixChain(g.arena, r.arena, d);
    }
  }

  lemma ExtendTree(ns: seq<NodeRec>, ms: seq<NodeRec>)
    requires Tree(ns) && |ms| == |ns| + 1 && forall i :: 0 <= i < |ns| ==> ms[i] == ns[i]
    requires ms[|ns|].parent == None && ms[|ns|].children == []
    ensures Tree(ms)
  {
  }

  lemma ExtendLinked(g: SceneState, r: SceneState)
    requires Linked(g) && r.conns == g.conns && |r.arena| == |g.arena| + 1
    requires forall i :: 0 <= i < |g.arena| ==> r.arena[i] == g.arena[i]
    requires r.arena[|g.arena|].parent == None && r.arena[|g.arena|].incoming == None && r.arena[|g.arena|].outgoing == []
    ensures Linked(r)
  {
    var n := |g.arena|;
    forall i | 0 <= i < |r.arena| && r.arena[i].incoming.Some?
      ensures r.arena[i].incoming.value < |r.conns| &&
        r.conns[r.arena[i].incoming.value] == Conn(r.arena[i].parent.value, i, r.conns[r.arena[i].incoming.value].path)
    {
      assert i < n;
    }
    forall i, j | 0 <= i < |r.arena| && 0 <= j < |r.arena[i].outgoing|
      ensures r.arena[i].outgoing[j] < |r.conns| && r.conns[r.arena[i].outgoing[j]].start == i
    {
      assert i < n;
    }
    forall c | 0 <= c < |r.conns|
      ensures r.conns[c].start < |r.arena| && r.conns[c].end < |r.arena| &&
        r.arena[r.conns[c].end].incoming == Some(c) && c in r.arena[r.conns[c].start].outgoing
    {
      assert r.arena[g.conns[c].end] == g.arena[g.conns[c].end];
      assert r.arena[g.conns[c].start] == g.arena[g.conns[c].start];
    }
  }

  lemma ExtendListed(g: SceneState, r: SceneState)
    requires Listed(g) && r.nodes == g.nodes && |r.arena| == |g.arena| + 1
    requires forall i :: 0 <= i < |g.arena| ==> r.arena[i] == g.arena[i]
    requires !r.arena[|g.arena|].inScene
    ensures Listed(r)
  {
  }

  lemma ExtendPaths(g: SceneState, r: SceneState)
    requires PathsCurrent(g) && r.conns == g.conns && |r.arena| == |g.arena| + 1
    requires forall i :: 0 <= i < |g.arena| ==> r.arena[i] == g.arena[i]
    ensures PathsCurrent(r)
  {
  }

  /** Extending the arena does not change the chains of the nodes already there. */
  lemma {:induction false} PrefixChain(ns: seq<NodeRec>, ms: seq<NodeRec>, d: nat)
    requires |ns| <= |ms| && forall i :: 0 <= i < |ns| ==> ms[i] == ns[i]
    requires d < |ns|
    ensures AnyAncCollapsed(ms, d) == AnyAncCollapsed(ns, d)
    decreases d
  {
    if ns[d].parent.Some? && ns[d].parent.value < d {
      PrefixChain(ns, ms, ns[d].parent.value);
    }
  }

  /** `max(Node.HEIGHT, text_height + padding)`. */
  function NodeHeight(textHeight: real): (h: real)
    ensures h >= MinHeight && h >= textHeight + Padding
    ensures h == MinHeight || h == textHeight + Padding
  {
    if textHeight + Padding > MinHeight then textHeight + Padding else MinHeight
  }

  /** `add_node(node, parent)` on node `k`: it gets its measured height and enters
      `scene.nodes`; with a parent it becomes the parent's last child, linked by a new
      connection that is its incoming one and the parent's last outgoing one. */
  function Attach(g: SceneState, k: nat, parent: Option<nat>, textHeight: real): (r: SceneState)
    requires k < |g.arena| && (parent.Some? ==> parent.value < |g.arena|)
    ensures |r.arena| == |g.arena| && r.nodes == g.nodes + [k]
  {
    var n := g.arena[k].(height := NodeHeight(textHeight), inScene := true);
    match parent
    case None => SceneState(g.arena[k := n], g.nodes + [k], g.conns)
    case Some(p) =>
      var ci := |g.conns|;
      var a1 := g.arena[k := n.(parent := Some(p), incoming := Some(ci))];
      var a2 := a1[p := a1[p].(children := a1[p].children + [k], outgoing := a1[p].outgoing + [ci])];
      SceneState(a2, g.nodes + [k], g.conns + [Conn(p, k, PathBetween(a2, p, k))])
  }

  /** What adding `k` under `parent` does to each record: `k` is in the scene with its
      height and (with a parent) its link; the parent gains `k` and the connection last;
      nothing else changes. */
  lemma AttachEffect(g: SceneState, k: nat, parent: Option<nat>, textHeight: real)
    requires k < |g.arena| && (parent.Some? ==> parent.value < k)
    ensures var r := Attach(g, k, parent, textHeight);
      r.arena[k] == g.arena[k].(height := NodeHeight(textHeight), inScene := true,
        parent := if parent.Some? then parent else g.arena[k].parent,
        incoming := if parent.Some? then Some(|g.conns|) else g.arena[k].incoming) &&
      (parent.Some? ==>
        var p := parent.value;
        r.arena[p] == g.arena[p].(children := g.arena[p].children + [k], outgoing := g.arena[p].outgoing + [|g.conns|]) &&
        r.conns == g.conns + [Conn(p, k, PathBetween(r.arena, p, k))]) &&
      (parent.None? ==> r.conns == g.conns) &&
      forall i :: 0 <= i < |g.arena| && i != k && (parent.None? || i != parent.value) ==> r.arena[i] == g.arena[i]
  {
  }

  /** A node in the scene is listed. */
  lemma SceneListed(g: SceneState, i: nat)
    requires Listed(g) && i < |g.arena| && g.arena[i].inScene
    ensures i in g.nodes
  {
  }

  /** A node in the scene stays in it. */
  lemma AttachInScene(g: SceneState, k: nat, parent: Option<nat>, textHeight: real, i: nat)
    requires k < |g.arena| && (parent.Some? ==> parent.value < k)
    requires i < |g.arena| && g.arena[i].inScene
    ensures Attach(g, k, parent, textHeight).arena[i].inScene
  {
  }

  /** Adding a fresh node keeps the invariant. */
  lemma AttachWired(g: SceneState, k: nat, parent: Option<nat>, textHeight: real)
    requires Wired(g) && k < |g.arena| && !g.arena[k].inScene && g.arena[k].children == []
    requires parent.Some? ==> parent.value < k
    ensures Wired(Attach(g, k, parent, textHeight))
  {
    var r := Attach(g, k, parent, textHeight);
    assert g.arena[k].parent == None && g.arena[k].incoming == None;
    assert Tree(r.arena) by { AttachTree(g, k, parent, textHeight); }
    assert Linked(r) by { AttachLinked(g, k, parent, textHeight); }
    assert PathsCurrent(r) by { AttachPaths(g, k, parent, textHeight); }
    assert OrphansOpen(r.arena) && Added(r.arena) by { AttachFlags(g, k, parent, textHeight); }
    assert Listed(r) by { AttachListed(g, k, parent, textHeight); }
  }

  lemma AttachFlags(g: SceneState, k: nat, parent: Option<nat>, textHeight: real)
    requires OrphansOpen(g.arena) && Added(g.arena) && k < |g.arena|
    requires parent.Some? ==> parent.value < k
    ensures OrphansOpen(Attach(g, k, parent, textHeight).arena) && Added(Attach(g, k, parent, textHeight).arena)
  {
    AttachEffect(g, k, parent, textHeight);
  }

  lemma AttachListed(g: SceneState, k: nat, parent: Option<nat>, textHeight: real)
    requires Listed(g) && k < |g.arena| && !g.arena[k].inScene
    requires parent.Some? ==> parent.value < k
    ensures Listed(Attach(g, k, parent, textHeight))
  {
    AttachEffect(g, k, parent, textHeight);
    assert k !in g.nodes;
  }

  lemma AttachTree(g: SceneState, k: nat, parent: Option<nat>, textHeight: real)
    requires Tree(g.arena) && OrphansOpen(g.arena) && k < |g.arena| && !g.arena[k].inScene && g.arena[k].children == []
    requires parent.Some? ==> parent.value < k
    ensures Tree(Attach(g, k, parent, textHeight).arena)
  {
    assert g.arena[k].parent == None;
    AttachParentsListed(g, k, parent, textHeight);
    AttachChildrenLinked(g, k, parent, textHeight);
    AttachChildrenDistinct(g, k, parent, textHeight);
  }

  lemma AttachParentsListed(g: SceneState, k: nat, parent: Option<nat>, textHeight: real)
    requires ParentsListed(g.arena) && k < |g.arena| && g.arena[k].parent == None
    requires parent.Some? ==> parent.value < k
    ensures ParentsListed(Attach(g, k, parent, textHeight).arena)
  {
    var r := Attach(g, k, parent, textHeight);
    AttachEffect(g, k, parent, textHeight);
    forall i | 0 <= i < |r.arena| && r.arena[i].parent.Some?
      ensures r.arena[i].parent.value < i && i in r.arena[r.arena[i].parent.value].children
    {
      if i != k {
        assert r.arena[i].parent == g.arena[i].parent;
        var q := g.arena[i].parent.value;
        assert i in g.arena[q].children;
        assert g.arena[q].children <= r.arena[q].children;
      }
    }
  }

  lemma AttachChildrenLinked(g: SceneState, k: nat, parent: Option<nat>, textHeight: real)
    requires ChildrenLinked(g.arena) && k < |g.arena| && g.arena[k].children == [] && g.arena[k].parent == None
    requires parent.Some? ==> parent.value < k
    ensures ChildrenLinked(Attach(g, k, parent, textHeight).arena)
  {
    var r := Attach(g, k, parent, textHeight);
    AttachEffect(g, k, parent, textHeight);
    forall i, j | 0 <= i < |r.arena| && 0 <= j < |r.arena[i].children|
      ensures r.arena[i].children[j] < |r.arena| && r.arena[r.arena[i].children[j]].parent == Some(i)
    {
      if parent.None? || i != parent.value || j < |g.arena[i].children| {
        var c := g.arena[i].children[j];
        assert r.arena[i].children[j] == c;
        assert g.arena[c].parent == Some(i) && c != k;
      }
    }
  }

  lemma AttachChildrenDistinct(g: SceneState, k: nat, parent: Option<nat>, textHeight: real)
    requires ChildrenLinked(g.arena) && ChildrenDistinct(g.arena) && k < |g.arena| && g.arena[k].parent == None
    requires parent.Some? ==> parent.value < k
    ensures ChildrenDistinct(Attach(g, k, parent, textHeight).arena)
  {
    var r := Attach(g, k, parent, textHeight);
    AttachEffect(g, k, parent, textHeight);
    if parent.Some? {
      var p := parent.value;
      forall i, j, l | 0 <= i < |r.arena| && 0 <= j < l < |r.arena[i].children|
        ensures r.arena[i].children[j] != r.arena[i].children[l]
      {
        if i == p && l == |g.arena[p].children| {
          assert r.arena[i].children[j] == g.arena[p].children[j];
          assert g.arena[g.arena[p].children[j]].parent == Some(p);
        }
      }
    }
  }

  /** A node without children has no outgoing connection. */
  lemma NoOutgoing(g: SceneState, k: nat)
    requires Tree(g.arena) && Linked(g) && k < |g.arena| && g.arena[k].children == []
    ensures g.arena[k].outgoing == []
  {
    if g.arena[k].outgoing != [] {
      OutgoingEnd(g, k, 0);
    }
  }

  /** The end of an outgoing connection is a child. */
  lemma OutgoingEnd(g: SceneState, k: nat, j: nat)
    requires Tree(g.arena) && Linked(g) && k < |g.arena| && j < |g.arena[k].outgoing|
    ensures g.conns[g.arena[k].outgoing[j]].end in g.arena[k].children
  {
  }

  lemma AttachLinked(g: SceneState, k: nat, parent: Option<nat>, textHeight: real)
    requires Linked(g) && k < |g.arena| && g.arena[k].parent == None && g.arena[k].incoming == None
    requires parent.Some? ==> parent.value < k
    ensures Linked(Attach(g, k, parent, textHeight))
  {
    AttachFlagsLinked(g, k, parent, textHeight);
    AttachIncoming(g, k, parent, textHeight);
    AttachOutgoing(g, k, parent, textHeight);
    AttachConns(g, k, parent, textHeight);
  }

  lemma AttachFlagsLinked(g: SceneState, k: nat, parent: Option<nat>, textHeight: real)
    requires LinkedFlags(g) && k < |g.arena| && g.arena[k].parent == None && g.arena[k].incoming == None
    requires parent.Some? ==> parent.value < k
    ensures LinkedFlags(Attach(g, k, parent, textHeight))
  {
    AttachEffect(g, k, parent, textHeight);
  }

  lemma AttachIncoming(g: SceneState, k: nat, parent: Option<nat>, textHeight: real)
    requires LinkedIncoming(g) && k < |g.arena| && g.arena[k].parent == None && g.arena[k].incoming == None
    requires parent.Some? ==> parent.value < k
    ensures LinkedIncoming(Attach(g, k, parent, textHeight))
  {
    AttachEffect(g, k, parent, textHeight);
    var r := Attach(g, k, parent, textHeight);
    forall i | 0 <= i < |r.arena| && r.arena[i].incoming.Some? && r.arena[i].parent.Some?
      ensures r.arena[i].incoming.value < |r.conns| &&
        r.conns[r.arena[i].incoming.value] == Conn(r.arena[i].parent.value, i, r.conns[r.arena[i].incoming.value].path)
    {
      if i != k {
        assert r.arena[i].incoming == g.arena[i].incoming && r.arena[i].parent == g.arena[i].parent;
        assert r.conns[g.arena[i].incoming.value] == g.conns[g.arena[i].incoming.value];
      }
    }
  }

  lemma AttachOutgoing(g: SceneState, k: nat, parent: Option<nat>, textHeight: real)
    requires LinkedOutgoing(g) && k < |g.arena|
    requires parent.Some? ==> parent.value < k
    ensures LinkedOutgoing(Attach(g, k, parent, textHeight))
  {
    AttachEffect(g, k, parent, textHeight);
    var r := Attach(g, k, parent, textHeight);
    forall i, j | 0 <= i < |r.arena| && 0 <= j < |r.arena[i].outgoing|
      ensures r.arena[i].outgoing[j] < |r.conns| && r.conns[r.arena[i].outgoing[j]].start == i
    {
      if parent.None? || i != parent.value || j < |g.arena[i].outgoing| {
        assert r.arena[i].outgoing[j] == g.arena[i].outgoing[j];
        assert r.conns[g.arena[i].outgoing[j]] == g.conns[g.arena[i].outgoing[j]];
      }
    }
  }

  lemma AttachConns(g: SceneState, k: nat, parent: Option<nat>, textHeight: real)
    requires LinkedConns(g) && k < |g.arena| && g.arena[k].incoming == None
    requires parent.Some? ==> parent.value < k
    ensures LinkedConns(Attach(g, k, parent, textHeight))
  {
    AttachEffect(g, k, parent, textHeight);
    var r := Attach(g, k, parent, textHeight);
    forall c | 0 <= c < |r.conns|
      ensures r.conns[c].start < |r.arena| && r.conns[c].end < |r.arena| &&
        r.arena[r.conns[c].end].incoming == Some(c) && c in r.arena[r.conns[c].start].outgoing
    {
      if c < |g.conns| {
        var s, e := g.conns[c].start, g.conns[c].end;
        assert r.conns[c] == g.conns[c] && e != k;
        assert r.arena[e].incoming == g.arena[e].incoming;
        assert c in g.arena[s].outgoing;
      }
    }
  }

  lemma AttachPaths(g: SceneState, k: nat, parent: Option<nat>, textHeight: real)
    requires Tree(g.arena) && Linked(g) && PathsCurrent(g) && k < |g.arena| && g.arena[k].children == []
    requires g.arena[k].parent == None && g.arena[k].incoming == None
    requires parent.Some? ==> parent.value < k
    ensures PathsCurrent(Attach(g, k, parent, textHeight))
  {
    var r := Attach(g, k, parent, textHeight);
    NoOutgoing(g, k);
    AttachEffect(g, k, parent, textHeight);
    forall c | 0 <= c < |g.conns|
      ensures r.conns[c].path == PathBetween(r.arena, r.conns[c].start, r.conns[c].end)
    {
      var s, e := g.conns[c].start, g.conns[c].end;
      assert s != k && e != k;
      assert r.arena[s].x == g.arena[s].x && r.arena[s].y == g.arena[s].y && r.arena[s].height == g.arena[s].height;
      assert r.arena[e].x == g.arena[e].x && r.arena[e].y == g.arena[e].y && r.arena[e].height == g.arena[e].height;
    }
  }

  /** A fresh node added under a parent that is open and shown (or as a root) is shown
      consistently with the visibility invariant. */
  lemma AttachConsistent(g: SceneState, k: nat, parent: Option<nat>, textHeight: real)
    requires Tree(g.arena) && OrphansOpen(g.arena) && Consistent(g.arena)
    requires k < |g.arena| && !g.arena[k].inScene && g.arena[k].children == []
    requires parent.Some? ==> parent.value < k && !g.arena[parent.value].collapsed && g.arena[parent.value].visible
    ensures Consistent(Attach(g, k, parent, textHeight).arena)
  {
    var r := Attach(g, k, parent, textHeight);
    AttachEffect(g, k, parent, textHeight);
    assert forall i :: 0 <= i < |g.arena| ==> g.arena[i].parent != Some(k);
    forall d | 0 <= d < |g.arena| && d != k ensures AnyAncCollapsed(r.arena, d) == AnyAncCollapsed(g.arena, d) {
      ChainAvoids(g.arena, r.arena, k, d);
    }
    if parent.Some? {
      var p := parent.value;
      assert AnyAncCollapsed(r.arena, p) == AnyAncCollapsed(g.arena, p);
    }
  }

  /** A chain that never reaches `k` does not see changes made at `k`. */
  lemma {:induction false} ChainAvoids(ns: seq<NodeRec>, ms: seq<NodeRec>, k: nat, d: nat)
    requires |ns| == |ms|
    requires forall i :: 0 <= i < |ns| && i != k ==> ms[i].parent == ns[i].parent && ms[i].collapsed == ns[i].collapsed
    requires forall i :: 0 <= i < |ns| ==> ns[i].parent != Some(k)
    requires d != k
    ensures AnyAncCollapsed(ms, d) == AnyAncCollapsed(ns, d)
    decreases d
  {
    if d < |ns| && ns[d].parent.Some? && ns[d].parent.value < d {
      ChainAvoids(ns, ms, k, ns[d].parent.value);
    }
  }

  /** Records that differ only in the four flags keep the invariant, as long as the nodes
      outside the scene keep their constructed flags. */
  lemma FlagsWired(g: SceneState, ms: seq<NodeRec>)
    requires Wired(g) && SameLinks(g.arena, ms) && OrphansOpen(ms)
    ensures Wired(g.(arena := ms))
  {
    SameLinksFields(g.arena, ms);
    var r := g.(arena := ms);
    assert Tree(ms);
    assert Added(ms);
    assert Listed(r);
    assert Linked(r) by {
      forall c | 0 <= c < |g.conns| ensures c in ms[g.conns[c].start].outgoing {
        assert c in g.arena[g.conns[c].start].outgoing;
      }
    }
    assert PathsCurrent(r) by {
      forall c | 0 <= c < |g.conns| ensures g.conns[c].path == PathBetween(ms, g.conns[c].start, g.conns[c].end) {
        assert g.conns[c].path == PathBetween(g.arena, g.conns[c].start, g.conns[c].end);
      }
    }
  }

  // ---------------------------------------------------------------------------
  // Moving a node

  /** The node moved to `pos`, and every connection at one of its ends redrawn. */
  function Move(g: SceneState, k: nat, pos: Point): (r: SceneState)
    requires k < |g.arena|
    ensures |r.arena| == |g.arena| && r.nodes == g.nodes && |r.conns| == |g.conns|
  {
    var a := g.arena[k := g.arena[k].(x := pos.x, y := pos.y)];
    SceneState(a, g.nodes, seq(|g.conns|, c requires 0 <= c < |g.conns| =>
      if (g.conns[c].start == k || g.conns[c].end == k) && g.conns[c].start < |a| && g.conns[c].end < |a|
      then g.conns[c].(path := PathBetween(a, g.conns[c].start, g.conns[c].end))
      else g.conns[c]))
  }

  /** Moving keeps the invariant: in particular every connection, redrawn or not, runs
      between its ends' current connector points; and connections away from the node are
      untouched. */
  lemma MoveWired(g: SceneState, k: nat, pos: Point)
    requires Wired(g) && k < |g.arena|
    ensures Wired(Move(g, k, pos))
    ensures forall c :: 0 <= c < |g.conns| && g.conns[c].start != k && g.conns[c].end != k ==>
      Move(g, k, pos).conns[c] == g.conns[c]
    ensures Move(g, k, pos).arena[k].x == pos.x && Move(g, k, pos).arena[k].y == pos.y
  {
    var r := Move(g, k, pos);
    MoveRecords(g, k, pos);
    assert Tree(r.arena) && OrphansOpen(r.arena) && Added(r.arena) && Listed(r) by {
      MoveStructure(g, k, pos);
    }
    assert Linked(r) by { MoveLinked(g, k, pos); }
    assert PathsCurrent(r) by { MovePaths(g, k, pos); }
  }

  lemma MoveRecords(g: SceneState, k: nat, pos: Point)
    requires k < |g.arena|
    ensures var r := Move(g, k, pos);
      (forall i :: 0 <= i < |g.arena| && i != k ==> r.arena[i] == g.arena[i]) &&
      r.arena[k] == g.arena[k].(x := pos.x, y := pos.y) &&
      forall c :: 0 <= c < |g.conns| ==> r.conns[c].start == g.conns[c].start && r.conns[c].end == g.conns[c].end
  {
  }

  lemma MoveStructure(g: SceneState, k: nat, pos: Point)
    requires Tree(g.arena) && OrphansOpen(g.arena) && Added(g.arena) && Listed(g) && k < |g.arena|
    ensures var r := Move(g, k, pos); Tree(r.arena) && OrphansOpen(r.arena) && Added(r.arena) && Listed(r)
  {
    MoveRecords(g, k, pos);
  }

  lemma MoveLinked(g: SceneState, k: nat, pos: Point)
    requires Linked(g) && k < |g.arena|
    ensures Linked(Move(g, k, pos))
  {
    MoveRecords(g, k, pos);
    var r := Move(g, k, pos);
    forall i | 0 <= i < |r.arena| && r.arena[i].incoming.Some?
      ensures r.conns[r.arena[i].incoming.value] == Conn(r.arena[i].parent.value, i, r.conns[r.arena[i].incoming.value].path)
    {
      assert r.arena[i].incoming == g.arena[i].incoming && r.arena[i].parent == g.arena[i].parent;
    }
  }

  lemma MovePaths(g: SceneState, k: nat, pos: Point)
    requires PathsCurrent(g) && k < |g.arena|
    ensures PathsCurrent(Move(g, k, pos))
  {
    MoveRecords(g, k, pos);
    var r := Move(g, k, pos);
    forall c | 0 <= c < |g.conns| ensures r.conns[c].path == PathBetween(r.arena, r.conns[c].start, r.conns[c].end) {
      var s, e := g.conns[c].start, g.conns[c].end;
      if s != k && e != k {
        assert r.arena[s] == g.arena[s] && r.arena[e] == g.arena[e];
      }
    }
  }

  /** The connections at one of `k`'s ends are exactly its incoming one and its outgoing
      ones: the ones `itemChange` redraws. */
  lemma MoveTouches(g: SceneState, k: nat, c: nat)
    requires Linked(g) && k < |g.arena| && c < |g.conns|
    ensures (g.conns[c].start == k || g.conns[c].end == k) <==>
      (g.arena[k].incoming == Some(c) || c in g.arena[k].outgoing)
  {
    if c in g.arena[k].outgoing {
      var j :| 0 <= j < |g.arena[k].outgoing| && g.arena[k].outgoing[j] == c;
    }
  }

  /** `conn.update_path()` on connection `c`, with the nodes at `a`. */
  function Redraw(a: seq<NodeRec>, cs: seq<Conn>, c: nat): (r: seq<Conn>)
    requires c < |cs| && cs[c].start < |a| && cs[c].end < |a|
    ensures |r| == |cs| && forall e :: 0 <= e < |cs| ==> r[e].start == cs[e].start && r[e].end == cs[e].end
  {
    cs[c := cs[c].(path := PathBetween(a, cs[c].start, cs[c].end))]
  }

  /** Every connection runs between nodes of `a`. */
  ghost predicate EndsIn(a: seq<NodeRec>, cs: seq<Conn>) {
    forall c :: 0 <= c < |cs| ==> cs[c].start < |a| && cs[c].end < |a|
  }

  /** `update_path()` on the connections `order`, one after another. */
  function RedrawList(a: seq<NodeRec>, cs: seq<Conn>, order: seq<nat>): (r: seq<Conn>)
    requires EndsIn(a, cs) && forall i :: 0 <= i < |order| ==> order[i] < |cs|
    ensures |r| == |cs| && EndsIn(a, r)
    ensures forall e :: 0 <= e < |cs| ==> r[e].start == cs[e].start && r[e].end == cs[e].end
    decreases |order|
  {
    if order == [] then cs
    else
      var prev := RedrawList(a, cs, order[..|order| - 1]);
      Redraw(a, prev, order[|order| - 1])
  }

  /** The next `update_path()` of the loop over `order` is defined and extends it by one. */
  lemma {:induction false} RedrawNext(a: seq<NodeRec>, cs0: seq<Conn>, order: seq<nat>, i: nat, cs: seq<Conn>)
    requires EndsIn(a, cs0) && forall j :: 0 <= j < |order| ==> order[j] < |cs0|
    requires i < |order| && cs == RedrawList(a, cs0, order[..i])
    ensures order[i] < |cs| && cs[order[i]].start < |a| && cs[order[i]].end < |a|
    ensures Redraw(a, cs, order[i]) == RedrawList(a, cs0, order[..i + 1])
  {
    RedrawListSnoc(a, cs0, order, i);
  }

  lemma {:induction false} RedrawListSnoc(a: seq<NodeRec>, cs: seq<Conn>, order: seq<nat>, n: nat)
    requires EndsIn(a, cs) && forall i :: 0 <= i < |order| ==> order[i] < |cs|
    requires n < |order|
    ensures RedrawList(a, cs, order[..n + 1]) == Redraw(a, RedrawList(a, cs, order[..n]), order[n])
  {
    assert order[..n + 1][..n] == order[..n];
  }

  /** The connections `itemChange` redraws for node `n`: its incoming one, then its outgoing ones. */
  function Touching(n: NodeRec): seq<nat> {
    (if n.incoming.Some? then [n.incoming.value] else []) + n.outgoing
  }

  /** The connections in `done` are redrawn as `Move` says, the rest are as before. */
  ghost predicate PartlyRedrawn(g: SceneState, k: nat, pos: Point, cs: seq<Conn>, done: seq<nat>)
    requires k < |g.arena|
  {
    |cs| == |g.conns| &&
    forall c :: 0 <= c < |cs| ==> cs[c] == if c in done then Move(g, k, pos).conns[c] else g.conns[c]
  }

  /** Every connection in `order` exists and has `k` at one of its ends. */
  ghost predicate AtNode(g: SceneState, k: nat, order: seq<nat>) {
    forall i :: 0 <= i < |order| ==>
      order[i] < |g.conns| && (g.conns[order[i]].start == k || g.conns[order[i]].end == k)
  }

  /** Redrawing, one after another, connections at one of `k`'s ends brings each to its
      state after the move and leaves the others alone. */
  lemma {:induction false} RedrawListPartly(g: SceneState, k: nat, pos: Point, order: seq<nat>)
    requires k < |g.arena| && EndsIn(g.arena, g.conns) && AtNode(g, k, order)
    ensures EndsIn(Move(g, k, pos).arena, g.conns) && forall i :: 0 <= i < |order| ==> order[i] < |g.conns|
    ensures PartlyRedrawn(g, k, pos, RedrawList(Move(g, k, pos).arena, g.conns, order), order)
    decreases |order|
  {
    var a := Move(g, k, pos).arena;
    if order != [] {
      var n := |order| - 1;
      var pre := order[..n];
      assert AtNode(g, k, pre) by {
        forall i | 0 <= i < |pre| ensures pre[i] == order[i] { }
      }
      RedrawListPartly(g, k, pos, pre);
      RedrawPartlyStep(g, k, pos, RedrawList(a, g.conns, pre), pre, order[n]);
      assert pre + [order[n]] == order;
    }
  }

  /** Redrawing one more connection at one of `k`'s ends brings it to its state after the move. */
  lemma RedrawPartlyStep(g: SceneState, k: nat, pos: Point, cs: seq<Conn>, done: seq<nat>, c: nat)
    requires k < |g.arena| && EndsIn(g.arena, g.conns) && PartlyRedrawn(g, k, pos, cs, done)
    requires c < |g.conns| && (g.conns[c].start == k || g.conns[c].end == k)
    ensures cs[c].start < |Move(g, k, pos).arena| && cs[c].end < |Move(g, k, pos).arena|
    ensures PartlyRedrawn(g, k, pos, Redraw(Move(g, k, pos).arena, cs, c), done + [c])
  {
    MoveRecords(g, k, pos);
    assert cs[c].start == g.conns[c].start && cs[c].end == g.conns[c].end;
    var r := Redraw(Move(g, k, pos).arena, cs, c);
    forall e | 0 <= e < |r| ensures r[e] == if e in done + [c] then Move(g, k, pos).conns[e] else g.conns[e] {
      assert e in done + [c] <==> e in done || e == c;
    }
  }

  /** The listed connections are exactly the ones at one of `k`'s ends. */
  lemma TouchingTouches(g: SceneState, k: nat, c: nat)
    requires Wired(g) && k < |g.arena|
    ensures c in Touching(g.arena[k]) ==> c < |g.conns|
    ensures c < |g.conns| ==> ((g.conns[c].start == k || g.conns[c].end == k) <==> c in Touching(g.arena[k]))
  {
    if c in g.arena[k].outgoing {
      var j :| 0 <= j < |g.arena[k].outgoing| && g.arena[k].outgoing[j] == c;
    }
    if c < |g.conns| {
      MoveTouches(g, k, c);
    }
  }

  /** Redrawing the incoming connection and then the outgoing ones gives the connections
      of `Move`. */
  lemma RedrawTouching(g: SceneState, k: nat, pos: Point)
    requires Wired(g) && k < |g.arena|
    ensures EndsIn(Move(g, k, pos).arena, g.conns)
    ensures forall i :: 0 <= i < |Touching(g.arena[k])| ==> Touching(g.arena[k])[i] < |g.conns|
    ensures RedrawList(Move(g, k, pos).arena, g.conns, Touching(g.arena[k])) == Move(g, k, pos).conns
  {
    var order := Touching(g.arena[k]);
    assert AtNode(g, k, order) by {
      forall i | 0 <= i < |order| ensures order[i] < |g.conns| && (g.conns[order[i]].start == k || g.conns[order[i]].end == k) {
        TouchingTouches(g, k, order[i]);
      }
    }
    RedrawListPartly(g, k, pos, order);
    var cs := RedrawList(Move(g, k, pos).arena, g.conns, order);
    forall c | 0 <= c < |cs| ensures cs[c] == Move(g, k, pos).conns[c] {
      TouchingTouches(g, k, c);
    }
  }
}
