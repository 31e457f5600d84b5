/**
  `search_nodes`: a case-insensitive substring search over `scene.nodes` that
  selects and raises each match and opens its collapsed ancestors, as functions on
  the arena. The scene's method is proved to compute them.
*/
module Search {
  import opened Wrappers
  import opened PyStr
  import opened Graph
  import opened Collapse

  /** `search_text.lower() in node.text.lower()`. */
  predicate Matches(query: string, text: string) {
    Contains(Lower(text), Lower(query))
  }

  /** The search ignores case: lower-casing the query or the text first changes nothing,
      and queries that differ only in ASCII case find the same nodes. */
  lemma MatchesIgnoresCase(query: string, q2: string, text: string)
    ensures Matches(Lower(query), text) == Matches(query, text)
    ensures Matches(query, Lower(text)) == Matches(query, text)
    ensures Lower(q2) == Lower(query) ==> Matches(q2, text) == Matches(query, text)
  {
    LowerIdempotent(query);
    LowerIdempotent(text);
  }

  /** `setSelected(on)` and `setZValue(1 if on else 0)` on node `k`'s item. Qt does not
      select an invisible item: `setSelected(True)` on a hidden node leaves it unselected
      (and deselects it if it was selected), while `setZValue` always applies. */
  function Mark(ns: seq<NodeRec>, k: nat, on: bool): (r: seq<NodeRec>)
    requires k < |ns|
    ensures SameLinks(ns, r)
    ensures r[k].selected == (on && ns[k].visible) && r[k].z == (if on then 1 else 0)
    ensures r[k].visible == ns[k].visible && r[k].collapsed == ns[k].collapsed
    ensures forall i :: 0 <= i < |ns| && i != k ==> r[i] == ns[i]
  {
    ns[k := ns[k].(selected := on && ns[k].visible, z := if on then 1 else 0)]
  }

  /** One pass of the search loop on node `k`; the flag is false when
      `_ensure_parents_visible` raised. */
  function SearchStep(ns: seq<NodeRec>, query: string, k: nat): (r: (seq<NodeRec>, bool))
    requires k < |ns|
    ensures SameLinks(ns, r.0)
  {
    if Matches(query, ns[k].text) then
      var m := Mark(ns, k, true);
      var e := AfterEnsure(m, k);
      SameButFlagsLinks(m, e.0);
      SameLinksTrans(ns, m, e.0);
      e
    else (Mark(ns, k, false), true)
  }

  function SearchLoop(ns: seq<NodeRec>, query: string, order: seq<nat>): (r: (seq<NodeRec>, bool))
    requires forall i :: 0 <= i < |order| ==> order[i] < |ns|
    ensures SameLinks(ns, r.0)
    decreases |order|
  {
    if order == [] then (ns, true)
    else
      var prev := SearchLoop(ns, query, order[..|order| - 1]);
      if !prev.1 then prev
      else
        var r := SearchStep(prev.0, query, order[|order| - 1]);
        SameLinksTrans(ns, prev.0, r.0);
        r
  }

  /** The empty query's loop: every listed node deselected and lowered. */
  function Deselect(ns: seq<NodeRec>, order: seq<nat>): (r: seq<NodeRec>)
    requires forall i :: 0 <= i < |order| ==> order[i] < |ns|
    ensures |r| == |ns|
    decreases |order|
  {
    if order == [] then ns
    else Mark(Deselect(ns, order[..|order| - 1]), order[|order| - 1], false)
  }

  /** `search_nodes(search_text)` over the node list `order`. */
  function SearchNodes(ns: seq<NodeRec>, query: string, order: seq<nat>): (seq<NodeRec>, bool)
    requires forall i :: 0 <= i < |order| ==> order[i] < |ns|
  {
    if query == [] then (Deselect(ns, order), true) else SearchLoop(ns, query, order)
  }

  // ---------------------------------------------------------------------------
  // The empty query

  /** An empty query deselects and lowers exactly the listed nodes and changes nothing else;
      in particular no node is collapsed, expanded, shown or hidden. */
  lemma {:induction false} DeselectSpec(ns: seq<NodeRec>, order: seq<nat>)
    requires forall i :: 0 <= i < |order| ==> order[i] < |ns|
    ensures forall x :: 0 <= x < |ns| ==>
      Deselect(ns, order)[x] == if x in order then ns[x].(selected := false, z := 0) else ns[x]
    decreases |order|
  {
    if order != [] {
      var n := |order| - 1;
      DeselectSpec(ns, order[..n]);
      assert forall x :: x in order <==> x in order[..n] || x == order[n];
    }
  }

  // ---------------------------------------------------------------------------
  // A non-empty query

  lemma PrefixIn(order: seq<nat>, i: int)
    requires 0 <= i < |order| - 1
    ensures order[..|order| - 1][i] == order[i]
  {
  }

  /** Every node of `order` that matches has all its ancestors in the scene. */
  ghost predicate MatchesChained(ns: seq<NodeRec>, query: string, order: seq<nat>)
    requires forall i :: 0 <= i < |order| ==> order[i] < |ns|
  {
    forall i :: 0 <= i < |order| && Matches(query, ns[order[i]].text) ==> ChainInScene(ns, order[i])
  }

  lemma MatchesChainedSnoc(ns: seq<NodeRec>, query: string, order: seq<nat>)
    requires order != [] && forall i :: 0 <= i < |order| ==> order[i] < |ns|
    ensures var n := |order| - 1;
      MatchesChained(ns, query, order) <==>
        MatchesChained(ns, query, order[..n]) && (Matches(query, ns[order[n]].text) ==> ChainInScene(ns, order[n]))
  {
    var n := |order| - 1;
    var pre := order[..n];
    if MatchesChained(ns, query, order) {
      forall i | 0 <= i < |pre| && Matches(query, ns[pre[i]].text) ensures ChainInScene(ns, pre[i]) {
        PrefixIn(order, i);
      }
    }
    if MatchesChained(ns, query, pre) && (Matches(query, ns[order[n]].text) ==> ChainInScene(ns, order[n])) {
      forall i | 0 <= i < |order| && Matches(query, ns[order[i]].text) ensures ChainInScene(ns, order[i]) {
        if i < n {
          PrefixIn(order, i);
        }
      }
    }
  }

  /** The search runs to the end exactly when every match has all its ancestors in the scene. */
  lemma {:induction false} SearchLoopOk(ns: seq<NodeRec>, query: string, order: seq<nat>)
    requires forall i :: 0 <= i < |order| ==> order[i] < |ns|
    ensures SearchLoop(ns, query, order).1 <==> MatchesChained(ns, query, order)
    decreases |order|
  {
    if order != [] {
      var n := |order| - 1;
      SearchLoopOk(ns, query, order[..n]);
      var prev := SearchLoop(ns, query, order[..n]);
      MatchesChainedSnoc(ns, query, order);
      if prev.1 {
        SearchStepOk(ns, prev.0, query, order[n]);
      }
    }
  }

  /** One pass stops the search exactly when the node matches and some ancestor of it is
      missing from the scene; the nodes' links are those of `ns`. */
  lemma SearchStepOk(ns: seq<NodeRec>, ms: seq<NodeRec>, query: string, k: nat)
    requires SameLinks(ns, ms) && k < |ns|
    ensures SearchStep(ms, query, k).1 <==> (Matches(query, ns[k].text) ==> ChainInScene(ns, k))
  {
    SameLinksFields(ns, ms);
    ChainInSceneFrame(ns, ms, k);
    if Matches(query, ns[k].text) {
      var m := Mark(ms, k, true);
      SameLinksFields(ms, m);
      ChainInSceneFrame(ms, m, k);
      EnsureOk(m, k);
    }
  }

  /** Whether node `order[i]` was visible when the loop reached it. */
  ghost function VisibleAtVisit(ns: seq<NodeRec>, query: string, order: seq<nat>, i: nat): bool
    requires forall j :: 0 <= j < |order| ==> order[j] < |ns|
    requires i < |order|
  {
    SearchLoop(ns, query, order[..i]).0[order[i]].visible
  }

  lemma VisibleAtVisitPrefix(ns: seq<NodeRec>, query: string, order: seq<nat>, i: nat)
    requires forall j :: 0 <= j < |order| ==> order[j] < |ns|
    requires i < |order| - 1
    ensures VisibleAtVisit(ns, query, order[..|order| - 1], i) == VisibleAtVisit(ns, query, order, i)
  {
    assert order[..|order| - 1][..i] == order[..i];
  }

  /** Position `i` is the last visit of `order[i]`. */
  ghost predicate LastVisit(order: seq<nat>, i: nat) {
    forall j :: i < j < |order| ==> order[j] != order[i]
  }

  /** Node `order[i]` of `r` is raised exactly when it matches, and, if `i` is its last
      visit, selected exactly when it matches and was visible when the loop reached it. */
  ghost predicate MarkedAsVisited(ns: seq<NodeRec>, query: string, order: seq<nat>, r: seq<NodeRec>, i: nat)
    requires forall j :: 0 <= j < |order| ==> order[j] < |ns|
    requires i < |order| && |r| == |ns|
  {
    var k := order[i];
    r[k].z == (if Matches(query, ns[k].text) then 1 else 0) &&
    (LastVisit(order, i) ==> r[k].selected == (Matches(query, ns[k].text) && VisibleAtVisit(ns, query, order, i)))
  }

  /** When the search runs to the end, each listed node is raised exactly when it matches,
      and its last visit leaves it selected exactly when it matches and was visible then. */
  lemma {:induction false} SearchLoopSelects(ns: seq<NodeRec>, query: string, order: seq<nat>)
    requires forall i :: 0 <= i < |order| ==> order[i] < |ns|
    ensures var r := SearchLoop(ns, query, order);
      r.1 ==> forall i :: 0 <= i < |order| ==> MarkedAsVisited(ns, query, order, r.0, i)
    decreases |order|
  {
    if order != [] {
      var n := |order| - 1;
      var pre := order[..n];
      SearchLoopSelects(ns, query, pre);
      var prev := SearchLoop(ns, query, pre);
      if prev.1 {
        forall i | 0 <= i < |order| ensures MarkedAsVisited(ns, query, order, SearchLoop(ns, query, order).0, i) {
          SelectsAt(ns, query, order, i);
        }
      }
    }
  }

  /** The inductive step of `SearchLoopSelects`, at one position. */
  lemma SelectsAt(ns: seq<NodeRec>, query: string, order: seq<nat>, i: nat)
    requires forall j :: 0 <= j < |order| ==> order[j] < |ns|
    requires i < |order| && SearchLoop(ns, query, order[..|order| - 1]).1
    requires i < |order| - 1 ==>
      MarkedAsVisited(ns, query, order[..|order| - 1], SearchLoop(ns, query, order[..|order| - 1]).0, i)
    ensures MarkedAsVisited(ns, query, order, SearchLoop(ns, query, order).0, i)
  {
    var n := |order| - 1;
    var pre := order[..n];
    var prev := SearchLoop(ns, query, pre).0;
    var k := order[n];
    var r := SearchLoop(ns, query, order).0;
    assert r == SearchStep(prev, query, k).0;
    SameLinksFields(ns, prev);
    StepSelects(prev, query, k);
    if i < n {
      PrefixIn(order, i);
      VisibleAtVisitPrefix(ns, query, order, i);
      if LastVisit(order, i) {
        assert order[n] != order[i];
        assert LastVisit(pre, i);
      }
    }
  }

  /** `d` has a collapsed proper ancestor exactly when some proper ancestor of it is collapsed. */
  lemma {:induction false} AnyAncCollapsedSome(ns: seq<NodeRec>, d: nat)
    ensures AnyAncCollapsed(ns, d) <==> exists a: nat :: Anc(ns, a, d) && a < |ns| && ns[a].collapsed
    decreases d
  {
    if d < |ns| && ns[d].parent.Some? && ns[d].parent.value < d {
      var p := ns[d].parent.value;
      AnyAncCollapsedSome(ns, p);
      if AnyAncCollapsed(ns, p) {
        var a: nat :| Anc(ns, a, p) && a < |ns| && ns[a].collapsed;
        assert Anc(ns, a, d);
      }
    }
  }

  /** With the visibility invariant, a node is visible when the loop reaches it exactly when
      none of its proper ancestors is still collapsed: collapsed at the start and not opened
      for an earlier match. */
  lemma VisibleAtVisitSpec(ns: seq<NodeRec>, query: string, order: seq<nat>, i: nat)
    requires forall j :: 0 <= j < |order| ==> order[j] < |ns|
    requires i < |order| && Tree(ns) && OrphansOpen(ns) && Consistent(ns)
    requires SearchLoop(ns, query, order[..i]).1
    ensures VisibleAtVisit(ns, query, order, i) <==>
      forall a: nat :: Anc(ns, a, order[i]) ==> a < |ns| && !(ns[a].collapsed && !OpenedBy(ns, query, order[..i], a))
  {
    var pre := order[..i];
    var k := order[i];
    var m := SearchLoop(ns, query, pre).0;
    SearchLoopKeepsInvariant(ns, query, pre);
    SearchLoopCollapsed(ns, query, pre);
    SameLinksFields(ns, m);
    AnyAncCollapsedSome(m, k);
    forall a: nat ensures Anc(m, a, k) == Anc(ns, a, k) {
      AncFrame(ns, m, a, k);
    }
    forall a: nat | Anc(ns, a, k) ensures a < |ns| {
      AncBefore(ns, a, k);
    }
  }

  /** Nodes that are not listed keep their selection and z value. */
  lemma {:induction false} SearchLoopKeeps(ns: seq<NodeRec>, query: string, order: seq<nat>)
    requires forall i :: 0 <= i < |order| ==> order[i] < |ns|
    ensures var r := SearchLoop(ns, query, order);
      forall x :: 0 <= x < |ns| && x !in order ==> r.0[x].selected == ns[x].selected && r.0[x].z == ns[x].z
    decreases |order|
  {
    if order != [] {
      var n := |order| - 1;
      var pre := order[..n];
      SearchLoopKeeps(ns, query, pre);
      var prev := SearchLoop(ns, query, pre);
      SameLinksFields(ns, prev.0);
      assert forall x :: x in order <==> x in pre || x == order[n];
      if prev.1 {
        StepSelects(prev.0, query, order[n]);
      }
    }
  }

  /** One step changes the selection and z value of its own node only: the node is raised
      exactly when it matches, and selected exactly when it matches and is visible. */
  lemma StepSelects(ns: seq<NodeRec>, query: string, k: nat)
    requires k < |ns|
    ensures var r := SearchStep(ns, query, k);
      r.0[k].selected == (Matches(query, ns[k].text) && ns[k].visible) &&
      r.0[k].z == (if Matches(query, ns[k].text) then 1 else 0) &&
      forall x :: 0 <= x < |ns| && x != k ==> r.0[x].selected == ns[x].selected && r.0[x].z == ns[x].z
  {
    if Matches(query, ns[k].text) {
      var m := Mark(ns, k, true);
      SameButFlagsParents(m, AfterEnsure(m, k).0);
    }
  }

  /** The loop over one more node is one more step, unless it had already stopped. */
  lemma SearchLoopSnoc(ns: seq<NodeRec>, query: string, order: seq<nat>, j: nat)
    requires forall i :: 0 <= i < |order| ==> order[i] < |ns|
    requires j < |order| && SearchLoop(ns, query, order[..j]).1
    ensures SearchLoop(ns, query, order[..j + 1]) == SearchStep(SearchLoop(ns, query, order[..j]).0, query, order[j])
  {
    assert order[..j + 1][..j] == order[..j];
  }

  /** Once `_ensure_parents_visible` has raised, the rest of the list is never looked at:
      the loop over the whole list ends where the loop over the prefix did. */
  lemma {:induction false} SearchLoopStops(ns: seq<NodeRec>, query: string, order: seq<nat>, j: nat)
    requires forall i :: 0 <= i < |order| ==> order[i] < |ns|
    requires j <= |order| && !SearchLoop(ns, query, order[..j]).1
    ensures SearchLoop(ns, query, order) == SearchLoop(ns, query, order[..j])
    decreases |order|
  {
    if j < |order| {
      var n := |order| - 1;
      assert order[..n][..j] == order[..j];
      SearchLoopStops(ns, query, order[..n], j);
    } else {
      assert order[..j] == order;
    }
  }

  // ---------------------------------------------------------------------------
  // Collapsed flags and visibility

  /** Selecting and raising a node leaves the tree and the visibility flags alone. */
  lemma MarkKeeps(ns: seq<NodeRec>, k: nat, on: bool)
    requires k < |ns|
    ensures var m := Mark(ns, k, on);
      (Tree(ns) ==> Tree(m)) && (OrphansOpen(ns) ==> OrphansOpen(m)) && (Consistent(ns) ==> Consistent(m))
  {
    var m := Mark(ns, k, on);
    SameLinksFields(ns, m);
    forall d | 0 <= d < |ns| ensures AnyAncCollapsed(ns, d) == AnyAncCollapsed(m, d) {
      CollapsedFrame(ns, m, d);
    }
  }

  lemma StepKeeps(ns: seq<NodeRec>, query: string, k: nat)
    requires k < |ns| && Tree(ns) && OrphansOpen(ns)
    ensures var r := SearchStep(ns, query, k);
      Tree(r.0) && OrphansOpen(r.0) && (Consistent(ns) ==> Consistent(r.0))
  {
    MarkKeeps(ns, k, Matches(query, ns[k].text));
    if Matches(query, ns[k].text) {
      var m := Mark(ns, k, true);
      EnsureOrphans(m, k);
      if Consistent(ns) {
        EnsureConsistent(m, k);
      }
    }
  }

  /** The search keeps the tree, the flags of nodes outside the scene and the visibility
      invariant, whether it runs to the end or stops on a parent outside the scene. */
  lemma {:induction false} SearchLoopKeepsInvariant(ns: seq<NodeRec>, query: string, order: seq<nat>)
    requires forall i :: 0 <= i < |order| ==> order[i] < |ns|
    requires Tree(ns) && OrphansOpen(ns)
    ensures var r := SearchLoop(ns, query, order);
      Tree(r.0) && OrphansOpen(r.0) && (Consistent(ns) ==> Consistent(r.0))
    decreases |order|
  {
    if order != [] {
      var n := |order| - 1;
      SearchLoopKeepsInvariant(ns, query, order[..n]);
      var prev := SearchLoop(ns, query, order[..n]);
      if prev.1 {
        StepKeeps(prev.0, query, order[n]);
      }
    }
  }

  /** Some match listed in `order` has `x` as a proper ancestor. */
  ghost predicate OpenedBy(ns: seq<NodeRec>, query: string, order: seq<nat>, x: nat) {
    exists i :: 0 <= i < |order| && order[i] < |ns| && Matches(query, ns[order[i]].text) && Anc(ns, x, order[i])
  }

  lemma OpenedBySnoc(ns: seq<NodeRec>, query: string, order: seq<nat>, x: nat)
    requires order != [] && forall i :: 0 <= i < |order| ==> order[i] < |ns|
    ensures var n := |order| - 1;
      OpenedBy(ns, query, order, x) <==>
        OpenedBy(ns, query, order[..n], x) || (Matches(query, ns[order[n]].text) && Anc(ns, x, order[n]))
  {
    var n := |order| - 1;
    if OpenedBy(ns, query, order, x) {
      var i :| 0 <= i < |order| && order[i] < |ns| && Matches(query, ns[order[i]].text) && Anc(ns, x, order[i]);
      if i < n {
        PrefixIn(order, i);
      }
    }
    if OpenedBy(ns, query, order[..n], x) {
      var i :| 0 <= i < n && order[..n][i] < |ns| && Matches(query, ns[order[..n][i]].text) && Anc(ns, x, order[..n][i]);
      PrefixIn(order, i);
    }
  }

  /** The search never collapses a node; when it runs to the end, exactly the proper
      ancestors of matches are left open among the nodes that were collapsed. */
  lemma {:induction false} SearchLoopCollapsed(ns: seq<NodeRec>, query: string, order: seq<nat>)
    requires forall i :: 0 <= i < |order| ==> order[i] < |ns|
    requires Tree(ns) && OrphansOpen(ns)
    ensures var r := SearchLoop(ns, query, order);
      forall x :: 0 <= x < |ns| && r.0[x].collapsed ==> ns[x].collapsed
    ensures var r := SearchLoop(ns, query, order);
      r.1 ==> forall x :: 0 <= x < |ns| ==> r.0[x].collapsed == (ns[x].collapsed && !OpenedBy(ns, query, order, x))
    decreases |order|
  {
    if order != [] {
      var n := |order| - 1;
      var pre := order[..n];
      SearchLoopCollapsed(ns, query, pre);
      SearchLoopKeepsInvariant(ns, query, pre);
      var prev := SearchLoop(ns, query, pre);
      if prev.1 {
        var k := order[n];
        SameLinksFields(ns, prev.0);
        StepCollapsed(prev.0, query, k);
        forall x | 0 <= x < |ns| ensures Anc(prev.0, x, k) == Anc(ns, x, k) {
          AncFrame(ns, prev.0, x, k);
        }
        forall x | 0 <= x < |ns| ensures OpenedBy(ns, query, order, x) <==>
          OpenedBy(ns, query, pre, x) || (Matches(query, ns[k].text) && Anc(ns, x, k))
        {
          OpenedBySnoc(ns, query, order, x);
        }
      }
    }
  }

  /** One step opens exactly the collapsed proper ancestors of its node, when it matches. */
  lemma StepCollapsed(ns: seq<NodeRec>, query: string, k: nat)
    requires k < |ns| && Tree(ns) && OrphansOpen(ns)
    ensures var r := SearchStep(ns, query, k);
      forall x :: 0 <= x < |ns| ==>
        r.0[x].collapsed == (ns[x].collapsed && !(Matches(query, ns[k].text) && Anc(ns, x, k)))
  {
    if Matches(query, ns[k].text) {
      var m := Mark(ns, k, true);
      MarkKeeps(ns, k, true);
      SameLinksFields(ns, m);
      EnsureCollapsed(m, k);
      forall x | 0 <= x < |ns| ensures Anc(m, x, k) == Anc(ns, x, k) {
        AncFrame(ns, m, x, k);
      }
    }
  }

  /** A match that is still hidden when the search reaches it is raised and its parent is
      opened, but it stays unselected: a collapsed root "A" with a hidden child "B",
      searched for "b". */
  lemma HiddenMatchUnselected()
    ensures var a := NodeRec("A", 0.0, 0.0, 50.0, "#3498db", None, None, [1], [0], None, true, true, true, false, 0);
      var b := NodeRec("B", 300.0, 0.0, 50.0, "#e74c3c", None, Some(0), [], [], Some(0), true, false, false, false, 0);
      var r := SearchLoop([a, b], "b", [0, 1]);
      r.1 && !r.0[0].collapsed && r.0[1].visible && r.0[1].z == 1 && !r.0[1].selected
  {
    var a := NodeRec("A", 0.0, 0.0, 50.0, "#3498db", None, None, [1], [0], None, true, true, true, false, 0);
    var b := NodeRec("B", 300.0, 0.0, 50.0, "#e74c3c", None, Some(0), [], [], Some(0), true, false, false, false, 0);
    var ns := [a, b];
    assert Lower("b") == "b" && Lower("A") == "a" && Lower("B") == "b";
    assert Matches("b", "B") by {
      assert IsInfixAt("b", "b", 0);
    }
    assert !Matches("b", "A") by {
      forall i | 0 <= i <= 0 ensures !IsInfixAt("a", "b", i) {
        assert "a"[0..1] == "a";
      }
    }
    var m0 := Mark(ns, 0, false);
    assert [0, 1][..1] == [0] && [0][..0] == [];
    assert SearchLoop(ns, "b", [0]) == (m0, true);
    var m1 := Mark(m0, 1, true);
    assert !m1[1].selected;
    var t := AfterToggle(m1, 0);
    assert !Anc(m1, 0, 0) && Anc(m1, 0, 1) && !HiddenBelow(m1, 0, 1);
    assert AfterEnsure(m1, 1) == (t, true);
    assert t[1].visible && !t[0].collapsed;
  }

  // ---------------------------------------------------------------------------
  // Searching twice

  /** `ms` differs from `ns` at most in selection and z values. */
  ghost predicate SameButMarks(ns: seq<NodeRec>, ms: seq<NodeRec>) {
    |ns| == |ms| && forall i :: 0 <= i < |ns| ==> ms[i].(selected := ns[i].selected, z := ns[i].z) == ns[i]
  }

  /** Every listed match has all its proper ancestors in the scene, none of them collapsed. */
  ghost predicate Opened(ns: seq<NodeRec>, query: string, order: seq<nat>)
    requires forall i :: 0 <= i < |order| ==> order[i] < |ns|
  {
    forall i :: 0 <= i < |order| && Matches(query, ns[order[i]].text) ==>
      ChainInScene(ns, order[i]) && forall a: nat :: Anc(ns, a, order[i]) ==> a < |ns| && !ns[a].collapsed
  }

  lemma OpenedFrame(ns: seq<NodeRec>, ms: seq<NodeRec>, query: string, order: seq<nat>)
    requires forall i :: 0 <= i < |order| ==> order[i] < |ns|
    requires SameButMarks(ns, ms) && Opened(ns, query, order)
    ensures Opened(ms, query, order)
  {
    assert SameLinks(ns, ms) by {
      forall i | 0 <= i < |ns|
        ensures ms[i].(collapsed := ns[i].collapsed, visible := ns[i].visible, selected := ns[i].selected, z := ns[i].z) == ns[i]
      {
        assert ms[i].(selected := ns[i].selected, z := ns[i].z) == ns[i];
      }
    }
    SameLinksFields(ns, ms);
    forall i | 0 <= i < |order| && Matches(query, ms[order[i]].text)
      ensures ChainInScene(ms, order[i]) && forall a: nat :: Anc(ms, a, order[i]) ==> a < |ms| && !ms[a].collapsed
    {
      var k := order[i];
      assert ms[k].(selected := ns[k].selected, z := ns[k].z) == ns[k];
      ChainInSceneFrame(ns, ms, k);
      forall a: nat | Anc(ms, a, k) ensures a < |ms| && !ms[a].collapsed {
        AncFrame(ns, ms, a, k);
        AncBefore(ns, a, k);
        assert ms[a].(selected := ns[a].selected, z := ns[a].z) == ns[a];
      }
    }
  }

  /** Once the matches' ancestors are open, a step only marks its node. */
  lemma OpenedStep(ns: seq<NodeRec>, query: string, order: seq<nat>, j: nat)
    requires forall i :: 0 <= i < |order| ==> order[i] < |ns|
    requires j < |order| && Opened(ns, query, order)
    ensures SearchStep(ns, query, order[j]) == (Mark(ns, order[j], Matches(query, ns[order[j]].text)), true)
  {
    var k := order[j];
    if Matches(query, ns[k].text) {
      var m := Mark(ns, k, true);
      assert SameButMarks(ns, m) by {
        forall i | 0 <= i < |ns| ensures m[i].(selected := ns[i].selected, z := ns[i].z) == ns[i] {
          if i == k {
            SameLinksFields(ns, m);
          }
        }
      }
      OpenedFrame(ns, m, query, order);
      EnsureNoop(m, k);
    }
  }

  /** Once the matches' ancestors are open, the search runs to the end and only re-marks:
      each listed node is raised exactly when it matches and selected exactly when it
      matches and is visible. */
  lemma {:induction false} OpenedLoop(ns: seq<NodeRec>, query: string, order: seq<nat>)
    requires forall i :: 0 <= i < |order| ==> order[i] < |ns|
    requires Opened(ns, query, order)
    ensures var r := SearchLoop(ns, query, order);
      r.1 && SameButMarks(ns, r.0) &&
      forall i :: 0 <= i < |order| ==>
        r.0[order[i]].selected == (Matches(query, ns[order[i]].text) && ns[order[i]].visible) &&
        r.0[order[i]].z == (if Matches(query, ns[order[i]].text) then 1 else 0)
    decreases |order|
  {
    if order != [] {
      var n := |order| - 1;
      var pre := order[..n];
      forall i | 0 <= i < |pre| && Matches(query, ns[pre[i]].text)
        ensures ChainInScene(ns, pre[i]) && forall a: nat :: Anc(ns, a, pre[i]) ==> a < |ns| && !ns[a].collapsed
      {
        PrefixIn(order, i);
      }
      OpenedLoop(ns, query, pre);
      var prev := SearchLoop(ns, query, pre).0;
      OpenedFrame(ns, prev, query, order);
      var k := order[n];
      OpenedStep(prev, query, order, n);
      var r := Mark(prev, k, Matches(query, prev[k].text));
      assert prev[k].(selected := ns[k].selected, z := ns[k].z) == ns[k];
      forall i | 0 <= i < |ns| ensures r[i].(selected := ns[i].selected, z := ns[i].z) == ns[i] {
        assert prev[i].(selected := ns[i].selected, z := ns[i].z) == ns[i];
      }
      forall i | 0 <= i < |order|
        ensures r[order[i]].selected == (Matches(query, ns[order[i]].text) && ns[order[i]].visible)
        ensures r[order[i]].z == (if Matches(query, ns[order[i]].text) then 1 else 0)
      {
        var x := order[i];
        if x != k {
          PrefixIn(order, i);
          assert r[x] == prev[x];
        }
      }
    }
  }

  /** A search that runs to the end leaves every listed match with its ancestors in the scene
      and open. */
  lemma FirstSearchOpens(ns: seq<NodeRec>, query: string, order: seq<nat>)
    requires forall i :: 0 <= i < |order| ==> order[i] < |ns|
    requires Tree(ns) && OrphansOpen(ns) && SearchLoop(ns, query, order).1
    ensures Opened(SearchLoop(ns, query, order).0, query, order)
  {
    var r := SearchLoop(ns, query, order).0;
    SearchLoopOk(ns, query, order);
    SearchLoopCollapsed(ns, query, order);
    SameLinksFields(ns, r);
    forall i | 0 <= i < |order| && Matches(query, r[order[i]].text)
      ensures ChainInScene(r, order[i]) && forall a: nat :: Anc(r, a, order[i]) ==> a < |r| && !r[a].collapsed
    {
      var k := order[i];
      ChainInSceneFrame(ns, r, k);
      forall a: nat | Anc(r, a, k) ensures a < |r| && !r[a].collapsed {
        AncFrame(ns, r, a, k);
        AncBefore(r, a, k);
        assert OpenedBy(ns, query, order, a);
      }
    }
  }

  /** A search that ran to the end leaves every match with its ancestors open. Searching
      again then runs to the end and only re-marks: each listed node is selected exactly when
      it matches and is visible, so a match that was still hidden when the first search
      reached it is selected now. From the second search on, searching changes nothing. */
  lemma SearchTwice(ns: seq<NodeRec>, query: string, order: seq<nat>)
    requires forall i :: 0 <= i < |order| ==> order[i] < |ns|
    requires Tree(ns) && OrphansOpen(ns) && SearchLoop(ns, query, order).1
    ensures var r := SearchLoop(ns, query, order).0; var r2 := SearchLoop(r, query, order);
      r2.1 && SameButMarks(r, r2.0) &&
      (forall i :: 0 <= i < |order| ==>
        r2.0[order[i]].selected == (Matches(query, ns[order[i]].text) && r[order[i]].visible)) &&
      SearchLoop(r2.0, query, order) == r2
  {
    var r := SearchLoop(ns, query, order).0;
    FirstSearchOpens(ns, query, order);
    OpenedLoop(r, query, order);
    var r2 := SearchLoop(r, query, order).0;
    OpenedFrame(r, r2, query, order);
    OpenedLoop(r2, query, order);
    var r3 := SearchLoop(r2, query, order).0;
    SearchLoopKeeps(r2, query, order);
    SameLinksFields(r, r2);
    forall x | 0 <= x < |r2| ensures r3[x] == r2[x] {
      assert r3[x].(selected := r2[x].selected, z := r2[x].z) == r2[x];
      assert r2[x].(selected := r[x].selected, z := r[x].z) == r[x];
      if x in order {
        var i :| 0 <= i < |order| && order[i] == x;
      }
    }
    assert r3 == r2;
  }

  /** With the visibility invariant, the second search selects exactly the listed matches. */
  lemma SecondSearchSelects(ns: seq<NodeRec>, query: string, order: seq<nat>)
    requires forall i :: 0 <= i < |order| ==> order[i] < |ns|
    requires Tree(ns) && OrphansOpen(ns) && Consistent(ns) && SearchLoop(ns, query, order).1
    ensures var r := SearchLoop(ns, query, order).0; var r2 := SearchLoop(r, query, order);
      forall i :: 0 <= i < |order| ==> r2.0[order[i]].selected == Matches(query, ns[order[i]].text)
  {
    var r := SearchLoop(ns, query, order).0;
    SearchTwice(ns, query, order);
    SearchLoopKeepsInvariant(ns, query, order);
    SearchLoopOk(ns, query, order);
    SearchLoopCollapsed(ns, query, order);
    forall i | 0 <= i < |order| && Matches(query, ns[order[i]].text) ensures r[order[i]].visible {
      var k := order[i];
      AnyAncCollapsedSome(r, k);
      forall a: nat | Anc(r, a, k) && a < |r| ensures !r[a].collapsed {
        SameLinksFields(ns, r);
        AncFrame(ns, r, a, k);
        assert OpenedBy(ns, query, order, a);
      }
    }
  }
}
