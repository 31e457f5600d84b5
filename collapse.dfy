/**
  Collapsing: `RoundedRectItem.toggle_collapse`, `Node.toggle_children` and the
  ancestor expansion `_ensure_parents_visible` of the search, as functions on the
  arena. The scene's methods are proved to compute them.
*/
module Collapse {
  import opened Wrappers
  import opened Graph

  /** `node.toggle_children(c)` on node `k`: each proper descendant `d` becomes visible
      exactly when neither `c` holds nor any node strictly between `k` and `d` is collapsed. */
  function AfterHide(ns: seq<NodeRec>, k: nat, c: bool): (r: seq<NodeRec>)
    ensures SameButFlags(ns, r)
    ensures forall d :: 0 <= d < |ns| ==> r[d].collapsed == ns[d].collapsed
  {
    seq(|ns|, d requires 0 <= d < |ns| =>
      if Anc(ns, k, d) then ns[d].(visible := !(c || HiddenBelow(ns, k, d))) else ns[d])
  }

  /** The arena with `k`'s collapsed flag flipped. */
  function Flip(ns: seq<NodeRec>, k: nat): (r: seq<NodeRec>)
    requires k < |ns|
    ensures SameButFlags(ns, r) && SameParents(ns, r)
    ensures forall i :: 0 <= i < |ns| && i != k ==> r[i].collapsed == ns[i].collapsed
  {
    ns[k := ns[k].(collapsed := !ns[k].collapsed)]
  }

  /** `toggle_collapse` on node `k`: nothing happens without children; otherwise the flag
      flips and the descendants' visibility is recomputed from the new flag. */
  function AfterToggle(ns: seq<NodeRec>, k: nat): (r: seq<NodeRec>)
    requires k < |ns|
    ensures SameButFlags(ns, r) && SameParents(ns, r)
    ensures forall i :: 0 <= i < |ns| && i != k ==> r[i].collapsed == ns[i].collapsed
  {
    if ns[k].children == [] then ns
    else
      var ms := Flip(ns, k);
      SameButFlagsTrans(ns, ms, AfterHide(ms, k, ms[k].collapsed));
      SameButFlagsParents(ns, AfterHide(ms, k, ms[k].collapsed));
      AfterHide(ms, k, ms[k].collapsed)
  }

  /** `_ensure_parents_visible(d)`: walking up from `d`, every collapsed ancestor is toggled
      open, nearest first. The flag is false when the walk reaches a parent that was never
      added to the scene: its `rect_item` is `None` and reading `collapsed` raises. */
  function AfterEnsure(ns: seq<NodeRec>, d: nat): (r: (seq<NodeRec>, bool))
    requires d < |ns|
    ensures SameButFlags(ns, r.0) && SameParents(ns, r.0)
    decreases d
  {
    if ns[d].parent.None? || ns[d].parent.value >= d then (ns, true)
    else
      var p := ns[d].parent.value;
      if !ns[p].inScene then (ns, false)
      else
        var ms := if ns[p].collapsed then AfterToggle(ns, p) else ns;
        var r := AfterEnsure(ms, p);
        SameButFlagsTrans(ns, ms, r.0);
        SameButFlagsParents(ns, r.0);
        r
  }

  // ---------------------------------------------------------------------------
  // Toggling

  /** Toggling keeps the visibility invariant, for a node with no collapsed ancestor (one
      whose button can be pressed). */
  lemma ToggleConsistent(ns: seq<NodeRec>, k: nat)
    requires k < |ns| && Consistent(ns) && !AnyAncCollapsed(ns, k)
    ensures Consistent(AfterToggle(ns, k))
  {
    if ns[k].children != [] {
      forall d | 0 <= d < |ns| ensures AfterToggle(ns, k)[d].visible == !AnyAncCollapsed(AfterToggle(ns, k), d) {
        ToggleConsistentAt(ns, k, d);
      }
    }
  }

  lemma ToggleConsistentAt(ns: seq<NodeRec>, k: nat, d: nat)
    requires k < |ns| && d < |ns| && ns[k].children != []
    requires ns[d].visible == !AnyAncCollapsed(ns, d) && !AnyAncCollapsed(ns, k)
    ensures AfterToggle(ns, k)[d].visible == !AnyAncCollapsed(AfterToggle(ns, k), d)
  {
    var ms := Flip(ns, k);
    var r := AfterHide(ms, k, ms[k].collapsed);
    assert r == AfterToggle(ns, k);
    AncFrame(ns, ms, k, d);
    SameButFlagsParents(ns, r);
    AncIrreflexive(ns, k);
    FlipFrame(ns, r, k, k);
    if Anc(ns, k, d) {
      AncFrame(ns, r, k, d);
      AnyAncSplit(r, k, d);
      HiddenBelowFlipFrame(ms, r, k, d);
    } else {
      FlipFrame(ns, r, k, d);
    }
  }

  /** Toggling twice restores every flag, for a node with no collapsed ancestor in a
      consistent arena. */
  lemma ToggleTwice(ns: seq<NodeRec>, k: nat)
    requires k < |ns| && Consistent(ns) && !AnyAncCollapsed(ns, k)
    ensures AfterToggle(AfterToggle(ns, k), k) == ns
  {
    if ns[k].children != [] {
      var r2 := AfterToggle(AfterToggle(ns, k), k);
      forall d | 0 <= d < |ns| ensures r2[d] == ns[d] {
        ToggleTwiceAt(ns, k, d);
      }
    }
  }

  /** Under a collapsed ancestor a double toggle is not the identity: `toggle_children`
      reads only the toggled node's flag, so a hidden open node's child comes back visible. */
  lemma ToggleTwiceUnderCollapsed(ns: seq<NodeRec>, k: nat, d: nat)
    requires Consistent(ns) && d < |ns| && ns[d].parent == Some(k) && k < d
    requires ns[k].children != [] && !ns[k].collapsed && AnyAncCollapsed(ns, k)
    ensures !ns[d].visible && AfterToggle(AfterToggle(ns, k), k)[d].visible
  {
    var r1 := AfterToggle(ns, k);
    assert r1[k].collapsed && r1[k].children == ns[k].children;
    var ms := Flip(r1, k);
    assert ms[d].parent == Some(k) && !ms[k].collapsed;
    assert Anc(ms, k, d) && !HiddenBelow(ms, k, d);
  }

  lemma ToggleTwiceAt(ns: seq<NodeRec>, k: nat, d: nat)
    requires k < |ns| && d < |ns| && ns[k].children != []
    requires ns[d].visible == !AnyAncCollapsed(ns, d) && !AnyAncCollapsed(ns, k)
    ensures AfterToggle(AfterToggle(ns, k), k)[d] == ns[d]
  {
    var m1 := Flip(ns, k);
    var r1 := AfterHide(m1, k, m1[k].collapsed);
    assert r1 == AfterToggle(ns, k);
    SameButFlagsParents(ns, r1);
    var m2 := Flip(r1, k);
    var r2 := AfterHide(m2, k, m2[k].collapsed);
    assert r2 == AfterToggle(r1, k);
    SameButFlagsTrans(ns, r1, m2);
    SameButFlagsTrans(ns, m2, r2);
    assert r2[d].(collapsed := ns[d].collapsed, visible := ns[d].visible) == ns[d];
    assert m2[k].collapsed == ns[k].collapsed;
    AncFrame(ns, m1, k, d);
    AncFrame(ns, r1, k, d);
    AncFrame(ns, m2, k, d);
    AncIrreflexive(ns, k);
    if Anc(ns, k, d) {
      AnyAncSplit(ns, k, d);
      HiddenBelowFlipFrame(ns, m2, k, d);
      assert r2[d].visible == !(ns[k].collapsed || HiddenBelow(ns, k, d));
    } else {
      assert r2[d] == m2[d];
      assert r1[d] == m1[d];
    }
  }

  /** A node outside the scene is never toggled, and the flags of nodes outside stay as built. */
  lemma ToggleOrphans(ns: seq<NodeRec>, k: nat)
    requires k < |ns| && ns[k].inScene && OrphansOpen(ns)
    ensures OrphansOpen(AfterToggle(ns, k))
  {
    var r := AfterToggle(ns, k);
    SameButFlagsParents(ns, r);
    forall i | 0 <= i < |ns| && !r[i].inScene ensures r[i].parent == None && !r[i].collapsed && r[i].visible {
      assert r[i].(collapsed := ns[i].collapsed, visible := ns[i].visible) == ns[i];
      if ns[k].children != [] {
        AncFrame(ns, Flip(ns, k), k, i);
      }
    }
  }

  /** The state of the arena after `k` was toggled open: nodes below `k` show whether
      anything between `k` and them is collapsed, and every other node keeps the invariant. */
  ghost predicate ResetBelow(ns: seq<NodeRec>, k: nat) {
    forall e :: 0 <= e < |ns| ==>
      (Anc(ns, k, e) ==> ns[e].visible == !HiddenBelow(ns, k, e)) &&
      (!Anc(ns, k, e) ==> ns[e].visible == !AnyAncCollapsed(ns, e))
  }

  /** Opening a collapsed node whose non-descendants keep the invariant. */
  lemma ToggleOpens(ns: seq<NodeRec>, k: nat)
    requires k < |ns| && ns[k].children != [] && ns[k].collapsed
    requires forall e :: 0 <= e < |ns| && !Anc(ns, k, e) ==> ns[e].visible == !AnyAncCollapsed(ns, e)
    ensures ResetBelow(AfterToggle(ns, k), k) && !AfterToggle(ns, k)[k].collapsed
  {
    var r := AfterToggle(ns, k);
    forall e | 0 <= e < |ns|
      ensures (Anc(r, k, e) ==> r[e].visible == !HiddenBelow(r, k, e)) &&
        (!Anc(r, k, e) ==> r[e].visible == !AnyAncCollapsed(r, e))
    {
      ToggleOpensAt(ns, k, e);
    }
  }

  /** Opening collapsed node `k`: a descendant becomes visible exactly when no node strictly
      between is collapsed, a node that kept the invariant outside `k`'s subtree still keeps
      it, and every node outside the subtree other than `k` is left as it was. */
  lemma ToggleOpensAt(ns: seq<NodeRec>, k: nat, e: nat)
    requires k < |ns| && e < |ns| && ns[k].children != [] && ns[k].collapsed
    requires !Anc(ns, k, e) ==> ns[e].visible == !AnyAncCollapsed(ns, e)
    ensures var r := AfterToggle(ns, k);
      (Anc(r, k, e) ==> r[e].visible == !HiddenBelow(r, k, e)) &&
      (!Anc(r, k, e) ==> r[e].visible == !AnyAncCollapsed(r, e))
    ensures !Anc(ns, k, e) && e != k ==> AfterToggle(ns, k)[e] == ns[e]
  {
    var ms := Flip(ns, k);
    var r := AfterHide(ms, k, ms[k].collapsed);
    assert r == AfterToggle(ns, k);
    AfterHideAt(ms, k, ms[k].collapsed, e);
    SameButFlagsParents(ns, r);
    AncFrame(ns, ms, k, e);
    AncFrame(ns, r, k, e);
    if Anc(ns, k, e) {
      HiddenBelowFlipFrame(ms, r, k, e);
    } else {
      AncIrreflexive(ns, k);
      FlipFrame(ns, r, k, e);
    }
  }

  /** What holds at each step of the upward walk from `cur`. Either nothing was toggled yet
      and the invariant holds, or `t` was the last node toggled open and the chain from
      `cur` down to `t` is open. */
  ghost predicate WalkState(ns: seq<NodeRec>, cur: nat, t: Option<nat>) {
    cur < |ns| &&
    (t.None? ==> Consistent(ns)) &&
    (t.Some? ==>
       t.value < |ns| && ResetBelow(ns, t.value) && !ns[t.value].collapsed && !ns[cur].collapsed &&
       (t.value == cur || (Anc(ns, cur, t.value) && !HiddenBelow(ns, cur, t.value))))
  }

  /** At the top of the walk nothing above `cur` is collapsed, so the invariant holds again. */
  lemma WalkClose(ns: seq<NodeRec>, cur: nat, t: Option<nat>)
    requires WalkState(ns, cur, t) && !AnyAncCollapsed(ns, cur)
    ensures Consistent(ns)
  {
    if t.Some? {
      var tv := t.value;
      if tv != cur {
        AnyAncSplit(ns, cur, tv);
      }
      forall e | 0 <= e < |ns| ensures ns[e].visible == !AnyAncCollapsed(ns, e) {
        if Anc(ns, tv, e) {
          AnyAncSplit(ns, tv, e);
        }
      }
    }
  }

  lemma {:induction false} EnsureWalk(ns: seq<NodeRec>, cur: nat, t: Option<nat>)
    requires Tree(ns) && OrphansOpen(ns) && WalkState(ns, cur, t)
    ensures Consistent(AfterEnsure(ns, cur).0)
    decreases cur
  {
    if ns[cur].parent.None? {
      WalkClose(ns, cur, t);
    } else {
      var p := ns[cur].parent.value;
      if !ns[p].inScene {
        WalkClose(ns, cur, t);
      } else if !ns[p].collapsed {
        if t.Some? {
          if t.value == cur {
            assert Anc(ns, p, cur);
          } else {
            HiddenBelowExtend(ns, p, cur, t.value);
          }
        }
        EnsureWalk(ns, p, t);
      } else {
        assert cur in ns[p].children;
        if t.Some? {
          forall e | 0 <= e < |ns| && !Anc(ns, p, e) ensures !Anc(ns, t.value, e) {
            if t.value != cur && Anc(ns, t.value, e) {
              AncTrans(ns, p, cur, t.value);
              AncTrans(ns, p, t.value, e);
            } else if Anc(ns, t.value, e) {
              AncTrans(ns, p, cur, e);
            }
          }
        }
        ToggleOpens(ns, p);
        var ms := AfterToggle(ns, p);
        TreeFrame(ns, ms);
        ToggleOrphans(ns, p);
        EnsureWalk(ms, p, Some(p));
      }
    }
  }

  /** `_ensure_parents_visible` keeps the visibility invariant, whether or not it stops early. */
  lemma EnsureConsistent(ns: seq<NodeRec>, d: nat)
    requires d < |ns| && Tree(ns) && OrphansOpen(ns) && Consistent(ns)
    ensures Consistent(AfterEnsure(ns, d).0)
  {
    EnsureWalk(ns, d, None);
  }

  /** It reports success exactly when every ancestor of `d` is in the scene. */
  lemma {:induction false} EnsureOk(ns: seq<NodeRec>, d: nat)
    requires d < |ns|
    ensures AfterEnsure(ns, d).1 == ChainInScene(ns, d)
    decreases d
  {
    if ns[d].parent.Some? && ns[d].parent.value < d {
      var p := ns[d].parent.value;
      if ns[p].inScene {
        var ms := if ns[p].collapsed then AfterToggle(ns, p) else ns;
        SameButFlagsParents(ns, ms);
        ChainInSceneFrame(ns, ms, p);
        EnsureOk(ms, p);
      }
    }
  }

  /** Afterwards exactly the collapsed nodes that are not ancestors of `d` stay collapsed. */
  lemma {:induction false} EnsureCollapsed(ns: seq<NodeRec>, d: nat)
    requires d < |ns| && Tree(ns) && OrphansOpen(ns)
    ensures forall x :: 0 <= x < |ns| ==>
      AfterEnsure(ns, d).0[x].collapsed == (ns[x].collapsed && !Anc(ns, x, d))
    decreases d
  {
    if ns[d].parent.Some? {
      var p := ns[d].parent.value;
      forall x | 0 <= x < |ns| ensures Anc(ns, x, d) <==> x == p || Anc(ns, x, p) {
        AncParent(ns, x, d);
      }
      if ns[p].inScene {
        assert d in ns[p].children;
        var ms := if ns[p].collapsed then AfterToggle(ns, p) else ns;
        SameButFlagsParents(ns, ms);
        TreeFrame(ns, ms);
        ToggleOrphans(ns, p);
        forall x | 0 <= x < |ns| ensures Anc(ns, x, p) == Anc(ms, x, p) {
          AncFrame(ns, ms, x, p);
        }
        EnsureCollapsed(ms, p);
      }
    }
  }

  /** The walk toggles in-scene nodes only, so nodes outside the scene keep their flags. */
  lemma {:induction false} EnsureOrphans(ns: seq<NodeRec>, d: nat)
    requires d < |ns| && Tree(ns) && OrphansOpen(ns)
    ensures OrphansOpen(AfterEnsure(ns, d).0) && Tree(AfterEnsure(ns, d).0)
    decreases d
  {
    if ns[d].parent.Some? {
      var p := ns[d].parent.value;
      if ns[p].inScene {
        var ms := if ns[p].collapsed then AfterToggle(ns, p) else ns;
        ToggleOrphans(ns, p);
        TreeFrame(ns, ms);
        EnsureOrphans(ms, p);
      }
    }
  }

  /** On a chain that is in the scene and open, the walk changes nothing. */
  lemma {:induction false} EnsureNoop(ns: seq<NodeRec>, d: nat)
    requires d < |ns| && ChainInScene(ns, d)
    requires forall a: nat :: Anc(ns, a, d) ==> a < |ns| && !ns[a].collapsed
    ensures AfterEnsure(ns, d) == (ns, true)
    decreases d
  {
    if ns[d].parent.Some? && ns[d].parent.value < d {
      var p := ns[d].parent.value;
      forall a: nat | Anc(ns, a, p) ensures a < |ns| && !ns[a].collapsed {
        AncParent(ns, a, d);
      }
      EnsureNoop(ns, p);
    }
  }

  // ---------------------------------------------------------------------------
  // The recursion of `toggle_children`, child by child

  /** `d` is `a` or lies below it. */
  predicate Under(ns: seq<NodeRec>, a: nat, d: nat) {
    a == d || Anc(ns, a, d)
  }

  /** `d` lies in the subtree of one of the first `i` children of `k`. */
  ghost predicate Covered(ns: seq<NodeRec>, k: nat, i: nat, d: nat)
    requires k < |ns|
  {
    exists j :: 0 <= j < i && j < |ns[k].children| && Under(ns, ns[k].children[j], d)
  }

  /** Two children of one node have disjoint subtrees. */
  lemma {:induction false} SubtreesDisjoint(ns: seq<NodeRec>, k: nat, a: nat, b: nat, d: nat)
    requires Tree(ns) && a < |ns| && b < |ns|
    requires ns[a].parent == Some(k) && ns[b].parent == Some(k)
    requires Under(ns, a, d) && Under(ns, b, d)
    ensures a == b
    decreases d
  {
    if a != b {
      if d == a {
        AncBefore(ns, b, a);
        AncParent(ns, b, a);
        if b != k { AncBefore(ns, b, k); }
      } else if d == b {
        AncBefore(ns, a, b);
        AncParent(ns, a, b);
        if a != k { AncBefore(ns, a, k); }
      } else {
        var p := ns[d].parent.value;
        AncParent(ns, a, d);
        AncParent(ns, b, d);
        SubtreesDisjoint(ns, k, a, b, p);
      }
    }
  }

  /** Every proper descendant of `k` lies below one of its children. */
  lemma {:induction false} ChildCovers(ns: seq<NodeRec>, k: nat, d: nat)
    requires Tree(ns) && k < |ns| && Anc(ns, k, d)
    ensures Covered(ns, k, |ns[k].children|, d)
    decreases d
  {
    var p := ns[d].parent.value;
    if p == k {
      var j :| 0 <= j < |ns[k].children| && ns[k].children[j] == d;
      assert Under(ns, ns[k].children[j], d);
    } else {
      ChildCovers(ns, k, p);
      var j :| 0 <= j < |ns[k].children| && Under(ns, ns[k].children[j], p);
      AncParent(ns, ns[k].children[j], d);
      assert Under(ns, ns[k].children[j], d);
    }
  }

  /** Whatever lies below a child lies below the parent. */
  lemma {:induction false} CoveredAnc(ns: seq<NodeRec>, k: nat, i: nat, d: nat)
    requires Tree(ns) && k < |ns| && Covered(ns, k, i, d)
    ensures Anc(ns, k, d)
  {
    var j :| 0 <= j < i && j < |ns[k].children| && Under(ns, ns[k].children[j], d);
    var x := ns[k].children[j];
    assert ns[x].parent == Some(k);
    if x != d {
      AncBefore(ns, x, d);
      HiddenBelowExtend(ns, k, x, d);
    }
  }

  /** The state of `toggle_children(c)` on `k` after its loop has handled `i` children:
      their subtrees are as `AfterHide` says and the rest is untouched. */
  ghost predicate HidDone(ns: seq<NodeRec>, k: nat, c: bool, i: nat, a: seq<NodeRec>)
    requires k < |ns|
  {
    |a| == |ns| && forall d :: 0 <= d < |ns| ==> a[d] == if Covered(ns, k, i, d) then AfterHide(ns, k, c)[d] else ns[d]
  }

  /** Partway through, only visibility flags have changed. */
  lemma HidDoneFlags(ns: seq<NodeRec>, k: nat, c: bool, i: nat, a: seq<NodeRec>)
    requires k < |ns| && HidDone(ns, k, c, i, a)
    ensures SameButFlags(ns, a)
    ensures forall e :: 0 <= e < |ns| ==> a[e].collapsed == ns[e].collapsed && a[e].parent == ns[e].parent
  {
    forall e | 0 <= e < |ns|
      ensures a[e].(collapsed := ns[e].collapsed, visible := ns[e].visible) == ns[e]
      ensures a[e].collapsed == ns[e].collapsed && a[e].parent == ns[e].parent
    {
      assert a[e] == if Covered(ns, k, i, e) then AfterHide(ns, k, c)[e] else ns[e];
      assert AfterHide(ns, k, c)[e].(collapsed := ns[e].collapsed, visible := ns[e].visible) == ns[e];
    }
  }

  /** One entry of `AfterHide`. */
  lemma AfterHideAt(ns: seq<NodeRec>, k: nat, c: bool, d: nat)
    requires d < |ns|
    ensures AfterHide(ns, k, c)[d] == if Anc(ns, k, d) then ns[d].(visible := !(c || HiddenBelow(ns, k, d))) else ns[d]
  {
  }

  /** Inside the subtree of the `i`-th child. */
  lemma HideStepInside(ns: seq<NodeRec>, mid: seq<NodeRec>, k: nat, c: bool, i: nat, d: nat)
    requires Tree(ns) && k < |ns| && i < |ns[k].children| && d < |ns|
    requires SameParents(ns, mid) && forall e :: 0 <= e < |ns| ==> mid[e].collapsed == ns[e].collapsed
    requires Under(ns, ns[k].children[i], d) && !Covered(ns, k, i, d)
    requires d != ns[k].children[i] ==> mid[d] == ns[d]
    requires d == ns[k].children[i] ==> mid[d] == ns[d].(visible := !c)
    ensures var x := ns[k].children[i];
      AfterHide(mid, x, c || ns[x].collapsed)[d] == AfterHide(ns, k, c)[d]
  {
    var x := ns[k].children[i];
    var c2 := c || ns[x].collapsed;
    assert ns[x].parent == Some(k);
    assert Covered(ns, k, i + 1, d);
    CoveredAnc(ns, k, i + 1, d);
    AfterHideAt(ns, k, c, d);
    AfterHideAt(mid, x, c2, d);
    AncFrame(ns, mid, x, d);
    if d == x {
      AncIrreflexive(ns, x);
      assert !HiddenBelow(ns, k, d);
    } else {
      AncBefore(ns, x, d);
      HiddenBelowExtend(ns, k, x, d);
      HiddenBelowFlipFrame(ns, mid, x, d);
    }
  }

  /** One iteration: setting child `x`'s visibility and recursing on it with the flag
      `c || x.collapsed` handles exactly `x`'s subtree. */
  lemma HideStepAt(ns: seq<NodeRec>, k: nat, c: bool, i: nat, a: seq<NodeRec>, d: nat)
    requires Tree(ns) && k < |ns| && i < |ns[k].children| && HidDone(ns, k, c, i, a) && d < |ns|
    ensures var x := ns[k].children[i];
      var mid := a[x := a[x].(visible := !c)];
      AfterHide(mid, x, c || ns[x].collapsed)[d] ==
        if Covered(ns, k, i + 1, d) then AfterHide(ns, k, c)[d] else ns[d]
  {
    var x := ns[k].children[i];
    assert ns[x].parent == Some(k);
    var mid := a[x := a[x].(visible := !c)];
    HidDoneFlags(ns, k, c, i, a);
    assert SameParents(ns, mid);
    if Under(ns, x, d) {
      assert !Covered(ns, k, i, d) by {
        if Covered(ns, k, i, d) {
          var j :| 0 <= j < i && j < |ns[k].children| && Under(ns, ns[k].children[j], d);
          SubtreesDisjoint(ns, k, ns[k].children[j], x, d);
        }
      }
      assert a[d] == ns[d];
      HideStepInside(ns, mid, k, c, i, d);
    } else {
      AncFrame(ns, mid, x, d);
      assert Covered(ns, k, i + 1, d) == Covered(ns, k, i, d);
    }
  }

  /** After all children, the loop has done what `AfterHide` says. */
  lemma HideDone(ns: seq<NodeRec>, k: nat, c: bool, a: seq<NodeRec>)
    requires Tree(ns) && k < |ns| && HidDone(ns, k, c, |ns[k].children|, a)
    ensures a == AfterHide(ns, k, c)
  {
    forall d | 0 <= d < |ns| ensures a[d] == AfterHide(ns, k, c)[d] {
      if Anc(ns, k, d) {
        ChildCovers(ns, k, d);
      } else if Covered(ns, k, |ns[k].children|, d) {
        CoveredAnc(ns, k, |ns[k].children|, d);
      }
    }
  }
}
