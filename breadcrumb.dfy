/**
  The editor's answer to a selection in the monolithic variants
  (`MainWindow.handle_node_selection`): the breadcrumb label shows the titles
  from the root down to the selected node, and the text cursor selects the
  first editor line that reads as that node's title.
*/
module Breadcrumb {
  import opened Wrappers
  import opened PyStr
  import opened Graph
  import opened HeadingParser

  const Separator: string := " > "
  const NoSelection: string := "No node selected"

  /** Parent links point to earlier nodes, so following them ends. */
  ghost predicate ParentsEarlier(ns: seq<NodeRec>) {
    forall i :: 0 <= i < |ns| && ns[i].parent.Some? ==> ns[i].parent.value < i
  }

  /** The nodes from the root of `k`'s tree down to `k` itself. */
  function Chain(ns: seq<NodeRec>, k: nat): (r: seq<nat>)
    ensures |r| >= 1 && r[|r| - 1] == k
    ensures forall i :: 0 <= i < |r| ==> r[i] <= k
    decreases k
  {
    if k < |ns| && ns[k].parent.Some? && ns[k].parent.value < k then Chain(ns, ns[k].parent.value) + [k]
    else [k]
  }

  /** The titles of a list of nodes. */
  function Titles(ns: seq<NodeRec>, ks: seq<nat>): (r: seq<string>)
    requires forall i :: 0 <= i < |ks| ==> ks[i] < |ns|
    ensures |r| == |ks| && forall i :: 0 <= i < |ks| ==> r[i] == ns[ks[i]].text
  {
    seq(|ks|, i requires 0 <= i < |ks| => ns[ks[i]].text)
  }

  function Reversed<T>(s: seq<T>): (r: seq<T>)
    ensures |r| == |s| && forall i :: 0 <= i < |s| ==> r[i] == s[|s| - 1 - i]
  {
    seq(|s|, i requires 0 <= i < |s| => s[|s| - 1 - i])
  }

  /** What the breadcrumb label shows for a selection. */
  function BreadcrumbText(ns: seq<NodeRec>, sel: Option<nat>): string
    requires sel.Some? ==> sel.value < |ns|
  {
    match sel
    case None => NoSelection
    case Some(k) =>
      Join(Titles(ns, Chain(ns, k)), Separator)
  }

  /** The chain runs from a root to `k`, each node the parent of the next, and holds
      exactly `k` and its proper ancestors. */
  lemma {:induction false} ChainSpec(ns: seq<NodeRec>, k: nat)
    requires ParentsEarlier(ns) && k < |ns|
    ensures var c := Chain(ns, k);
      (forall i :: 0 <= i < |c| ==> c[i] < |ns|) && ns[c[0]].parent == None &&
      (forall i :: 0 < i < |c| ==> ns[c[i]].parent == Some(c[i - 1]))
    ensures forall a :: a in Chain(ns, k) <==> a == k || Anc(ns, a, k)
    decreases k
  {
    if ns[k].parent.Some? {
      var p := ns[k].parent.value;
      ChainSpec(ns, p);
      var c := Chain(ns, k);
      assert c == Chain(ns, p) + [k];
      forall a ensures a in c <==> a == k || Anc(ns, a, k) {
        assert a in c <==> a in Chain(ns, p) || a == k;
      }
    }
  }

  /** A root's breadcrumb is its own title. */
  lemma BreadcrumbRoot(ns: seq<NodeRec>, k: nat)
    requires k < |ns| && ns[k].parent == None
    ensures BreadcrumbText(ns, Some(k)) == ns[k].text
  {
    assert Chain(ns, k) == [k];
  }

  /** A child's breadcrumb is its parent's, then the separator, then its own title. */
  lemma BreadcrumbChild(ns: seq<NodeRec>, k: nat)
    requires ParentsEarlier(ns) && k < |ns| && ns[k].parent.Some?
    ensures var p := ns[k].parent.value;
      BreadcrumbText(ns, Some(k)) == BreadcrumbText(ns, Some(p)) + Separator + ns[k].text
  {
    var p := ns[k].parent.value;
    assert Chain(ns, k) == Chain(ns, p) + [k];
    assert Titles(ns, Chain(ns, k)) == Titles(ns, Chain(ns, p)) + [ns[k].text];
    ChainSpec(ns, p);
    JoinSnoc(Titles(ns, Chain(ns, p)), ns[k].text, Separator);
  }

  lemma {:induction false} JoinSnoc(parts: seq<string>, last: string, sep: string)
    requires parts != []
    ensures Join(parts + [last], sep) == Join(parts, sep) + sep + last
  {
    if |parts| == 1 {
      assert (parts + [last])[1..] == [last];
    } else {
      assert (parts + [last])[1..] == parts[1..] + [last];
      JoinSnoc(parts[1..], last, sep);
    }
  }

  // ---------------------------------------------------------------------------
  // The cursor line

  /** `line.lstrip('# ').strip() == node.text`: the line reads as the title. */
  predicate LineMatches(line: string, title: string) {
    TitleOf(line) == title
  }

  /** The index of the first line that reads as `title`, if any. */
  function FirstMatch(lines: seq<string>, title: string): (r: Option<nat>)
    ensures r.Some? ==> r.value < |lines| && LineMatches(lines[r.value], title)
    ensures r.Some? ==> forall j :: 0 <= j < r.value ==> !LineMatches(lines[j], title)
    ensures r.None? ==> forall j :: 0 <= j < |lines| ==> !LineMatches(lines[j], title)
  {
    if lines == [] then None
    else if LineMatches(lines[0], title) then Some(0)
    else match FirstMatch(lines[1..], title)
      case None => None
      case Some(j) => Some(j + 1)
  }

  /** The first line that reads as the title is found, so any such line bounds the answer. */
  lemma FirstMatchBelow(lines: seq<string>, title: string, i: nat)
    requires i < |lines| && LineMatches(lines[i], title)
    ensures FirstMatch(lines, title).Some? && FirstMatch(lines, title).value <= i
  {
  }

  /** Spaces before a heading do not hide it from the cursor lookup. */
  lemma SpaceIndentedFound(n: nat, s: string)
    ensures LineMatches(Repeat(' ', n) + s, TitleOf(s))
  {
    SpacesStripped(n, s);
  }

  lemma {:induction false} SpacesStripped(n: nat, s: string)
    ensures LStripChars(Repeat(' ', n) + s, {'#', ' '}) == LStripChars(s, {'#', ' '})
  {
    if n > 0 {
      var t := Repeat(' ', n) + s;
      assert t[0] == ' ' && ' ' in {'#', ' '};
      assert t[1..] == Repeat(' ', n - 1) + s;
      assert LStripChars(t, {'#', ' '}) == LStripChars(t[1..], {'#', ' '});
      SpacesStripped(n - 1, s);
    } else {
      assert Repeat(' ', 0) + s == s;
    }
  }

  /** A tab before a heading does: the heading parser strips the line before it reads the
      title, but the cursor lookup does not, so the node titled "A" made from the line
      "\t# A" is not matched by that line. */
  lemma TabIndentedMissed()
    ensures HeadingOf(SourceLine(Some(0), Strip("\t# A"))) == Some(Heading(0, "A", Some(0)))
    ensures !LineMatches("\t# A", "A")
  {
    assert IsSpace('\t') && !IsSpace('#');
    assert LStrip("\t# A") == "# A";
    assert RStrip("\t# A") == "\t# A";
    assert Strip("\t# A") == "# A";
    assert LStripChars("# A", {'#', ' '}) == "A";
    assert Find("# A", ' ') == 1;
    assert "# A"[..1] == "#";
    assert Occurrences("#", '#') == 1;
    assert TitleOf("# A") == "A";
    assert LStripChars("\t# A", {'#', ' '}) == "\t# A";
    assert RStrip("\t# A") == "\t# A";
    assert TitleOf("\t# A") == "# A";
  }

  /** Where line `i` begins in `sep.join(lines)`. */
  function LineStart(lines: seq<string>, i: nat): nat
    requires i <= |lines|
  {
    if i == 0 then 0 else LineStart(lines, i - 1) + |lines[i - 1]| + 1
  }

  /** Line `i` sits at `LineStart` in the joined text, so the cursor's selection from the
      start of that line to its end covers exactly that line. */
  lemma {:induction false} LineStartSpec(lines: seq<string>, i: nat, sep: char)
    requires i < |lines|
    ensures var t := Join(lines, [sep]); var s := LineStart(lines, i);
      s + |lines[i]| <= |t| && t[s..s + |lines[i]|] == lines[i]
  {
    var t := Join(lines, [sep]);
    if |lines| == 1 {
    } else {
      assert t == lines[0] + [sep] + Join(lines[1..], [sep]);
      if i > 0 {
        LineStartSpec(lines[1..], i - 1, sep);
        LineStartShift(lines, i);
        var s := LineStart(lines, i);
        var s' := LineStart(lines[1..], i - 1);
        assert s == |lines[0]| + 1 + s';
        assert t[s..s + |lines[i]|] == Join(lines[1..], [sep])[s'..s' + |lines[i]|];
      }
    }
  }

  /** The selection the cursor makes covers exactly the matched line of the editor text. */
  lemma CursorSelectsLine(text: string, title: string)
    ensures var lines := Split(text, '\n'); var m := FirstMatch(lines, title);
      m.Some? ==>
        var s := LineStart(lines, m.value);
        s + |lines[m.value]| <= |text| && text[s..s + |lines[m.value]|] == lines[m.value] &&
        LineMatches(text[s..s + |lines[m.value]|], title)
  {
    var lines := Split(text, '\n');
    var m := FirstMatch(lines, title);
    if m.Some? {
      JoinSplit(text, '\n');
      LineStartSpec(lines, m.value, '\n');
    }
  }

  lemma {:induction false} LineStartShift(lines: seq<string>, i: nat)
    requires 0 < i <= |lines|
    ensures LineStart(lines, i) == |lines[0]| + 1 + LineStart(lines[1..], i - 1)
  {
    if i > 1 {
      LineStartShift(lines, i - 1);
    }
  }

  /** The cursor's selection after a selection: from the start of the line to its end. */
  datatype Selection = Selection(anchor: nat, position: nat)

  /** `handle_node_selection`, on the label text and the editor cursor. */
  class EditorPanel {
    var breadcrumb: string
    var text: string
    var cursor: Selection

    constructor (text: string)
      ensures breadcrumb == NoSelection && this.text == text && cursor == Selection(0, 0)
    {
      breadcrumb := NoSelection;
      this.text := text;
      cursor := Selection(0, 0);
    }

    /** The label shows the breadcrumb of the selection; with a node, the cursor then
        selects the first line of the editor text that reads as its title, and stays
        where it was when no line does or nothing is selected. */
    method HandleNodeSelection(ns: seq<NodeRec>, node: Option<nat>)
      requires ParentsEarlier(ns) && (node.Some? ==> node.value < |ns|)
      modifies this
      ensures breadcrumb == BreadcrumbText(ns, node)
      ensures text == old(text)
      ensures var lines := Split(text, '\n');
        if node.Some? && FirstMatch(lines, ns[node.value].text).Some? then
          var i := FirstMatch(lines, ns[node.value].text).value;
          cursor == Selection(LineStart(lines, i), LineStart(lines, i) + |lines[i]|)
        else cursor == old(cursor)
    {
      breadcrumb := Crumbs(ns, node);
      if node.None? {
        return;
      }
      var lines := Split(text, '\n');
      var i := CursorLine(lines, ns[node.value].text);
      if i.Some? {
        var start := Offset(lines, i.value);
        cursor := Selection(start, start + |lines[i.value]|);
      }
    }
  }

  /** The label text, built as the source does: climb from the node to its root
      collecting titles, then join them in reverse. */
  method Crumbs(ns: seq<NodeRec>, node: Option<nat>) returns (shown: string)
    requires ParentsEarlier(ns) && (node.Some? ==> node.value < |ns|)
    ensures shown == BreadcrumbText(ns, node)
  {
    if node.None? {
      return NoSelection;
    }
    var path: seq<string> := [];
    var curr: Option<nat> := node;
    ghost var k := node.value;
    while curr.Some?
      invariant curr.Some? ==> curr.value < |ns|
      invariant Titles(ns, Chain(ns, k)) == Above(ns, curr) + Reversed(path)
      decreases if curr.Some? then curr.value + 1 else 0
    {
      var c := curr.value;
      CrumbStep(ns, k, c, path);
      path := path + [ns[c].text];
      curr := ns[c].parent;
    }
    CrumbsDone(ns, k, path);
    shown := Join(Reversed(path), Separator);
  }

  /** One turn of the loop: the node's title moves from the part still above to the
      collected part. */
  lemma CrumbStep(ns: seq<NodeRec>, k: nat, c: nat, path: seq<string>)
    requires ParentsEarlier(ns) && k < |ns| && c < |ns|
    requires Titles(ns, Chain(ns, k)) == Above(ns, Some(c)) + Reversed(path)
    ensures Titles(ns, Chain(ns, k)) == Above(ns, ns[c].parent) + Reversed(path + [ns[c].text])
  {
    AboveStep(ns, c);
    ReversedSnoc(path, ns[c].text);
  }

  /** Once nothing is above, the collected titles reversed are the breadcrumb's. */
  lemma CrumbsDone(ns: seq<NodeRec>, k: nat, path: seq<string>)
    requires k < |ns| && Titles(ns, Chain(ns, k)) == Above(ns, None) + Reversed(path)
    ensures Join(Reversed(path), Separator) == BreadcrumbText(ns, Some(k))
  {
    assert Above(ns, None) + Reversed(path) == Reversed(path);
  }

  /** The titles from the root down to `curr`, still to be collected. */
  function Above(ns: seq<NodeRec>, curr: Option<nat>): seq<string>
    requires curr.Some? ==> curr.value < |ns|
  {
    if curr.Some? then Titles(ns, Chain(ns, curr.value)) else []
  }

  lemma AboveStep(ns: seq<NodeRec>, c: nat)
    requires ParentsEarlier(ns) && c < |ns|
    ensures Above(ns, Some(c)) == Above(ns, ns[c].parent) + [ns[c].text]
  {
    if ns[c].parent.Some? {
      assert Chain(ns, c) == Chain(ns, ns[c].parent.value) + [c];
    } else {
      assert Chain(ns, c) == [c];
    }
  }

  lemma ReversedSnoc<T>(s: seq<T>, x: T)
    ensures Reversed(s + [x]) == [x] + Reversed(s)
  {
  }

  /** The index of the first line that reads as `title`, by a scan that stops at it. */
  method CursorLine(lines: seq<string>, title: string) returns (r: Option<nat>)
    ensures r == FirstMatch(lines, title)
  {
    var i := 0;
    while i < |lines|
      invariant 0 <= i <= |lines|
      invariant forall j :: 0 <= j < i ==> !LineMatches(lines[j], title)
    {
      if Strip(LStripChars(lines[i], {'#', ' '})) == title {
        FirstMatchUnique(lines, title, Some(i));
        return Some(i);
      }
      i := i + 1;
    }
    FirstMatchUnique(lines, title, None);
    return None;
  }

  /** The three properties of `FirstMatch` determine it. */
  lemma FirstMatchUnique(lines: seq<string>, title: string, r: Option<nat>)
    requires r.Some? ==> r.value < |lines| && LineMatches(lines[r.value], title)
    requires r.Some? ==> forall j :: 0 <= j < r.value ==> !LineMatches(lines[j], title)
    requires r.None? ==> forall j :: 0 <= j < |lines| ==> !LineMatches(lines[j], title)
    ensures r == FirstMatch(lines, title)
  {
    var f := FirstMatch(lines, title);
    if r.Some? && f.Some? {
      assert !(r.value < f.value) && !(f.value < r.value);
    }
  }

  /** `LineStart`, computed by `movePosition(Down, .., i)` from the start: one line at a time. */
  method Offset(lines: seq<string>, i: nat) returns (s: nat)
    requires i < |lines|
    ensures s == LineStart(lines, i)
  {
    s := 0;
    var j := 0;
    while j < i
      invariant j <= i && s == LineStart(lines, j)
    {
      s := s + |lines[j]| + 1;
      j := j + 1;
    }
  }
}
