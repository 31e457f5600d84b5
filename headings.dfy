/**
  Heading extraction: which lines of the editor text become nodes, and with
  which level and title. Both passes of `parse_markdown_headings` read a line
  the same way; the variants differ only in how they prepare the lines.
*/
module HeadingParser {
  import opened Wrappers
  import opened PyStr

  /** A line as the two passes see it: already stripped, with its 0-based index
      in `text.split('\n')` where the variant records one. */
  datatype SourceLine = SourceLine(lineNumber: Option<nat>, text: string)

  /** What one created node is built from. */
  datatype Heading = Heading(level: int, title: string, lineNumber: Option<nat>)

  /** `stripped_line and stripped_line.startswith('#')`. */
  predicate IsCandidate(s: string) {
    StartsWith(s, '#')
  }

  /** `stripped_line.count('#', 0, stripped_line.find(' ')) - 1`. */
  function LevelOf(s: string): int {
    CountUpTo(s, '#', Find(s, ' ')) as int - 1
  }

  /** `stripped_line.lstrip('# ').strip()`. */
  function TitleOf(s: string): string {
    Strip(LStripChars(s, {'#', ' '}))
  }

  /** The heading a line yields in the second pass, if any. */
  function HeadingOf(l: SourceLine): (r: Option<Heading>)
    ensures r.Some? <==> IsCandidate(l.text) && TitleOf(l.text) != []
    ensures r.Some? ==> r.value.level >= 0 && r.value.title != []
    ensures r.Some? ==> r.value.lineNumber == l.lineNumber
  {
    if IsCandidate(l.text) && TitleOf(l.text) != [] then
      LevelOfCreated(l.text);
      Some(Heading(LevelOf(l.text), TitleOf(l.text), l.lineNumber))
    else None
  }

  /** The current variant: every line of `text.split('\n')`, stripped, tagged with its index. */
  function CurrentLines(text: string): (r: seq<SourceLine>)
    ensures |r| == |Split(text, '\n')|
  {
    var ls := Split(text, '\n');
    seq(|ls|, i requires 0 <= i < |ls| => SourceLine(Some(i), Strip(ls[i])))
  }

  /** `[line.strip() for line in ls if line.strip()]`. */
  function NonBlank(ls: seq<string>): (r: seq<string>)
    ensures forall i :: 0 <= i < |r| ==> r[i] != []
  {
    if ls == [] then []
    else
      var s := Strip(ls[|ls| - 1]);
      NonBlank(ls[..|ls| - 1]) + (if s != [] then [s] else [])
  }

  /** The monolithic variants: `text.strip().split('\n')`, stripped, blank lines dropped, no line numbers. */
  function MonolithicLines(text: string): seq<SourceLine> {
    Untagged(NonBlank(Split(Strip(text), '\n')))
  }

  function Untagged(ls: seq<string>): (r: seq<SourceLine>)
    ensures |r| == |ls| && forall i :: 0 <= i < |ls| ==> r[i] == SourceLine(None, ls[i])
  {
    seq(|ls|, i requires 0 <= i < |ls| => SourceLine(None, ls[i]))
  }

  function Texts(src: seq<SourceLine>): (r: seq<string>)
    ensures |r| == |src| && forall i :: 0 <= i < |src| ==> r[i] == src[i].text
  {
    seq(|src|, i requires 0 <= i < |src| => src[i].text)
  }

  /** The heading records of the second pass, in document order. */
  function Headings(src: seq<SourceLine>): (r: seq<Heading>)
    ensures |r| <= |src|
    ensures forall k :: 0 <= k < |r| ==> r[k].level >= 0 && r[k].title != []
  {
    if src == [] then []
    else
      var init := Headings(src[..|src| - 1]);
      var last := src[|src| - 1];
      init + Contribution(last)
  }

  /** What one line adds to the headings. */
  function Contribution(l: SourceLine): (r: seq<Heading>)
    ensures |r| <= 1 && (r == [] <==> HeadingOf(l) == None) && (r != [] ==> HeadingOf(l) == Some(r[0]))
  {
    match HeadingOf(l) case Some(h) => [h] case None => []
  }

  /** Every heading is the heading of one of the lines. */
  lemma {:induction false} HeadingsFromLines(src: seq<SourceLine>)
    ensures forall h :: h in Headings(src) ==> exists l :: l in src && HeadingOf(l) == Some(h)
  {
    if src != [] {
      var n := |src| - 1;
      HeadingsFromLines(src[..n]);
      forall h | h in Headings(src) ensures exists l :: l in src && HeadingOf(l) == Some(h) {
        if h in Headings(src[..n]) {
          var l :| l in src[..n] && HeadingOf(l) == Some(h);
          assert l in src;
        } else {
          assert HeadingOf(src[n]) == Some(h);
        }
      }
    }
  }

  /** The first pass: the number of candidate lines per level, empty titles included. */
  function LevelCounts(ls: seq<string>): map<int, nat> {
    if ls == [] then map[]
    else
      Bump(LevelCounts(ls[..|ls| - 1]), ls[|ls| - 1])
  }

  /** What one line adds to the first pass's counts. */
  function Bump(m: map<int, nat>, l: string): map<int, nat> {
    if IsCandidate(l) then m[LevelOf(l) := Get(m, LevelOf(l), 0) + 1] else m
  }

  /** `d.get(key, default)`. */
  function Get<K, V>(m: map<K, V>, key: K, default: V): V {
    if key in m then m[key] else default
  }

  /** The number of headings of `hs` at level `level`. */
  function AtLevel(hs: seq<Heading>, level: int): nat {
    if hs == [] then 0
    else AtLevel(hs[..|hs| - 1], level) + (if hs[|hs| - 1].level == level then 1 else 0)
  }

  /** The number of candidate lines at `level`: the cardinality that the first pass records. */
  predicate CandidateAt(ls: seq<string>, i: int, level: int) {
    0 <= i < |ls| && IsCandidate(ls[i]) && LevelOf(ls[i]) == level
  }

  /** The number of candidate lines at a level, counted directly. */
  function CandidatesAt(ls: seq<string>, level: int): nat {
    |set i | 0 <= i < |ls| && CandidateAt(ls, i, level)|
  }

  function Repeat(c: char, n: nat): (r: string)
    ensures |r| == n && forall i :: 0 <= i < n ==> r[i] == c
  {
    seq(n, _ => c)
  }

  // ---------------------------------------------------------------------------
  // Level and title of one line

  /** N hash marks followed by a space give level N - 1. */
  lemma LevelOfHashes(n: nat, rest: string)
    requires n >= 1
    ensures LevelOf(Repeat('#', n) + " " + rest) == n - 1
    ensures TitleOf(Repeat('#', n) + " " + rest) == TitleOf(rest)
  {
    var s := Repeat('#', n) + " " + rest;
    var f := Find(s, ' ');
    FindSpec(s, ' ');
    OccurrencesSpec(Repeat('#', n), '#');
    assert s[n] == ' ';
    assert s[..n] == Repeat('#', n);
    assert ' ' !in s[..n];
    assert f == n;
    assert s[..SliceIndex(f, |s|)] == Repeat('#', n);
    LStripHashes(n, rest);
  }

  lemma {:induction false} LStripHashes(n: nat, rest: string)
    ensures LStripChars(Repeat('#', n) + " " + rest, {'#', ' '}) == LStripChars(rest, {'#', ' '})
  {
    var s := Repeat('#', n) + " " + rest;
    if n == 0 {
      assert s[1..] == rest;
    } else {
      assert s[1..] == Repeat('#', n - 1) + " " + rest;
      LStripHashes(n - 1, rest);
    }
  }

  /** A candidate line reads as level -1 only when it is a lone `#`, whose title is empty;
      so every created node has level at least 0. */
  lemma LevelOfCreated(s: string)
    requires IsCandidate(s)
    ensures LevelOf(s) >= -1
    ensures LevelOf(s) == -1 <==> s == "#"
    ensures s == "#" ==> TitleOf(s) == []
  {
    var f := Find(s, ' ');
    var e := SliceIndex(f, |s|);
    FindSpec(s, ' ');
    OccurrencesSpec(s[..e], '#');
    if f >= 0 {
      assert f != 0;
      assert s[..e][0] == '#';
      assert '#' in s[..e];
    } else if |s| >= 2 {
      assert e == |s| - 1;
      assert s[..e][0] == '#';
      assert '#' in s[..e];
    } else {
      assert s == "#";
      assert e == 0;
      assert LStripChars(s, {'#', ' '}) == LStripChars(s[1..], {'#', ' '});
    }
  }

  /** Without a space the count stops before the last character. */
  lemma LevelWithoutSpace()
    ensures LevelOf("##Title") == 1
    ensures LevelOf("###") == 1 && TitleOf("###") == []
  {
    var s := "##Title";
    FindSpec(s, ' ');
    assert Find(s, ' ') == -1;
    assert s[..6] == "##Titl";
    assert Occurrences("##Titl", '#') == 2 by {
      assert "##Titl"[1..] == "#Titl";
      assert "#Titl"[1..] == "Titl";
      assert Occurrences("Titl", '#') == 0;
    }
    FindSpec("###", ' ');
    assert "###"[..2] == "##";
    assert Occurrences("##", '#') == 2 by {
      assert "##"[1..] == "#";
      assert "#"[1..] == "";
    }
  }

  /** Hash marks inside the first word count towards the level. */
  lemma LevelCountsInnerHashes()
    ensures LevelOf("#a#b c") == 1
  {
    var s := "#a#b c";
    assert Find(s, ' ') == 4 by {
      assert s[1..] == "a#b c"; assert "a#b c"[1..] == "#b c"; assert "#b c"[1..] == "b c";
      assert "b c"[1..] == " c";
    }
    assert s[..4] == "#a#b";
    assert Occurrences("#a#b", '#') == 2 by {
      assert "#a#b"[1..] == "a#b"; assert "a#b"[1..] == "#b"; assert "#b"[1..] == "b";
      assert Occurrences("b", '#') == 0;
    }
  }

  // ---------------------------------------------------------------------------
  // The first pass bounds the second

  /** Counting directly, one more line adds one exactly when it is a candidate at the level. */
  lemma CandidatesSnoc(ls: seq<string>, level: int)
    requires ls != []
    ensures var n := |ls| - 1;
      CandidatesAt(ls, level) == CandidatesAt(ls[..n], level) + (if CandidateAt(ls, n, level) then 1 else 0)
  {
    var n := |ls| - 1;
    var init := ls[..n];
    var before := set i | 0 <= i < |init| && CandidateAt(init, i, level);
    var after := set i | 0 <= i < |ls| && CandidateAt(ls, i, level);
    forall i | 0 <= i < n ensures CandidateAt(ls, i, level) == CandidateAt(init, i, level) {
      assert ls[i] == init[i];
    }
    if CandidateAt(ls, n, level) {
      assert after == before + {n};
    } else {
      assert after == before;
    }
  }

  /** The first pass, one more line adds one exactly when it is a candidate at the level. */
  lemma LevelCountsSnoc(ls: seq<string>, level: int)
    requires ls != []
    ensures var n := |ls| - 1;
      Get(LevelCounts(ls), level, 0) == Get(LevelCounts(ls[..n]), level, 0) + (if CandidateAt(ls, n, level) then 1 else 0)
  {
  }

  /** The first pass records exactly the number of candidate lines at each level. */
  lemma {:induction false} LevelCountsCardinality(ls: seq<string>, level: int)
    ensures Get(LevelCounts(ls), level, 0) == CandidatesAt(ls, level)
  {
    if ls != [] {
      LevelCountsCardinality(ls[..|ls| - 1], level);
      CandidatesSnoc(ls, level);
      LevelCountsSnoc(ls, level);
    }
  }

  lemma TextsPrefix(src: seq<SourceLine>)
    requires src != []
    ensures Texts(src)[..|src| - 1] == Texts(src[..|src| - 1])
  {
  }

  /** The first pass over one more line. */
  lemma CountsSnoc(src: seq<SourceLine>, i: nat)
    requires i < |src|
    ensures LevelCounts(Texts(src[..i + 1])) == Bump(LevelCounts(Texts(src[..i])), src[i].text)
  {
    assert src[..i + 1][..i] == src[..i];
    TextsPrefix(src[..i + 1]);
  }

  /** The second pass's headings over one more line. */
  lemma HeadingsSnoc(src: seq<SourceLine>, i: nat)
    requires i < |src|
    ensures Headings(src[..i + 1]) == Headings(src[..i]) + Contribution(src[i])
  {
    assert src[..i + 1][..i] == src[..i];
  }

  lemma AtLevelAppend(hs: seq<Heading>, o: seq<Heading>, level: int)
    requires |o| <= 1
    ensures AtLevel(hs + o, level) == AtLevel(hs, level) + (if o != [] && o[0].level == level then 1 else 0)
  {
    if o != [] {
      assert (hs + o)[..|hs|] == hs;
    } else {
      assert hs + o == hs;
    }
  }

  /** The first pass only ever adds keys, and adds the level of every candidate line. */
  lemma LevelCountsKeys(t: seq<string>)
    requires t != []
    ensures LevelCounts(t[..|t| - 1]).Keys <= LevelCounts(t).Keys
    ensures IsCandidate(t[|t| - 1]) ==> LevelOf(t[|t| - 1]) in LevelCounts(t)
  {
  }

  /** A line's heading sits at the level the first pass reads for it. */
  lemma ContributionLevel(l: SourceLine)
    ensures Contribution(l) != [] ==> IsCandidate(l.text) && Contribution(l)[0].level == LevelOf(l.text)
  {
  }

  /** One more line adds at most one heading, at the level that line adds to the counts. */
  lemma CountsStep(src: seq<SourceLine>, level: int)
    requires src != []
    ensures var n := |src| - 1;
      AtLevel(Headings(src), level) + Get(LevelCounts(Texts(src[..n])), level, 0) <=
      AtLevel(Headings(src[..n]), level) + Get(LevelCounts(Texts(src)), level, 0)
    ensures var n := |src| - 1;
      LevelCounts(Texts(src[..n])).Keys <= LevelCounts(Texts(src)).Keys &&
      forall h :: h in Headings(src) ==> h in Headings(src[..n]) || h.level in LevelCounts(Texts(src))
  {
    var n := |src| - 1;
    var t := Texts(src);
    var o := Contribution(src[n]);
    assert Headings(src) == Headings(src[..n]) + o;
    TextsPrefix(src);
    assert t[n] == src[n].text;
    LevelCountsSnoc(t, level);
    LevelCountsKeys(t);
    AtLevelAppend(Headings(src[..n]), o, level);
    ContributionLevel(src[n]);
  }

  /** Every created node's level is a key of the counts, and the second pass never creates
      more nodes at a level than the first pass counted there. */
  lemma {:induction false} HeadingsWithinCounts(src: seq<SourceLine>, level: int)
    ensures AtLevel(Headings(src), level) <= Get(LevelCounts(Texts(src)), level, 0)
    ensures forall h :: h in Headings(src) ==> h.level in LevelCounts(Texts(src))
  {
    if src != [] {
      var n := |src| - 1;
      HeadingsWithinCounts(src[..n], level);
      CountsStep(src, level);
    }
  }

  // ---------------------------------------------------------------------------
  // The two ways of preparing lines yield the same headings

  /** `(level, title)` of each heading, without line numbers. */
  function Shape(hs: seq<Heading>): seq<(int, string)> {
    seq(|hs|, i requires 0 <= i < |hs| => (hs[i].level, hs[i].title))
  }

  function StripAll(ls: seq<string>): (r: seq<string>)
    ensures |r| == |ls| && forall i :: 0 <= i < |ls| ==> r[i] == Strip(ls[i])
  {
    seq(|ls|, i requires 0 <= i < |ls| => Strip(ls[i]))
  }

  lemma ShapeAppend(a: seq<Heading>, b: seq<Heading>)
    ensures Shape(a + b) == Shape(a) + Shape(b)
  {
  }

  /** The shape of the last line's contribution depends on its text alone. */
  lemma ShapeLast(a: seq<SourceLine>, b: seq<SourceLine>)
    requires a != [] && b != [] && a[|a| - 1].text == b[|b| - 1].text
    requires Shape(Headings(a[..|a| - 1])) == Shape(Headings(b[..|b| - 1]))
    ensures Shape(Headings(a)) == Shape(Headings(b))
  {
    var n, m := |a| - 1, |b| - 1;
    var o := Contribution(a[n]);
    var o' := Contribution(b[m]);
    assert Headings(a) == Headings(a[..n]) + o;
    assert Headings(b) == Headings(b[..m]) + o';
    assert Shape(o) == Shape(o');
    ShapeAppend(Headings(a[..n]), o);
    ShapeAppend(Headings(b[..m]), o');
  }

  /** Two line sequences that agree before their common last line agree after it. */
  lemma CommonLast(a: seq<string>, b: seq<string>)
    requires a != [] && b != [] && a[|a| - 1] == b[|b| - 1]
    requires Shape(Headings(Untagged(a[..|a| - 1]))) == Shape(Headings(Untagged(b[..|b| - 1])))
    requires LevelCounts(a[..|a| - 1]) == LevelCounts(b[..|b| - 1])
    ensures Shape(Headings(Untagged(a))) == Shape(Headings(Untagged(b)))
    ensures LevelCounts(a) == LevelCounts(b)
  {
    UntaggedPrefix(a);
    UntaggedPrefix(b);
    ShapeLast(Untagged(a), Untagged(b));
    LevelCountsLast(a, b);
  }

  lemma UntaggedPrefix(a: seq<string>)
    requires a != []
    ensures Untagged(a)[..|a| - 1] == Untagged(a[..|a| - 1]) && Untagged(a)[|a| - 1].text == a[|a| - 1]
  {
  }

  lemma LevelCountsLast(a: seq<string>, b: seq<string>)
    requires a != [] && b != [] && a[|a| - 1] == b[|b| - 1]
    requires LevelCounts(a[..|a| - 1]) == LevelCounts(b[..|b| - 1])
    ensures LevelCounts(a) == LevelCounts(b)
  {
  }

  /** The headings' levels and titles depend on the line texts alone. */
  lemma {:induction false} ShapeIgnoresLineNumbers(src: seq<SourceLine>)
    ensures Shape(Headings(src)) == Shape(Headings(Untagged(Texts(src))))
  {
    if src != [] {
      var n := |src| - 1;
      var u := Untagged(Texts(src));
      ShapeIgnoresLineNumbers(src[..n]);
      assert Untagged(Texts(src[..n])) == u[..n];
      ShapeLast(src, u);
    }
  }

  /** A last line that is no heading adds nothing to the headings. */
  lemma HeadingsNoneLast(src: seq<SourceLine>)
    requires src != [] && HeadingOf(src[|src| - 1]) == None
    ensures Headings(src) == Headings(src[..|src| - 1])
  {
  }

  /** A last line that is no candidate adds nothing to the counts. */
  lemma LevelCountsNoneLast(ls: seq<string>)
    requires ls != [] && !IsCandidate(ls[|ls| - 1])
    ensures LevelCounts(ls) == LevelCounts(ls[..|ls| - 1])
  {
  }

  /** An empty last line adds no heading and no count. */
  lemma EmptyLast(a: seq<string>)
    requires a != [] && a[|a| - 1] == []
    ensures Headings(Untagged(a)) == Headings(Untagged(a[..|a| - 1]))
    ensures LevelCounts(a) == LevelCounts(a[..|a| - 1])
  {
    var n := |a| - 1;
    var u := Untagged(a);
    assert u[..n] == Untagged(a[..n]);
    assert !IsCandidate(a[n]);
    assert HeadingOf(u[n]) == None;
    HeadingsNoneLast(u);
    LevelCountsNoneLast(a);
  }

  /** One more raw line either strips to nothing and leaves the non-blank lines alone, or is
      the new last non-blank line. */
  lemma PrefixStep(ls: seq<string>)
    requires ls != []
    ensures var n := |ls| - 1; var a := StripAll(ls); var b := NonBlank(ls);
      a[..n] == StripAll(ls[..n]) &&
      ((a[n] == [] && b == NonBlank(ls[..n])) ||
       (b != [] && b[..|b| - 1] == NonBlank(ls[..n]) && b[|b| - 1] == a[n]))
  {
  }

  /** Agreement of two line sequences survives one more step of the kinds `PrefixStep` names. */
  lemma AgreeStep(a: seq<string>, b: seq<string>, a0: seq<string>, b0: seq<string>)
    requires a != [] && a[..|a| - 1] == a0
    requires (a[|a| - 1] == [] && b == b0) || (b != [] && b[..|b| - 1] == b0 && b[|b| - 1] == a[|a| - 1])
    requires Shape(Headings(Untagged(a0))) == Shape(Headings(Untagged(b0))) && LevelCounts(a0) == LevelCounts(b0)
    ensures Shape(Headings(Untagged(a))) == Shape(Headings(Untagged(b)))
    ensures LevelCounts(a) == LevelCounts(b)
  {
    if a[|a| - 1] == [] && b == b0 {
      EmptyLast(a);
    } else {
      CommonLast(a, b);
    }
  }

  /** One more line keeps the stripped and the non-blank lines in agreement. */
  lemma BlankLinesStep(ls: seq<string>)
    requires ls != []
    requires var n := |ls| - 1;
      Shape(Headings(Untagged(StripAll(ls[..n])))) == Shape(Headings(Untagged(NonBlank(ls[..n])))) &&
      LevelCounts(StripAll(ls[..n])) == LevelCounts(NonBlank(ls[..n]))
    ensures Shape(Headings(Untagged(StripAll(ls)))) == Shape(Headings(Untagged(NonBlank(ls))))
    ensures LevelCounts(StripAll(ls)) == LevelCounts(NonBlank(ls))
  {
    var n := |ls| - 1;
    PrefixStep(ls);
    AgreeStep(StripAll(ls), NonBlank(ls), StripAll(ls[..n]), NonBlank(ls[..n]));
  }

  /** Stripping every line and dropping the blank ones changes neither the headings nor the counts. */
  lemma {:induction false} BlankLinesIgnored(ls: seq<string>)
    ensures Shape(Headings(Untagged(StripAll(ls)))) == Shape(Headings(Untagged(NonBlank(ls))))
    ensures LevelCounts(StripAll(ls)) == LevelCounts(NonBlank(ls))
  {
    if ls != [] {
      BlankLinesIgnored(ls[..|ls| - 1]);
      BlankLinesStep(ls);
    }
  }

  lemma {:induction false} NonBlankAppend(a: seq<string>, b: seq<string>)
    ensures NonBlank(a + b) == NonBlank(a) + NonBlank(b)
  {
    if b != [] {
      var n := |b| - 1;
      assert (a + b)[..|a| + n] == a + b[..n];
      NonBlankAppend(a, b[..n]);
    } else {
      assert a + b == a;
    }
  }

  lemma {:induction false} RStripCons(c: char, s: string)
    ensures RStrip([c] + s) == if RStrip(s) == [] && IsSpace(c) then [] else [c] + RStrip(s)
  {
    if s != [] && IsSpace(s[|s| - 1]) {
      assert ([c] + s)[..|s|] == [c] + s[..|s| - 1];
      RStripCons(c, s[..|s| - 1]);
    } else if s == [] {
      assert [c] + s == [c];
      if IsSpace(c) { assert [c][..0] == []; }
    }
  }

  lemma StripCons(c: char, s: string)
    requires IsSpace(c)
    ensures Strip([c] + s) == Strip(s)
  {
    RStripCons(c, s);
    if RStrip(s) != [] {
      assert ([c] + RStrip(s))[1..] == RStrip(s);
    }
  }

  lemma StripSnoc(s: string, c: char)
    requires IsSpace(c)
    ensures Strip(s + [c]) == Strip(s)
  {
    assert (s + [c])[..|s|] == s;
  }

  /** Appending a character to the text extends the last part, or opens a new one at a separator. */
  lemma {:induction false} SplitSnoc(t: string, c: char, sep: char)
    ensures var r := Split(t, sep);
      Split(t + [c], sep) == if c == sep then r + [[]] else r[..|r| - 1] + [r[|r| - 1] + [c]]
  {
    var r := Split(t, sep);
    if t == [] {
      assert t + [c] == [c];
      assert [c][1..] == [];
      var e: seq<string> := [[]];
      assert Split([], sep) == e;
      assert r == e;
      if c != sep {
        assert Split([c], sep) == [[c] + e[0]] + e[1..];
        assert e[0] == [] && e[1..] == [];
        assert [c] + e[0] == [c] && r[0] + [c] == [c] && r[..0] == [];
        assert Split([c], sep) == [[c]];
      } else {
        assert Split([c], sep) == [[]] + e;
      }
    } else {
      var t1 := t[1..];
      assert (t + [c])[1..] == t1 + [c];
      assert (t + [c])[0] == t[0];
      SplitSnoc(t1, c, sep);
      var r1 := Split(t1, sep);
      var big := Split(t1 + [c], sep);
      if t[0] == sep {
        SplitSnocSep(r1, big, c == sep, c);
      } else {
        SplitSnocWord(r1, big, c == sep, c, t[0]);
      }
    }
  }

  lemma SplitSnocSep(r1: seq<string>, big: seq<string>, atSep: bool, c: char)
    requires |r1| >= 1
    requires big == if atSep then r1 + [[]] else r1[..|r1| - 1] + [r1[|r1| - 1] + [c]]
    ensures var r := [[]] + r1;
      [[]] + big == if atSep then r + [[]] else r[..|r| - 1] + [r[|r| - 1] + [c]]
  {
    var r := [[]] + r1;
    if !atSep {
      assert r[..|r| - 1] == [[]] + r1[..|r1| - 1];
    }
  }

  lemma SplitSnocWord(r1: seq<string>, big: seq<string>, atSep: bool, c: char, h: char)
    requires |r1| >= 1
    requires big == if atSep then r1 + [[]] else r1[..|r1| - 1] + [r1[|r1| - 1] + [c]]
    ensures var r := [[h] + r1[0]] + r1[1..];
      [[h] + big[0]] + big[1..] == if atSep then r + [[]] else r[..|r| - 1] + [r[|r| - 1] + [c]]
  {
    var r := [[h] + r1[0]] + r1[1..];
    var k := |r1| - 1;
    if atSep {
      assert big[1..] == r1[1..] + [[]];
    } else if k == 0 {
      assert big == [r1[0] + [c]];
      assert r1[1..] == [] && r == [[h] + r1[0]];
      assert [h] + big[0] == ([h] + r1[0]) + [c];
    } else {
      assert big[0] == r1[0];
      assert big[1..] == r1[1..k] + [r1[k] + [c]];
      assert r[..|r| - 1] == [[h] + r1[0]] + r1[1..k];
    }
  }

  /** A single line survives the blank-line filter exactly when it strips to something. */
  lemma NonBlankSingle(x: string)
    ensures NonBlank([x]) == if Strip(x) == [] then [] else [Strip(x)]
  {
    assert [x][..0] == [];
  }

  /** Two lines that strip alike contribute alike, wherever they stand. */
  lemma NonBlankSwap(pre: seq<string>, x: string, y: string, post: seq<string>)
    requires Strip(x) == Strip(y)
    ensures NonBlank(pre + [x] + post) == NonBlank(pre + [y] + post)
  {
    NonBlankSingle(x);
    NonBlankSingle(y);
    NonBlankAppend(pre, [x]);
    NonBlankAppend(pre, [y]);
    NonBlankAppend(pre + [x], post);
    NonBlankAppend(pre + [y], post);
  }

  /** An empty line contributes nothing, wherever it stands. */
  lemma NonBlankDropEmpty(pre: seq<string>, post: seq<string>)
    ensures NonBlank(pre + [[]] + post) == NonBlank(pre + post)
  {
    NonBlankSingle([]);
    NonBlankAppend(pre, [[]]);
    NonBlankAppend(pre + [[]], post);
    NonBlankAppend(pre, post);
  }

  /** A leading newline only adds an empty first line. */
  lemma SplitNewlineHead(u: string)
    requires u != [] && u[0] == '\n'
    ensures NonBlank(Split(u, '\n')) == NonBlank(Split(u[1..], '\n'))
  {
    var r := Split(u[1..], '\n');
    assert Split(u, '\n') == [] + [[]] + r;
    NonBlankDropEmpty([], r);
    assert [] + r == r;
  }

  /** Other leading whitespace only widens the first line, which strips alike. */
  lemma SplitSpaceHead(u: string)
    requires u != [] && IsSpace(u[0]) && u[0] != '\n'
    ensures NonBlank(Split(u, '\n')) == NonBlank(Split(u[1..], '\n'))
  {
    var r := Split(u[1..], '\n');
    assert Split(u, '\n') == [] + [[u[0]] + r[0]] + r[1..];
    StripCons(u[0], r[0]);
    NonBlankSwap([], [u[0]] + r[0], r[0], r[1..]);
    assert [] + [r[0]] + r[1..] == r;
  }

  /** A trailing newline only adds an empty last line. */
  lemma SplitNewlineTail(t: string)
    requires t != [] && t[|t| - 1] == '\n'
    ensures NonBlank(Split(t, '\n')) == NonBlank(Split(t[..|t| - 1], '\n'))
  {
    var n := |t| - 1;
    SplitDropLast(t, '\n');
    var r := Split(t[..n], '\n');
    assert Split(t, '\n') == r + [[]] + [];
    NonBlankDropEmpty(r, []);
    assert r + [] == r;
  }

  /** Other trailing whitespace only widens the last line, which strips alike. */
  lemma SplitSpaceTail(t: string)
    requires t != [] && IsSpace(t[|t| - 1]) && t[|t| - 1] != '\n'
    ensures NonBlank(Split(t, '\n')) == NonBlank(Split(t[..|t| - 1], '\n'))
  {
    SplitDropLast(t, '\n');
    WidenLast(Split(t[..|t| - 1], '\n'), t[|t| - 1]);
  }

  lemma SplitDropLast(t: string, sep: char)
    requires t != []
    ensures var r := Split(t[..|t| - 1], sep); var c := t[|t| - 1];
      Split(t, sep) == if c == sep then r + [[]] else r[..|r| - 1] + [r[|r| - 1] + [c]]
  {
    var n := |t| - 1;
    assert t == t[..n] + [t[n]];
    SplitSnoc(t[..n], t[n], sep);
  }

  lemma WidenLast(r: seq<string>, c: char)
    requires |r| >= 1 && IsSpace(c)
    ensures NonBlank(r[..|r| - 1] + [r[|r| - 1] + [c]]) == NonBlank(r)
  {
    var m := |r| - 1;
    StripSnoc(r[m], c);
    SplitLastElement(r);
    NonBlankSwapLast(r[..m], r[m] + [c], r[m]);
  }

  lemma SplitLastElement<T>(r: seq<T>)
    requires r != []
    ensures r == r[..|r| - 1] + [r[|r| - 1]]
  {
  }

  lemma NonBlankSwapLast(pre: seq<string>, x: string, y: string)
    requires Strip(x) == Strip(y)
    ensures NonBlank(pre + [x]) == NonBlank(pre + [y])
  {
    NonBlankSingle(x);
    NonBlankSingle(y);
    NonBlankAppend(pre, [x]);
    NonBlankAppend(pre, [y]);
  }

  lemma {:induction false} NonBlankLStrip(u: string)
    ensures NonBlank(Split(LStrip(u), '\n')) == NonBlank(Split(u, '\n'))
  {
    if u != [] && IsSpace(u[0]) {
      NonBlankLStrip(u[1..]);
      assert LStrip(u) == LStrip(u[1..]);
      if u[0] == '\n' { SplitNewlineHead(u); } else { SplitSpaceHead(u); }
    }
  }

  lemma {:induction false} NonBlankRStrip(t: string)
    ensures NonBlank(Split(RStrip(t), '\n')) == NonBlank(Split(t, '\n'))
  {
    if t != [] && IsSpace(t[|t| - 1]) {
      NonBlankRStrip(t[..|t| - 1]);
      assert RStrip(t) == RStrip(t[..|t| - 1]);
      if t[|t| - 1] == '\n' { SplitNewlineTail(t); } else { SplitSpaceTail(t); }
    }
  }

  /** `text.strip()` before splitting removes only lines that are blank anyway. */
  lemma StripBeforeSplit(text: string)
    ensures NonBlank(Split(Strip(text), '\n')) == NonBlank(Split(text, '\n'))
  {
    NonBlankLStrip(RStrip(text));
    NonBlankRStrip(text);
  }

  /** The current variant (per-line strip, line indices kept) and the monolithic variants
      (`text.strip()`, blank lines dropped) produce the same `(level, title)` sequence and
      the same first-pass counts. */
  lemma VariantsAgree(text: string)
    ensures Shape(Headings(CurrentLines(text))) == Shape(Headings(MonolithicLines(text)))
    ensures LevelCounts(Texts(CurrentLines(text))) == LevelCounts(Texts(MonolithicLines(text)))
  {
    var ls := Split(text, '\n');
    assert Texts(CurrentLines(text)) == StripAll(ls);
    var nb := NonBlank(Split(Strip(text), '\n'));
    assert Texts(MonolithicLines(text)) == nb;
    assert Untagged(nb) == MonolithicLines(text);
    ShapeIgnoresLineNumbers(CurrentLines(text));
    ShapeIgnoresLineNumbers(MonolithicLines(text));
    StripBeforeSplit(text);
    BlankLinesIgnored(ls);
  }

  /** In the current variant each node records the index of its line in `text.split('\n')`,
      that line yields the node, and the indices increase in document order; the monolithic
      variants record none. */
  lemma CurrentLineNumbers(text: string)
    ensures var hs := Headings(CurrentLines(text)); var ls := Split(text, '\n');
      forall k :: 0 <= k < |hs| ==>
        hs[k].lineNumber.Some? && hs[k].lineNumber.value < |ls| &&
        HeadingOf(SourceLine(hs[k].lineNumber, Strip(ls[hs[k].lineNumber.value]))) == Some(hs[k])
    ensures var hs := Headings(CurrentLines(text));
      forall j, k :: 0 <= j < k < |hs| ==> hs[j].lineNumber.value < hs[k].lineNumber.value
    ensures forall h :: h in Headings(MonolithicLines(text)) ==> h.lineNumber == None
  {
    var src := CurrentLines(text);
    IncreasingLineNumbers(src);
    UntaggedHeadings(NonBlank(Split(Strip(text), '\n')));
  }

  /** Lines without line numbers give headings without them. */
  lemma UntaggedHeadings(ls: seq<string>)
    ensures forall h :: h in Headings(Untagged(ls)) ==> h.lineNumber == None
  {
    HeadingsFromLines(Untagged(ls));
  }

  /** The lines of `src` carry their own indices as line numbers. */
  ghost predicate Numbered(src: seq<SourceLine>) {
    forall i :: 0 <= i < |src| ==> src[i].lineNumber == Some(i)
  }

  /** Each heading names a line, below `bound`, that yields it, and the lines named increase. */
  ghost predicate NamesLines(hs: seq<Heading>, src: seq<SourceLine>, bound: int) {
    (forall k :: 0 <= k < |hs| ==>
      hs[k].lineNumber.Some? && hs[k].lineNumber.value < bound && hs[k].lineNumber.value < |src| &&
      HeadingOf(src[hs[k].lineNumber.value]) == Some(hs[k])) &&
    (forall j, k :: 0 <= j < k < |hs| ==> hs[j].lineNumber.value < hs[k].lineNumber.value)
  }

  lemma {:induction false} IncreasingLineNumbers(src: seq<SourceLine>)
    requires Numbered(src)
    ensures NamesLines(Headings(src), src, |src|)
  {
    if src != [] {
      var n := |src| - 1;
      IncreasingLineNumbers(src[..n]);
      NamesLinesWiden(Headings(src[..n]), src[..n], src);
      NamesLinesSnoc(Headings(src[..n]), Contribution(src[n]), src);
    }
  }

  lemma NamesLinesWiden(hs: seq<Heading>, init: seq<SourceLine>, src: seq<SourceLine>)
    requires |init| < |src| && init == src[..|init|]
    requires NamesLines(hs, init, |init|)
    ensures NamesLines(hs, src, |init|)
  {
    forall k | 0 <= k < |hs| ensures HeadingOf(src[hs[k].lineNumber.value]) == Some(hs[k]) {
      assert src[hs[k].lineNumber.value] == init[hs[k].lineNumber.value];
    }
  }

  lemma NamesLinesSnoc(hs: seq<Heading>, o: seq<Heading>, src: seq<SourceLine>)
    requires src != [] && Numbered(src) && o == Contribution(src[|src| - 1])
    requires NamesLines(hs, src, |src| - 1)
    ensures NamesLines(hs + o, src, |src|)
  {
    var n := |src| - 1;
    if o != [] {
      assert o[0].lineNumber == Some(n);
    }
  }
}
