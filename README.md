# Tree-Graph-MindMap: the heading-to-mind-map engine, modelled in Dafny

Tree-Graph-MindMap turns the Markdown headings in an editor into a mind map. Each
heading becomes a rounded-rectangle node, placed in a column by its level. A heading
hangs from the last heading one level up, and a cubic connector runs between them.
In the map, nodes can be collapsed and expanded, searched, dragged (optionally snapping
to a 20-pixel grid) and selected. The view pans with the middle mouse button and draws
a background grid. In the monolithic variants, selecting a node shows a breadcrumb and
moves the editor's cursor to the node's line.

The model has these modules:

- `PyStr` holds the Python string operations the parser relies on, with their exact
  semantics: `strip` with Python's whitespace set, `lstrip(chars)`, `find`, `count` over
  a slice with Python's index normalisation, and `split`, `join`, `lower` and `in`.
- `HeadingParser` covers which lines are headings, their level and title, the per-level
  counts of the first pass, and how each variant prepares its lines. The current
  variant numbers each line by its index in `text.split('\n')`. The monolithic variants
  strip the text, drop blank lines and keep no line numbers.
- `Geometry` covers connector points, the connector path, Python's `round` (half to
  even) and grid snapping, `int()` truncation, the grid origin and the collapse button.
- `Graph` and `Wiring` hold the scene as a value: an arena of every node constructed
  since the last clear, the scene's `nodes` list, and the connections. `Wired` is the
  structural invariant that `add_node` and moving a node keep.
- `Collapse` covers `toggle_collapse`, `toggle_children` and `_ensure_parents_visible`
  as functions on the arena.
- `Search` covers `search_nodes` as a fold over the scene's nodes.
- `Moving` covers where `itemChange` lets a dragged node go.
- `Layout` covers both passes of `parse_markdown_headings` and
  `calculate_node_position`.
- `Scene` holds the `MindMapScene` class, whose methods update its fields in place.
  Each state-changing public method is proved to compute the matching function above
  and to keep `Wired`.
- `View` holds the `MindMapView` class: parsing into the scene, the middle-button pan
  state and the background grid lines.
- `Breadcrumb` holds the monolithic variants' `handle_node_selection`: the breadcrumb
  label and the cursor line.

`Legacy_TreeGraph_MindMap.py` is `TreeGraph_MindMap.py` shifted down by two lines.
The two files share one model, and the table cites `TreeGraph_MindMap.py`. That
variant's scene behaves like the current scene with snapping off and no line numbers.
Its parsing is `View.MindMapView.ParseAndRenderMonolithic`.
`HeadingParser.VariantsAgree` proves that both line preparations yield the same
headings (levels and titles, in order) and the same level counts.

Behaviours of the code that the proofs bring out:

- A heading whose parent level has not appeared yet (an orphan) is constructed and
  consumes a vertical slot. It becomes `current_levels[level]`, but it is never added
  to the scene. Its own children then hang from a node that has no rectangle item.
- `_ensure_parents_visible` then dereferences the missing `rect_item` of such an orphan
  and raises. The model returns `ok == false` at that point (`Collapse.EnsureOk`), and
  the search loop stops there (`Search.SearchLoopOk`).
- `level_counts` also counts `#` lines whose title is empty, so a column can be offset
  by slots no node uses. The index of every node at a level is still below the count
  (`Layout.IndexBelowCount`).
- The cursor lookup reads the raw line, but the parser strips it first. A heading
  indented with a tab therefore gets a node but is not found by the cursor lookup
  (`Breadcrumb.TabIndentedMissed`). A heading indented with spaces is found
  (`Breadcrumb.SpaceIndentedFound`).
- A double toggle restores the visibility flags only when no ancestor of the toggled
  node is collapsed. `toggle_children` sets the descendants from the toggled node's
  flag alone. So a double toggle under a collapsed ancestor shows the descendants of
  a hidden node
  (`Collapse.ToggleTwiceUnderCollapsed`).

## Model

| member | source | states |
|---|---|---|
| PyStr.LStripSpec | Mind-Map/Mind-Map/graphics_items.py:381 | `lstrip()` removes exactly the longest all-whitespace prefix and leaves a line starting with a non-space |
| PyStr.RStripSpec | Mind-Map/Mind-Map/graphics_items.py:381 | `rstrip()` removes exactly the longest all-whitespace suffix |
| PyStr.StripSpec | Mind-Map/Mind-Map/graphics_items.py:381 | about `Strip`: `strip()` keeps the middle of the line, removing exactly its leading and trailing whitespace |
| PyStr.LStripCharsSpec | Mind-Map/Mind-Map/graphics_items.py:396 | `lstrip('# ')` removes exactly the longest prefix of `#` and space characters |
| PyStr.FindSpec | Mind-Map/Mind-Map/graphics_items.py:383 | about `Find`: `find(' ')` is the index of the first space, or -1 when there is none |
| PyStr.OccurrencesSpec | Mind-Map/Mind-Map/graphics_items.py:383 | about `Occurrences`: `count('#')` is the number of positions holding `#`, which is the multiplicity of `#` in the line |
| PyStr.CountUpTo | Mind-Map/Mind-Map/graphics_items.py:383 | `count(c, 0, e)` counts `c` in the slice `[:e]`, with Python's slice rules: an end past the line counts the whole line, and a negative end counts from the back, so `e = -1` leaves out the last character |
| PyStr.LowerSpec | Mind-Map/Mind-Map/graphics_items.py:278 | `lower()` maps each capital A-Z to its small letter and keeps every other character, so the result has no capital |
| PyStr.LowerIdempotent | Mind-Map/Mind-Map/graphics_items.py:278 | lower-casing twice is lower-casing once |
| PyStr.Split | Mind-Map/Mind-Map/graphics_items.py:377 | `split('\n')` gives at least one piece, and no piece contains the separator |
| PyStr.JoinSplit | Mind-Map/Mind-Map/graphics_items.py:377 | joining the pieces of `split(sep)` with `sep` gives the text back |
| PyStr.Lower | Mind-Map/Mind-Map/graphics_items.py:278 | `lower()` keeps the length |
| HeadingParser.HeadingOf | Mind-Map/Mind-Map/graphics_items.py:391-399 | a line yields a heading exactly when it starts with `#` and its title is non-empty; the heading has level at least 0 and a non-empty title, and keeps the line's number |
| HeadingParser.LevelOfHashes | Mind-Map/Mind-Map/graphics_items.py:395-396 | about `LevelOf` and `TitleOf`: N hash marks and a space give level N-1, and the title is read from the rest |
| HeadingParser.LevelOfCreated | Mind-Map/Mind-Map/graphics_items.py:395-399 | a candidate line has level at least -1, and -1 only for a lone `#`, whose title is empty; so no node gets a negative level |
| HeadingParser.LevelWithoutSpace | Mind-Map/Mind-Map/graphics_items.py:383 | with no space, `find` gives -1, so the count stops before the last character: `##Title` is level 1, and `###` is level 1 with an empty title |
| HeadingParser.LevelCountsInnerHashes | Mind-Map/Mind-Map/graphics_items.py:383 | hash marks inside the first word count towards the level: `#a#b c` is level 1 |
| HeadingParser.LStripHashes | Mind-Map/Mind-Map/graphics_items.py:396 | about `TitleOf`: the title skips the leading hash marks and the space after them |
| HeadingParser.CurrentLines | Mind-Map/Mind-Map/graphics_items.py:377-391 | one stripped line per piece of `text.split('\n')` |
| HeadingParser.Untagged | TreeGraph_MindMap.py:453 | the monolithic lines carry no line numbers |
| HeadingParser.NonBlank | TreeGraph_MindMap.py:453 | the monolithic preparation keeps only non-blank lines |
| HeadingParser.StripAll | Mind-Map/Mind-Map/graphics_items.py:381 | every line is stripped before it is read |
| HeadingParser.Headings | Mind-Map/Mind-Map/graphics_items.py:390-399 | at most one heading per line; every heading has level at least 0 and a non-empty title |
| HeadingParser.Contribution | Mind-Map/Mind-Map/graphics_items.py:391-399 | a line contributes a heading exactly when `HeadingOf` gives one |
| HeadingParser.HeadingsFromLines | Mind-Map/Mind-Map/graphics_items.py:390-399 | every heading comes from some line of the input |
| HeadingParser.LevelCountsCardinality | Mind-Map/Mind-Map/graphics_items.py:380-384 | about `LevelCounts`: `level_counts[level]` is the number of `#` lines at that level, empty titles included |
| HeadingParser.HeadingsWithinCounts | Mind-Map/Mind-Map/graphics_items.py:380-401 | the second pass creates no more headings at a level than the first pass counted, and every created level is a key of `level_counts` |
| HeadingParser.CurrentLineNumbers | Mind-Map/Mind-Map/graphics_items.py:390-406 | each node's `line_number` indexes the line of `text.split('\n')` it was read from, line numbers increase in creation order, and the monolithic nodes have none |
| HeadingParser.IncreasingLineNumbers | Mind-Map/Mind-Map/graphics_items.py:390 | headings come out in line order, each naming its own line |
| HeadingParser.UntaggedHeadings | TreeGraph_MindMap.py:479 | monolithic nodes have no line number |
| HeadingParser.ShapeIgnoresLineNumbers | Mind-Map/Mind-Map/graphics_items.py:406 | line numbers do not change which headings are read, or their levels and titles |
| HeadingParser.StripBeforeSplit | TreeGraph_MindMap.py:453 | stripping the whole text before splitting changes no non-blank line |
| HeadingParser.BlankLinesIgnored | TreeGraph_MindMap.py:453 | dropping blank lines does not change the headings |
| HeadingParser.VariantsAgree | TreeGraph_MindMap.py:451-472 | the monolithic preparation yields the same headings, in the same order, and the same level counts as the current one |
| Geometry.InputPoint | Mind-Map/Mind-Map/graphics_items.py:172-173 | the input point is the middle of the node's left edge, on the node's rectangle |
| Geometry.OutputPoint | Mind-Map/Mind-Map/graphics_items.py:175-176 | the output point is the middle of the node's right edge, on the node's rectangle |
| Geometry.ConnectorPath | Mind-Map/Mind-Map/graphics_items.py:17-31 | the path runs from start to end; both control points sit at the midpoint x, the first level with the start and the second level with the end |
| Geometry.ControlPointsBetween | Mind-Map/Mind-Map/graphics_items.py:25-28 | the control column lies between the two ends, whichever way the connector runs |
| Geometry.ConnectorPathReversed | Mind-Map/Mind-Map/graphics_items.py:25-28 | swapping the ends keeps the control column and swaps the control rows |
| Geometry.RoundHalfEven | Mind-Map/Mind-Map/graphics_items.py:118 | `round` gives an integer within one half, and the even one on a tie |
| Geometry.RoundHalfEvenUnique | Mind-Map/Mind-Map/graphics_items.py:118 | those two properties determine `round` |
| Geometry.RoundInteger | Mind-Map/Mind-Map/graphics_items.py:118 | rounding leaves integers alone |
| Geometry.Snap | Mind-Map/Mind-Map/graphics_items.py:118-119 | `round(v / 20) * 20` is a whole multiple of the grid size |
| Geometry.SnapNearest | Mind-Map/Mind-Map/graphics_items.py:118-119 | a snapped coordinate is a grid multiple at most half a cell from the requested one |
| Geometry.SnapMultiple | Mind-Map/Mind-Map/graphics_items.py:118-119 | a grid multiple does not move when snapped |
| Geometry.SnapIdempotent | Mind-Map/Mind-Map/graphics_items.py:118-119 | snapping twice is snapping once |
| Geometry.Trunc | Mind-Map/Mind-Map/graphics_items.py:319 | `int()` truncates toward zero |
| Geometry.GridOrigin | Mind-Map/Mind-Map/graphics_items.py:319-320 | the first grid line is a multiple of the grid size, at most one cell before the truncated edge and not after it |
| Geometry.GridOriginGreatest | Mind-Map/Mind-Map/graphics_items.py:319-320 | it is the largest such multiple |
| Geometry.ButtonRect | Mind-Map/Mind-Map/graphics_items.py:47 | the collapse button is 20 by 20, flush with the right edge and centred vertically |
| Geometry.ButtonInsideNode | Mind-Map/Mind-Map/graphics_items.py:47 | a press in the button is a press inside the node's rectangle |
| Geometry.BoundingRect | Mind-Map/Mind-Map/graphics_items.py:50-51 | the item's bounding rectangle contains the node's rectangle |
| Wiring.PathBetween | Mind-Map/Mind-Map/graphics_items.py:17-30 | a connection's path leaves its start node at the middle of the right edge and arrives at the end node at the middle of the left edge |
| Wiring.EmptyWired | Mind-Map/Mind-Map/graphics_items.py:216-220 | the cleared scene satisfies the structural invariant |
| Wiring.Construct | Mind-Map/Mind-Map/graphics_items.py:156-170 | constructing a node appends a fresh record (not in the scene, visible, 50 high, no links) and changes nothing else |
| Wiring.ConstructWired | Mind-Map/Mind-Map/graphics_items.py:156-170 | constructing a node keeps the structural invariant |
| Wiring.ConstructConsistent | Mind-Map/Mind-Map/graphics_items.py:156-170 | constructing a node keeps the visibility invariant |
| Wiring.NodeHeight | Mind-Map/Mind-Map/graphics_items.py:238-242 | the height is at least 50 and at least the text height plus 20, and equals one of them |
| Wiring.Attach | Mind-Map/Mind-Map/graphics_items.py:234-268 | `add_node` appends the node to `scene.nodes` |
| Wiring.AttachEffect | Mind-Map/Mind-Map/graphics_items.py:241-268 | the node gets its height and its item. With a parent, the node goes last in the parent's children, and one new connection goes last in the parent's outgoing list. That connection is the node's incoming one, drawn between the two. Every other node is unchanged |
| Wiring.AttachInScene | Mind-Map/Mind-Map/graphics_items.py:246-258 | a node already in the scene stays in it |
| Wiring.AttachWired | Mind-Map/Mind-Map/graphics_items.py:234-268 | `add_node` keeps the structural invariant (tree, links, list and paths) |
| Wiring.AttachTree | Mind-Map/Mind-Map/graphics_items.py:260-262 | the parent and children links stay a tree |
| Wiring.AttachLinked | Mind-Map/Mind-Map/graphics_items.py:263-266 | every child has exactly one incoming connection, shared with its parent's outgoing list |
| Wiring.AttachListed | Mind-Map/Mind-Map/graphics_items.py:268 | `scene.nodes` lists each added node exactly once |
| Wiring.AttachPaths | Mind-Map/Mind-Map/graphics_items.py:263 | every connection is drawn between its ends' current points |
| Wiring.AttachConsistent | Mind-Map/Mind-Map/graphics_items.py:234-268 | adding under an open, visible parent keeps every node visible exactly when no ancestor is collapsed |
| Wiring.Move | Mind-Map/Mind-Map/graphics_items.py:135-141 | moving a node keeps the arena size, the node list and the connection count |
| Wiring.MoveRecords | Mind-Map/Mind-Map/graphics_items.py:135-136 | only the moved node's `x`/`y` change, and every connection keeps its ends |
| Wiring.MoveWired | Mind-Map/Mind-Map/graphics_items.py:135-141 | after the move every path is current again, the node stands at the new position, and connections not touching the node are untouched |
| Wiring.MoveTouches | Mind-Map/Mind-Map/graphics_items.py:138-141 | the incoming and outgoing connections are exactly those with an end at the node |
| Wiring.Redraw | Mind-Map/Mind-Map/graphics_items.py:139 | `update_path` changes only the path of that one connection |
| Wiring.RedrawList | Mind-Map/Mind-Map/graphics_items.py:138-141 | recomputing a list of paths keeps every connection's ends |
| Wiring.RedrawTouching | Mind-Map/Mind-Map/graphics_items.py:138-141 | recomputing the incoming and then the outgoing paths gives exactly the connections of the moved scene |
| Moving.SnapPoint | Mind-Map/Mind-Map/graphics_items.py:117-119 | both coordinates of the snapped point are grid multiples |
| Moving.Accepted | Mind-Map/Mind-Map/graphics_items.py:113-145 | `itemChange` accepts either the requested position or, only when snapping is on, its snapped point |
| Moving.AcceptedUnsnapped | Mind-Map/Mind-Map/graphics_items.py:113-145 | with snapping off the node goes where it is dragged |
| Moving.AcceptedSnapped | Mind-Map/Mind-Map/graphics_items.py:116-133 | with snapping on, the node lands on the nearest grid point, within half a cell of the requested position, unless another visible node item overlaps the rectangle there; if one does, it lands exactly where it was dragged |
| Moving.AcceptedOnGrid | Mind-Map/Mind-Map/graphics_items.py:116-133 | a node dropped on a free grid point stays there |
| Collapse.AfterHide | Mind-Map/Mind-Map/graphics_items.py:178-190 | `toggle_children` changes only `visible` flags, never `collapsed` |
| Collapse.Flip | Mind-Map/Mind-Map/graphics_items.py:84 | flipping changes only that node's `collapsed` |
| Collapse.AfterToggle | Mind-Map/Mind-Map/graphics_items.py:81-86 | toggling changes no link and no other node's `collapsed` |
| Collapse.ToggleOpensAt | Mind-Map/Mind-Map/graphics_items.py:178-190 | after a collapsed node is toggled open, a descendant is visible exactly when no node strictly between them is collapsed; outside its subtree every other node is unchanged, so one that kept the visibility invariant still does |
| Collapse.ToggleConsistent | Mind-Map/Mind-Map/graphics_items.py:81-86 | toggling a node with no collapsed ancestor keeps every node visible exactly when no ancestor is collapsed |
| Collapse.ToggleTwice | Mind-Map/Mind-Map/graphics_items.py:81-86 | toggling twice restores the whole arena, `visible` flags included |
| Collapse.ToggleTwiceUnderCollapsed | Mind-Map/Mind-Map/graphics_items.py:178-190 | under a collapsed ancestor, toggling an open node twice makes its hidden child visible |
| Collapse.ToggleOrphans | Mind-Map/Mind-Map/graphics_items.py:178-190 | nodes that were never added stay open and visible |
| Collapse.AfterEnsure | Mind-Map/Mind-Map/graphics_items.py:286-290 | `_ensure_parents_visible` changes no link |
| Collapse.EnsureOk | Mind-Map/Mind-Map/graphics_items.py:286-290 | it finishes without an exception exactly when every proper ancestor has a rectangle item |
| Collapse.EnsureCollapsed | Mind-Map/Mind-Map/graphics_items.py:286-290 | it clears `collapsed` on the node's proper ancestors, and changes no other `collapsed` flag |
| Collapse.EnsureConsistent | Mind-Map/Mind-Map/graphics_items.py:286-290 | it keeps the visibility invariant |
| Collapse.EnsureOrphans | Mind-Map/Mind-Map/graphics_items.py:286-290 | it keeps the tree, and keeps never-added nodes open |
| Collapse.EnsureNoop | Mind-Map/Mind-Map/graphics_items.py:286-290 | with no collapsed proper ancestor it changes nothing |
| Search.Mark | Mind-Map/Mind-Map/graphics_items.py:279-284 | `setSelected(on)` and `setZValue` change only that node: its z becomes 1 or 0, and it ends up selected exactly when `on` holds and it is visible, since Qt refuses to select a hidden item |
| Search.SearchStep | Mind-Map/Mind-Map/graphics_items.py:278-284 | one step of the search loop changes no link |
| Search.SearchLoop | Mind-Map/Mind-Map/graphics_items.py:277-284 | the search loop changes no link |
| Search.Deselect | Mind-Map/Mind-Map/graphics_items.py:271-275 | the empty-query loop keeps the arena size |
| Search.DeselectSpec | Mind-Map/Mind-Map/graphics_items.py:271-275 | an empty query deselects every scene node and sets its z to 0, and touches nothing else (so `collapsed` is untouched) |
| Search.StepSelects | Mind-Map/Mind-Map/graphics_items.py:278-284 | one step gives the node z 1 exactly when the lower-cased query is a substring of its lower-cased text, and leaves it selected exactly when it matches and is visible at that point; no other node's selection or z changes |
| Search.StepCollapsed | Mind-Map/Mind-Map/graphics_items.py:278-281 | one step clears `collapsed` exactly on the proper ancestors of a match |
| Search.SearchLoopOk | Mind-Map/Mind-Map/graphics_items.py:277-290 | the loop runs to the end exactly when every match's ancestors all have rectangle items |
| Search.SearchStepOk | Mind-Map/Mind-Map/graphics_items.py:278-290 | one step runs without an exception exactly when the node does not match or all its proper ancestors have rectangle items |
| Search.SearchLoopSelects | Mind-Map/Mind-Map/graphics_items.py:277-284 | after a full loop, each listed node has z 1 exactly when it matches, and is selected exactly when it matches and was visible when the loop last reached it |
| Search.VisibleAtVisitSpec | Mind-Map/Mind-Map/graphics_items.py:277-290 | in a consistent tree a node is visible when the loop reaches it exactly when each of its proper ancestors is open, or was opened by an earlier match |
| Search.HiddenMatchUnselected | Mind-Map/Mind-Map/graphics_items.py:277-290 | a match found under a collapsed root is opened up but stays deselected, because it was hidden when `setSelected(True)` ran: the search ends with root 0 uncollapsed and node 1 visible with z 1 but unselected |
| Search.MatchesIgnoresCase | Mind-Map/Mind-Map/graphics_items.py:278 | about `Matches`: the match ignores case: lower-casing the query or the text does not change it, nor does any query with the same lower-case form |
| Search.SearchLoopKeeps | Mind-Map/Mind-Map/graphics_items.py:277-284 | nodes outside the list keep their selection and z |
| Search.SearchLoopCollapsed | Mind-Map/Mind-Map/graphics_items.py:277-290 | no `collapsed` flag is ever set; after a full loop, exactly the proper ancestors of matches are uncollapsed |
| Search.SearchLoopKeepsInvariant | Mind-Map/Mind-Map/graphics_items.py:277-290 | the search keeps the tree and keeps never-added nodes open; it keeps the visibility invariant when that held before the search |
| Search.SearchTwice | Mind-Map/Mind-Map/graphics_items.py:277-290 | after a search that ran to the end, a second search for the same text also runs to the end, changes only selection and z, selects exactly the matches that the first search left visible, and a third search changes nothing |
| Search.OpenedLoop | Mind-Map/Mind-Map/graphics_items.py:277-290 | when every match's ancestors are already open, the search raises no exception and changes only selection and z: each listed node gets z 1 exactly when it matches and is selected exactly when it matches and is visible |
| Search.FirstSearchOpens | Mind-Map/Mind-Map/graphics_items.py:277-290 | after a search that ran to the end, every match's ancestors are open |
| Search.SecondSearchSelects | Mind-Map/Mind-Map/graphics_items.py:277-290 | in a consistent tree, searching twice for the same text selects exactly the nodes that match |
| Layout.ColorOf | Mind-Map/Mind-Map/graphics_items.py:405-406 | the colour is taken from the five-colour palette by level modulo 5 |
| Layout.PositionCentred | Mind-Map/Mind-Map/graphics_items.py:365-369 | about `Position`: a column's slots share x = level·300, are 100 apart, and the i-th slot and the i-th from the end mirror each other about y = 0 |
| Layout.PositionWithinColumn | Mind-Map/Mind-Map/graphics_items.py:365-369 | about `Position`: for 0 <= i < c, the slot lies within ±(c-1)/2·100 |
| Layout.Place | Mind-Map/Mind-Map/graphics_items.py:401-415 | each heading constructs exactly one node, and `current_levels` keeps pointing at constructed nodes |
| Layout.PlaceAll | Mind-Map/Mind-Map/graphics_items.py:390-415 | the pass constructs one node per heading |
| Layout.PlaceEffect | Mind-Map/Mind-Map/graphics_items.py:401-415 | about `PlaceScene`: a heading's node is built at its slot with its title, colour and line number. A level-0 node is added as a root. A level-L node is added under `current_levels[L-1]` when that key exists, and is not added otherwise. Only the parent changes besides |
| Layout.LastAt | Mind-Map/Mind-Map/graphics_items.py:415 | the last heading seen at a level, or none |
| Layout.PlaceAllCurrent | Mind-Map/Mind-Map/graphics_items.py:386-415 | `current_levels` has a key for a level exactly when a heading of that level has been read, orphans included |
| Layout.PlaceAllMaps | Mind-Map/Mind-Map/graphics_items.py:401-415 | `level_indices[l]` is one less than the number of headings at level l, and `current_levels[l]` is the last node at level l |
| Layout.PlaceAllRecords | Mind-Map/Mind-Map/graphics_items.py:401-415 | each node has its heading's title, line number and colour, and its slot from its creation index at its level. It has a parent exactly when it was added under one, the last node one level up. Its height is measured when it is added |
| Layout.PlaceAllNodes | Mind-Map/Mind-Map/graphics_items.py:408-413 | `scene.nodes` is the added headings, in document order |
| Layout.IndexBelowCount | Mind-Map/Mind-Map/graphics_items.py:401-403 | a node's index at its level is below `level_counts` for that level |
| Layout.PlacedInColumn | Mind-Map/Mind-Map/graphics_items.py:365-406 | every node stands at x = level·300 and within its column's vertical span |
| Layout.PlaceAllWired | Mind-Map/Mind-Map/graphics_items.py:390-415 | parsing keeps the structural invariant and the visibility invariant |
| Scene.PickSpec | Mind-Map/Mind-Map/graphics_items.py:226-230 | a press deselects the previous selection, selects the hit node, and changes nothing else |
| Scene.PickSole | Mind-Map/Mind-Map/graphics_items.py:226-230 | the hit node becomes the only selected node |
| Scene.PickWired | Mind-Map/Mind-Map/graphics_items.py:226-230 | selection keeps the structural invariant |
| Scene.MindMapScene.constructor | Mind-Map/Mind-Map/graphics_items.py:196-204 | a new scene is empty, with no selection, no counts, grid 20 and snapping off |
| Scene.MindMapScene.SetSnapToGrid | Mind-Map/Mind-Map/graphics_items.py:206-207 | sets the flag and nothing else |
| Scene.MindMapScene.ClearNodes | Mind-Map/Mind-Map/graphics_items.py:216-221 | leaves no nodes, no connections, empty `level_counts` and no selection, and emits `None` |
| Scene.MindMapScene.CreateNode | Mind-Map/Mind-Map/graphics_items.py:156-170 | constructs one node record |
| Scene.MindMapScene.AddNode | Mind-Map/Mind-Map/graphics_items.py:234-268 | the new state is `Attach` of the old one, and the invariant holds |
| Scene.MindMapScene.MousePress | Mind-Map/Mind-Map/graphics_items.py:223-232 | a press on a node item makes it the selected node, deselects the previous one and emits; any other press changes nothing |
| Scene.MindMapScene.FindNode | Mind-Map/Mind-Map/graphics_items.py:228 | the hit item's node is found only when it is in `scene.nodes` |
| Scene.MindMapScene.ToggleChildren | Mind-Map/Mind-Map/graphics_items.py:178-190 | the recursive assignment computes `AfterHide` |
| Scene.MindMapScene.ToggleCollapse | Mind-Map/Mind-Map/graphics_items.py:81-86 | the arena becomes `AfterToggle` of the old one; the visibility invariant survives when no ancestor was collapsed |
| Scene.MindMapScene.ItemMousePress | Mind-Map/Mind-Map/graphics_items.py:88-93 | the press is accepted, and toggles, exactly when the node has children and the point lies in the collapse button |
| Scene.MindMapScene.EnsureParentsVisible | Mind-Map/Mind-Map/graphics_items.py:286-290 | computes `AfterEnsure`: the new arena and whether it ran without an exception |
| Scene.MindMapScene.DeselectAll | Mind-Map/Mind-Map/graphics_items.py:271-275 | computes `Deselect` over `scene.nodes` |
| Scene.MindMapScene.SearchVisit | Mind-Map/Mind-Map/graphics_items.py:278-284 | one iteration of the search loop computes `SearchStep`: ancestors opened, z set, and selection set only when the node is visible |
| Scene.MindMapScene.SearchNodes | Mind-Map/Mind-Map/graphics_items.py:270-284 | the loop computes the model search over `scene.nodes`, stopping where `_ensure_parents_visible` raises; so a match that is hidden when it is reached stays deselected |
| Scene.MindMapScene.ItemChange | Mind-Map/Mind-Map/graphics_items.py:111-145 | returns the accepted position, and the scene becomes the scene with the node moved there and its paths recomputed |
| Scene.MindMapScene.RedrawConnections | Mind-Map/Mind-Map/graphics_items.py:138-141 | recomputes the incoming path and then each outgoing path |
| Scene.FindCollision | Mind-Map/Mind-Map/graphics_items.py:122-130 | the scan reports a collision exactly when some scene node item other than the dragged one is visible and meets the rectangle at the snapped position |
| Scene.RedrawAll | Mind-Map/Mind-Map/graphics_items.py:138-141 | the connection list after the redrawing loop is the one with the incoming path and then each outgoing path recomputed |
| Scene.DeselectNodes | Mind-Map/Mind-Map/graphics_items.py:271-275 | the empty-query loop over the listed nodes computes `Deselect` |
| Scene.ToggleWired | Mind-Map/Mind-Map/graphics_items.py:81-86 | toggling keeps the structural invariant and which nodes are in the scene, and keeps the visibility invariant when no ancestor is collapsed |
| Scene.DeselectWired | Mind-Map/Mind-Map/graphics_items.py:271-275 | deselecting keeps the structural invariant and which nodes are in the scene |
| View.Range | Mind-Map/Mind-Map/graphics_items.py:326 | `range(start, stop, step)` lists start, start+step, …, all below stop |
| View.RangeOnly | Mind-Map/Mind-Map/graphics_items.py:326 | every member lies in [start, stop) on the step |
| View.RangeHas | Mind-Map/Mind-Map/graphics_items.py:326 | every such value is a member |
| View.DragTelescopes | Mind-Map/Mind-Map/graphics_items.py:340-345 | over a whole drag, the scroll moves by exactly the pointer's total displacement |
| View.MindMapView.constructor | Mind-Map/Mind-Map/graphics_items.py:294-306 | a new view holds a new empty scene and is not panning |
| View.MindMapView.SetSnapToGrid | Mind-Map/Mind-Map/graphics_items.py:308-309 | forwards the flag to the scene |
| View.MindMapView.CountLevels | Mind-Map/Mind-Map/graphics_items.py:376-384 | the first pass leaves `level_counts` equal to the per-level count of `#` lines |
| View.MindMapView.AddHeading | Mind-Map/Mind-Map/graphics_items.py:401-415 | one iteration of the second pass does exactly what `Place` describes |
| View.MindMapView.ParseLines | Mind-Map/Mind-Map/graphics_items.py:375-415 | both passes leave the counts and the scene given by `PlaceAll` over the headings |
| View.MindMapView.SecondPass | Mind-Map/Mind-Map/graphics_items.py:386-415 | the second pass over all lines leaves the scene given by `PlaceAll` over the headings, and keeps the counts |
| View.MindMapView.ParseLine | Mind-Map/Mind-Map/graphics_items.py:391-415 | a line that is not a `#` line with a title leaves everything unchanged; a heading line does what `Place` describes |
| View.MindMapView.ParseAndRender | Mind-Map/Mind-Map/graphics_items.py:371-373 | clears, then parses the current variant's lines; nothing is selected, and visibility is consistent |
| View.MindMapView.ParseAndRenderMonolithic | TreeGraph_MindMap.py:447-488 | the same for the monolithic line preparation |
| View.MindMapView.MousePress | Mind-Map/Mind-Map/graphics_items.py:331-338 | a middle-button press starts panning at the pointer and is accepted; any other press is passed on unchanged |
| View.MindMapView.MouseMove | Mind-Map/Mind-Map/graphics_items.py:340-348 | while panning, the scroll moves against the pointer, so the scene point under the pointer stays put; otherwise nothing changes |
| View.MindMapView.MouseRelease | Mind-Map/Mind-Map/graphics_items.py:350-356 | a middle-button release ends panning and is accepted |
| View.MindMapView.GridLines | Mind-Map/Mind-Map/graphics_items.py:315-329 | the columns and rows drawn are the `range`s from the grid origins to the truncated right and bottom edges |
| View.MindMapView.Lines | Mind-Map/Mind-Map/graphics_items.py:326-329 | the drawing loop visits exactly `range(start, stop, step)` |
| View.GridLinesCover | Mind-Map/Mind-Map/graphics_items.py:319-329 | every line drawn is a grid multiple, less than one cell before the rectangle and before its truncated far edge; every grid multiple inside is drawn |
| Breadcrumb.Chain | TreeGraph_MindMap.py:876-877 | the climb from a node ends with the node itself and visits only earlier nodes |
| Breadcrumb.ChainSpec | TreeGraph_MindMap.py:876-877 | the chain runs from a root to the node, each entry the parent of the next, and holds exactly the node and its proper ancestors |
| Breadcrumb.BreadcrumbRoot | TreeGraph_MindMap.py:874-878 | about `BreadcrumbText`: a root's breadcrumb is its own title |
| Breadcrumb.BreadcrumbChild | TreeGraph_MindMap.py:874-878 | about `BreadcrumbText`: a child's breadcrumb is its parent's, then ` > `, then its own title |
| Breadcrumb.JoinSnoc | TreeGraph_MindMap.py:878 | joining one more title appends the separator and that title |
| Breadcrumb.Crumbs | TreeGraph_MindMap.py:874-880 | the loop builds the root-to-node titles joined by ` > `, or "No node selected" for no node |
| Breadcrumb.FirstMatch | TreeGraph_MindMap.py:883-885 | the index of a line reading as the title with none before it, or none when no line reads so |
| Breadcrumb.FirstMatchBelow | TreeGraph_MindMap.py:883-885 | any line reading as the title bounds the line found |
| Breadcrumb.FirstMatchUnique | TreeGraph_MindMap.py:883-891 | the first-match properties determine the answer |
| Breadcrumb.CursorLine | TreeGraph_MindMap.py:883-891 | the loop finds the first line whose `lstrip('# ').strip()` equals the title, stopping at it |
| Breadcrumb.SpaceIndentedFound | TreeGraph_MindMap.py:885 | spaces before a heading do not hide it from the lookup |
| Breadcrumb.TabIndentedMissed | TreeGraph_MindMap.py:885 | the line `\t# A` yields a node titled `A`, but that line does not read as `A` |
| Breadcrumb.LineStartSpec | TreeGraph_MindMap.py:886-889 | line i sits at `LineStart` in the joined text |
| Breadcrumb.Offset | TreeGraph_MindMap.py:887-888 | moving down i lines from the start reaches `LineStart` |
| Breadcrumb.CursorSelectsLine | TreeGraph_MindMap.py:883-890 | the selection made covers exactly the matched line of the editor text |
| Breadcrumb.EditorPanel.constructor | TreeGraph_MindMap.py:544 | the label starts as "No node selected" |
| Breadcrumb.EditorPanel.HandleNodeSelection | TreeGraph_MindMap.py:874-891 | the label shows the breadcrumb. With a node, the cursor selects the first matching line. With no node or no matching line, the cursor stays where it was. The text is unchanged |

## Left out

- Painting, hover, the colour dialog, themes (`set_theme`), zoom (`wheelEvent`, factors
  1.1 and 0.9) and `fitInView` are rendering concerns and are not modelled.
- The text item of a node, its font and its centring inside the rectangle are not
  modelled. The measured text height is a parameter (`textHeight`) of the parsing and
  of `AddNode`, because it comes from Qt's font metrics.
- The result of `itemAt` is a parameter of `Scene.MindMapScene.MousePress` and `scene.items(check_rect)` is the predicate `Moving.Blocks` (a visible node item other than the moved one whose bounding rectangle overlaps), because both are Qt spatial queries.
- Qt's default handling after `super().mousePressEvent` (its own item selection and drag start) is not modelled; neither is Qt's refusal to deliver presses to hidden items.
- Scene.MindMapScene.AddNode: requires a node that was constructed but not yet added, and a parent created before it. The only caller, the parse, always meets this; other call orders are not modelled.
- View.MindMapView.MouseMove: the scroll values are plain integers, and the clamping of the scroll bars to their range is not modelled.
- Collapse.ToggleTwice: stated for a consistent arena and a node with no collapsed ancestor. Under a collapsed ancestor a double toggle is not the identity (see above).
- Scene.MindMapScene.ToggleCollapse: the visibility invariant is promised only when no ancestor of the node is collapsed, for the same reason.
- Breadcrumb.EditorPanel.HandleNodeSelection: the cursor is moved down by text lines. Qt's `Down` moves by visual lines, so with line wrapping the real selection can land elsewhere. Wrapping is not modelled.
- Signals (`nodeSelected`) are modelled as out-parameters, and the view's cursor shape is not modelled.
- The AI worker (`ollama.chat` in a thread), file dialogs, open/save, PNG export, the title bar, the main window and the stylesheets are I/O and user-interface code outside this model.
- `Mind-Map/Mind-Map/ui_components.py:500-511` builds the same label text, sets it only while the AI loading indicator is hidden, stores it in `original_breadcrumb_text` and does not move the cursor; it is not modelled.
- Python's `lower()` is modelled on ASCII letters only; other characters are left as they are.
- Geometry.Snap, Geometry.RoundHalfEven, Geometry.InputPoint, Geometry.OutputPoint, Geometry.ConnectorPath: coordinates are exact reals, not IEEE doubles. So `round(v / 20)` sees the exact quotient, where Python sees a rounded float quotient; the two can disagree on which side of a tie `v / 20` falls. The half height `h / 2` and the control point `x + (x' - x) * 0.5` are also exact in the model, while in Python they are rounded to the nearest double.
- Collapse.AfterHide: Qt deselects an item when it hides it. `toggle_children` can therefore deselect a hidden descendant, and the model keeps its `selected` flag (and the scene's `selectedNode`) as they were. This matters only for a node that was selected and is then hidden by a collapse.

