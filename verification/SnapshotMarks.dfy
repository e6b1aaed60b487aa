/**
 When a snapshot shows the whole rendering, and what its mark `truncated` says about that.
 */
module SnapshotMarks {
  import opened Wrappers
  import opened Snapshot
  import opened SnapshotLimits
  import opened Text

  /** The entries that are not too deep. */
  function Shallow(entries: seq<Visit>): (shallow: seq<Visit>)
    requires forall e :: e in entries ==> e.Entry?
    ensures forall e :: e in shallow ==> e.Entry? && e.depth <= MAX_DEPTH
  {
    if entries == [] then []
    else if entries[0].depth <= MAX_DEPTH then [entries[0]] + Shallow(entries[1..])
    else Shallow(entries[1..])
  }

  lemma {:induction false} ShallowConcat(a: seq<Visit>, b: seq<Visit>)
    requires (forall e :: e in a ==> e.Entry?) && (forall e :: e in b ==> e.Entry?)
    ensures Shallow(a + b) == Shallow(a) + Shallow(b)
  {
    if a == [] {
      assert a + b == b;
    } else {
      assert (a + b)[0] == a[0] && (a + b)[1..] == a[1..] + b;
      ShallowConcat(a[1..], b);
    }
  }

  /** Nothing is left out exactly when no entry is too deep. */
  lemma {:induction false} ShallowLength(entries: seq<Visit>)
    requires forall e :: e in entries ==> e.Entry?
    ensures |Shallow(entries)| <= |entries|
    ensures |Shallow(entries)| == |entries| <==> forall e :: e in entries ==> e.depth <= MAX_DEPTH
    ensures |Shallow(entries)| == |entries| ==> Shallow(entries) == entries
  {
    if entries != [] {
      ShallowLength(entries[1..]);
      assert entries == [entries[0]] + entries[1..];
    }
  }

  lemma ShallowOfFirst(e: Visit, rest: seq<Visit>)
    requires e.Entry? && forall f :: f in rest ==> f.Entry?
    ensures Shallow([e] + rest) == if e.depth <= MAX_DEPTH then [e] + Shallow(rest) else Shallow(rest)
  {
    assert ([e] + rest)[1..] == rest;
  }

  /** Below the depth limit everything is too deep. */
  lemma {:induction false} DeepRendering(node: Node, depth: nat, path: Path)
    requires depth > MAX_DEPTH
    ensures Shallow(Entries(Rendering(node, depth, path))) == []
    decreases node, 1
  {
    hide ShouldElide, IsLeafLine, Entries, Shallow;
    if ShouldElide(node) {
      EntriesOfFirst(Elided, RenderingOfAll(node.children, depth, path));
      DeepRenderingOfAll(node.children, depth, path);
    } else {
      var first := Entry(node, depth, path);
      var rest := if IsLeafLine(node) then [] else RenderingOfAll(node.children, depth + 1, path);
      EntriesOfFirst(first, rest);
      ShallowOfFirst(first, Entries(rest));
      NothingIsShallow();
      DeepRenderingOfAll(node.children, depth + 1, path);
    }
  }

  lemma {:induction false} DeepRenderingOfAll(children: seq<Node>, depth: nat, path: Path)
    requires depth > MAX_DEPTH
    ensures Shallow(Entries(RenderingOfAll(children, depth, path))) == []
    decreases children, 0
  {
    if children != [] {
      var first, rest := Rendering(children[0], depth, path + [children[0].slot]),
          RenderingOfAll(children[1..], depth, path);
      DeepRendering(children[0], depth, path + [children[0].slot]);
      DeepRenderingOfAll(children[1..], depth, path);
      EntriesOfConcat(first, rest);
      ShallowConcat(Entries(first), Entries(rest));
    }
  }

  /** The walk's entries are those of the whole rendering that are not too deep. */
  lemma {:induction false} VisitsAreShallow(node: Node, depth: nat, path: Path)
    ensures Entries(Visits(node, depth, path)) == Shallow(Entries(Rendering(node, depth, path)))
    decreases node, 1
  {
    hide ShouldElide, IsLeafLine, Entries, Shallow, VisitsOfAll, RenderingOfAll;
    if depth > MAX_DEPTH {
      DeepRendering(node, depth, path);
      OnlyTooDeep();
    } else if ShouldElide(node) {
      EntriesOfFirst(Elided, RenderingOfAll(node.children, depth, path));
      EntriesOfFirst(Elided, VisitsOfAll(node.children, depth, path));
      VisitsOfAllAreShallow(node.children, depth, path);
    } else {
      var first := Entry(node, depth, path);
      var visits := if IsLeafLine(node) then [] else VisitsOfAll(node.children, depth + 1, path);
      var rendering := if IsLeafLine(node) then [] else RenderingOfAll(node.children, depth + 1, path);
      EntriesOfFirst(first, visits);
      EntriesOfFirst(first, rendering);
      ShallowOfFirst(first, Entries(rendering));
      VisitsOfAllAreShallow(node.children, depth + 1, path);
      NothingIsShallow();
    }
  }

  lemma OnlyTooDeep()
    ensures Entries([TooDeep]) == []
  {
  }

  lemma NothingIsShallow()
    ensures Shallow([]) == [] && Entries([]) == []
  {
  }

  lemma {:induction false} VisitsOfAllAreShallow(children: seq<Node>, depth: nat, path: Path)
    ensures Entries(VisitsOfAll(children, depth, path)) == Shallow(Entries(RenderingOfAll(children, depth, path)))
    decreases children, 0
  {
    hide Entries, Shallow;
    NothingIsShallow();
    if children != [] {
      var child, below := children[0], path + [children[0].slot];
      VisitsAreShallow(child, depth, below);
      VisitsOfAllAreShallow(children[1..], depth, path);
      EntriesOfConcat(Visits(child, depth, below), VisitsOfAll(children[1..], depth, path));
      EntriesOfConcat(Rendering(child, depth, below), RenderingOfAll(children[1..], depth, path));
      ShallowConcat(Entries(Rendering(child, depth, below)), Entries(RenderingOfAll(children[1..], depth, path)));
    }
  }

  /** All entries of the whole rendering, whatever its size and depth. */
  function WholeRendering(root: Node, rootPath: Path): (entries: seq<Visit>)
    ensures forall e :: e in entries ==> e.Entry?
  {
    Entries(Rendering(root, 0, rootPath))
  }

  predicate ShowsAll(t: State, root: Node, rootPath: Path) {
    |t.records| == |WholeRendering(root, rootPath)| && IsPrefixOf(t, WholeRendering(root, rootPath))
  }

  /** The snapshot shows everything exactly when the rendering has at most 1200 entries and none is deeper than 64. */
  lemma ShowsAllIff(root: Node, rootPath: Path)
    ensures var all := WholeRendering(root, rootPath);
            ShowsAll(Rendered(root, rootPath, false), root, rootPath) <==>
            |all| <= MAX_NODES && forall e :: e in all ==> e.depth <= MAX_DEPTH
    ensures ShowsAll(Rendered(root, rootPath, false), root, rootPath) ==>
            Entries(Visits(root, 0, rootPath)) == WholeRendering(root, rootPath)
  {
    BoundedWalk(root, rootPath);
    VisitsAreShallow(root, 0, rootPath);
    ShallowLength(WholeRendering(root, rootPath));
  }

  /**
   The mark `truncated` is set exactly when something is not shown, or when the walk, having shown
   everything, still looks at a node it cannot show: a wrapper below depth 64, or a wrapper after
   the 1200th node.
   */
  lemma TruncatedIff(root: Node, rootPath: Path)
    ensures var t, vs := Rendered(root, rootPath, false), Visits(root, 0, rootPath);
            t.truncated <==>
            || !ShowsAll(t, root, rootPath)
            || TooDeep in vs
            || (|WholeRendering(root, rootPath)| == MAX_NODES && !vs[|vs| - 1].Entry?)
  {
    var t, vs := Rendered(root, rootPath, false), Visits(root, 0, rootPath);
    BoundedWalk(root, rootPath);
    ShowsAllIff(root, rootPath);
    if !t.truncated { NotTruncatedIsComplete(root, rootPath); }
    hide Visits, Rendered, Rendering, IsPrefixOf;
    if TooDeep in vs {
      var i :| 0 <= i < |vs| && vs[i] == TooDeep;
      assert LimitHit(vs, i);
    } else if ShowsAll(t, root, rootPath) {
      LimitHitIff(vs);
    }
  }

  /** With no visit too deep and at most 1200 entries, a limit is hit exactly by a wrapper after the 1200th. */
  lemma LimitHitIff(vs: seq<Visit>)
    requires vs != [] && TooDeep !in vs && |Entries(vs)| <= MAX_NODES
    ensures (exists i :: 0 <= i < |vs| && LimitHit(vs, i)) <==> |Entries(vs)| == MAX_NODES && !vs[|vs| - 1].Entry?
  {
    hide Entries;
    var last := |vs| - 1;
    LastEntry(vs);
    if |Entries(vs)| == MAX_NODES && !vs[last].Entry? { assert LimitHit(vs, last); }
    forall i: nat | i < |vs| && LimitHit(vs, i) ensures |Entries(vs)| == MAX_NODES && !vs[last].Entry? {
      EntriesOfConcat(vs[..i], vs[i..last]);
      assert vs[..last] == vs[..i] + vs[i..last];
    }
  }

  lemma OneEntry(v: Visit)
    ensures |Entries([v])| == if v.Entry? then 1 else 0
  {
    EntriesOfFirst(v, []);
    assert [v] + [] == [v];
  }

  lemma LastEntry(vs: seq<Visit>)
    requires vs != []
    ensures |Entries(vs)| == |Entries(vs[..|vs| - 1])| + if vs[|vs| - 1].Entry? then 1 else 0
  {
    hide Entries;
    var init, last := vs[..|vs| - 1], vs[|vs| - 1];
    assert vs == init + [last];
    EntriesOfConcat(init, [last]);
    OneEntry(last);
  }

  // ---- Two snapshots that show everything and are marked

  function Element(slot: nat, role: string, children: seq<Node>): Node {
    Node(slot, role, "", "", "", false, [], None, "", children)
  }

  /** An empty panel below `n` frames. */
  function Nest(n: nat): Node {
    if n == 0 then Element(0, "panel", []) else Element(0, "frame", [Nest(n - 1)])
  }

  lemma PanelIsElided(slot: nat)
    ensures ShouldElide(Element(slot, "panel", []))
  {
    assert Lower("panel")[1..] == Lower("anel") && Lower("anel")[1..] == Lower("nel") &&
           Lower("nel")[1..] == Lower("el");
    assert Lower("panel") == "panel";
  }

  /** A frame or label without text is shown, and its children after it. */
  lemma OthersAreShown(slot: nat, role: string, children: seq<Node>)
    requires |role| == 5 && (role[0] == 'f' || role[0] == 'l')
    ensures !ShouldElide(Element(slot, role, children)) && !IsLeafLine(Element(slot, role, children))
  {
    LowerIs(role);
    assert TrimEnd(TrimStart("")) == "";
  }

  /** What a shown node and a first child add to the visits and to the rendering. */
  lemma ShownFirst(node: Node, depth: nat, path: Path)
    requires !ShouldElide(node) && !IsLeafLine(node)
    ensures Rendering(node, depth, path) == [Entry(node, depth, path)] + RenderingOfAll(node.children, depth + 1, path)
    ensures depth <= MAX_DEPTH ==>
              Visits(node, depth, path) == [Entry(node, depth, path)] + VisitsOfAll(node.children, depth + 1, path)
  {
  }

  lemma FirstChild(child: Node, rest: seq<Node>, depth: nat, path: Path)
    ensures VisitsOfAll([child] + rest, depth, path) ==
            Visits(child, depth, path + [child.slot]) + VisitsOfAll(rest, depth, path)
    ensures RenderingOfAll([child] + rest, depth, path) ==
            Rendering(child, depth, path + [child.slot]) + RenderingOfAll(rest, depth, path)
  {
    assert ([child] + rest)[1..] == rest;
  }

  lemma NoChildren(depth: nat, path: Path)
    ensures VisitsOfAll([], depth, path) == [] && RenderingOfAll([], depth, path) == []
  {
  }

  lemma OnlyChild(child: Node, depth: nat, path: Path)
    ensures VisitsOfAll([child], depth, path) == Visits(child, depth, path + [child.slot])
    ensures RenderingOfAll([child], depth, path) == Rendering(child, depth, path + [child.slot])
  {
    hide Rendering, Visits, RenderingOfAll, VisitsOfAll;
    assert [child] + [] == [child];
    FirstChild(child, [], depth, path);
    NoChildren(depth, path);
  }

  lemma {:induction false} NestRenders(n: nat, depth: nat, path: Path)
    ensures var entries := Entries(Rendering(Nest(n), depth, path));
            |entries| == n && forall e :: e in entries ==> e.depth < depth + n
    ensures depth + n > MAX_DEPTH ==> TooDeep in Visits(Nest(n), depth, path)
    decreases n
  {
    hide ShouldElide, IsLeafLine, Rendering, Visits, RenderingOfAll, VisitsOfAll, Entries;
    if depth > MAX_DEPTH { DeepVisits(Nest(n), depth, path); }
    if n == 0 {
      PanelRenders(depth, path);
    } else {
      NestUnfolds(n, depth, path);
      NestRenders(n - 1, depth + 1, path + [0]);
      EntriesOfFirst(Entry(Nest(n), depth, path), Rendering(Nest(n - 1), depth + 1, path + [0]));
    }
  }

  lemma PanelRenders(depth: nat, path: Path)
    ensures Entries(Rendering(Nest(0), depth, path)) == []
  {
    PanelIsElided(0);
  }

  lemma NestUnfolds(n: nat, depth: nat, path: Path)
    requires n > 0
    ensures Rendering(Nest(n), depth, path) ==
            [Entry(Nest(n), depth, path)] + Rendering(Nest(n - 1), depth + 1, path + [0])
    ensures depth <= MAX_DEPTH ==>
              Visits(Nest(n), depth, path) == [Entry(Nest(n), depth, path)] + Visits(Nest(n - 1), depth + 1, path + [0])
  {
    hide ShouldElide, IsLeafLine, Rendering, Visits, RenderingOfAll, VisitsOfAll;
    var child := Nest(n - 1);
    assert Nest(n) == Element(0, "frame", [child]);
    SlotOfNest(n - 1);
    hide Nest;
    OthersAreShown(0, "frame", [child]);
    ShownFirst(Nest(n), depth, path);
    OnlyChild(child, depth + 1, path);
  }

  lemma SlotOfNest(n: nat)
    ensures Nest(n).slot == 0
  {
  }

  lemma DeepVisits(node: Node, depth: nat, path: Path)
    requires depth > MAX_DEPTH
    ensures Visits(node, depth, path) == [TooDeep]
  {
  }

  /** 65 frames are all shown, and the empty panel below them, which shows nothing, marks the snapshot. */
  lemma DeepWrapperIsMarked(rootPath: Path)
    ensures var t := Rendered(Nest(65), rootPath, false);
            ShowsAll(t, Nest(65), rootPath) && |t.records| == 65 && t.truncated && t.maxDepthReached
  {
    hide Nest, Rendered, Visits, Rendering;
    NestRenders(65, 0, rootPath);
    ShowsAllIff(Nest(65), rootPath);
    TruncatedIff(Nest(65), rootPath);
    DepthMark(Nest(65), rootPath);
  }

  /** `n` labels and an empty panel. */
  function Row(n: nat, slot: nat): seq<Node> {
    if n == 0 then [Element(slot, "panel", [])] else [Element(slot, "label", [])] + Row(n - 1, slot + 1)
  }

  /** The visits of such a row: one for each label, and then the panel's, which shows nothing. */
  ghost predicate IsRowOf(vs: seq<Visit>, n: nat, depth: nat) {
    && vs != [] && |Entries(vs)| == n && vs[|vs| - 1] == Elided
    && forall v :: v in vs ==> !v.TooDeep? && (v.Entry? ==> v.depth == depth)
  }

  lemma LabelVisits(slot: nat, depth: nat, path: Path)
    requires depth <= MAX_DEPTH
    ensures var labelled := Element(slot, "label", []);
            Visits(labelled, depth, path) == Rendering(labelled, depth, path) == [Entry(labelled, depth, path)]
  {
    OthersAreShown(slot, "label", []);
    NoChildren(depth + 1, path);
    hide ShouldElide, IsLeafLine;
    ShownFirst(Element(slot, "label", []), depth, path);
  }

  lemma PanelVisits(slot: nat, depth: nat, path: Path)
    requires depth <= MAX_DEPTH
    ensures var panel := Element(slot, "panel", []);
            Visits(panel, depth, path) == Rendering(panel, depth, path) == [Elided]
  {
    PanelIsElided(slot);
    NoChildren(depth, path);
  }

  lemma RowGrows(first: Visit, rest: seq<Visit>, n: nat, depth: nat)
    requires IsRowOf(rest, n, depth) && first.Entry? && first.depth == depth
    ensures IsRowOf([first] + rest, n + 1, depth)
  {
    EntriesOfFirst(first, rest);
  }

  lemma {:induction false} RowRenders(n: nat, slot: nat, depth: nat, path: Path)
    requires depth <= MAX_DEPTH
    ensures IsRowOf(VisitsOfAll(Row(n, slot), depth, path), n, depth)
    ensures RenderingOfAll(Row(n, slot), depth, path) == VisitsOfAll(Row(n, slot), depth, path)
  {
    hide Visits, Rendering, VisitsOfAll, RenderingOfAll, IsRowOf;
    if n == 0 {
      var panel := Element(slot, "panel", []);
      PanelVisits(slot, depth, path + [slot]);
      FirstChild(panel, [], depth, path);
      NoChildren(depth, path);
      assert [panel] + [] == [panel] == Row(0, slot);
      assert [Elided] + [] == [Elided];
      PanelIsRow(depth);
    } else {
      var labelled := Element(slot, "label", []);
      LabelVisits(slot, depth, path + [slot]);
      FirstChild(labelled, Row(n - 1, slot + 1), depth, path);
      RowRenders(n - 1, slot + 1, depth, path);
      RowGrows(Entry(labelled, depth, path + [slot]), VisitsOfAll(Row(n - 1, slot + 1), depth, path), n - 1, depth);
    }
  }

  lemma PanelIsRow(depth: nat)
    ensures IsRowOf([Elided], 0, depth)
  {
  }

  lemma EntriesAreVisits(vs: seq<Visit>, e: Visit)
    requires e in Entries(vs)
    ensures e in vs
  {
  }

  /** A frame with 1199 labels is all shown, and the empty panel behind them marks the snapshot. */
  lemma LateWrapperIsMarked(n: nat, rootPath: Path)
    requires n + 1 == MAX_NODES
    ensures var root := Element(0, "frame", Row(n, 0));
            var t := Rendered(root, rootPath, false);
            ShowsAll(t, root, rootPath) && |t.records| == 1200 && t.truncated && !t.maxDepthReached
  {
    hide Visits, Rendering, Rendered, Row, VisitsOfAll, RenderingOfAll, ShouldElide, IsLeafLine, Entries, IsPrefixOf;
    var root := Element(0, "frame", Row(n, 0));
    var first, rest := Entry(root, 0, rootPath), VisitsOfAll(Row(n, 0), 1, rootPath);
    OthersAreShown(0, "frame", Row(n, 0));
    RowRenders(n, 0, 1, rootPath);
    ShownFirst(root, 0, rootPath);
    EntriesOfFirst(first, rest);
    forall e | e in WholeRendering(root, rootPath) ensures e.depth <= MAX_DEPTH { EntriesAreVisits([first] + rest, e); }
    ShowsAllIff(root, rootPath);
    TruncatedIff(root, rootPath);
    DepthMark(root, rootPath);
  }
}
