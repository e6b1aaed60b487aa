/**
 Which nodes of the accessibility tree the snapshot shows, and whose children it visits: by their
 roles, texts, actions and children, with every list of the source written out.
 */
module SnapshotNodes {
  import opened Wrappers
  import opened Snapshot
  import opened SnapshotLimits
  import opened SnapshotMarks
  import opened CompactedWalk
  import opened Text

  predicate HasWrapperRole(node: Node) {
    Lower(node.role) == "panel" || Lower(node.role) == "filler" || Lower(node.role) == "unknown" ||
    Lower(node.role) == "section"
  }

  predicate IsGenericAction(action: string) {
    var key := Lower(Trim(action));
    key == "click" || key == "press" || key == "show default ui" || key == "show alternate ui" || key == "show menu" ||
    key == "scroll to visible" || key == "raise"
  }

  /** A wrapper that says nothing: without text, summary or action of its own, around one node or none. */
  predicate IsEmptyWrapper(node: Node) {
    && HasWrapperRole(node)
    && node.name == "" && node.automationId == "" && node.value == ""
    && (forall action :: action in node.actions ==> IsGenericAction(action))
    && node.summary == None
    && (node.children == [] || |node.children| == 1)
  }

  /** The node's line stands for its children: it has a summary, or is a labelled control. */
  ghost predicate SpeaksForChildren(node: Node) {
    || (HasWrapperRole(node) && node.name == "" && node.value == "" && node.summary.Some?)
    || (IsControl(node) && (node.name != "" || node.automationId != "" || !AllSpace(node.value)))
  }

  predicate IsControl(node: Node) {
    var role := Lower(node.role);
    role == "button" || role == "check box" || role == "checkbox" || role == "combo box" || role == "heading" ||
    role == "link" || role == "menu item" || role == "page tab" || role == "push button" || role == "radio button"
  }

  lemma {:induction false} NoMeaningfulActionIff(actions: seq<string>)
    ensures MeaningfulActions(actions) == [] <==> forall action :: action in actions ==> IsGenericAction(action)
  {
    hide Lower, Trim;
    if actions != [] {
      NoMeaningfulActionIff(actions[1..]);
      GenericIs(actions[0]);
      hide IsGenericAction;
      assert forall action :: action in actions <==> action == actions[0] || action in actions[1..];
    }
  }

  lemma GenericIs(action: string)
    ensures IsGenericAction(action) <==>
            Lower(Trim(action)) in
              ["click", "press", "show default ui", "show alternate ui", "show menu", "scroll to visible", "raise"]
  {
    hide Lower, Trim;
  }

  lemma ElidedIff(node: Node)
    ensures ShouldElide(node) <==> IsEmptyWrapper(node)
  {
    hide Lower, Trim, MeaningfulActions, IsGenericAction;
    NoMeaningfulActionIff(node.actions);
  }

  lemma LeafLineIff(node: Node)
    ensures IsLeafLine(node) <==> SpeaksForChildren(node)
  {
    TrimIsEmptyIff(node.value);
    hide Lower, Trim, AllSpace;
  }

  // ---- One node of any walk

  /**
   Within the limits a node is given a record and a line exactly when it is no empty wrapper, and its
   children are visited next, unless its line speaks for them, one level deeper if it has a line.
   */
  lemma NodeIsVisited(s: State, node: Node, depth: nat, path: Path, compactTabs: bool)
    requires |s.records| < 1200 && depth <= 64
    ensures var t := if IsEmptyWrapper(node) then s else Shown(s, node, depth, path);
            var below := if IsEmptyWrapper(node) then depth else depth + 1;
            ShownIn(s, node, depth, path, compactTabs) ==
            (if IsEmptyWrapper(node) then [] else [Entry(node, depth, path)]) +
            (if SpeaksForChildren(node) then [] else ShownInAll(t, node.children, below, path, compactTabs))
    ensures var t := if IsEmptyWrapper(node) then s else Shown(s, node, depth, path);
            var below := if IsEmptyWrapper(node) then depth else depth + 1;
            Walked(s, node, depth, path, false) ==
            if SpeaksForChildren(node) then t else WalkedChildren(t, node.children, below, path, false)
  {
    ElidedIff(node);
    LeafLineIff(node);
    EmptySpeaksForNone(node);
    hide ShouldElide, IsLeafLine, IsEmptyWrapper, SpeaksForChildren;
  }

  lemma EmptySpeaksForNone(node: Node)
    ensures !(IsEmptyWrapper(node) && SpeaksForChildren(node))
  {
    hide Lower, IsGenericAction;
  }

  /** Beyond the limits nothing is shown. */
  lemma NothingIsVisited(s: State, node: Node, depth: nat, path: Path, compactTabs: bool)
    requires |s.records| >= 1200 || depth > 64
    ensures ShownIn(s, node, depth, path, compactTabs) == []
    ensures var t := Walked(s, node, depth, path, compactTabs);
            t.records == s.records && t.lines == s.lines && t.truncated &&
            (t.maxDepthReached <==> s.maxDepthReached || depth > 64)
  {
  }

  // ---- The whole tree

  /** The nodes of a tree that are shown, if there were no limits, with depth and path. */
  ghost function Listing(node: Node, depth: nat, path: Path): seq<Visit>
    decreases node, 1
  {
    if IsEmptyWrapper(node) then ListingOfAll(node.children, depth, path)
    else
      [Entry(node, depth, path)] +
      if SpeaksForChildren(node) then [] else ListingOfAll(node.children, depth + 1, path)
  }

  ghost function ListingOfAll(children: seq<Node>, depth: nat, path: Path): seq<Visit>
    decreases children, 0
  {
    if children == [] then []
    else
      Listing(children[0], depth, path + [children[0].slot]) + ListingOfAll(children[1..], depth, path)
  }

  lemma {:induction false} RenderingIsListing(node: Node, depth: nat, path: Path)
    ensures Entries(Rendering(node, depth, path)) == Listing(node, depth, path)
    decreases node, 1
  {
    hide ShouldElide, IsLeafLine, Entries, IsEmptyWrapper, SpeaksForChildren;
    ElidedIff(node);
    LeafLineIff(node);
    NothingIsShallow();
    if IsEmptyWrapper(node) {
      EntriesOfFirst(Elided, RenderingOfAll(node.children, depth, path));
      RenderingOfAllIsListing(node.children, depth, path);
    } else {
      var rest := if SpeaksForChildren(node) then [] else RenderingOfAll(node.children, depth + 1, path);
      EntriesOfFirst(Entry(node, depth, path), rest);
      RenderingOfAllIsListing(node.children, depth + 1, path);
    }
  }

  lemma {:induction false} RenderingOfAllIsListing(children: seq<Node>, depth: nat, path: Path)
    ensures Entries(RenderingOfAll(children, depth, path)) == ListingOfAll(children, depth, path)
    decreases children, 0
  {
    hide Entries;
    NothingIsShallow();
    if children != [] {
      var below := path + [children[0].slot];
      RenderingIsListing(children[0], depth, below);
      RenderingOfAllIsListing(children[1..], depth, path);
      EntriesOfConcat(Rendering(children[0], depth, below), RenderingOfAll(children[1..], depth, path));
    }
  }

  /** Without compaction the records are those of the listed nodes no deeper than 64, up to the 1200th. */
  lemma RecordsAreListed(root: Node, rootPath: Path)
    ensures var t, all := Rendered(root, rootPath, false), Listing(root, 0, rootPath);
            && (forall e :: e in all ==> e.Entry?)
            && var shallow := Shallow(all);
               && |t.records| == |t.lines| == (if |shallow| < 1200 then |shallow| else 1200)
               && forall k :: 0 <= k < |t.records| ==>
                    && t.records[k] == RecordOf(shallow[k].node, k, shallow[k].path)
                    && t.lines[k] == LineOf(shallow[k].node, k, shallow[k].depth)
  {
    hide Rendered, Rendering, Visits, Shallow, Listing;
    RenderingIsListing(root, 0, rootPath);
    assert forall e :: e in WholeRendering(root, rootPath) ==> e.Entry?;
    VisitsAreShallow(root, 0, rootPath);
    BoundedWalk(root, rootPath);
  }

  // ---- A wrapper around one node, and one around two

  /** The panel has no record, and its child is the root of the snapshot. */
  lemma WrapperOfOneIsLeftOut(child: Node, rootPath: Path)
    requires !IsEmptyWrapper(child) && SpeaksForChildren(child)
    ensures Rendered(Element(0, "panel", [child]), rootPath, false).records ==
            [RecordOf(child, 0, rootPath + [child.slot])]
  {
    var root := Element(0, "panel", [child]);
    PanelRole(root.role);
    NodeIsVisited(EMPTY, root, 0, rootPath, false);
    NodeIsVisited(EMPTY, child, 0, rootPath + [child.slot], false);
    hide IsEmptyWrapper, SpeaksForChildren;
    assert WalkedChildren(EMPTY, [child], 0, rootPath, false) ==
           WalkedChildren(Walked(EMPTY, child, 0, rootPath + [child.slot], false), [], 0, rootPath, false);
  }

  lemma PanelRole(role: string)
    requires role == "panel"
    ensures Lower(role) == "panel"
  {
    LowerIs(role);
  }

  /** The panel is the root of the snapshot, with its two children below it. */
  lemma WrapperOfTwoIsShown(a: Node, b: Node, rootPath: Path)
    requires !IsEmptyWrapper(a) && SpeaksForChildren(a) && !IsEmptyWrapper(b) && SpeaksForChildren(b)
    ensures var root := Element(0, "panel", [a, b]);
            Rendered(root, rootPath, false).records ==
            [RecordOf(root, 0, rootPath), RecordOf(a, 1, rootPath + [a.slot]), RecordOf(b, 2, rootPath + [b.slot])]
  {
    var root := Element(0, "panel", [a, b]);
    PanelOfTwo(a, b, root.role);
    RootAndTwo(root, a, b, rootPath);
  }

  lemma RootAndTwo(root: Node, a: Node, b: Node, rootPath: Path)
    requires !IsEmptyWrapper(root) && !SpeaksForChildren(root) && root.children == [a, b]
    requires !IsEmptyWrapper(a) && SpeaksForChildren(a) && !IsEmptyWrapper(b) && SpeaksForChildren(b)
    ensures Rendered(root, rootPath, false).records ==
            [RecordOf(root, 0, rootPath), RecordOf(a, 1, rootPath + [a.slot]), RecordOf(b, 2, rootPath + [b.slot])]
  {
    hide IsEmptyWrapper, SpeaksForChildren, Walked, WalkedChildren, RecordOf, LineOf;
    NodeIsVisited(EMPTY, root, 0, rootPath, false);
    var shown := Shown(EMPTY, root, 0, rootPath);
    assert shown.records == [RecordOf(root, 0, rootPath)];
    TwoLeaves(shown, a, b, 1, rootPath);
  }

  lemma PanelOfTwo(a: Node, b: Node, role: string)
    requires role == "panel"
    ensures !IsEmptyWrapper(Element(0, role, [a, b])) && !SpeaksForChildren(Element(0, role, [a, b]))
  {
    PanelRole(role);
    hide Lower;
  }

  lemma TwoLeaves(s: State, a: Node, b: Node, depth: nat, path: Path)
    requires |s.records| < 1199 && depth <= 64
    requires !IsEmptyWrapper(a) && SpeaksForChildren(a) && !IsEmptyWrapper(b) && SpeaksForChildren(b)
    ensures WalkedChildren(s, [a, b], depth, path, false) ==
            Shown(Shown(s, a, depth, path + [a.slot]), b, depth, path + [b.slot])
  {
    hide IsEmptyWrapper, SpeaksForChildren, Walked, RecordOf, LineOf;
    var next := Shown(s, a, depth, path + [a.slot]);
    var last := Shown(next, b, depth, path + [b.slot]);
    NodeIsVisited(s, a, depth, path + [a.slot], false);
    NodeIsVisited(next, b, depth, path + [b.slot], false);
    assert [b][1..] == [];
    assert WalkedChildren(next, [b], depth, path, false) == WalkedChildren(last, [], depth, path, false) == last;
    assert [a, b][1..] == [b];
  }
}
