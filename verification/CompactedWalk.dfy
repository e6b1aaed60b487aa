/**
 The walk with tab compaction: what it has shown, what its first compaction removes, and when a
 line outlives its record.
 */
module CompactedWalk {
  import opened Wrappers
  import opened Snapshot
  import opened SnapshotLimits
  import opened TabCompaction

  // ---- What has been shown

  /** The entries that a walk from `s` shows, whether they are compacted afterwards or not. */
  function ShownIn(s: State, node: Node, depth: nat, path: Path, compactTabs: bool): seq<Visit>
    decreases node, 1
  {
    if |s.records| >= MAX_NODES || depth > MAX_DEPTH then []
    else if ShouldElide(node) then ShownInAll(s, node.children, depth, path, compactTabs)
    else
      [Entry(node, depth, path)] +
      if IsLeafLine(node) then []
      else ShownInAll(Shown(s, node, depth, path), node.children, depth + 1, path, compactTabs)
  }

  function ShownInAll(s: State, children: seq<Node>, depth: nat, path: Path, compactTabs: bool): seq<Visit>
    decreases children, 0
  {
    if children == [] then []
    else
      var below := path + [children[0].slot];
      ShownIn(s, children[0], depth, below, compactTabs) +
      ShownInAll(Walked(s, children[0], depth, below, compactTabs), children[1..], depth, path, compactTabs)
  }

  /** The marks are never taken back, and the one for the depth comes with the one for truncation. */
  predicate MarksGrow(s: State, t: State) {
    (s.truncated ==> t.truncated) && (t.maxDepthReached ==> s.maxDepthReached || t.truncated)
  }

  lemma {:induction false} WalkedMarks(s: State, node: Node, depth: nat, path: Path, compactTabs: bool)
    ensures MarksGrow(s, Walked(s, node, depth, path, compactTabs))
    decreases node, 1
  {
    hide ShouldElide, IsLeafLine, RecordOf, LineOf, Compacts;
    if |s.records| < MAX_NODES && depth <= MAX_DEPTH {
      if ShouldElide(node) {
        WalkedChildrenMarks(s, node.children, depth, path, compactTabs);
      } else if !IsLeafLine(node) {
        WalkedChildrenMarks(Shown(s, node, depth, path), node.children, depth + 1, path, compactTabs);
      }
    }
  }

  lemma {:induction false} WalkedChildrenMarks(s: State, children: seq<Node>, depth: nat, path: Path, compactTabs: bool)
    ensures MarksGrow(s, WalkedChildren(s, children, depth, path, compactTabs))
    decreases children, 0
  {
    if children != [] {
      var next := Walked(s, children[0], depth, path + [children[0].slot], compactTabs);
      WalkedMarks(s, children[0], depth, path + [children[0].slot], compactTabs);
      WalkedChildrenMarks(next, children[1..], depth, path, compactTabs);
    }
  }

  lemma {:induction false} UnmarkedShows(s: State, node: Node, depth: nat, path: Path, compactTabs: bool)
    requires !Walked(s, node, depth, path, compactTabs).truncated
    ensures ShownIn(s, node, depth, path, compactTabs) == Entries(Rendering(node, depth, path))
    decreases node, 1
  {
    hide ShouldElide, IsLeafLine, RecordOf, LineOf, Entries, Compacts;
    if ShouldElide(node) {
      UnmarkedShowsAll(s, node.children, depth, path, compactTabs);
      EntriesOfFirst(Elided, RenderingOfAll(node.children, depth, path));
    } else {
      var rest := if IsLeafLine(node) then [] else RenderingOfAll(node.children, depth + 1, path);
      EntriesOfFirst(Entry(node, depth, path), rest);
      NoEntries();
      if !IsLeafLine(node) {
        UnmarkedShowsAll(Shown(s, node, depth, path), node.children, depth + 1, path, compactTabs);
      }
    }
  }

  lemma {:induction false} UnmarkedShowsAll(s: State, children: seq<Node>, depth: nat, path: Path, compactTabs: bool)
    requires !WalkedChildren(s, children, depth, path, compactTabs).truncated
    ensures ShownInAll(s, children, depth, path, compactTabs) == Entries(RenderingOfAll(children, depth, path))
    decreases children, 0
  {
    hide Entries;
    NoEntries();
    if children != [] {
      var child, below := children[0], path + [children[0].slot];
      var next := Walked(s, child, depth, below, compactTabs);
      WalkedChildrenMarks(next, children[1..], depth, path, compactTabs);
      UnmarkedShows(s, child, depth, below, compactTabs);
      UnmarkedShowsAll(next, children[1..], depth, path, compactTabs);
      EntriesOfConcat(Rendering(child, depth, below), RenderingOfAll(children[1..], depth, path));
    }
  }

  /** With compaction or without: a snapshot that is not marked truncated has shown the whole rendering. */
  lemma UnmarkedHasShownAll(root: Node, rootPath: Path, compactTabs: bool)
    requires !Rendered(root, rootPath, compactTabs).truncated
    ensures ShownIn(EMPTY, root, 0, rootPath, compactTabs) == Entries(Rendering(root, 0, rootPath))
    ensures !Rendered(root, rootPath, compactTabs).maxDepthReached
  {
    UnmarkedShows(EMPTY, root, 0, rootPath, compactTabs);
    WalkedMarks(EMPTY, root, 0, rootPath, compactTabs);
  }

  // ---- The first compaction

  /** The moment of a compaction: the state before it, the first line it looks at, and the depth. */
  datatype Moment = Moment(before: State, start: nat, depth: nat)

  /** The first compaction that changes something, if there is one. */
  function FirstIn(s: State, node: Node, depth: nat, path: Path): (first: Option<Moment>)
    ensures first.Some? ==> first.value.start <= |first.value.before.lines|
    decreases node, 1
  {
    if |s.records| >= MAX_NODES || depth > MAX_DEPTH then None
    else if ShouldElide(node) then FirstInAll(s, node.children, depth, path)
    else if IsLeafLine(node) then None
    else
      var shown := Shown(s, node, depth, path);
      var below := FirstInAll(shown, node.children, depth + 1, path);
      var t := WalkedChildren(shown, node.children, depth + 1, path, true);
      if below.Some? then below
      else if Compacts(t, |shown.lines|, depth + 1) then Some(Moment(t, |shown.lines|, depth + 1)) else None
  }

  function FirstInAll(s: State, children: seq<Node>, depth: nat, path: Path): (first: Option<Moment>)
    ensures first.Some? ==> first.value.start <= |first.value.before.lines|
    decreases children, 0
  {
    if children == [] then None
    else
      var first := FirstIn(s, children[0], depth, path + [children[0].slot]);
      if first.Some? then first
      else FirstInAll(Walked(s, children[0], depth, path + [children[0].slot], true), children[1..], depth, path)
  }

  /** Until then the walk is the one without compaction; at that moment lines and records are in step. */
  lemma {:induction false} FirstInIs(s: State, node: Node, depth: nat, path: Path)
    requires IsNumbered(s, |s.lines|, 0) && CaptionsOk(node)
    ensures var first := FirstIn(s, node, depth, path);
            if first.Some? then IsNumbered(first.value.before, first.value.start, first.value.depth)
            else Walked(s, node, depth, path, true) == Walked(s, node, depth, path, false)
    decreases node, 1
  {
    hide ShouldElide, IsLeafLine, LineOf, Compacts, IsLineAt;
    if |s.records| < MAX_NODES && depth <= MAX_DEPTH {
      if ShouldElide(node) {
        FirstInAllIs(s, node.children, depth, path);
      } else if !IsLeafLine(node) {
        var shown := Shown(s, node, depth, path);
        assert IsNumbered(shown, |shown.lines|, 0) && IsNumbered(shown, |shown.lines|, depth + 1);
        hide IsNumbered;
        FirstInAllIs(shown, node.children, depth + 1, path);
        WalkedChildrenAreNumbered(shown, node.children, depth + 1, path, |shown.lines|, depth + 1);
      }
    }
  }

  lemma {:induction false} FirstInAllIs(s: State, children: seq<Node>, depth: nat, path: Path)
    requires IsNumbered(s, |s.lines|, 0) && forall i :: 0 <= i < |children| ==> CaptionsOk(children[i])
    ensures var first := FirstInAll(s, children, depth, path);
            if first.Some? then IsNumbered(first.value.before, first.value.start, first.value.depth)
            else WalkedChildren(s, children, depth, path, true) == WalkedChildren(s, children, depth, path, false)
    decreases children, 0
  {
    hide CaptionsOk, IsLineAt;
    if children != [] {
      var child, below := children[0], path + [children[0].slot];
      FirstInIs(s, child, depth, below);
      if FirstIn(s, child, depth, below).None? {
        var next := Walked(s, child, depth, below, false);
        WalkedIsNumbered(s, child, depth, below, |s.lines|, 0);
        assert IsNumbered(next, |next.lines|, 0);
        hide IsNumbered;
        FirstInAllIs(next, children[1..], depth, path);
      }
    }
  }

  /**
   In the rendering of any tree, the first compaction that changes something finds a line for each
   record and removes exactly the records of the lines it omits; if there is none, the rendering is
   the one without compaction.
   */
  lemma FirstCompaction(root: Node, rootPath: Path)
    requires CaptionsOk(root)
    ensures var first := FirstIn(EMPTY, root, 0, rootPath);
            if first.None? then Rendered(root, rootPath, true) == Rendered(root, rootPath, false)
            else
              var m := first.value;
              |m.before.lines| == |m.before.records| && RemovesOwnRecords(m.before, m.start, m.depth)
  {
    hide Walked, CaptionsOk, IsLineAt;
    var first := FirstIn(EMPTY, root, 0, rootPath);
    FirstInIs(EMPTY, root, 0, rootPath);
    if first.Some? { NumberedCompaction(first.value.before, first.value.start, first.value.depth); }
  }

  /** The record at a position goes exactly when the line there is an omitted tab. */
  ghost predicate RemovesOwnRecords(s: State, start: nat, depth: nat)
    requires start <= |s.lines| == |s.records|
  {
    Compacts(s, start, depth) ==>
      forall k: nat :: k < |s.records| ==>
        (s.records[k] in Compacted(s, start, depth).records <==>
           k < start || !IsInactiveTab(s.lines[k], depth, s.records))
  }

  lemma NumberedCompaction(s: State, start: nat, depth: nat)
    requires start <= |s.lines| && IsNumbered(s, start, depth)
    ensures RemovesOwnRecords(s, start, depth)
  {
    hide Compacts, Compacted, IsInactiveTab, IsTabLine, RenderedIndex, IsLineAt;
    forall i: nat | start <= i < |s.lines| && IsTabLine(s.lines[i], depth)
      ensures RenderedIndex(s.lines[i], depth) == Some(s.records[i].index)
    {
      LineIsAligned(s.lines[i], i, depth);
    }
    if Compacts(s, start, depth) {
      forall k: nat | k < |s.records|
        ensures s.records[k] in Compacted(s, start, depth).records <==>
                k < start || !IsInactiveTab(s.lines[k], depth, s.records)
      {
        AlignedCompaction(s, start, depth, k);
      }
    }
  }

  // ---- Any compaction

  lemma {:induction false} RecordAtIff(records: seq<Record>, index: nat)
    ensures RecordAt(records, index).Some? <==> exists r :: r in records && r.index == index
  {
    if records != [] {
      var n := |records| - 1;
      RecordAtIff(records[..n], index);
      assert records == records[..n] + [records[n]];
    }
  }

  /**
   After any compaction, first or not, a line that showed a record has lost it exactly when some
   omitted line shows the same index.
   */
  lemma LineLosesRecordIff(s: State, start: nat, depth: nat, line: string, below: nat, index: nat)
    requires start <= |s.lines| && Compacts(s, start, depth)
    requires line in s.lines && RenderedIndex(line, below) == Some(index) && RecordAt(s.records, index).Some?
    ensures RecordAt(Compacted(s, start, depth).records, index).None? <==>
            exists omitted :: omitted in OmittedFrom(s.lines, start, depth, s.records) &&
                              RenderedIndex(omitted, depth) == Some(index)
  {
    hide Compacts, Compacted, RenderedIndex, RecordAt, OmittedFrom;
    RecordAtIff(s.records, index);
    RecordAtIff(Compacted(s, start, depth).records, index);
    var r :| r in s.records && r.index == index;
    CompactionRemovesRecords(s, start, depth, r);
    if RecordAt(Compacted(s, start, depth).records, index).Some? {
      var q :| q in Compacted(s, start, depth).records && q.index == index;
      CompactionRemovesRecords(s, start, depth, q);
    }
  }
}
