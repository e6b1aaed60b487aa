/**
 The walk and the compaction as they change the snapshot's lists in place, and the lookup's loop.
 */
module SnapshotBuilder {
  import opened Snapshot
  import opened SnapshotLimits
  import opened TabCompaction
  import opened CompactedWalk

  lemma NothingKept(lines: seq<string>, depth: nat, records: seq<Record>)
    ensures KeptFrom(lines, |lines|, depth, records) == [] && OmittedFrom(lines, |lines|, depth, records) == []
    ensures lines[..|lines|] + KeptFrom(lines, |lines|, depth, records) == lines
  {
  }

  /** One step of the deletion: `line` is the last tab before `from`, where the rest is done. */
  lemma TabDeleted(original: seq<string>, line: nat, from: nat, depth: nat, records: seq<Record>)
    requires line < from <= |original| && IsTabLine(original[line], depth)
    requires forall i :: line < i < from ==> !IsTabLine(original[i], depth)
    ensures var lines := original[..from] + KeptFrom(original, from, depth, records);
            && lines[line] == original[line]
            && original[..line] + KeptFrom(original, line, depth, records) ==
               (if IsActiveLine(original[line], depth, records) then lines else lines[..line] + lines[line + 1..])
    ensures var omitted := OmittedFrom(original, from, depth, records);
            OmittedFrom(original, line, depth, records) ==
            if IsActiveLine(original[line], depth, records) then omitted else [original[line]] + omitted
  {
    hide IsTabLine, IsActiveLine;
    var kept := KeptFrom(original, from, depth, records);
    var lines := original[..from] + kept;
    KeptWithoutTabs(original, line + 1, from, depth, records);
    var active := IsActiveLine(original[line], depth, records);
    assert IsInactiveTab(original[line], depth, records) == !active;
    hide *;
    Spliced(original, line, from, kept);
  }

  lemma Spliced(a: seq<string>, i: nat, end: nat, rest: seq<string>)
    requires i < end <= |a|
    ensures a[..i] + ([a[i]] + (a[i + 1..end] + rest)) == a[..end] + rest
    ensures (a[..end] + rest)[..i] + (a[..end] + rest)[i + 1..] == a[..i] + (a[i + 1..end] + rest)
  {
  }

  /** The walk's records and lines, which it appends to and compacts in place, and the history of what it appended. */
  class Builder {
    var records: seq<Record>
    var lines: seq<string>
    var truncated: bool
    var maxDepthReached: bool
    ghost var shown: seq<Visit>

    ghost function Contents(): State
      reads this
    {
      State(records, lines, truncated, maxDepthReached)
    }

    constructor ()
      ensures Contents() == EMPTY && shown == []
    {
      records, lines, truncated, maxDepthReached, shown := [], [], false, false, [];
    }

    /** The positions of the tab lines, as the comprehension collects them. */
    method FindTabs(startLine: nat, depth: nat) returns (tabs: seq<nat>)
      requires startLine <= |lines|
      ensures tabs == TabsFrom(lines, startLine, depth)
    {
      hide IsTabLine;
      tabs := [];
      for i := startLine to |lines|
        invariant tabs + TabsFrom(lines, i, depth) == TabsFrom(lines, startLine, depth)
      {
        ghost var rest := TabsFrom(lines, i + 1, depth);
        if IsTabLine(lines[i], depth) {
          assert (tabs + [i]) + rest == tabs + ([i] + rest);
          tabs := tabs + [i];
        }
      }
    }

    /** Deletes the inactive tab lines from the last to the first; returns what they show. */
    method DeleteInactiveTabs(startLine: nat, tabs: seq<nat>, depth: nat) returns (indexes: set<nat>, count: nat)
      requires startLine <= |lines| && tabs == TabsFrom(lines, startLine, depth) && tabs != []
      modifies this`lines
      ensures var omitted := OmittedFrom(old(lines), startLine, depth, records);
              count == |omitted| && indexes == IndexesOf(omitted, depth)
      ensures lines == old(lines)[..tabs[0]] + KeptFrom(old(lines), tabs[0], depth, records)
    {
      hide IsTabLine, IsActiveLine, RenderedIndex, KeptFrom, OmittedFrom, IsInactiveTab, TabsFrom;
      ghost var original := lines;
      ghost var from: nat := |lines|;
      TabsAreTheTabLines(original, startLine, depth);
      NothingKept(original, depth, records);
      indexes, count := {}, 0;
      var k: nat := |tabs|;
      while k > 0
        invariant k <= |tabs| && from == (if k < |tabs| then tabs[k] else |original|)
        invariant lines == original[..from] + KeptFrom(original, from, depth, records)
        invariant count == |OmittedFrom(original, from, depth, records)|
        invariant indexes == IndexesOf(OmittedFrom(original, from, depth, records), depth)
      {
        k := k - 1;
        var line := tabs[k];
        assert forall i :: line < i < from ==> i !in tabs;
        TabDeleted(original, line, from, depth, records);
        if !IsActiveLine(lines[line], depth, records) {
          var index := RenderedIndex(lines[line], depth);
          if index.Some? { indexes := indexes + {index.value}; }
          lines := lines[..line] + lines[line + 1..];
          count := count + 1;
        }
        from := line;
      }
      KeptWithoutTabs(original, startLine, tabs[0], depth, records);
    }

    /** `compact_rendered_browser_tabs`. */
    method CompactRenderedBrowserTabs(startLine: nat, depth: nat)
      requires startLine <= |lines|
      modifies this`records, this`lines
      ensures Contents() == Compacted(old(Contents()), startLine, depth)
    {
      hide IsTabLine, IsActiveLine, RenderedIndex, KeptFrom, OmittedFrom, Marker, Tabs, IndexesOf, Without, Compacted,
          AnyActive;
      ghost var before := Contents();
      CompactedIs(before, startLine, depth);
      var tabs := FindTabs(startLine, depth);
      if |tabs| < MIN_TABS { return; }
      if !AnyActive(lines, tabs, depth, records) { return; }
      TabsAreTheTabLines(lines, startLine, depth);
      KeptWithoutTabs(lines, startLine, tabs[0], depth, records);
      var indexes, count := DeleteInactiveTabs(startLine, tabs, depth);
      if count == 0 {
        NothingOmitted(before.lines, tabs[0], depth, records);
        return;
      }
      records := Without(records, indexes);
      MarkerInserted(before.lines, tabs[0], Marker(count, depth),
          KeptFrom(before.lines, tabs[0], depth, before.records));
      lines := lines[..tabs[0]] + [Marker(count, depth)] + lines[tabs[0]..];
    }

    /** `walk`: visits `node` and, unless a limit or the node's own line stops it, its children. */
    method Walk(node: Node, depth: nat, path: Path, compactTabs: bool)
      modifies this
      ensures Contents() == Walked(old(Contents()), node, depth, path, compactTabs)
      ensures shown == old(shown) + ShownIn(old(Contents()), node, depth, path, compactTabs)
      decreases node, 1
    {
      hide ShouldElide, IsLeafLine, LineOf, RecordOf, Compacted;
      if |records| >= MAX_NODES || depth > MAX_DEPTH {
        truncated := true;
        if depth > MAX_DEPTH { maxDepthReached := true; }
        return;
      }
      var index := |records|;
      var item := RecordOf(node, index, path);
      if ShouldElide(node) {
        WalkChildren(node.children, depth, path, compactTabs);
        return;
      }
      lines := lines + [LineOf(node, index, depth)];
      records := records + [item];
      shown := shown + [Entry(node, depth, path)];
      if IsLeafLine(node) { return; }
      var childLineStart := |lines|;
      WalkChildren(node.children, depth + 1, path, compactTabs);
      if compactTabs { CompactRenderedBrowserTabs(childLineStart, depth + 1); }
    }

    method WalkChildren(children: seq<Node>, depth: nat, path: Path, compactTabs: bool)
      modifies this
      ensures Contents() == WalkedChildren(old(Contents()), children, depth, path, compactTabs)
      ensures shown == old(shown) + ShownInAll(old(Contents()), children, depth, path, compactTabs)
      decreases children, 0
    {
      hide Walked, ShownIn;
      assert children[0..] == children;
      for i := 0 to |children|
        invariant WalkedChildren(Contents(), children[i..], depth, path, compactTabs) ==
                  WalkedChildren(old(Contents()), children, depth, path, compactTabs)
        invariant shown + ShownInAll(Contents(), children[i..], depth, path, compactTabs) ==
                  old(shown) + ShownInAll(old(Contents()), children, depth, path, compactTabs)
      {
        ghost var before := Contents();
        FirstOfAll(before, children, i, depth, path, compactTabs);
        Appended(shown, ShownIn(before, children[i], depth, path + [children[i].slot], compactTabs),
                 ShownInAll(Walked(before, children[i], depth, path + [children[i].slot], compactTabs),
                            children[i + 1..], depth, path, compactTabs));
        Walk(children[i], depth, path + [children[i].slot], compactTabs);
      }
      assert children[|children|..] == [];
    }
  }

  /** The first of the remaining children, and the rest. */
  lemma FirstOfAll(s: State, children: seq<Node>, i: nat, depth: nat, path: Path, compactTabs: bool)
    requires i < |children|
    ensures var below := path + [children[i].slot];
            var next := Walked(s, children[i], depth, below, compactTabs);
            && WalkedChildren(s, children[i..], depth, path, compactTabs) ==
               WalkedChildren(next, children[i + 1..], depth, path, compactTabs)
            && ShownInAll(s, children[i..], depth, path, compactTabs) ==
               ShownIn(s, children[i], depth, below, compactTabs) +
               ShownInAll(next, children[i + 1..], depth, path, compactTabs)
  {
    hide Walked, ShownIn;
    assert children[i..][0] == children[i] && children[i..][1..] == children[i + 1..];
  }

  lemma Appended<T>(a: seq<T>, b: seq<T>, c: seq<T>)
    ensures a + (b + c) == (a + b) + c
  {
  }

  lemma NothingOmitted(lines: seq<string>, first: nat, depth: nat, records: seq<Record>)
    requires first <= |lines| && OmittedFrom(lines, first, depth, records) == []
    ensures lines[..first] + KeptFrom(lines, first, depth, records) == lines
    decreases |lines| - first
  {
    hide IsInactiveTab;
    if first < |lines| {
      NothingOmitted(lines, first + 1, depth, records);
      var rest := KeptFrom(lines, first + 1, depth, records);
      hide *;
      assert lines[..first] + ([lines[first]] + rest) == lines[..first + 1] + rest;
    }
  }

  lemma MarkerInserted(a: seq<string>, first: nat, marker: string, rest: seq<string>)
    requires first <= |a|
    ensures var b := a[..first] + rest; b[..first] + [marker] + b[first..] == a[..first] + [marker] + rest
  {
  }

  method RenderAccessibilityTree(root: Node, rootPath: Path, compactTabs: bool)
      returns (snapshot: State, ghost shown: seq<Visit>)
    ensures snapshot == Rendered(root, rootPath, compactTabs)
    ensures shown == ShownIn(EMPTY, root, 0, rootPath, compactTabs)
    ensures !snapshot.truncated ==> shown == Entries(Rendering(root, 0, rootPath))
  {
    var builder := new Builder();
    builder.Walk(root, 0, rootPath, compactTabs);
    shown := builder.shown;
    if !builder.truncated { UnmarkedHasShownAll(root, rootPath, compactTabs); }
    snapshot := State(builder.records, builder.lines, builder.truncated, builder.maxDepthReached);
  }
}
