/**
 What compacting a row of browser tabs leaves of the snapshot's two lists: which lines and which
 records, and how the lines show their records.
 */
module TabCompaction {
  import opened Wrappers
  import opened Numbers
  import opened Snapshot

  /** What compaction does, by the guards the method tests in turn. */
  lemma CompactedIs(s: State, start: nat, depth: nat)
    requires start <= |s.lines|
    ensures var tabs, omitted := TabsFrom(s.lines, start, depth), OmittedFrom(s.lines, start, depth, s.records);
            && (|tabs| < MIN_TABS ==> Compacted(s, start, depth) == s)
            && (!AnyActive(s.lines, tabs, depth, s.records) ==> Compacted(s, start, depth) == s)
            && (omitted == [] ==> Compacted(s, start, depth) == s)
            && (Compacts(s, start, depth) ==>
                  Compacted(s, start, depth) ==
                  State(Without(s.records, IndexesOf(omitted, depth)),
                        s.lines[..tabs[0]] + [Marker(|omitted|, depth)] + KeptFrom(s.lines, tabs[0], depth, s.records),
                        s.truncated, s.maxDepthReached))
  {
    hide IsTabLine, IsActiveLine, RenderedIndex, KeptFrom, OmittedFrom, Marker, IndexesOf, Without, TabsFrom;
  }

  /** The lines are the kept and the omitted ones. */
  lemma {:induction false} KeptOrOmitted(lines: seq<string>, start: nat, depth: nat, records: seq<Record>)
    requires start <= |lines|
    ensures multiset(KeptFrom(lines, start, depth, records)) + multiset(OmittedFrom(lines, start, depth, records)) ==
            multiset(lines[start..])
    decreases |lines| - start
  {
    hide IsInactiveTab;
    if start < |lines| {
      KeptOrOmitted(lines, start + 1, depth, records);
      assert lines[start..] == [lines[start]] + lines[start + 1..];
      Consed(lines[start], lines[start + 1..]);
      Consed(lines[start], KeptFrom(lines, start + 1, depth, records));
      Consed(lines[start], OmittedFrom(lines, start + 1, depth, records));
    }
  }

  lemma Consed(line: string, lines: seq<string>)
    ensures multiset([line] + lines) == multiset{line} + multiset(lines)
  {
  }

  /** A line is omitted exactly when it is an inactive tab. */
  lemma {:induction false} OmittedAreInactive(lines: seq<string>, start: nat, depth: nat, records: seq<Record>,
      line: string)
    requires start <= |lines|
    ensures line in KeptFrom(lines, start, depth, records) <==>
            line in lines[start..] && !IsInactiveTab(line, depth, records)
    ensures line in OmittedFrom(lines, start, depth, records) <==>
            line in lines[start..] && IsInactiveTab(line, depth, records)
    decreases |lines| - start
  {
    hide IsInactiveTab;
    if start < |lines| {
      OmittedAreInactive(lines, start + 1, depth, records, line);
      assert lines[start..] == [lines[start]] + lines[start + 1..];
    }
  }

  /** The tabs are all the tab lines, in order. */
  lemma {:induction false} TabsAreTheTabLines(lines: seq<string>, start: nat, depth: nat)
    requires start <= |lines|
    ensures var tabs := TabsFrom(lines, start, depth);
            && (forall k, l :: 0 <= k < l < |tabs| ==> tabs[k] < tabs[l])
            && (forall i :: start <= i < |lines| ==> (i in tabs <==> IsTabLine(lines[i], depth)))
    decreases |lines| - start
  {
    hide IsTabLine;
    if start < |lines| { TabsAreTheTabLines(lines, start + 1, depth); }
  }

  /** Where there is no tab nothing is left out. */
  lemma {:induction false} KeptWithoutTabs(lines: seq<string>, start: nat, end: nat, depth: nat, records: seq<Record>)
    requires start <= end <= |lines| && forall i :: start <= i < end ==> !IsTabLine(lines[i], depth)
    ensures KeptFrom(lines, start, depth, records) == lines[start..end] + KeptFrom(lines, end, depth, records)
    ensures OmittedFrom(lines, start, depth, records) == OmittedFrom(lines, end, depth, records)
    decreases end - start
  {
    hide IsTabLine, IsActiveLine;
    if start < end {
      assert !IsInactiveTab(lines[start], depth, records);
      KeptWithoutTabs(lines, start + 1, end, depth, records);
      Prefixed(lines, start, end, KeptFrom(lines, end, depth, records));
    }
  }

  lemma Prefixed(a: seq<string>, start: nat, end: nat, rest: seq<string>)
    requires start < end <= |a|
    ensures [a[start]] + (a[start + 1..end] + rest) == a[start..end] + rest
  {
  }

  lemma {:induction false} WithoutIff(records: seq<Record>, indexes: set<nat>, r: Record)
    ensures r in Without(records, indexes) <==> r in records && r.index !in indexes
  {
    if records != [] { WithoutIff(records[1..], indexes, r); }
  }

  /**
   Compaction changes nothing, or inserts one marker before the first tab of the row, with the
   number of lines left out, and leaves out exactly the inactive tabs of the row, the rest in order.
   */
  lemma CompactionKeepsLines(s: State, start: nat, depth: nat, line: string)
    requires start <= |s.lines|
    ensures !Compacts(s, start, depth) ==> Compacted(s, start, depth) == s
    ensures Compacts(s, start, depth) ==>
              var t, first := Compacted(s, start, depth), TabsFrom(s.lines, start, depth)[0];
              var kept, omitted := KeptFrom(s.lines, start, depth, s.records),
                  OmittedFrom(s.lines, start, depth, s.records);
              && start <= first < |t.lines| && IsTabLine(s.lines[first], depth)
              && t.lines[first] == Marker(|omitted|, depth)
              && t.lines[..first] + t.lines[first + 1..] == s.lines[..start] + kept
              && multiset(kept) + multiset(omitted) == multiset(s.lines[start..])
              && (line in kept <==> line in s.lines[start..] && !IsInactiveTab(line, depth, s.records))
              && (line in omitted <==> line in s.lines[start..] && IsInactiveTab(line, depth, s.records))
  {
    hide IsTabLine, IsActiveLine, IsInactiveTab, RenderedIndex, Marker, IndexesOf, Without, AnyActive, Compacted,
        KeptFrom, OmittedFrom, TabsFrom;
    CompactedIs(s, start, depth);
    if Compacts(s, start, depth) {
      var first := TabsFrom(s.lines, start, depth)[0];
      var rest := KeptFrom(s.lines, first, depth, s.records);
      var marker := Marker(|OmittedFrom(s.lines, start, depth, s.records)|, depth);
      assert Compacted(s, start, depth).lines == s.lines[..first] + [marker] + rest;
      TabsAreTheTabLines(s.lines, start, depth);
      KeptWithoutTabs(s.lines, start, first, depth, s.records);
      KeptOrOmitted(s.lines, start, depth, s.records);
      OmittedAreInactive(s.lines, start, depth, s.records, line);
      MarkerApart(s.lines, start, first, marker, rest);
    }
  }

  lemma MarkerApart(a: seq<string>, start: nat, first: nat, marker: string, rest: seq<string>)
    requires start <= first <= |a|
    ensures var b := a[..first] + [marker] + rest;
            b[first] == marker && b[..first] + b[first + 1..] == a[..start] + (a[start..first] + rest)
  {
  }

  /** Compaction removes exactly the records whose index an omitted line shows. */
  lemma CompactionRemovesRecords(s: State, start: nat, depth: nat, r: Record)
    requires start <= |s.lines| && Compacts(s, start, depth)
    ensures r in Compacted(s, start, depth).records <==>
            r in s.records &&
            forall line :: line in OmittedFrom(s.lines, start, depth, s.records) ==>
                RenderedIndex(line, depth) != Some(r.index)
  {
    hide IsTabLine, IsActiveLine, IsInactiveTab, RenderedIndex, Marker;
    var omitted := OmittedFrom(s.lines, start, depth, s.records);
    WithoutIff(s.records, IndexesOf(omitted, depth), r);
    assert r.index in IndexesOf(omitted, depth) <==>
           exists line :: line in omitted && RenderedIndex(line, depth) == Some(r.index);
  }

  /** A line for each record, and each tab line shows the index of its record. */
  ghost predicate IsAligned(s: State, start: nat, depth: nat) {
    && |s.lines| == |s.records|
    && forall i :: start <= i < |s.lines| && IsTabLine(s.lines[i], depth) ==>
         RenderedIndex(s.lines[i], depth) == Some(s.records[i].index)
  }

  ghost predicate DistinctIndexes(records: seq<Record>) {
    forall i, j :: 0 <= i < j < |records| ==> records[i].index != records[j].index
  }

  /** With one line per record and no index twice, exactly the records of the omitted lines go. */
  lemma AlignedCompaction(s: State, start: nat, depth: nat, k: nat)
    requires start <= |s.lines| && Compacts(s, start, depth) && k < |s.records|
    requires IsAligned(s, start, depth) && DistinctIndexes(s.records)
    ensures s.records[k] in Compacted(s, start, depth).records <==>
            k < start || !IsInactiveTab(s.lines[k], depth, s.records)
  {
    hide IsTabLine, IsActiveLine, RenderedIndex, Compacted, Compacts;
    var omitted := OmittedFrom(s.lines, start, depth, s.records);
    CompactionRemovesRecords(s, start, depth, s.records[k]);
    if k >= start && IsInactiveTab(s.lines[k], depth, s.records) {
      OmittedAreInactive(s.lines, start, depth, s.records, s.lines[k]);
      assert s.lines[k] == s.lines[start..][k - start];
      assert s.lines[k] in omitted && RenderedIndex(s.lines[k], depth) == Some(s.records[k].index);
    } else {
      forall line | line in omitted ensures RenderedIndex(line, depth) != Some(s.records[k].index) {
        OmittedAreInactive(s.lines, start, depth, s.records, line);
        var i :| 0 <= i < |s.lines| - start && s.lines[start..][i] == line;
        assert s.lines[start + i] == line;
      }
    }
  }

  lemma {:induction false} NumberInvertsDecimal(n: nat)
    ensures NumberOf(Decimal(n)) == n
  {
    var digit := ['0' + (n % 10) as char];
    if n < 10 {
      assert digit[..0] == "";
    } else {
      NumberInvertsDecimal(n / 10);
      assert (Decimal(n / 10) + digit)[..|Decimal(n / 10)|] == Decimal(n / 10);
    }
  }

  lemma {:induction false} DigitsOf(digits: string, rest: string)
    requires IsDigits(digits) && (rest == "" || !IsDigit(rest[0]))
    ensures Digits(digits + rest) == |digits|
  {
    if digits == "" {
      assert digits + rest == rest;
    } else {
      assert (digits + rest)[1..] == digits[1..] + rest;
      DigitsOf(digits[1..], rest);
    }
  }

  lemma {:induction false} TabsLength(depth: nat)
    ensures |Tabs(depth)| == depth
  {
    if depth > 0 { TabsLength(depth - 1); }
  }

  /** Every line of the walk shows the index of its record. */
  lemma LineShowsIndex(node: Node, index: nat, depth: nat)
    requires node.caption == "" || !IsDigit(node.caption[0])
    ensures RenderedIndex(LineOf(node, index, depth), depth) == Some(index)
  {
    TabsLength(depth);
    assert LineOf(node, index, depth)[depth..] == Decimal(index) + node.caption;
    DigitsOf(Decimal(index), node.caption);
    assert (Decimal(index) + node.caption)[..|Decimal(index)|] == Decimal(index);
    NumberInvertsDecimal(index);
  }

  // ---- Lines and records in step

  /** What follows the number in a line starts with no digit: in the walk it starts with a space or a comma. */
  predicate CaptionsOk(node: Node) {
    && (node.caption == "" || !IsDigit(node.caption[0]))
    && forall i :: 0 <= i < |node.children| ==> CaptionsOk(node.children[i])
  }

  /** The line of some node with this index, at this depth or below. */
  ghost predicate IsLineAt(line: string, index: nat, low: nat) {
    exists node: Node, depth: nat :: depth >= low && CaptionsOk(node) && line == LineOf(node, index, depth)
  }

  /**
   A line for each record, each record with its position as index, and the lines from `from` on at depth `low` or below.
   */
  ghost predicate IsNumbered(s: State, from: nat, low: nat) {
    && |s.lines| == |s.records|
    && (forall k :: 0 <= k < |s.records| ==> s.records[k].index == k)
    && (forall k :: from <= k < |s.lines| ==> IsLineAt(s.lines[k], k, low))
  }

  /** A line below the compacted depth is no tab line, and one at that depth shows its index. */
  lemma LineIsAligned(line: string, index: nat, low: nat)
    requires IsLineAt(line, index, low)
    ensures IsTabLine(line, low) ==> RenderedIndex(line, low) == Some(index)
  {
    var node: Node, depth: nat :| depth >= low && CaptionsOk(node) && line == LineOf(node, index, depth);
    if depth == low {
      LineShowsIndex(node, index, low);
    } else {
      DeeperIsNoTab(node, index, depth, low);
    }
  }

  lemma DeeperIsNoTab(node: Node, index: nat, depth: nat, low: nat)
    requires depth > low
    ensures !IsTabLine(LineOf(node, index, depth), low)
  {
    TabsAt(depth, low);
    assert Unindented(LineOf(node, index, depth), low)[0] == '\t';
  }

  lemma {:induction false} TabsAt(depth: nat, k: nat)
    requires k < depth
    ensures |Tabs(depth)| == depth && Tabs(depth)[k] == '\t'
  {
    TabsLength(depth);
    if k > 0 { TabsAt(depth - 1, k - 1); }
  }

  lemma ShownIsNumbered(s: State, node: Node, depth: nat, path: Path, from: nat, low: nat)
    requires IsNumbered(s, from, low) && depth >= low && CaptionsOk(node)
    ensures IsNumbered(Shown(s, node, depth, path), from, low)
  {
    assert IsLineAt(LineOf(node, |s.records|, depth), |s.records|, low);
  }

  /** Until something is compacted the walk keeps lines and records in step. */
  lemma {:induction false} WalkedIsNumbered(s: State, node: Node, depth: nat, path: Path, from: nat, low: nat)
    requires IsNumbered(s, from, low) && depth >= low && CaptionsOk(node)
    ensures IsNumbered(Walked(s, node, depth, path, false), from, low)
    decreases node, 1
  {
    hide ShouldElide, IsLeafLine, IsLineAt, LineOf, RecordOf;
    if |s.records| < MAX_NODES && depth <= MAX_DEPTH {
      if ShouldElide(node) {
        WalkedChildrenAreNumbered(s, node.children, depth, path, from, low);
      } else {
        ShownIsNumbered(s, node, depth, path, from, low);
        WalkedChildrenAreNumbered(Shown(s, node, depth, path), node.children, depth + 1, path, from, low);
      }
    }
  }

  lemma {:induction false} WalkedChildrenAreNumbered(s: State, children: seq<Node>, depth: nat, path: Path, from: nat,
      low: nat)
    requires IsNumbered(s, from, low) && depth >= low && forall i :: 0 <= i < |children| ==> CaptionsOk(children[i])
    ensures IsNumbered(WalkedChildren(s, children, depth, path, false), from, low)
    decreases children, 0
  {
    hide IsNumbered, CaptionsOk;
    if children != [] {
      var next := Walked(s, children[0], depth, path + [children[0].slot], false);
      WalkedIsNumbered(s, children[0], depth, path + [children[0].slot], from, low);
      WalkedChildrenAreNumbered(next, children[1..], depth, path, from, low);
    }
  }
}
