/**
 A tree with two rows of tabs.  The first row is compacted while the walk goes on; that shortens the
 list that numbers records, so the second row uses an index of the first again, and its compaction
 takes away the record of a tab whose line stays.
 */
module TwoTabLists {
  import opened Wrappers
  import opened Numbers
  import opened Text
  import opened Snapshot
  import opened TabCompaction
  import opened CompactedWalk

  function Tab(slot: nat, active: bool): Node {
    Node(slot, "page tab", "", "", "", active, [], None, " page tab", [])
  }

  function Frame(slot: nat, children: seq<Node>): Node {
    Node(slot, "frame", "", "", "", false, [], None, " frame", children)
  }

  /** `n` tabs, the last of them active. */
  function Row(n: nat, slot: nat): seq<Node> {
    if n == 0 then [] else [Tab(slot, n == 1)] + Row(n - 1, slot + 1)
  }

  /** A window with two rows of `n` tabs. */
  function Window(n: nat): Node {
    Frame(0, [Frame(0, Row(n, 0)), Frame(1, Row(n, 0))])
  }

  // ---- The tabs' lines and records

  function TabLine(index: nat, depth: nat): string {
    Tabs(depth) + (Decimal(index) + " page tab")
  }

  function TabLines(index: nat, n: nat, depth: nat): (lines: seq<string>)
    ensures |lines| == n
    decreases n
  {
    if n == 0 then [] else [TabLine(index, depth)] + TabLines(index + 1, n - 1, depth)
  }

  function TabRecords(index: nat, n: nat, slot: nat, path: Path): (records: seq<Record>)
    ensures |records| == n
    decreases n
  {
    if n == 0 then []
    else [RecordOf(Tab(slot, n == 1), index, path + [slot])] + TabRecords(index + 1, n - 1, slot + 1, path)
  }

  lemma {:induction false} LinesAt(index: nat, n: nat, depth: nat, k: nat)
    requires k < n
    ensures TabLines(index, n, depth)[k] == TabLine(index + k, depth)
    decreases n
  {
    hide TabLine;
    if k > 0 { LinesAt(index + 1, n - 1, depth, k - 1); }
  }

  lemma {:induction false} RecordsAt(index: nat, n: nat, slot: nat, path: Path, k: nat)
    requires k < n
    ensures var r := TabRecords(index, n, slot, path)[k];
            r.index == index + k && r.selected == (k + 1 == n) && r.value == ""
    decreases n
  {
    if k > 0 { RecordsAt(index + 1, n - 1, slot + 1, path, k - 1); }
  }

  lemma {:induction false} LowerKeeps(s: string)
    requires forall i :: 0 <= i < |s| ==> !('A' <= s[i] <= 'Z')
    ensures Lower(s) == s
  {
    if s != "" {
      LowerKeeps(s[1..]);
      assert [s[0]] + s[1..] == s;
    }
  }

  lemma {:induction false} TabsAreTabs(depth: nat)
    ensures forall i :: 0 <= i < |Tabs(depth)| ==> Tabs(depth)[i] == '\t'
  {
    if depth > 0 { TabsAreTabs(depth - 1); }
  }

  lemma TextOf(index: nat, depth: nat)
    ensures Unindented(TabLine(index, depth), depth) == Decimal(index) + " page tab"
    ensures StandsAt(TabLine(index, depth), 0, Tabs(depth))
    ensures Digits(Unindented(TabLine(index, depth), depth)) == |Decimal(index)|
  {
    hide Decimal, Tabs, Digits;
    var line, text := TabLine(index, depth), Decimal(index) + " page tab";
    TabsLength(depth);
    assert line[depth..] == text;
    assert line[..depth] == Tabs(depth);
    DigitsOf(Decimal(index), " page tab");
  }

  lemma RoleStarts(role: string)
    requires role == " page tab"
    ensures StartsWithWord(Lower(role), " page tab")
  {
    LowerKeeps(role);
    assert role[0..|role|] == role;
    assert role[|role|..] == "";
  }

  lemma TabLineIs(index: nat, depth: nat)
    ensures IsTabLine(TabLine(index, depth), depth)
    ensures RenderedIndex(TabLine(index, depth), depth) == Some(index)
  {
    hide Decimal, Tabs, Digits, Lower, NumberOf, StandsAt, StartsWithWord, TabLine, Unindented;
    var role := " page tab";
    var text := Decimal(index) + role;
    TextOf(index, depth);
    assert text[|Decimal(index)|..] == role;
    assert text[..|Decimal(index)|] == Decimal(index);
    RoleStarts(role);
    NumberInvertsDecimal(index);
  }

  lemma DoesNotContain(s: string, part: string)
    requires part != "" && part[0] !in s
    ensures !Contains(s, part)
  {
    forall i: nat | i <= |s| ensures !StandsAt(s, i, part) {
      if i + |part| <= |s| { assert s[i..i + |part|][0] == s[i] && s[i] in s; }
    }
  }

  lemma TabLineIsNotMarked(index: nat, depth: nat)
    ensures !Contains(TabLine(index, depth), "(selected")
  {
    hide Decimal, Tabs, Contains;
    TabsAreTabs(depth);
    var role := " page tab";
    assert forall i :: 0 <= i < |role| ==> role[i] != '(';
    assert forall i :: 0 <= i < |Decimal(index)| ==> IsDigit(Decimal(index)[i]);
    DoesNotContain(TabLine(index, depth), "(selected");
  }

  /** The record of a tab in the last row is the one found under its index. */
  lemma {:induction false} TabRecordFound(before: seq<Record>, index: nat, n: nat, slot: nat, path: Path, k: nat,
      m: nat)
    requires k < m <= n
    ensures RecordAt(before + TabRecords(index, n, slot, path)[..m], index + k) ==
            Some(TabRecords(index, n, slot, path)[k])
    decreases m
  {
    var row := TabRecords(index, n, slot, path);
    var all := before + row[..m];
    RecordsAt(index, n, slot, path, m - 1);
    RecordsAt(index, n, slot, path, k);
    assert all[|all| - 1] == row[m - 1];
    if k < m - 1 {
      assert all[..|all| - 1] == before + row[..m - 1];
      TabRecordFound(before, index, n, slot, path, k, m - 1);
    }
  }

  lemma TabIsActiveIff(before: seq<Record>, index: nat, n: nat, slot: nat, path: Path, k: nat, depth: nat)
    requires k < n
    ensures IsActiveLine(TabLine(index + k, depth), depth, before + TabRecords(index, n, slot, path)) <==> k + 1 == n
  {
    hide TabLine, RenderedIndex, IsTabLine, Contains, TabRecords, RecordAt;
    var row := TabRecords(index, n, slot, path);
    TabLineIs(index + k, depth);
    TabLineIsNotMarked(index + k, depth);
    TabRecordFound(before, index, n, slot, path, k, n);
    assert row[..n] == row;
    RecordsAt(index, n, slot, path, k);
    assert Trim("") != "1" by { assert TrimEnd(TrimStart("")) == ""; }
  }

  // ---- Walking one row

  lemma TabsAreShown(slot: nat, active: bool, role: string)
    requires role == "page tab"
    ensures !ShouldElide(Tab(slot, active)) && !IsLeafLine(Tab(slot, active))
  {
    LowerIs(role);
    hide Lower;
    assert TrimEnd(TrimStart("")) == "";
    assert |RoleKey(Tab(slot, active))| == 8;
  }

  lemma FramesAreShown(slot: nat, children: seq<Node>, role: string)
    requires role == "frame"
    ensures !ShouldElide(Frame(slot, children)) && !IsLeafLine(Frame(slot, children))
  {
    LowerIs(role);
    hide Lower;
    assert TrimEnd(TrimStart("")) == "";
    assert |RoleKey(Frame(slot, children))| == 5 && RoleKey(Frame(slot, children))[0] == 'f';
  }

  lemma NothingToCompact(s: State, depth: nat)
    ensures Compacted(s, |s.lines|, depth) == s
  {
  }

  lemma TabWalk(s: State, slot: nat, active: bool, depth: nat, path: Path)
    requires |s.records| < MAX_NODES && depth <= MAX_DEPTH
    ensures Walked(s, Tab(slot, active), depth, path, true) ==
            s.(records := s.records + [RecordOf(Tab(slot, active), |s.records|, path)],
               lines := s.lines + [TabLine(|s.records|, depth)])
  {
    TabsAreShown(slot, active, "page tab");
    hide ShouldElide, IsLeafLine;
    var shown := Shown(s, Tab(slot, active), depth, path);
    NothingToCompact(shown, depth + 1);
    assert WalkedChildren(shown, [], depth + 1, path, true) == shown;
  }

  /** The state after a row: `before` and what the row has added. */
  function WithRow(before: State, index: nat, n: nat, slot: nat, depth: nat, path: Path): State {
    before.(records := before.records + TabRecords(index, n, slot, path),
            lines := before.lines + TabLines(index, n, depth))
  }

  /** The state after one tab. */
  function WithTab(s: State, slot: nat, active: bool, depth: nat, path: Path): State {
    s.(records := s.records + [RecordOf(Tab(slot, active), |s.records|, path + [slot])],
       lines := s.lines + [TabLine(|s.records|, depth)])
  }

  lemma RowStep(s: State, n: nat, slot: nat, depth: nat, path: Path)
    requires 0 < n && |s.records| < MAX_NODES && depth <= MAX_DEPTH
    ensures WalkedChildren(s, Row(n, slot), depth, path, true) ==
            WalkedChildren(WithTab(s, slot, n == 1, depth, path), Row(n - 1, slot + 1), depth, path, true)
  {
    hide Walked, TabLine, RecordOf;
    TabWalk(s, slot, n == 1, depth, path + [slot]);
    assert Row(n, slot)[1..] == Row(n - 1, slot + 1);
  }

  lemma TabThenRow(s: State, n: nat, slot: nat, depth: nat, path: Path)
    requires 0 < n
    ensures WithRow(WithTab(s, slot, n == 1, depth, path), |s.records| + 1, n - 1, slot + 1, depth, path) ==
            WithRow(s, |s.records|, n, slot, depth, path)
  {
    hide TabLine, RecordOf;
    var i := |s.records|;
    Regrouped(s.records, RecordOf(Tab(slot, n == 1), i, path + [slot]), TabRecords(i + 1, n - 1, slot + 1, path));
    Regrouped(s.lines, TabLine(i, depth), TabLines(i + 1, n - 1, depth));
  }

  lemma EmptyRow(s: State, slot: nat, depth: nat, path: Path)
    ensures WalkedChildren(s, Row(0, slot), depth, path, true) == s == WithRow(s, |s.records|, 0, slot, depth, path)
  {
    assert s.records + [] == s.records && s.lines + [] == s.lines;
  }

  lemma {:induction false} RowWalk(s: State, n: nat, slot: nat, depth: nat, path: Path)
    requires |s.records| + n <= MAX_NODES && depth <= MAX_DEPTH
    ensures WalkedChildren(s, Row(n, slot), depth, path, true) == WithRow(s, |s.records|, n, slot, depth, path)
    decreases n
  {
    hide WalkedChildren, Row, WithRow, TabLine, RecordOf;
    if n == 0 {
      EmptyRow(s, slot, depth, path);
    } else {
      RowStep(s, n, slot, depth, path);
      RowWalk(WithTab(s, slot, n == 1, depth, path), n - 1, slot + 1, depth, path);
      TabThenRow(s, n, slot, depth, path);
    }
  }

  lemma Regrouped<T>(a: seq<T>, x: T, b: seq<T>)
    ensures (a + [x]) + b == a + ([x] + b)
  {
  }

  // ---- Compacting one row

  lemma {:induction false} RowParts(before: State, index: nat, n: nat, slot: nat, depth: nat, path: Path, k: nat)
    requires 0 < n && k <= n
    ensures var s := WithRow(before, index, n, slot, depth, path);
            var at := |before.lines| + k;
            && at <= |s.lines|
            && |TabsFrom(s.lines, at, depth)| == n - k
            && (k < n ==> TabsFrom(s.lines, at, depth)[0] == at)
            && (k < n ==> KeptFrom(s.lines, at, depth, s.records) == [TabLine(index + n - 1, depth)])
            && (k < n ==> OmittedFrom(s.lines, at, depth, s.records) == TabLines(index + k, n - 1 - k, depth))
            && (k == n ==> KeptFrom(s.lines, at, depth, s.records) == [])
            && (k == n ==> OmittedFrom(s.lines, at, depth, s.records) == [])
    decreases n - k
  {
    hide IsTabLine, IsInactiveTab, TabLine, TabRecords;
    if k < n {
      RowParts(before, index, n, slot, depth, path, k + 1);
      RowLine(before, index, n, slot, depth, path, k);
    }
  }

  /** One line of the row: a tab, and inactive unless it is the last. */
  lemma RowLine(before: State, index: nat, n: nat, slot: nat, depth: nat, path: Path, k: nat)
    requires k < n
    ensures var s := WithRow(before, index, n, slot, depth, path);
            var line := TabLine(index + k, depth);
            && s.lines[|before.lines| + k] == line && IsTabLine(line, depth)
            && (IsInactiveTab(line, depth, s.records) <==> k + 1 < n)
  {
    hide IsTabLine, IsActiveLine, TabLine, TabLines, TabRecords;
    LinesAt(index, n, depth, k);
    TabLineIs(index + k, depth);
    TabIsActiveIff(before.records, index, n, slot, path, k, depth);
  }

  lemma LinesShow(index: nat, n: nat, depth: nat, line: string)
    ensures line in TabLines(index, n, depth) <==>
            exists j: nat :: index <= j < index + n && line == TabLine(j, depth)
  {
    hide TabLine, TabLines;
    if line in TabLines(index, n, depth) {
      var k: nat :| k < n && TabLines(index, n, depth)[k] == line;
      LinesAt(index, n, depth, k);
    }
    if j: nat :| index <= j < index + n && line == TabLine(j, depth) {
      LinesAt(index, n, depth, j - index);
      assert TabLines(index, n, depth)[j - index] == line;
    }
  }

  /** The indexes that these lines show. */
  ghost predicate AreIndexes(indexes: set<nat>, index: nat, n: nat) {
    forall k: nat :: k in indexes <==> index <= k < index + n
  }

  lemma IndexesAre(index: nat, n: nat, depth: nat)
    ensures AreIndexes(IndexesOf(TabLines(index, n, depth), depth), index, n)
  {
    hide RenderedIndex, TabLine, TabLines;
    var lines := TabLines(index, n, depth);
    forall k: nat ensures k in IndexesOf(lines, depth) <==> index <= k < index + n {
      if k in IndexesOf(lines, depth) {
        var line :| line in lines && RenderedIndex(line, depth) == Some(k);
        LinesShow(index, n, depth, line);
        var j: nat :| index <= j < index + n && line == TabLine(j, depth);
        TabLineIs(j, depth);
      }
      if index <= k < index + n {
        TabLineIs(k, depth);
        LinesShow(index, n, depth, TabLine(k, depth));
      }
    }
  }

  lemma {:induction false} WithoutConcat(a: seq<Record>, b: seq<Record>, indexes: set<nat>)
    ensures Without(a + b, indexes) == Without(a, indexes) + Without(b, indexes)
  {
    if a == [] {
      assert a + b == b;
    } else {
      assert (a + b)[1..] == a[1..] + b;
      WithoutConcat(a[1..], b, indexes);
    }
  }

  /** Of the row's records only the active tab's is left. */
  lemma {:induction false} RowWithout(index: nat, n: nat, slot: nat, path: Path, indexes: set<nat>)
    requires n > 0 && forall k: nat :: index <= k < index + n ==> (k in indexes <==> k < index + n - 1)
    ensures |Without(TabRecords(index, n, slot, path), indexes)| == 1
    ensures Without(TabRecords(index, n, slot, path), indexes)[0].index == index + n - 1
    decreases n
  {
    var row := TabRecords(index, n, slot, path);
    if n == 1 {
      assert row[1..] == [];
    } else {
      assert row[1..] == TabRecords(index + 1, n - 1, slot + 1, path);
      RowWithout(index + 1, n - 1, slot + 1, path, indexes);
    }
  }

  /** The indexes of the inactive tabs of a row. */
  function InactiveIndexes(index: nat, n: nat, depth: nat): set<nat>
    requires n > 0
  {
    IndexesOf(TabLines(index, n - 1, depth), depth)
  }

  /** What compacting a row leaves: `before`, a marker, and the active tab's line and record. */
  ghost predicate IsCompactedRow(t: State, before: State, index: nat, n: nat, depth: nat)
    requires n > 0
  {
    && t.lines == before.lines + [Marker(n - 1, depth), TabLine(index + n - 1, depth)]
    && |t.records| > 0
    && t.records[..|t.records| - 1] == Without(before.records, InactiveIndexes(index, n, depth))
    && t.records[|t.records| - 1].index == index + n - 1
  }

  lemma RowCompacts(before: State, index: nat, n: nat, slot: nat, depth: nat, path: Path)
    requires n >= MIN_TABS
    ensures var s := WithRow(before, index, n, slot, depth, path);
            Compacts(s, |before.lines|, depth) &&
            IsCompactedRow(Compacted(s, |before.lines|, depth), before, index, n, depth)
  {
    hide TabLine, TabLines, TabRecords, Marker, IsActiveLine, IsTabLine, TabsFrom, KeptFrom, OmittedFrom, IndexesOf,
        Without, AnyActive, Compacted;
    var s, start := WithRow(before, index, n, slot, depth, path), |before.lines|;
    var row, indexes := TabRecords(index, n, slot, path), InactiveIndexes(index, n, depth);
    RowParts(before, index, n, slot, depth, path, 0);
    RowIsActive(before, index, n, slot, depth, path);
    CompactedIs(s, start, depth);
    WithoutConcat(before.records, row, indexes);
    IndexesAre(index, n - 1, depth);
    RowWithout(index, n, slot, path, indexes);
    assert s.lines[..start] == before.lines;
  }

  lemma RowIsActive(before: State, index: nat, n: nat, slot: nat, depth: nat, path: Path)
    requires n > 0
    ensures var s := WithRow(before, index, n, slot, depth, path);
            AnyActive(s.lines, TabsFrom(s.lines, |before.lines|, depth), depth, s.records)
  {
    hide IsActiveLine, IsTabLine, TabLine, TabRecords;
    var s := WithRow(before, index, n, slot, depth, path);
    var last := |before.lines| + n - 1;
    var tabs := TabsFrom(s.lines, |before.lines|, depth);
    LinesAt(index, n, depth, n - 1);
    assert s.lines[last] == TabLine(index + n - 1, depth);
    TabLineIs(index + n - 1, depth);
    TabIsActiveIff(before.records, index, n, slot, path, n - 1, depth);
    TabsAreTheTabLines(s.lines, |before.lines|, depth);
    assert last in tabs;
  }

  // ---- The window

  /** A frame with a row of tabs: its own line and record, and what is left of the row. */
  lemma FrameWalk(s: State, slot: nat, n: nat, depth: nat, path: Path)
    requires n >= MIN_TABS && |s.records| + 1 + n <= MAX_NODES && depth < MAX_DEPTH
    ensures var t, i := Walked(s, Frame(slot, Row(n, 0)), depth, path, true), |s.records|;
            var shown := Shown(s, Frame(slot, Row(n, 0)), depth, path);
            && WalkedChildren(shown, Row(n, 0), depth + 1, path, true) == WithRow(shown, i + 1, n, 0, depth + 1, path)
            && t == Compacted(WithRow(shown, i + 1, n, 0, depth + 1, path), |shown.lines|, depth + 1)
  {
    FramesAreShown(slot, Row(n, 0), "frame");
    hide ShouldElide, IsLeafLine, Compacted, TabLines, TabRecords;
    RowWalk(Shown(s, Frame(slot, Row(n, 0)), depth, path), n, 0, depth + 1, path);
  }

  /** Compacting the row of a frame. */
  lemma FrameCompacts(s: State, slot: nat, n: nat, depth: nat, path: Path)
    requires n >= MIN_TABS && |s.records| + 1 + n <= MAX_NODES && depth < MAX_DEPTH
    ensures IsCompactedRow(Walked(s, Frame(slot, Row(n, 0)), depth, path, true),
                           Shown(s, Frame(slot, Row(n, 0)), depth, path), |s.records| + 1, n, depth + 1)
  {
    hide Walked, WalkedChildren, Compacts, IsCompactedRow, RecordOf, LineOf;
    FrameWalk(s, slot, n, depth, path);
    RowCompacts(Shown(s, Frame(slot, Row(n, 0)), depth, path), |s.records| + 1, n, 0, depth + 1, path);
  }

  lemma {:induction false} NothingGoes(records: seq<Record>, indexes: set<nat>)
    requires forall k :: 0 <= k < |records| ==> records[k].index !in indexes
    ensures Without(records, indexes) == records
  {
    if records != [] { NothingGoes(records[1..], indexes); }
  }

  /** After the first row: the window, the frame, and the active tab, whose index is `n + 1`. */
  ghost predicate AfterFirstRow(t: State, n: nat) {
    && |t.records| == 3 && t.records[0].index == 0 && t.records[1].index == 1 && t.records[2].index == n + 1
    && |t.lines| == 4 && t.lines[3] == TabLine(n + 1, 2)
  }

  lemma FirstRow(root: Node, n: nat, rootPath: Path)
    requires MIN_TABS <= n <= MAX_NODES - 4
    ensures AfterFirstRow(Walked(Shown(EMPTY, root, 0, rootPath), Frame(0, Row(n, 0)), 1, rootPath + [0], true), n)
  {
    hide Walked, TabLine, Marker, LineOf, IndexesOf, Without, TabLines;
    var s := Shown(EMPTY, root, 0, rootPath);
    var frame, path := Frame(0, Row(n, 0)), rootPath + [0];
    var shown := Shown(s, frame, 1, path);
    FrameCompacts(s, 0, n, 1, path);
    IndexesAre(2, n - 1, 2);
    NothingGoes(shown.records, InactiveIndexes(2, n, 2));
    var t := Walked(s, frame, 1, path, true);
    assert t.records[..|t.records| - 1] == shown.records;
    assert |shown.records| == 2 && |shown.lines| == 2;
  }

  /** After the second row the active tab of the first still has its line, and its record is gone. */
  ghost predicate AfterSecondRow(t: State, n: nat) {
    && |t.lines| == 7 && t.lines[3] == TabLine(n + 1, 2)
    && forall r :: r in t.records ==> r.index != n + 1
  }

  lemma SecondRow(s: State, n: nat, path: Path)
    requires MIN_TABS <= n <= MAX_NODES - 4 && AfterFirstRow(s, n)
    ensures AfterSecondRow(Walked(s, Frame(1, Row(n, 0)), 1, path, true), n)
  {
    hide Walked, TabLine, Marker, LineOf, IndexesOf, Without, TabLines;
    var frame := Frame(1, Row(n, 0));
    var shown := Shown(s, frame, 1, path);
    var t := Walked(s, frame, 1, path, true);
    FrameCompacts(s, 1, n, 1, path);
    IndexesAre(4, n - 1, 2);
    var last := |t.records| - 1;
    forall r | r in t.records ensures r.index != n + 1 {
      var k :| 0 <= k < |t.records| && t.records[k] == r;
      if k < last {
        assert t.records[..last][k] == r;
        WithoutIff(shown.records, InactiveIndexes(4, n, 2), r);
      }
    }
  }

  /**
   A window with two rows of tabs, the last of each active.  In its rendering the line of the first
   row's active tab is still there, and no record has the index that this line shows.
   */
  lemma KeptTabLosesRecord(n: nat, rootPath: Path)
    requires MIN_TABS <= n <= MAX_NODES - 4
    ensures var t := Rendered(Window(n), rootPath, true);
            && TabLine(n + 1, 2) in t.lines && RenderedIndex(TabLine(n + 1, 2), 2) == Some(n + 1)
            && RecordAt(t.records, n + 1).None?
  {
    hide TabLine, RenderedIndex, LineOf, RecordOf, AfterFirstRow, RecordAt, Row, Rendered, Walked, WalkedChildren,
        Compacted;
    var root := Window(n);
    FrameRendered(root.children, rootPath);
    var s := Shown(EMPTY, root, 0, rootPath);
    FirstRow(root, n, rootPath);
    var t := Walked(s, Frame(0, Row(n, 0)), 1, rootPath + [0], true);
    SecondRow(t, n, rootPath + [1]);
    var u := Walked(t, Frame(1, Row(n, 0)), 1, rootPath + [1], true);
    TwoChildren(s, Frame(0, Row(n, 0)), Frame(1, Row(n, 0)), 1, rootPath);
    FewLines(u, 1, 1);
    TabLineIs(n + 1, 2);
    RecordAtIff(u.records, n + 1);
  }

  lemma FrameRendered(children: seq<Node>, rootPath: Path)
    ensures var s := Shown(EMPTY, Frame(0, children), 0, rootPath);
            |s.lines| == 1 &&
            Rendered(Frame(0, children), rootPath, true) ==
            Compacted(WalkedChildren(s, children, 1, rootPath, true), 1, 1)
  {
    FramesAreShown(0, children, "frame");
    hide ShouldElide, IsLeafLine, LineOf, RecordOf, Compacted;
  }

  lemma TwoChildren(s: State, a: Node, b: Node, depth: nat, path: Path)
    ensures WalkedChildren(s, [a, b], depth, path, true) ==
            Walked(Walked(s, a, depth, path + [a.slot], true), b, depth, path + [b.slot], true)
  {
    hide Walked;
    var next := Walked(s, a, depth, path + [a.slot], true);
    var last := Walked(next, b, depth, path + [b.slot], true);
    assert [b][1..] == [];
    assert WalkedChildren(next, [b], depth, path, true) == WalkedChildren(last, [], depth, path, true) == last;
    assert [a, b][1..] == [b];
  }

  /** With fewer than ten lines there is nothing to compact. */
  lemma FewLines(s: State, start: nat, depth: nat)
    requires start <= |s.lines| < MIN_TABS
    ensures Compacted(s, start, depth) == s
  {
    hide IsTabLine;
    TabsCount(s.lines, start, depth);
    CompactedIs(s, start, depth);
  }

  lemma {:induction false} TabsCount(lines: seq<string>, start: nat, depth: nat)
    requires start <= |lines|
    ensures |TabsFrom(lines, start, depth)| <= |lines| - start
    decreases |lines| - start
  {
    hide IsTabLine;
    if start < |lines| { TabsCount(lines, start + 1, depth); }
  }
}
