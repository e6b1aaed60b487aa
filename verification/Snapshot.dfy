/**
 The accessibility snapshot of the Linux bridge: a bounded walk over the accessibility tree that
 leaves out meaningless wrappers, gives each shown node a record and a line, and compacts long
 rows of browser tabs.
 */
module Snapshot {
  import opened Wrappers
  import opened Numbers
  import opened Text

  const MAX_NODES: nat := 1200
  const MAX_DEPTH: nat := 64
  const MIN_TABS: nat := 10

  /**
   What the bridge reads of an accessible object.  `summary` is the joined text of its subtree
   when that is plain text with at least two snippets; `caption` is what its line says after the
   number; `slot` is the index its parent lists it under, which is not its position when the
   bus lost a sibling.
   */
  datatype Node = Node(
    slot: nat,
    role: string,
    name: string,
    automationId: string,
    value: string,
    selected: bool,
    actions: seq<string>,
    summary: Option<string>,
    caption: string,
    children: seq<Node>)

  type Path = seq<nat>

  datatype Record = Record(
    index: nat,
    path: Path,
    role: string,
    name: string,
    automationId: string,
    value: string,
    selected: bool,
    actions: seq<string>)

  function RecordOf(node: Node, index: nat, path: Path): Record {
    Record(index, path, node.role, node.name, node.automationId, node.value, node.selected, node.actions)
  }

  function RoleKey(node: Node): string {
    Lower(node.role)
  }

  predicate IsWrapper(node: Node) {
    RoleKey(node) in ["panel", "filler", "unknown", "section"]
  }

  function MeaningfulActions(actions: seq<string>): seq<string> {
    if actions == [] then []
    else
      (if Lower(Trim(actions[0])) in
          ["click", "press", "show default ui", "show alternate ui", "show menu", "scroll to visible", "raise"]
       then [] else [actions[0]]) + MeaningfulActions(actions[1..])
  }

  function GenericSummary(node: Node): Option<string> {
    if IsWrapper(node) && node.name == "" && node.value == "" then node.summary else None
  }

  predicate SuppressesChildren(node: Node) {
    && (node.name != "" || node.automationId != "" || Trim(node.value) != "")
    && RoleKey(node) in ["button", "check box", "checkbox", "combo box", "heading", "link", "menu item", "page tab",
                         "push button", "radio button"]
  }

  predicate ShouldElide(node: Node) {
    && IsWrapper(node) && node.name == "" && node.automationId == "" && node.value == ""
    && MeaningfulActions(node.actions) == [] && GenericSummary(node).None?
    && |node.children| <= 1
  }

  /** A shown node whose children are left to its own line. */
  predicate IsLeafLine(node: Node) {
    GenericSummary(node).Some? || SuppressesChildren(node)
  }

  function Tabs(depth: nat): string {
    if depth == 0 then "" else "\t" + Tabs(depth - 1)
  }

  function Decimal(n: nat): (s: string)
    ensures s != "" && IsDigits(s)
  {
    var digit := ['0' + (n % 10) as char];
    if n < 10 then digit else Decimal(n / 10) + digit
  }

  function LineOf(node: Node, index: nat, depth: nat): string {
    Tabs(depth) + (Decimal(index) + node.caption)
  }

  /** The records and lines built so far, and what the walk has noticed of its limits. */
  datatype State = State(records: seq<Record>, lines: seq<string>, truncated: bool, maxDepthReached: bool)

  function Shown(s: State, node: Node, depth: nat, path: Path): State {
    s.(records := s.records + [RecordOf(node, |s.records|, path)],
        lines := s.lines + [LineOf(node, |s.records|, depth)])
  }

  function Limited(s: State, depth: nat): State {
    s.(truncated := true, maxDepthReached := s.maxDepthReached || depth > MAX_DEPTH)
  }

  /** A line's text after `depth` characters. */
  function Unindented(line: string, depth: nat): string {
    if depth <= |line| then line[depth..] else ""
  }

  /** The number of digits at the start. */
  function Digits(s: string): (n: nat)
    ensures n <= |s|
  {
    if s != "" && IsDigit(s[0]) then 1 + Digits(s[1..]) else 0
  }

  /** The number a line shows after its tabs. */
  function RenderedIndex(line: string, depth: nat): Option<nat> {
    var text := Unindented(line, depth);
    if Digits(text) == 0 then None else Some(NumberOf(text[..Digits(text)]))
  }

  /** `word` at the start, up to the end of the text or a space, bracket or comma. */
  predicate StartsWithWord(text: string, word: string) {
    StandsAt(text, 0, word) &&
    (|text| == |word| || text[|word|] in " (," || text[|word|..] == "\n")
  }

  predicate IsTabLine(line: string, depth: nat) {
    var text := Unindented(line, depth);
    var role := Lower(text[Digits(text)..]);
    && StandsAt(line, 0, Tabs(depth))
    && Digits(text) > 0
    && (StartsWithWord(role, " page tab") || StartsWithWord(role, " tab item") || StartsWithWord(role, " tab"))
  }

  /** The record with this index; with repeated indexes, the last. */
  function RecordAt(records: seq<Record>, index: nat): Option<Record> {
    if records == [] then None
    else
      var last := records[|records| - 1];
      if last.index == index then Some(last) else RecordAt(records[..|records| - 1], index)
  }

  predicate IsActiveLine(line: string, depth: nat, records: seq<Record>) {
    || Contains(line, "(selected")
    || (var index := RenderedIndex(line, depth);
        var record := if index.Some? then RecordAt(records, index.value) else None;
        record.Some? && (record.value.selected || Trim(record.value.value) == "1"))
  }

  predicate IsInactiveTab(line: string, depth: nat, records: seq<Record>) {
    IsTabLine(line, depth) && !IsActiveLine(line, depth, records)
  }

  /** The positions of the tab lines from `start` on. */
  function TabsFrom(lines: seq<string>, start: nat, depth: nat): (tabs: seq<nat>)
    requires start <= |lines|
    ensures forall k :: 0 <= k < |tabs| ==> start <= tabs[k] < |lines|
    decreases |lines| - start
  {
    if start == |lines| then []
    else
      var rest := TabsFrom(lines, start + 1, depth);
      if IsTabLine(lines[start], depth) then [start] + rest else rest
  }

  /** The lines from `start` on, without the inactive tabs; and the inactive tabs. */
  function KeptFrom(lines: seq<string>, start: nat, depth: nat, records: seq<Record>): seq<string>
    requires start <= |lines|
    decreases |lines| - start
  {
    if start == |lines| then []
    else
      var rest := KeptFrom(lines, start + 1, depth, records);
      if IsInactiveTab(lines[start], depth, records) then rest else [lines[start]] + rest
  }

  function OmittedFrom(lines: seq<string>, start: nat, depth: nat, records: seq<Record>): seq<string>
    requires start <= |lines|
    decreases |lines| - start
  {
    if start == |lines| then []
    else
      var rest := OmittedFrom(lines, start + 1, depth, records);
      if IsInactiveTab(lines[start], depth, records) then [lines[start]] + rest else rest
  }

  function Without(records: seq<Record>, indexes: set<nat>): seq<Record> {
    if records == [] then []
    else (if records[0].index in indexes then [] else [records[0]]) + Without(records[1..], indexes)
  }

  function IndexesOf(lines: seq<string>, depth: nat): set<nat> {
    set line | line in lines && RenderedIndex(line, depth).Some? :: RenderedIndex(line, depth).value
  }

  function Marker(omitted: nat, depth: nat): string {
    Tabs(depth) + ("... " + Decimal(omitted) + " inactive browser tabs omitted")
  }

  predicate AnyActive(lines: seq<string>, tabs: seq<nat>, depth: nat, records: seq<Record>)
    requires forall k :: 0 <= k < |tabs| ==> tabs[k] < |lines|
  {
    exists k :: 0 <= k < |tabs| && IsActiveLine(lines[tabs[k]], depth, records)
  }

  /** Ten tabs or more, at least one active and at least one not. */
  predicate Compacts(s: State, start: nat, depth: nat)
    requires start <= |s.lines|
  {
    var tabs := TabsFrom(s.lines, start, depth);
    && |tabs| >= MIN_TABS
    && AnyActive(s.lines, tabs, depth, s.records)
    && OmittedFrom(s.lines, start, depth, s.records) != []
  }

  function Compacted(s: State, start: nat, depth: nat): (t: State)
    requires start <= |s.lines|
    ensures start <= |t.lines|
  {
    if !Compacts(s, start, depth) then s
    else
      var first := TabsFrom(s.lines, start, depth)[0];
      var omitted := OmittedFrom(s.lines, start, depth, s.records);
      s.(lines := s.lines[..first] + [Marker(|omitted|, depth)] + KeptFrom(s.lines, first, depth, s.records),
         records := Without(s.records, IndexesOf(omitted, depth)))
  }

  /** The state after visiting `node`. */
  function Walked(s: State, node: Node, depth: nat, path: Path, compactTabs: bool): (t: State)
    ensures |s.lines| <= |t.lines|
    decreases node, 1
  {
    if |s.records| >= MAX_NODES || depth > MAX_DEPTH then Limited(s, depth)
    else if ShouldElide(node) then WalkedChildren(s, node.children, depth, path, compactTabs)
    else
      var shown := Shown(s, node, depth, path);
      if IsLeafLine(node) then shown
      else
        var t := WalkedChildren(shown, node.children, depth + 1, path, compactTabs);
        if compactTabs then Compacted(t, |shown.lines|, depth + 1) else t
  }

  function WalkedChildren(s: State, children: seq<Node>, depth: nat, path: Path, compactTabs: bool): (t: State)
    ensures |s.lines| <= |t.lines|
    decreases children, 0
  {
    if children == [] then s
    else
      WalkedChildren(Walked(s, children[0], depth, path + [children[0].slot], compactTabs),
                     children[1..], depth, path, compactTabs)
  }

  const EMPTY := State([], [], false, false)

  /** `render_accessibility_tree` on the window that `rootPath` leads to. */
  function Rendered(root: Node, rootPath: Path, compactTabs: bool): State {
    Walked(EMPTY, root, 0, rootPath, compactTabs)
  }
}
