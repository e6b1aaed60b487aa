/** The lookup that leads from a record of a snapshot back to its node, and why it finds it. */
module SnapshotLookup {
  import opened Wrappers
  import opened Snapshot

  /** `dict(children)`: the child with this index; the last one, were an index to repeat. */
  function Lookup(children: seq<Node>, index: nat): Option<Node> {
    if children == [] then None
    else if children[|children| - 1].slot == index then Some(children[|children| - 1])
    else Lookup(children[..|children| - 1], index)
  }

  function FindByPath(app: Node, path: Path): Option<Node> {
    if path == [] then Some(app)
    else
      var parent := FindByPath(app, path[..|path| - 1]);
      if parent.None? then None else Lookup(parent.value.children, path[|path| - 1])
  }

  predicate SameSignature(node: Node, saved: Record) {
    node.role == saved.role && node.name == saved.name && node.automationId == saved.automationId &&
        node.actions == saved.actions
  }

  function FindElement(app: Node, saved: Record): Option<Node> {
    var found := FindByPath(app, saved.path);
    if found.Some? && SameSignature(found.value, saved) then found else None
  }

  predicate DistinctSlots(children: seq<Node>) {
    forall i, j :: 0 <= i < j < |children| ==> children[i].slot != children[j].slot
  }

  /** No node lists two children under one index. */
  predicate IsTree(node: Node) {
    DistinctSlots(node.children) && forall i :: 0 <= i < |node.children| ==> IsTree(node.children[i])
  }

  lemma {:induction false} LookupFindsChild(children: seq<Node>, i: nat)
    requires i < |children| && DistinctSlots(children)
    ensures Lookup(children, children[i].slot) == Some(children[i])
  {
    if i < |children| - 1 { LookupFindsChild(children[..|children| - 1], i); }
  }

  /** Child `i` is the last one under this index. */
  ghost predicate IsChildAt(children: seq<Node>, i: nat, index: nat) {
    i < |children| && children[i].slot == index && forall j :: i < j < |children| ==> children[j].slot != index
  }

  lemma {:induction false} LookupIs(children: seq<Node>, index: nat, child: Node)
    ensures Lookup(children, index) == Some(child) <==>
            exists i: nat :: IsChildAt(children, i, index) && children[i] == child
  {
    if children != [] {
      var n := |children| - 1;
      LookupIs(children[..n], index, child);
      if children[n].slot == index {
        assert IsChildAt(children, n, index);
      } else {
        forall i: nat | i < |children|
          ensures IsChildAt(children, i, index) <==> i < n && IsChildAt(children[..n], i, index)
        {
          assert forall j :: 0 <= j < n ==> children[..n][j] == children[j];
        }
      }
    }
  }

  /**
   On any tree, changed or not, a record is looked up by its path, and only a node like the one it was made of is given.
   */
  lemma FoundIff(app: Node, saved: Record, node: Node)
    ensures FindElement(app, saved) == Some(node) <==>
            && FindByPath(app, saved.path) == Some(node)
            && node.role == saved.role && node.name == saved.name
            && node.automationId == saved.automationId && node.actions == saved.actions
  {
  }

  lemma FindChild(app: Node, path: Path, node: Node, i: nat)
    requires FindByPath(app, path) == Some(node) && IsTree(node) && i < |node.children|
    ensures FindByPath(app, path + [node.children[i].slot]) == Some(node.children[i])
  {
    LookupFindsChild(node.children, i);
    assert (path + [node.children[i].slot])[..|path|] == path;
  }

  /** The record's path leads from `app` to the node it was made of. */
  predicate RecordOk(app: Node, r: Record) {
    var found := FindByPath(app, r.path);
    found.Some? && r == RecordOf(found.value, r.index, r.path)
  }

  predicate RecordsOk(app: Node, records: seq<Record>) {
    forall k :: 0 <= k < |records| ==> RecordOk(app, records[k])
  }

  lemma {:induction false} WithoutKeepsOk(app: Node, records: seq<Record>, indexes: set<nat>)
    requires RecordsOk(app, records)
    ensures RecordsOk(app, Without(records, indexes))
  {
    if records != [] {
      assert RecordOk(app, records[0]);
      WithoutKeepsOk(app, records[1..], indexes);
    }
  }

  /** Through elision, truncation and compaction, every record keeps a path to its node. */
  lemma {:induction false} WalkedRecordsOk(app: Node, s: State, node: Node, depth: nat, path: Path, compactTabs: bool)
    requires FindByPath(app, path) == Some(node) && IsTree(node) && RecordsOk(app, s.records)
    ensures RecordsOk(app, Walked(s, node, depth, path, compactTabs).records)
    decreases node, 1
  {
    hide ShouldElide, IsLeafLine, Compacts, IndexesOf, OmittedFrom;
    if |s.records| >= MAX_NODES || depth > MAX_DEPTH {
    } else if ShouldElide(node) {
      WalkedChildrenRecordsOk(app, s, node, 0, depth, path, compactTabs);
    } else {
      var shown := Shown(s, node, depth, path);
      assert RecordOk(app, RecordOf(node, |s.records|, path));
      if !IsLeafLine(node) {
        WalkedChildrenRecordsOk(app, shown, node, 0, depth + 1, path, compactTabs);
        var t := WalkedChildren(shown, node.children, depth + 1, path, compactTabs);
        if compactTabs && Compacts(t, |shown.lines|, depth + 1) {
          WithoutKeepsOk(app, t.records,
              IndexesOf(OmittedFrom(t.lines, |shown.lines|, depth + 1, t.records), depth + 1));
        }
      }
    }
  }

  lemma {:induction false} WalkedChildrenRecordsOk(app: Node, s: State, node: Node, i: nat, depth: nat, path: Path,
      compactTabs: bool)
    requires FindByPath(app, path) == Some(node) && IsTree(node) && RecordsOk(app, s.records) && i <= |node.children|
    ensures RecordsOk(app, WalkedChildren(s, node.children[i..], depth, path, compactTabs).records)
    decreases node, 0, |node.children| - i
  {
    if i < |node.children| {
      var child := node.children[i];
      assert node.children[i..][0] == child && node.children[i..][1..] == node.children[i + 1..];
      FindChild(app, path, node, i);
      WalkedRecordsOk(app, s, child, depth, path + [child.slot], compactTabs);
      WalkedChildrenRecordsOk(app, Walked(s, child, depth, path + [child.slot], compactTabs), node, i + 1, depth, path,
          compactTabs);
    }
  }

  /** Looking up any record of a snapshot in the unchanged tree gives the very node it describes. */
  lemma EveryRecordIsFound(app: Node, rootPath: Path, compactTabs: bool, k: nat)
    requires FindByPath(app, rootPath).Some? && IsTree(FindByPath(app, rootPath).value)
    requires k < |Rendered(FindByPath(app, rootPath).value, rootPath, compactTabs).records|
    ensures var r := Rendered(FindByPath(app, rootPath).value, rootPath, compactTabs).records[k];
            var found := FindElement(app, r);
            found.Some? && found == FindByPath(app, r.path) && r == RecordOf(found.value, r.index, r.path)
  {
    var root := FindByPath(app, rootPath).value;
    WalkedRecordsOk(app, EMPTY, root, 0, rootPath, compactTabs);
    assert RecordOk(app, Rendered(root, rootPath, compactTabs).records[k]);
  }

  method FindByPathLoop(app: Node, path: Path) returns (found: Option<Node>)
    ensures found == FindByPath(app, path)
  {
    var node := app;
    for i := 0 to |path|
      invariant FindByPath(app, path[..i]) == Some(node)
    {
      var child := Lookup(node.children, path[i]);
      assert path[..i + 1][..i] == path[..i];
      if child.None? {
        LostPath(app, path, i + 1);
        return None;
      }
      node := child.value;
    }
    assert path[..|path|] == path;
    found := Some(node);
  }

  /** Below a missing child nothing is found. */
  lemma {:induction false} LostPath(app: Node, path: Path, n: nat)
    requires n <= |path| && FindByPath(app, path[..n]).None?
    ensures FindByPath(app, path).None?
  {
    if n == |path| {
      assert path[..n] == path;
    } else {
      assert path[..|path| - 1][..n] == path[..n];
      LostPath(app, path[..|path| - 1], n);
    }
  }
}
