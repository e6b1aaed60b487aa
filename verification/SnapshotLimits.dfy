/**
 What the limits on nodes and depth leave of the rendering, and when the marks for them are set.
 */
module SnapshotLimits {
  import opened Snapshot

  /** One step of the walk without its limits: a wrapper left out, a node shown, or a node too deep to look at. */
  datatype Visit = Elided | TooDeep | Entry(node: Node, depth: nat, path: Path)

  /** The visits of a walk that shows any number of nodes, in order. */
  function Visits(node: Node, depth: nat, path: Path): (vs: seq<Visit>)
    ensures vs != []
    decreases node, 1
  {
    if depth > MAX_DEPTH then [TooDeep]
    else if ShouldElide(node) then [Elided] + VisitsOfAll(node.children, depth, path)
    else [Entry(node, depth, path)] + if IsLeafLine(node) then [] else VisitsOfAll(node.children, depth + 1, path)
  }

  function VisitsOfAll(children: seq<Node>, depth: nat, path: Path): seq<Visit>
    decreases children, 0
  {
    if children == [] then []
    else Visits(children[0], depth, path + [children[0].slot]) + VisitsOfAll(children[1..], depth, path)
  }

  /** The complete rendering, whatever its size and depth. */
  function Rendering(node: Node, depth: nat, path: Path): seq<Visit>
    decreases node, 1
  {
    if ShouldElide(node) then [Elided] + RenderingOfAll(node.children, depth, path)
    else [Entry(node, depth, path)] + if IsLeafLine(node) then [] else RenderingOfAll(node.children, depth + 1, path)
  }

  function RenderingOfAll(children: seq<Node>, depth: nat, path: Path): seq<Visit>
    decreases children, 0
  {
    if children == [] then []
    else Rendering(children[0], depth, path + [children[0].slot]) + RenderingOfAll(children[1..], depth, path)
  }

  function Entries(visits: seq<Visit>): (entries: seq<Visit>)
    ensures forall k :: 0 <= k < |entries| ==> entries[k].Entry?
  {
    if visits == [] then []
    else (if visits[0].Entry? then [visits[0]] else []) + Entries(visits[1..])
  }

  lemma {:induction false} EntriesOfConcat(a: seq<Visit>, b: seq<Visit>)
    ensures Entries(a + b) == Entries(a) + Entries(b)
  {
    if a == [] {
      assert a + b == b;
    } else {
      assert (a + b)[0] == a[0] && (a + b)[1..] == a[1..] + b;
      EntriesOfConcat(a[1..], b);
    }
  }

  lemma EntriesOfFirst(v: Visit, rest: seq<Visit>)
    ensures Entries([v] + rest) == if v.Entry? then [v] + Entries(rest) else Entries(rest)
  {
    assert ([v] + rest)[1..] == rest;
  }

  lemma NoEntries()
    ensures Entries([]) == []
  {
  }

  /** What one visit does to the snapshot, once the node limit is in force. */
  function Visited(s: State, v: Visit): State {
    if |s.records| >= MAX_NODES || v.TooDeep? then s.(truncated := true)
    else if v.Entry? then Shown(s, v.node, v.depth, v.path)
    else s
  }

  function VisitedAll(s: State, visits: seq<Visit>): State
    decreases |visits|
  {
    if visits == [] then s else VisitedAll(Visited(s, visits[0]), visits[1..])
  }

  lemma {:induction false} VisitedConcat(s: State, a: seq<Visit>, b: seq<Visit>)
    ensures VisitedAll(s, a + b) == VisitedAll(VisitedAll(s, a), b)
    decreases |a|
  {
    if a == [] {
      assert a + b == b;
    } else {
      assert (a + b)[0] == a[0] && (a + b)[1..] == a[1..] + b;
      VisitedConcat(Visited(s, a[0]), a[1..], b);
    }
  }

  lemma {:induction false} VisitedWhenFull(s: State, visits: seq<Visit>)
    requires |s.records| >= MAX_NODES && visits != []
    ensures VisitedAll(s, visits) == s.(truncated := true)
    decreases |visits|
  {
    if |visits| > 1 { VisitedWhenFull(Visited(s, visits[0]), visits[1..]); }
    else { assert VisitedAll(Visited(s, visits[0]), visits[1..]) == Visited(s, visits[0]); }
  }

  /** Equal up to `maxDepthReached`, which a full walk may not get round to noticing. */
  predicate SameSnapshot(s: State, t: State) {
    s.records == t.records && s.lines == t.lines && s.truncated == t.truncated
  }

  lemma {:induction false} WalkedVisits(s: State, s': State, node: Node, depth: nat, path: Path)
    requires SameSnapshot(s, s')
    ensures SameSnapshot(Walked(s, node, depth, path, false), VisitedAll(s', Visits(node, depth, path)))
    decreases node, 1
  {
    hide ShouldElide, IsLeafLine;
    var vs := Visits(node, depth, path);
    if |s.records| >= MAX_NODES {
      VisitedWhenFull(s', vs);
    } else if depth > MAX_DEPTH {
      assert VisitedAll(Visited(s', vs[0]), vs[1..]) == Visited(s', vs[0]);
    } else if ShouldElide(node) {
      assert vs[1..] == VisitsOfAll(node.children, depth, path);
      WalkedVisitsOfAll(s, s', node.children, depth, path);
    } else {
      var shown' := Shown(s', node, depth, path);
      if IsLeafLine(node) {
        assert VisitedAll(Visited(s', vs[0]), vs[1..]) == shown';
      } else {
        assert vs[1..] == VisitsOfAll(node.children, depth + 1, path);
        WalkedVisitsOfAll(Shown(s, node, depth, path), shown', node.children, depth + 1, path);
      }
    }
  }

  lemma {:induction false} WalkedVisitsOfAll(s: State, s': State, children: seq<Node>, depth: nat, path: Path)
    requires SameSnapshot(s, s')
    ensures SameSnapshot(WalkedChildren(s, children, depth, path, false),
            VisitedAll(s', VisitsOfAll(children, depth, path)))
    decreases children, 0
  {
    if children != [] {
      var child := children[0];
      var vs := Visits(child, depth, path + [child.slot]);
      WalkedVisits(s, s', child, depth, path + [child.slot]);
      WalkedVisitsOfAll(Walked(s, child, depth, path + [child.slot], false), VisitedAll(s', vs), children[1..], depth,
          path);
      VisitedConcat(s', vs, VisitsOfAll(children[1..], depth, path));
    }
  }

  /** The k-th entry is the k-th record and the k-th line. */
  predicate IsPrefixOf(s: State, entries: seq<Visit>) {
    && |s.records| == |s.lines| <= |entries|
    && forall k :: 0 <= k < |s.records| ==>
         entries[k].Entry? &&
         s.records[k] == RecordOf(entries[k].node, k, entries[k].path) &&
             s.lines[k] == LineOf(entries[k].node, k, entries[k].depth)
  }

  predicate LimitHit(visits: seq<Visit>, i: nat)
    requires i < |visits|
  {
    visits[i].TooDeep? || |Entries(visits[..i])| >= MAX_NODES
  }

  lemma {:induction false} VisitedIsPrefix(visits: seq<Visit>)
    ensures var t := VisitedAll(EMPTY, visits);
            && IsPrefixOf(t, Entries(visits))
            && (|t.records| == if |Entries(visits)| < MAX_NODES then |Entries(visits)| else MAX_NODES)
            && (t.truncated <==> exists i :: 0 <= i < |visits| && LimitHit(visits, i))
    decreases |visits|
  {
    if visits != [] {
      var n := |visits| - 1;
      var init, last := visits[..n], visits[n];
      assert visits == init + [last];
      VisitedIsPrefix(init);
      VisitedConcat(EMPTY, init, [last]);
      EntriesOfConcat(init, [last]);
      assert Entries([last]) == if last.Entry? then [last] else [];
      assert VisitedAll(VisitedAll(EMPTY, init), [last]) == Visited(VisitedAll(EMPTY, init), last);
      forall i: nat | i < n ensures LimitHit(visits, i) == LimitHit(init, i) {
        assert init[..i] == visits[..i];
      }
      assert LimitHit(visits, n) <==> last.TooDeep? || |Entries(init)| >= MAX_NODES;
    }
  }

  /**
   Without tab compaction the snapshot is the first 1200 entries of the depth-limited rendering:
   each record and line is made of its entry, with its position as index.  `truncated` is set
   exactly when some visit is too deep or comes after 1200 nodes have been shown.
   */
  lemma BoundedWalk(root: Node, rootPath: Path)
    ensures var t, vs := Rendered(root, rootPath, false), Visits(root, 0, rootPath);
            && IsPrefixOf(t, Entries(vs))
            && |t.records| == (if |Entries(vs)| < MAX_NODES then |Entries(vs)| else MAX_NODES)
            && (t.truncated <==> exists i :: 0 <= i < |vs| && LimitHit(vs, i))
  {
    var vs := Visits(root, 0, rootPath);
    WalkedVisits(EMPTY, EMPTY, root, 0, rootPath);
    VisitedIsPrefix(vs);
  }

  /** How the walk may leave the mark for the depth limit, when it has these visits still to make. */
  predicate NoticesDepth(s: State, t: State, visits: seq<Visit>) {
    && |s.records| <= |t.records|
    && (s.maxDepthReached ==> t.maxDepthReached)
    && (t.maxDepthReached && !s.maxDepthReached ==> TooDeep in visits && t.truncated)
    && (s.truncated ==> t.truncated)
    && (TooDeep in visits && |t.records| < MAX_NODES ==> t.maxDepthReached)
  }

  lemma {:induction false} WalkNoticesDepth(s: State, node: Node, depth: nat, path: Path)
    ensures NoticesDepth(s, Walked(s, node, depth, path, false), Visits(node, depth, path))
    decreases node, 1
  {
    hide ShouldElide, IsLeafLine, RecordOf, LineOf;
    if |s.records| < MAX_NODES && depth <= MAX_DEPTH {
      if ShouldElide(node) {
        WalkOfAllNoticesDepth(s, node.children, depth, path);
      } else if !IsLeafLine(node) {
        WalkOfAllNoticesDepth(Shown(s, node, depth, path), node.children, depth + 1, path);
      }
    }
  }

  lemma {:induction false} WalkOfAllNoticesDepth(s: State, children: seq<Node>, depth: nat, path: Path)
    ensures NoticesDepth(s, WalkedChildren(s, children, depth, path, false), VisitsOfAll(children, depth, path))
    decreases children, 0
  {
    if children != [] {
      WalkNoticesDepth(s, children[0], depth, path + [children[0].slot]);
      WalkOfAllNoticesDepth(Walked(s, children[0], depth, path + [children[0].slot], false), children[1..], depth,
          path);
    }
  }

  /** `maxDepthReached` is only set for a node too deep, and is set for one unless the node limit comes first. */
  lemma DepthMark(root: Node, rootPath: Path)
    ensures var t, vs := Rendered(root, rootPath, false), Visits(root, 0, rootPath);
            && (t.maxDepthReached ==> t.truncated && TooDeep in vs)
            && (|t.records| < MAX_NODES ==> (t.maxDepthReached <==> TooDeep in vs))
  {
    WalkNoticesDepth(EMPTY, root, 0, rootPath);
  }

  lemma {:induction false} VisitsAreComplete(node: Node, depth: nat, path: Path)
    requires TooDeep !in Visits(node, depth, path)
    ensures Visits(node, depth, path) == Rendering(node, depth, path)
    decreases node, 1
  {
    hide ShouldElide, IsLeafLine, VisitsOfAll, RenderingOfAll;
    var vs := Visits(node, depth, path);
    if ShouldElide(node) {
      assert vs[1..] == VisitsOfAll(node.children, depth, path);
      VisitsOfAllAreComplete(node.children, depth, path);
    } else if !IsLeafLine(node) {
      assert vs[1..] == VisitsOfAll(node.children, depth + 1, path);
      VisitsOfAllAreComplete(node.children, depth + 1, path);
    }
  }

  lemma {:induction false} VisitsOfAllAreComplete(children: seq<Node>, depth: nat, path: Path)
    requires TooDeep !in VisitsOfAll(children, depth, path)
    ensures VisitsOfAll(children, depth, path) == RenderingOfAll(children, depth, path)
    decreases children, 0
  {
    if children != [] {
      VisitsAreComplete(children[0], depth, path + [children[0].slot]);
      VisitsOfAllAreComplete(children[1..], depth, path);
    }
  }

  /** A snapshot that is not marked truncated shows everything. */
  lemma NotTruncatedIsComplete(root: Node, rootPath: Path)
    requires !Rendered(root, rootPath, false).truncated
    ensures var t, all := Rendered(root, rootPath, false), Entries(Rendering(root, 0, rootPath));
            IsPrefixOf(t, all) && |t.records| == |all|
  {
    var vs := Visits(root, 0, rootPath);
    BoundedWalk(root, rootPath);
    forall i | 0 <= i < |vs| ensures vs[i] != TooDeep { assert !LimitHit(vs, i); }
    VisitsAreComplete(root, 0, rootPath);
    var last := |vs| - 1;
    assert !LimitHit(vs, last);
    EntriesOfConcat(vs[..last], vs[last..]);
    assert vs == vs[..last] + vs[last..];
    assert Entries(vs[last..]) == if vs[last].Entry? then [vs[last]] else [];
  }
}
