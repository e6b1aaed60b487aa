/** The edit distance of the command suggestions: two rows of a table, filled in turn. */
module EditDistance {
  import opened Numbers

  function Init(s: string): string
    requires s != ""
  {
    s[..|s| - 1]
  }

  function Cost(a: string, b: string): nat
    requires a != "" && b != ""
  {
    if a[|a| - 1] == b[|b| - 1] then 0 else 1
  }

  function Distance(a: string, b: string): nat
    decreases |a| + |b|
  {
    if a == "" then |b|
    else if b == "" then |a|
    else Min(Min(Distance(Init(a), b) + 1, Distance(a, Init(b)) + 1), Distance(Init(a), Init(b)) + Cost(a, b))
  }

  lemma Unfolded(x: string, y: string)
    requires x != "" && y != ""
    ensures Distance(x, y) ==
            Min(Min(Distance(Init(x), y) + 1, Distance(x, Init(y)) + 1), Distance(Init(x), Init(y)) + Cost(x, y))
  {
    hide Min, Init, Cost;
  }

  lemma InitOfTake(s: string, n: nat)
    requires 0 < n <= |s|
    ensures Init(s[..n]) == s[..n - 1]
  {
  }

  /** One entry of the table from its three neighbours. */
  lemma Entry(a: string, i: nat, b: string, j: nat)
    requires 0 < i <= |a| && 0 < j <= |b|
    ensures Distance(a[..i], b[..j]) ==
            Min(Min(Distance(a[..i - 1], b[..j]) + 1, Distance(a[..i], b[..j - 1]) + 1),
                Distance(a[..i - 1], b[..j - 1]) + if a[i - 1] == b[j - 1] then 0 else 1)
  {
    hide Distance, Init;
    Unfolded(a[..i], b[..j]);
    InitOfTake(a, i);
    InitOfTake(b, j);
  }

  ghost predicate IsRow(row: seq<nat>, a: string, i: nat, b: string, upTo: nat)
    requires i <= |a| && upTo <= |b| + 1
  {
    |row| == |b| + 1 && forall j :: 0 <= j < upTo ==> row[j] == Distance(a[..i], b[..j])
  }

  lemma RowGrows(row: seq<nat>, a: string, i: nat, b: string, j: nat, value: nat)
    requires i <= |a| && j <= |b| && IsRow(row, a, i, b, j) && value == Distance(a[..i], b[..j])
    ensures IsRow(row[j := value], a, i, b, j + 1)
  {
    hide Distance;
  }

  /** Fills the row for the first `i` characters of `a` from the row before. */
  method FillRow(previous: array<nat>, current: array<nat>, a: string, i: nat, b: string)
    requires 0 < i <= |a| && previous != current && previous.Length == current.Length == |b| + 1
    requires IsRow(previous[..], a, i - 1, b, |b| + 1)
    modifies current
    ensures IsRow(current[..], a, i, b, |b| + 1)
  {
    hide Distance, IsRow;
    current[0] := i;
    FirstColumn(current[..], a, i, b);
    for j := 1 to |b| + 1
      invariant IsRow(current[..], a, i, b, j)
    {
      ghost var before := current[..];
      Entry(a, i, b, j);
      RowAt(previous[..], a, i - 1, b, |b| + 1, j);
      RowAt(previous[..], a, i - 1, b, |b| + 1, j - 1);
      RowAt(before, a, i, b, j, j - 1);
      var cost := if a[i - 1] == b[j - 1] then 0 else 1;
      current[j] := Min(Min(previous[j] + 1, current[j - 1] + 1), previous[j - 1] + cost);
      RowGrows(before, a, i, b, j, current[j]);
      assert current[..] == before[j := current[j]];
    }
  }

  lemma FirstColumn(row: seq<nat>, a: string, i: nat, b: string)
    requires i <= |a| && |row| == |b| + 1 && row[0] == i
    ensures IsRow(row, a, i, b, 1)
  {
  }

  lemma RowAt(row: seq<nat>, a: string, i: nat, b: string, upTo: nat, j: nat)
    requires i <= |a| && upTo <= |b| + 1 && j < upTo && IsRow(row, a, i, b, upTo)
    ensures row[j] == Distance(a[..i], b[..j])
  {
  }

  method Levenshtein(a: string, b: string) returns (distance: nat)
    ensures distance == Distance(a, b)
  {
    if |a| == 0 { return |b|; }
    if |b| == 0 { return |a|; }
    var previous := new nat[|b| + 1](index => index);
    var current := new nat[|b| + 1](_ => 0);
    for i := 1 to |a| + 1
      invariant previous.Length == current.Length == |b| + 1 && previous != current
      invariant fresh(previous) && fresh(current)
      invariant IsRow(previous[..], a, i - 1, b, |b| + 1)
    {
      FillRow(previous, current, a, i, b);
      previous, current := current, previous;
    }
    distance := previous[|b|];
    assert previous[..][|b|] == previous[|b|] && a[..|a|] == a && b[..|b|] == b;
  }

  /** No fewer edits than the lengths differ by, no more than the longer length. */
  lemma {:induction false} LengthBounds(a: string, b: string)
    ensures |a| - |b| <= Distance(a, b) && |b| - |a| <= Distance(a, b)
    ensures Distance(a, b) <= if |a| < |b| then |b| else |a|
    decreases |a| + |b|
  {
    if a != "" && b != "" {
      LengthBounds(Init(a), b);
      LengthBounds(a, Init(b));
      LengthBounds(Init(a), Init(b));
    }
  }

  /** At most one character at one place of `a` is inserted, deleted or replaced to give `b`. */
  ghost predicate IsEdit(a: string, b: string) {
    exists u, p, q, v :: |p| <= 1 && |q| <= 1 && a == u + p + v && b == u + q + v
  }

  /** A chain of strings, each an edit of the one before. */
  ghost predicate IsEditChain(chain: seq<string>, a: string, b: string) {
    && |chain| > 0 && chain[0] == a && chain[|chain| - 1] == b
    && forall i :: 0 <= i < |chain| - 1 ==> IsEdit(chain[i], chain[i + 1])
  }

  lemma {:induction false} DropLast(x: string, c: string)
    requires x != ""
    ensures Distance(Init(x), c) <= Distance(x, c) + 1 && Distance(x, c) <= Distance(Init(x), c) + 1
    decreases |c|
  {
    if c != "" {
      DropLast(x, Init(c));
      assert Distance(Init(x), c) <= Distance(Init(x), Init(c)) + 1;
    }
  }

  lemma {:induction false} ReplaceLast(x: string, y: string, c: string)
    requires x != "" && y != "" && Init(x) == Init(y)
    ensures Distance(x, c) <= Distance(y, c) + 1
    decreases |c|
  {
    if c != "" { ReplaceLast(x, y, Init(c)); }
  }

  /** One edit changes the distance to any string by at most one. */
  lemma {:induction false} EditMovesByOne(u: string, p: string, q: string, v: string, c: string)
    requires |p| <= 1 && |q| <= 1
    ensures Distance(u + p + v, c) <= Distance(u + q + v, c) + 1
    decreases |v| + |c|
  {
    var x, y := u + p + v, u + q + v;
    if v == "" {
      assert x == u + p && y == u + q;
      assert p == "" ==> x == u;
      assert q == "" ==> y == u;
      if p != "" { assert Init(x) == u; DropLast(x, c); }
      if q != "" { assert Init(y) == u; DropLast(y, c); }
      if p != "" && q != "" { ReplaceLast(x, y, c); }
    } else if c != "" {
      var w := Init(v);
      assert Init(x) == u + p + w && Init(y) == u + q + w;
      EditMovesByOne(u, p, q, w, c);
      EditMovesByOne(u, p, q, v, Init(c));
      EditMovesByOne(u, p, q, w, Init(c));
    }
  }

  lemma {:induction false} SelfDistance(a: string)
    ensures Distance(a, a) == 0
  {
    if a != "" { SelfDistance(Init(a)); }
  }

  lemma {:induction false} ChainIsLongEnough(chain: seq<string>, a: string, b: string)
    requires IsEditChain(chain, a, b)
    ensures Distance(a, b) <= |chain| - 1
  {
    if |chain| == 1 {
      SelfDistance(a);
    } else {
      var next := chain[1];
      assert IsEdit(a, next);
      var u, p, q, v :| |p| <= 1 && |q| <= 1 && a == u + p + v && next == u + q + v;
      EditMovesByOne(u, p, q, v, b);
      ChainIsLongEnough(chain[1..], next, b);
    }
  }

  lemma EditIs(u: string, p: string, q: string, v: string, a: string, b: string)
    requires |p| <= 1 && |q| <= 1 && a == u + p + v && b == u + q + v
    ensures IsEdit(a, b)
  {
  }

  /** All strings of the chain with one more character. */
  function Extended(chain: seq<string>, c: char): seq<string> {
    seq(|chain|, i requires 0 <= i < |chain| => chain[i] + [c])
  }

  lemma ExtendedIsChain(chain: seq<string>, a: string, b: string, c: char)
    requires IsEditChain(chain, a, b)
    ensures IsEditChain(Extended(chain, c), a + [c], b + [c])
  {
    forall i | 0 <= i < |chain| - 1 ensures IsEdit(chain[i] + [c], chain[i + 1] + [c]) {
      var u, p, q, v :| |p| <= 1 && |q| <= 1 && chain[i] == u + p + v && chain[i + 1] == u + q + v;
      EditIs(u, p, q, v + [c], chain[i] + [c], chain[i + 1] + [c]);
    }
  }

  lemma ChainThenInsert(chain: seq<string>, a: string, b: string)
    requires b != "" && IsEditChain(chain, a, Init(b))
    ensures IsEditChain(chain + [b], a, b)
  {
    EditIs(Init(b), "", [b[|b| - 1]], "", Init(b), b);
  }

  lemma DeleteThenChain(chain: seq<string>, a: string, b: string)
    requires a != "" && IsEditChain(chain, Init(a), b)
    ensures IsEditChain([a] + chain, a, b)
  {
    EditIs(Init(a), [a[|a| - 1]], "", "", a, Init(a));
  }

  lemma ChainThenReplace(chain: seq<string>, a: string, b: string)
    requires a != "" && b != "" && IsEditChain(chain, Init(a), Init(b))
    ensures var extended := Extended(chain, a[|a| - 1]);
            if Cost(a, b) == 0 then IsEditChain(extended, a, b) else IsEditChain(extended + [b], a, b)
  {
    var c := a[|a| - 1];
    ExtendedIsChain(chain, Init(a), Init(b), c);
    assert Init(a) + [c] == a && Init(b) + [b[|b| - 1]] == b;
    EditIs(Init(b), [c], [b[|b| - 1]], "", Init(b) + [c], b);
  }

  /** A chain of exactly as many edits as the distance. */
  lemma {:induction false} ShortestChain(a: string, b: string) returns (chain: seq<string>)
    ensures IsEditChain(chain, a, b) && |chain| == Distance(a, b) + 1
    decreases |a| + |b|
  {
    hide IsEditChain;
    if a == "" && b == "" {
      chain := [""];
      EmptyChain();
    } else if b != "" && (a == "" || Distance(a, b) == Distance(a, Init(b)) + 1) {
      chain := ShortestChain(a, Init(b));
      ChainThenInsert(chain, a, b);
      chain := chain + [b];
    } else if a != "" && (b == "" || Distance(a, b) == Distance(Init(a), b) + 1) {
      chain := ShortestChain(Init(a), b);
      DeleteThenChain(chain, a, b);
      chain := [a] + chain;
    } else {
      chain := ShortestChain(Init(a), Init(b));
      ChainThenReplace(chain, a, b);
      chain := Extended(chain, a[|a| - 1]);
      if Cost(a, b) == 1 { chain := chain + [b]; }
    }
  }

  lemma EmptyChain()
    ensures IsEditChain([""], "", "")
  {
  }

  /** The distance is the least number of edits: `n` edits lead from `a` to `b` exactly when it is at most `n`. */
  lemma DistanceIsLeastEdits(a: string, b: string, n: nat)
    ensures Distance(a, b) <= n <==> exists chain :: IsEditChain(chain, a, b) && |chain| - 1 <= n
  {
    if Distance(a, b) <= n {
      var chain := ShortestChain(a, b);
    }
    if chain :| IsEditChain(chain, a, b) && |chain| - 1 <= n { ChainIsLongEnough(chain, a, b); }
  }
}
