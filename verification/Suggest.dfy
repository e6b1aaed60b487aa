/**
 Suggestions for a mistyped command.  Destructive commands are suggested only to someone who
 typed almost the verb of one; verbs that name the same destructive command are one family.
 */
module Suggest {
  import opened Text
  import opened CommandSpecs
  import opened EditDistance

  const SUGGESTION_THRESHOLD: nat := 3
  const MAX_SUGGESTIONS: nat := 3
  const DESTRUCTIVE_INTENT_THRESHOLD: nat := 1

  function FinalToken(path: seq<string>): string {
    if path == [] then "" else path[|path| - 1]
  }

  function Verbs(spec: CommandSpec): (verbs: set<string>)
    ensures FinalToken(spec.path) in verbs
  {
    assert SpecPaths(spec)[0] == spec.path;
    set i | 0 <= i < |SpecPaths(spec)| :: FinalToken(SpecPaths(spec)[i])
  }

  /** The verb is the last word of one of the command's paths. */
  ghost predicate Names(spec: CommandSpec, verb: string) {
    exists path :: (path == spec.path || path in spec.aliases) &&
                   verb == if path == [] then "" else path[|path| - 1]
  }

  lemma VerbsIff(spec: CommandSpec, verb: string)
    ensures verb in Verbs(spec) <==> Names(spec, verb)
  {
    var paths := SpecPaths(spec);
    forall path | path == spec.path || path in spec.aliases ensures FinalToken(path) in Verbs(spec) {
      assert paths[0] == spec.path && paths[1..] == spec.aliases;
      assert path in paths;
    }
  }

  /** Both verbs name one destructive command. */
  ghost predicate Linked(specs: seq<CommandSpec>, u: string, v: string) {
    exists i :: 0 <= i < |specs| && specs[i].destructive && u in Verbs(specs[i]) && v in Verbs(specs[i])
  }

  ghost predicate IsLinkedPath(specs: seq<CommandSpec>, path: seq<string>, u: string, v: string) {
    && |path| > 0 && path[0] == u && path[|path| - 1] == v
    && forall i :: 0 <= i < |path| - 1 ==> Linked(specs, path[i], path[i + 1])
  }

  /** The verbs are in one component of the graph of destructive commands. */
  ghost predicate Connected(specs: seq<CommandSpec>, u: string, v: string) {
    exists path :: IsLinkedPath(specs, path, u, v)
  }

  type Families = map<string, set<string>>

  ghost predicate IsVerb(specs: seq<CommandSpec>, v: string) {
    exists i :: 0 <= i < |specs| && specs[i].destructive && v in Verbs(specs[i])
  }

  /** Each destructive verb is mapped to exactly the verbs connected with it. */
  ghost predicate AreComponents(specs: seq<CommandSpec>, families: Families) {
    && (forall v :: v in families <==> IsVerb(specs, v))
    && (forall v, w :: v in families ==> (w in families[v] <==> Connected(specs, v, w)))
  }

  lemma Reflexive(specs: seq<CommandSpec>, v: string)
    ensures Connected(specs, v, v)
  {
    assert IsLinkedPath(specs, [v], v, v);
  }

  lemma OneLink(specs: seq<CommandSpec>, u: string, v: string)
    requires Linked(specs, u, v)
    ensures Connected(specs, u, v)
  {
    assert IsLinkedPath(specs, [u, v], u, v);
  }

  lemma Transitive(specs: seq<CommandSpec>, u: string, v: string, w: string)
    requires Connected(specs, u, v) && Connected(specs, v, w)
    ensures Connected(specs, u, w)
  {
    var p :| IsLinkedPath(specs, p, u, v);
    var q :| IsLinkedPath(specs, q, v, w);
    assert IsLinkedPath(specs, p + q[1..], u, w);
  }

  lemma {:induction false} Symmetric(specs: seq<CommandSpec>, path: seq<string>, u: string, v: string)
    requires IsLinkedPath(specs, path, u, v)
    ensures Connected(specs, v, u)
    decreases |path|
  {
    if |path| == 1 {
      Reflexive(specs, u);
    } else {
      var next := path[1];
      assert IsLinkedPath(specs, path[1..], next, v);
      Symmetric(specs, path[1..], next, v);
      assert Linked(specs, path[0], path[1]) && Linked(specs, next, u);
      OneLink(specs, next, u);
      Transitive(specs, v, next, u);
    }
  }

  lemma SymmetricOf(specs: seq<CommandSpec>, u: string, v: string)
    requires Connected(specs, u, v)
    ensures Connected(specs, v, u)
  {
    var path :| IsLinkedPath(specs, path, u, v);
    Symmetric(specs, path, u, v);
  }

  lemma LinksGrow(specs: seq<CommandSpec>, spec: CommandSpec, u: string, v: string)
    ensures Linked(specs + [spec], u, v) <==>
            Linked(specs, u, v) || (spec.destructive && u in Verbs(spec) && v in Verbs(spec))
    ensures Connected(specs, u, v) ==> Connected(specs + [spec], u, v)
  {
    var more := specs + [spec];
    assert more[|specs|] == spec && forall i :: 0 <= i < |specs| ==> more[i] == specs[i];
    if Connected(specs, u, v) {
      var path :| IsLinkedPath(specs, path, u, v);
      forall i | 0 <= i < |path| - 1 ensures Linked(more, path[i], path[i + 1]) {
        assert Linked(specs, path[i], path[i + 1]);
        var k :| 0 <= k < |specs| && specs[k].destructive && path[i] in Verbs(specs[k]) &&
            path[i + 1] in Verbs(specs[k]);
        assert more[k] == specs[k];
      }
      assert IsLinkedPath(more, path, u, v);
    }
  }

  /** The verbs connected with one of the spec's verbs. */
  ghost predicate InFamily(specs: seq<CommandSpec>, spec: CommandSpec, v: string) {
    exists u :: u in Verbs(spec) && Connected(specs, u, v)
  }

  /** A new destructive command joins the components of its verbs and changes no other. */
  lemma {:induction false} PathInMore(specs: seq<CommandSpec>, spec: CommandSpec, path: seq<string>, u: string,
      v: string)
    requires IsLinkedPath(specs + [spec], path, u, v)
    ensures Connected(specs, u, v) || (InFamily(specs, spec, u) && InFamily(specs, spec, v))
    decreases |path|
  {
    if |path| == 1 {
      Reflexive(specs, u);
    } else {
      var last := |path| - 1;
      var w := path[last - 1];
      assert IsLinkedPath(specs + [spec], path[..last], u, w);
      PathInMore(specs, spec, path[..last], u, w);
      assert Linked(specs + [spec], path[last - 1], path[last - 1 + 1]);
      LinksGrow(specs, spec, w, v);
      if Linked(specs, w, v) {
        OneLink(specs, w, v);
        if Connected(specs, u, w) {
          Transitive(specs, u, w, v);
        } else {
          var x :| x in Verbs(spec) && Connected(specs, x, w);
          Transitive(specs, x, w, v);
        }
      } else {
        Reflexive(specs, v);
        if Connected(specs, u, w) { SymmetricOf(specs, u, w); }
      }
    }
  }

  lemma ComponentsGrow(specs: seq<CommandSpec>, spec: CommandSpec, u: string, v: string)
    requires spec.destructive
    ensures Connected(specs + [spec], u, v) <==>
            Connected(specs, u, v) || (InFamily(specs, spec, u) && InFamily(specs, spec, v))
  {
    var more := specs + [spec];
    LinksGrow(specs, spec, u, v);
    if Connected(more, u, v) {
      var path :| IsLinkedPath(more, path, u, v);
      PathInMore(specs, spec, path, u, v);
    }
    if InFamily(specs, spec, u) && InFamily(specs, spec, v) {
      var x :| x in Verbs(spec) && Connected(specs, x, u);
      var y :| y in Verbs(spec) && Connected(specs, y, v);
      LinksGrow(specs, spec, x, u);
      LinksGrow(specs, spec, y, v);
      LinksGrow(specs, spec, x, y);
      OneLink(more, x, y);
      SymmetricOf(more, x, u);
      Transitive(more, u, x, y);
      Transitive(more, u, y, v);
    }
  }

  lemma OnlyVerbsAreConnected(specs: seq<CommandSpec>, u: string, v: string)
    requires Connected(specs, u, v)
    ensures u == v || (IsVerb(specs, u) && IsVerb(specs, v))
  {
    var path :| IsLinkedPath(specs, path, u, v);
    if |path| > 1 {
      var last := |path| - 1;
      assert Linked(specs, path[0], path[1]) && Linked(specs, path[last - 1], path[last - 1 + 1]);
    }
  }

  /** What the map holds for a verb, or the verb alone. */
  function FamilyAt(families: Families, v: string): set<string> {
    if v in families then families[v] else {v}
  }

  lemma FamilyAtIsComponent(specs: seq<CommandSpec>, families: Families, u: string, v: string)
    requires AreComponents(specs, families)
    ensures v in FamilyAt(families, u) <==> Connected(specs, u, v)
  {
    if u !in families {
      Reflexive(specs, u);
      if Connected(specs, u, v) { OnlyVerbsAreConnected(specs, u, v); }
    }
  }

  /** The union of the families of these verbs. */
  ghost predicate IsJoined(families: Families, verbs: set<string>, family: set<string>) {
    forall v :: v in family <==> exists u :: u in verbs && v in FamilyAt(families, u)
  }

  lemma JoinedIsFamily(specs: seq<CommandSpec>, spec: CommandSpec, families: Families, family: set<string>, v: string)
    requires AreComponents(specs, families) && IsJoined(families, Verbs(spec), family)
    ensures v in family <==> InFamily(specs, spec, v)
  {
    hide AreComponents, FamilyAt;
    forall u ensures v in FamilyAt(families, u) <==> Connected(specs, u, v) {
      FamilyAtIsComponent(specs, families, u, v);
    }
  }

  /** The map after one more destructive command. */
  ghost predicate IsJoinedMap(families: Families, family: set<string>, after: Families) {
    && after.Keys == families.Keys + family
    && (forall v :: v in after ==> after[v] == if v in family then family else families[v])
  }

  lemma JoinedAt(specs: seq<CommandSpec>, spec: CommandSpec, families: Families, family: set<string>, v: string,
      w: string)
    requires AreComponents(specs, families) && spec.destructive && IsJoined(families, Verbs(spec), family)
    requires v in family || v in families
    ensures w in (if v in family then family else families[v]) <==> Connected(specs + [spec], v, w)
  {
    JoinedIsFamily(specs, spec, families, family, v);
    JoinedIsFamily(specs, spec, families, family, w);
    ComponentsGrow(specs, spec, v, w);
    if v in family && Connected(specs, v, w) {
      var u :| u in Verbs(spec) && Connected(specs, u, v);
      Transitive(specs, u, v, w);
    }
  }

  /** Giving each verb of the joined family that family makes the map right for one more command. */
  lemma JoinedComponents(specs: seq<CommandSpec>, spec: CommandSpec, families: Families, family: set<string>,
      after: Families)
    requires AreComponents(specs, families) && spec.destructive && IsJoined(families, Verbs(spec), family)
    requires IsJoinedMap(families, family, after)
    ensures AreComponents(specs + [spec], after)
  {
    forall v ensures v in after <==> IsVerb(specs + [spec], v) {
      JoinedIsFamily(specs, spec, families, family, v);
      VerbsGrow(specs, spec, families, family, v);
    }
    forall v, w | v in after ensures w in after[v] <==> Connected(specs + [spec], v, w) {
      JoinedAt(specs, spec, families, family, v, w);
    }
  }

  lemma VerbsGrow(specs: seq<CommandSpec>, spec: CommandSpec, families: Families, family: set<string>, v: string)
    requires AreComponents(specs, families) && spec.destructive
    requires v in family <==> InFamily(specs, spec, v)
    ensures v in families || v in family <==> IsVerb(specs + [spec], v)
  {
    var more := specs + [spec];
    assert more[|specs|] == spec && forall i :: 0 <= i < |specs| ==> more[i] == specs[i];
    if v in Verbs(spec) { Reflexive(specs, v); }
    if v in family {
      var u :| u in Verbs(spec) && Connected(specs, u, v);
      OnlyVerbsAreConnected(specs, u, v);
    }
    if IsVerb(specs, v) {
      var i :| 0 <= i < |specs| && specs[i].destructive && v in Verbs(specs[i]);
      assert more[i].destructive && v in Verbs(more[i]);
    }
  }

  lemma SameComponents(specs: seq<CommandSpec>, spec: CommandSpec, families: Families)
    requires AreComponents(specs, families) && !spec.destructive
    ensures AreComponents(specs + [spec], families)
  {
    var more := specs + [spec];
    assert more[|specs|] == spec && forall i :: 0 <= i < |specs| ==> more[i] == specs[i];
    forall v ensures IsVerb(more, v) <==> IsVerb(specs, v) {
      if IsVerb(specs, v) {
        var i :| 0 <= i < |specs| && specs[i].destructive && v in Verbs(specs[i]);
        assert more[i].destructive;
      }
    }
    forall u, v ensures Connected(more, u, v) <==> Connected(specs, u, v) {
      LinksGrow(specs, spec, u, v);
      if Connected(more, u, v) {
        var path :| IsLinkedPath(more, path, u, v);
        forall i | 0 <= i < |path| - 1 ensures Linked(specs, path[i], path[i + 1]) {
          LinksGrow(specs, spec, path[i], path[i + 1]);
        }
        assert IsLinkedPath(specs, path, u, v);
      }
    }
  }

  /** The union of the families of the verbs of one command, collected path by path. */
  method JoinFamilies(families: Families, spec: CommandSpec) returns (family: set<string>)
    ensures IsJoined(families, Verbs(spec), family)
  {
    var paths := SpecPaths(spec);
    family := {};
    for i := 0 to |paths|
      invariant forall v :: v in family <==> exists k :: 0 <= k < i && v in FamilyAt(families, FinalToken(paths[k]))
    {
      family := family + FamilyAt(families, FinalToken(paths[i]));
    }
    forall v ensures v in family <==> exists u :: u in Verbs(spec) && v in FamilyAt(families, u) {
      if u :| u in Verbs(spec) && v in FamilyAt(families, u) {
        var k :| 0 <= k < |paths| && FinalToken(paths[k]) == u;
      }
    }
  }

  /** Sets the family of each of its verbs. */
  method AssignFamily(families: Families, family: set<string>) returns (after: Families)
    ensures IsJoinedMap(families, family, after)
  {
    after := families;
    var todo := family;
    while todo != {}
      invariant todo <= family && after.Keys == families.Keys + (family - todo)
      invariant forall v :: v in after ==> after[v] == if v in family - todo then family else families[v]
    {
      var verb :| verb in todo;
      after := after[verb := family];
      todo := todo - {verb};
    }
  }

  /** The families are exactly the connected components of the destructive verbs. */
  method DestructiveVerbFamilies(specs: seq<CommandSpec>) returns (families: Families)
    ensures AreComponents(specs, families)
  {
    hide AreComponents, IsJoined, IsJoinedMap;
    families := map[];
    NoComponents();
    for i := 0 to |specs|
      invariant AreComponents(specs[..i], families)
    {
      assert specs[..i + 1] == specs[..i] + [specs[i]];
      if specs[i].destructive {
        var family := JoinFamilies(families, specs[i]);
        var after := AssignFamily(families, family);
        JoinedComponents(specs[..i], specs[i], families, family, after);
        families := after;
      } else {
        SameComponents(specs[..i], specs[i], families);
      }
    }
    assert specs[..|specs|] == specs;
  }

  lemma NoComponents()
    ensures AreComponents([], map[])
  {
  }

  /** The typed word is within one edit of a verb of the family. */
  predicate IntendsDestruction(inputToken: string, verbs: set<string>) {
    exists verb :: verb in verbs && Distance(inputToken, verb) <= DESTRUCTIVE_INTENT_THRESHOLD
  }

  function Difference(a: nat, b: nat): nat {
    if a < b then b - a else a - b
  }

  /** Comparing the lengths first changes nothing. */
  method CheckIntent(inputToken: string, verbs: set<string>) returns (intends: bool)
    ensures intends == IntendsDestruction(inputToken, verbs)
  {
    var todo := verbs;
    while todo != {}
      invariant todo <= verbs
      invariant forall verb :: verb in verbs - todo ==> Distance(inputToken, verb) > DESTRUCTIVE_INTENT_THRESHOLD
    {
      var verb :| verb in todo;
      LengthBounds(inputToken, verb);
      if Difference(|inputToken|, |verb|) <= DESTRUCTIVE_INTENT_THRESHOLD {
        var distance := Levenshtein(inputToken, verb);
        if distance <= DESTRUCTIVE_INTENT_THRESHOLD { return true; }
      }
      todo := todo - {verb};
    }
    intends := false;
  }

  datatype Scored = Scored(offer: string, distance: nat)

  /** The order of labels at one distance: `localeCompare` is not positive. */
  type Collation = (string, string) -> bool

  ghost predicate IsTotalOrder(collate: Collation) {
    && (forall a, b :: collate(a, b) || collate(b, a))
    && (forall a, b, c :: collate(a, b) && collate(b, c) ==> collate(a, c))
  }

  predicate Before(a: Scored, b: Scored, collate: Collation) {
    a.distance < b.distance || (a.distance == b.distance && collate(a.offer, b.offer))
  }

  predicate IsNear(entry: Scored) {
    0 < entry.distance <= SUGGESTION_THRESHOLD
  }

  function NearOnes(scored: seq<Scored>): seq<Scored> {
    if scored == [] then []
    else if IsNear(scored[0]) then [scored[0]] + NearOnes(scored[1..])
    else NearOnes(scored[1..])
  }

  function Insert(entry: Scored, sorted: seq<Scored>, collate: Collation): seq<Scored> {
    if sorted == [] || Before(entry, sorted[0], collate) then [entry] + sorted
    else [sorted[0]] + Insert(entry, sorted[1..], collate)
  }

  /** The stable sort of the library. */
  function Sort(scored: seq<Scored>, collate: Collation): seq<Scored> {
    if scored == [] then [] else Insert(scored[0], Sort(scored[1..], collate), collate)
  }

  function Labels(scored: seq<Scored>): seq<string> {
    if scored == [] then [] else [scored[0].offer] + Labels(scored[1..])
  }

  function FirstOnes(scored: seq<Scored>): seq<Scored> {
    if |scored| <= MAX_SUGGESTIONS then scored else scored[..MAX_SUGGESTIONS]
  }

  function RankByDistance(scored: seq<Scored>, collate: Collation): seq<string> {
    Labels(FirstOnes(Sort(NearOnes(scored), collate)))
  }

  ghost predicate IsSorted(scored: seq<Scored>, collate: Collation) {
    forall i, j :: 0 <= i < j < |scored| ==> Before(scored[i], scored[j], collate)
  }

  lemma {:induction false} InsertKeeps(entry: Scored, sorted: seq<Scored>, collate: Collation)
    ensures multiset(Insert(entry, sorted, collate)) == multiset(sorted) + multiset{entry}
  {
    if sorted != [] && !Before(entry, sorted[0], collate) {
      InsertKeeps(entry, sorted[1..], collate);
      assert sorted == [sorted[0]] + sorted[1..];
    }
  }

  lemma {:induction false} InsertSorts(entry: Scored, sorted: seq<Scored>, collate: Collation)
    requires IsTotalOrder(collate) && IsSorted(sorted, collate)
    ensures IsSorted(Insert(entry, sorted, collate), collate)
  {
    if sorted == [] {
    } else if Before(entry, sorted[0], collate) {
      forall j | 0 <= j < |sorted| ensures Before(entry, sorted[j], collate) {
        assert j == 0 || Before(sorted[0], sorted[j], collate);
      }
    } else {
      var rest := Insert(entry, sorted[1..], collate);
      InsertSorts(entry, sorted[1..], collate);
      InsertKeeps(entry, sorted[1..], collate);
      forall j | 0 <= j < |rest| ensures Before(sorted[0], rest[j], collate) {
        assert rest[j] in multiset(rest);
        assert rest[j] == entry || rest[j] in sorted[1..];
      }
    }
  }

  lemma {:induction false} SortSorts(scored: seq<Scored>, collate: Collation)
    requires IsTotalOrder(collate)
    ensures IsSorted(Sort(scored, collate), collate) && multiset(Sort(scored, collate)) == multiset(scored)
  {
    if scored != [] {
      SortSorts(scored[1..], collate);
      InsertSorts(scored[0], Sort(scored[1..], collate), collate);
      InsertKeeps(scored[0], Sort(scored[1..], collate), collate);
      assert scored == [scored[0]] + scored[1..];
    }
  }

  /** The labels a command offers: its paths as long as the typed one, cut to one word for a single word. */
  function LabelsOf(paths: seq<seq<string>>, commandPath: seq<string>): seq<string> {
    if paths == [] then []
    else
      var candidate := if |commandPath| == 1 && paths[0] != [] then paths[0][..1] else paths[0];
      (if |candidate| == |commandPath| then [Join(candidate, " ")] else []) + LabelsOf(paths[1..], commandPath)
  }

  predicate IsEligible(spec: CommandSpec, families: Families, commandPath: seq<string>) {
    && !spec.hidden
    && (spec.destructive ==>
          var verb := FinalToken(spec.path);
          IntendsDestruction(FinalToken(commandPath), if verb in families then families[verb] else {}))
  }

  function AllLabels(specs: seq<CommandSpec>, families: Families, commandPath: seq<string>): seq<string> {
    if specs == [] then []
    else (if IsEligible(specs[0], families, commandPath) then LabelsOf(SpecPaths(specs[0]), commandPath) else []) +
         AllLabels(specs[1..], families, commandPath)
  }

  /** Each label once, with its distance; with the length filter only labels of about the input's length. */
  function Scores(labels: seq<string>, seen: set<string>, input: string, filtered: bool): seq<Scored> {
    if labels == [] then []
    else if labels[0] in seen then Scores(labels[1..], seen, input, filtered)
    else
      var rest := Scores(labels[1..], seen + {labels[0]}, input, filtered);
      if filtered && Difference(|input|, |labels[0]|) > SUGGESTION_THRESHOLD then rest
      else [Scored(labels[0], Distance(input, labels[0]))] + rest
  }

  function Suggestions(specs: seq<CommandSpec>, families: Families, commandPath: seq<string>, collate: Collation,
      filtered: bool): seq<string>
  {
    RankByDistance(Scores(AllLabels(specs, families, commandPath), {}, Join(commandPath, " "), filtered), collate)
  }

  /** The inner loop: scores the labels of one command that have not been seen. */
  method ScoreLabels(labels: seq<string>, seen: set<string>, input: string, ghost later: seq<string>)
    returns (scored: seq<Scored>, nowSeen: set<string>)
    ensures scored + Scores(later, nowSeen, input, true) == Scores(labels + later, seen, input, true)
  {
    hide Distance;
    scored, nowSeen := [], seen;
    assert labels[0..] == labels;
    for j := 0 to |labels|
      invariant scored + Scores(labels[j..] + later, nowSeen, input, true) == Scores(labels + later, seen, input, true)
    {
      var joined := labels[j];
      assert (labels[j..] + later)[0] == joined && (labels[j..] + later)[1..] == labels[j + 1..] + later;
      if joined in nowSeen { continue; }
      nowSeen := nowSeen + {joined};
      if Difference(|input|, |joined|) <= SUGGESTION_THRESHOLD {
        var distance := Levenshtein(input, joined);
        ghost var rest := Scores(labels[j + 1..] + later, nowSeen, input, true);
        assert scored + ([Scored(joined, distance)] + rest) == (scored + [Scored(joined, distance)]) + rest;
        scored := scored + [Scored(joined, distance)];
      }
    }
    assert labels[|labels|..] + later == later;
  }

  method SuggestCommands(specs: seq<CommandSpec>, commandPath: seq<string>, collate: Collation)
      returns (suggestions: seq<string>)
    ensures exists families ::
              AreComponents(specs, families) && suggestions == Suggestions(specs, families, commandPath, collate, true)
  {
    hide AreComponents, LabelsOf, IntendsDestruction, RankByDistance;
    var input := Join(commandPath, " ");
    var families := DestructiveVerbFamilies(specs);
    var seen: set<string>, scored: seq<Scored> := {}, [];
    ghost var all := Scores(AllLabels(specs, families, commandPath), {}, input, true);
    assert specs[0..] == specs;
    for i := 0 to |specs|
      invariant scored + Scores(AllLabels(specs[i..], families, commandPath), seen, input, true) == all
    {
      var spec := specs[i];
      ghost var later := AllLabels(specs[i + 1..], families, commandPath);
      assert specs[i..][0] == spec && specs[i..][1..] == specs[i + 1..];
      assert [] + later == later;
      if spec.hidden { continue; }
      if spec.destructive {
        var verb := FinalToken(spec.path);
        var intends := CheckIntent(FinalToken(commandPath), if verb in families then families[verb] else {});
        if !intends { continue; }
      }
      var labels := LabelsOf(SpecPaths(spec), commandPath);
      var more, nowSeen := ScoreLabels(labels, seen, input, later);
      assert scored + (more + Scores(later, nowSeen, input, true)) ==
             (scored + more) + Scores(later, nowSeen, input, true);
      scored, seen := scored + more, nowSeen;
    }
    assert specs[|specs|..] == [] && scored == scored + [] == all;
    suggestions := RankByDistance(scored, collate);
  }

  /** The length filter loses no near offer, because the distance is at least the difference of the lengths. */
  lemma {:induction false} FilterKeepsNearOnes(labels: seq<string>, seen: set<string>, input: string)
    ensures NearOnes(Scores(labels, seen, input, true)) == NearOnes(Scores(labels, seen, input, false))
  {
    hide Distance;
    if labels != [] {
      FilterKeepsNearOnes(labels[1..], if labels[0] in seen then seen else seen + {labels[0]}, input);
      LengthBounds(input, labels[0]);
    }
  }

  lemma LengthFilterLosesNothing(specs: seq<CommandSpec>, families: Families, commandPath: seq<string>,
      collate: Collation)
    ensures Suggestions(specs, families, commandPath, collate, true) ==
            Suggestions(specs, families, commandPath, collate, false)
  {
    FilterKeepsNearOnes(AllLabels(specs, families, commandPath), {}, Join(commandPath, " "));
  }

  lemma {:induction false} NearOnesAre(scored: seq<Scored>, entry: Scored)
    ensures entry in NearOnes(scored) <==> entry in scored && IsNear(entry)
  {
    if scored != [] { NearOnesAre(scored[1..], entry); }
  }

  lemma {:induction false} ScoresAre(labels: seq<string>, seen: set<string>, input: string, entry: Scored)
    ensures entry in Scores(labels, seen, input, false) <==>
            entry.offer in labels && entry.offer !in seen && entry.distance == Distance(input, entry.offer)
  {
    hide Distance;
    if labels != [] {
      ScoresAre(labels[1..], if labels[0] in seen then seen else seen + {labels[0]}, input, entry);
    }
  }

  lemma {:induction false} LabelsAre(scored: seq<Scored>, offer: string)
    ensures offer in Labels(scored) <==> exists entry :: entry in scored && entry.offer == offer
  {
    if scored != [] {
      LabelsAre(scored[1..], offer);
      assert scored == [scored[0]] + scored[1..];
    }
  }

  /**
   A command offers the first word of each of its paths to someone who typed one word, and otherwise
   each of its paths that has as many words as were typed.
   */
  ghost predicate Offers(spec: CommandSpec, commandPath: seq<string>, offer: string) {
    exists path :: (path == spec.path || path in spec.aliases) && IsOfferOf(path, commandPath, offer)
  }

  predicate IsOfferOf(path: seq<string>, commandPath: seq<string>, offer: string) {
    if |commandPath| == 1 then path != [] && offer == path[0]
    else |path| == |commandPath| && offer == Join(path, " ")
  }

  lemma {:induction false} OffersAre(paths: seq<seq<string>>, commandPath: seq<string>, offer: string)
    ensures offer in LabelsOf(paths, commandPath) <==>
            exists path :: path in paths && IsOfferOf(path, commandPath, offer)
  {
    if paths != [] {
      OffersAre(paths[1..], commandPath, offer);
      var path := paths[0];
      assert path != [] ==> Join(path[..1], " ") == path[0];
      assert offer in LabelsOf(paths, commandPath) <==>
             IsOfferOf(path, commandPath, offer) || offer in LabelsOf(paths[1..], commandPath);
      assert forall p :: p in paths <==> p == path || p in paths[1..];
    }
  }

  lemma OffersIff(spec: CommandSpec, commandPath: seq<string>, offer: string)
    ensures offer in LabelsOf(SpecPaths(spec), commandPath) <==> Offers(spec, commandPath, offer)
  {
    OffersAre(SpecPaths(spec), commandPath, offer);
  }

  /** Some visible command offers it, and if it is destructive the typed word is close to a verb of its component. */
  ghost predicate IsOffered(specs: seq<CommandSpec>, commandPath: seq<string>, offer: string) {
    exists k :: 0 <= k < |specs| && !specs[k].hidden && Offers(specs[k], commandPath, offer) &&
                (specs[k].destructive ==> IsIntended(specs, specs[k], FinalToken(commandPath)))
  }

  ghost predicate IsIntended(specs: seq<CommandSpec>, spec: CommandSpec, typed: string) {
    exists verb :: Connected(specs, FinalToken(spec.path), verb) &&
        Distance(typed, verb) <= 1
  }

  lemma EligibleIsIntended(specs: seq<CommandSpec>, families: Families, spec: CommandSpec, commandPath: seq<string>)
    requires AreComponents(specs, families) && spec in specs
    ensures IsEligible(spec, families, commandPath) <==>
            !spec.hidden && (spec.destructive ==> IsIntended(specs, spec, FinalToken(commandPath)))
  {
    hide Distance;
    if spec.destructive {
      var verb := FinalToken(spec.path);
      assert verb in Verbs(spec);
      assert IsVerb(specs, verb);
    }
  }

  lemma {:induction false} AllLabelsAre(specs: seq<CommandSpec>, families: Families, commandPath: seq<string>,
      offer: string)
    ensures offer in AllLabels(specs, families, commandPath) <==>
            exists k :: 0 <= k < |specs| && IsEligible(specs[k], families, commandPath) &&
                offer in LabelsOf(SpecPaths(specs[k]), commandPath)
  {
    hide LabelsOf, IsEligible;
    if specs != [] {
      AllLabelsAre(specs[1..], families, commandPath, offer);
      assert forall k :: 1 <= k < |specs| ==> specs[k] == specs[1..][k - 1];
    }
  }

  lemma OfferedAre(specs: seq<CommandSpec>, families: Families, commandPath: seq<string>, offer: string)
    requires AreComponents(specs, families)
    ensures offer in AllLabels(specs, families, commandPath) <==> IsOffered(specs, commandPath, offer)
  {
    hide AreComponents, IsIntended, IsEligible;
    AllLabelsAre(specs, families, commandPath, offer);
    forall k | 0 <= k < |specs|
      ensures IsEligible(specs[k], families, commandPath) <==>
              !specs[k].hidden && (specs[k].destructive ==> IsIntended(specs, specs[k], FinalToken(commandPath)))
    {
      EligibleIsIntended(specs, families, specs[k], commandPath);
    }
    forall k | 0 <= k < |specs|
      ensures offer in LabelsOf(SpecPaths(specs[k]), commandPath) <==> Offers(specs[k], commandPath, offer)
    {
      OffersIff(specs[k], commandPath, offer);
    }
    hide LabelsOf, Offers;
  }

  /** Nearer, or as near and no later in the collation. */
  predicate IsBetter(a: string, near: nat, b: string, far: nat, collate: Collation) {
    near < far || (near == far && collate(a, b))
  }

  /** The entry of a visible command that may be suggested, at a small distance that is not zero. */
  ghost predicate IsCandidate(specs: seq<CommandSpec>, commandPath: seq<string>, entry: Scored) {
    IsOffered(specs, commandPath, entry.offer) && entry.distance == Distance(Join(commandPath, " "), entry.offer) &&
        1 <= entry.distance <= 3
  }

  lemma CandidatesAre(specs: seq<CommandSpec>, families: Families, commandPath: seq<string>, collate: Collation,
      entry: Scored)
    requires AreComponents(specs, families) && IsTotalOrder(collate)
    ensures var scores := Scores(AllLabels(specs, families, commandPath), {}, Join(commandPath, " "), false);
            entry in Sort(NearOnes(scores), collate) <==> IsCandidate(specs, commandPath, entry)
  {
    hide AreComponents, IsOffered, Distance;
    var labels := AllLabels(specs, families, commandPath);
    var scores := Scores(labels, {}, Join(commandPath, " "), false);
    OfferedAre(specs, families, commandPath, entry.offer);
    ScoresAre(labels, {}, Join(commandPath, " "), entry);
    NearOnesAre(scores, entry);
    SortSorts(NearOnes(scores), collate);
    assert entry in Sort(NearOnes(scores), collate) <==> entry in multiset(Sort(NearOnes(scores), collate));
    assert entry in NearOnes(scores) <==> entry in multiset(NearOnes(scores));
  }

  /**
   The suggestions are the best three candidates: each is one, at most three are given, and a
   candidate left out comes, by distance and then by name, after all three.  A destructive
   command is suggested only if the typed word is within one edit of a verb of its component.
   */
  lemma SuggestionsAreBest(specs: seq<CommandSpec>, families: Families, commandPath: seq<string>, collate: Collation,
      entry: Scored)
    requires AreComponents(specs, families) && IsTotalOrder(collate)
    ensures var suggestions := Suggestions(specs, families, commandPath, collate, true);
            && |suggestions| <= 3
            && (entry.offer in suggestions && entry.distance == Distance(Join(commandPath, " "), entry.offer) ==>
                  IsCandidate(specs, commandPath, entry))
            && (IsCandidate(specs, commandPath, entry) && entry.offer !in suggestions ==>
                  |suggestions| == 3 &&
                  forall other :: other in suggestions ==>
                    IsBetter(other, Distance(Join(commandPath, " "), other), entry.offer, entry.distance, collate))
  {
    hide AreComponents, IsOffered, Distance, Scores, AllLabels;
    var input := Join(commandPath, " ");
    LengthFilterLosesNothing(specs, families, commandPath, collate);
    var sorted := Sort(NearOnes(Scores(AllLabels(specs, families, commandPath), {}, input, false)), collate);
    SortSorts(NearOnes(Scores(AllLabels(specs, families, commandPath), {}, input, false)), collate);
    LabelsLength(FirstOnes(sorted));
    LabelsAre(FirstOnes(sorted), entry.offer);
    CandidatesAre(specs, families, commandPath, collate, entry);
    if entry.offer in Labels(FirstOnes(sorted)) {
      var found :| found in FirstOnes(sorted) && found.offer == entry.offer;
      CandidatesAre(specs, families, commandPath, collate, found);
    }
    if entry in sorted && entry.offer !in Labels(FirstOnes(sorted)) {
      var k :| 0 <= k < |sorted| && sorted[k] == entry;
      assert k >= MAX_SUGGESTIONS;
      forall other | other in Labels(FirstOnes(sorted))
        ensures Before(Scored(other, Distance(input, other)), entry, collate)
      {
        LabelsAre(FirstOnes(sorted), other);
        var found :| found in FirstOnes(sorted) && found.offer == other;
        CandidatesAre(specs, families, commandPath, collate, found);
        var i :| 0 <= i < MAX_SUGGESTIONS && sorted[i] == found;
      }
    }
  }

  lemma {:induction false} LabelsLength(scored: seq<Scored>)
    ensures |Labels(scored)| == |scored|
  {
    if scored != [] { LabelsLength(scored[1..]); }
  }

  lemma {:induction false} LabelsAt(scored: seq<Scored>, i: nat)
    requires i < |scored|
    ensures |Labels(scored)| == |scored| && Labels(scored)[i] == scored[i].offer
  {
    LabelsLength(scored);
    if i > 0 { LabelsAt(scored[1..], i - 1); }
  }

  /** A label is scored once, however many commands offer it. */
  lemma {:induction false} ScoredOnce(labels: seq<string>, seen: set<string>, input: string, entry: Scored)
    ensures multiset(Scores(labels, seen, input, false))[entry] <= 1
  {
    hide Distance;
    if labels != [] && labels[0] in seen {
      ScoredOnce(labels[1..], seen, input, entry);
    } else if labels != [] {
      var first, rest := Scored(labels[0], Distance(input, labels[0])),
          Scores(labels[1..], seen + {labels[0]}, input, false);
      ScoredOnce(labels[1..], seen + {labels[0]}, input, entry);
      ScoresAre(labels[1..], seen + {labels[0]}, input, first);
      assert first !in multiset(rest);
      assert multiset([first] + rest) == multiset{first} + multiset(rest);
    }
  }

  lemma {:induction false} NearOnesAreFewer(scored: seq<Scored>, entry: Scored)
    ensures multiset(NearOnes(scored))[entry] <= multiset(scored)[entry]
  {
    if scored != [] {
      NearOnesAreFewer(scored[1..], entry);
      assert scored == [scored[0]] + scored[1..];
    }
  }

  lemma CountedTwice(scored: seq<Scored>, i: nat, j: nat)
    requires i < j < |scored| && scored[i] == scored[j]
    ensures multiset(scored)[scored[i]] >= 2
  {
    assert scored == scored[..j] + scored[j..];
    assert scored[..j][i] in multiset(scored[..j]) && scored[j..][0] in multiset(scored[j..]);
  }

  /** The suggestions are all different, and ordered by distance and then by name. */
  lemma SuggestionsAscend(specs: seq<CommandSpec>, families: Families, commandPath: seq<string>, collate: Collation,
      i: nat, j: nat)
    requires AreComponents(specs, families) && IsTotalOrder(collate)
    requires i < j < |Suggestions(specs, families, commandPath, collate, true)|
    ensures var suggestions, input := Suggestions(specs, families, commandPath, collate, true), Join(commandPath, " ");
            && suggestions[i] != suggestions[j]
            && IsBetter(suggestions[i], Distance(input, suggestions[i]),
                        suggestions[j], Distance(input, suggestions[j]), collate)
  {
    hide AreComponents, Distance, Scores, AllLabels, NearOnes, Sort;
    var input := Join(commandPath, " ");
    LengthFilterLosesNothing(specs, families, commandPath, collate);
    var labels := AllLabels(specs, families, commandPath);
    var near := NearOnes(Scores(labels, {}, input, false));
    var sorted := Sort(near, collate);
    LabelsAt(FirstOnes(sorted), 0);
    LabelsAt(FirstOnes(sorted), i);
    LabelsAt(FirstOnes(sorted), j);
    SortSorts(near, collate);
    CandidatesAre(specs, families, commandPath, collate, sorted[i]);
    CandidatesAre(specs, families, commandPath, collate, sorted[j]);
    if sorted[i] == sorted[j] {
      CountedTwice(sorted, i, j);
      ScoredOnce(labels, {}, input, sorted[i]);
      NearOnesAreFewer(Scores(labels, {}, input, false), sorted[i]);
    }
  }
}
