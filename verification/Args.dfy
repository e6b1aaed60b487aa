/**
 The command-line parser: words, flags in their three spellings, and repeatable flags, whose
 values share one string that the accessor splits again.
 */
module Args {
  import opened Wrappers
  import opened Numbers
  import opened Text
  import opened CommandSpecs

  /** A flag's value in the parsed map: text, or `true` for a flag given without one. */
  datatype Value = Given(text: string) | Bare

  datatype Entry = Entry(name: string, value: Value)

  /** The tokens of a command line, each flag with its spelling. */
  datatype Item =
    | Word(word: string)
    | Assigned(name: string, value: string)
    | Spaced(name: string, value: string)
    | Alone(name: string)

  datatype Parsed = Parsed(commandPath: seq<string>, flags: map<string, Value>)

  /** What the parser knows of a program: flags that take no value, and where the command starts in this argv. */
  datatype Setting = Setting(booleanFlags: set<string>, commandIndex: int)

  const REPEATABLE_STRING_FLAGS := {"label", "skill"}
  const SEPARATOR := '\0'

  predicate IsFlag(token: string) {
    |token| >= 2 && token[0] == '-' && token[1] == '-'
  }

  /** Everything before the first `=`, or everything. */
  function BeforeEquals(s: string): (name: string)
    ensures '=' !in name && |name| <= |s|
    ensures '=' in s <==> |name| < |s|
  {
    if s == "" || s[0] == '=' then "" else [s[0]] + BeforeEquals(s[1..])
  }

  /** A flag without `=` that cannot or may not take the next token. */
  predicate StandsAlone(argv: seq<string>, i: nat, sawWord: bool, name: string, setting: Setting) {
    || name in setting.booleanFlags
    || (!sawWord && i + 1 == setting.commandIndex)
    || i + 1 >= |argv|
    || IsFlag(argv[i + 1])
  }

  /** The item at token `i`; `sawWord` says whether a command word came before. */
  function ItemAt(argv: seq<string>, i: nat, sawWord: bool, setting: Setting): Item
    requires i < |argv|
  {
    if !IsFlag(argv[i]) then Word(argv[i])
    else
      var assignment := argv[i][2..];
      var name := BeforeEquals(assignment);
      if '=' in assignment then Assigned(name, assignment[|name| + 1..])
      else if StandsAlone(argv, i, sawWord, assignment, setting) then Alone(assignment)
      else Spaced(assignment, argv[i + 1])
  }

  function PrintItem(item: Item): (tokens: seq<string>)
    ensures |tokens| == Width(item)
  {
    match item
    case Word(word) => [word]
    case Assigned(name, value) => ["--" + name + "=" + value]
    case Spaced(name, value) => ["--" + name, value]
    case Alone(name) => ["--" + name]
  }

  function Width(item: Item): nat {
    if item.Spaced? then 2 else 1
  }

  /** The items from token `i` on. */
  function ItemsFrom(argv: seq<string>, i: nat, sawWord: bool, setting: Setting): seq<Item>
    decreases |argv| - i
  {
    if i >= |argv| then []
    else
      var item := ItemAt(argv, i, sawWord, setting);
      [item] + ItemsFrom(argv, i + Width(item), sawWord || item.Word?, setting)
  }

  function PrintItems(items: seq<Item>): seq<string> {
    if items == [] then [] else PrintItem(items[0]) + PrintItems(items[1..])
  }

  /** An item whose tokens, from token `i` on, mean the item again; `next` is the item behind it. */
  predicate Means(item: Item, next: Option<Item>, i: nat, sawWord: bool, setting: Setting) {
    match item
    case Word(word) => !IsFlag(word)
    case Assigned(name, _) => '=' !in name
    case Spaced(name, value) =>
      '=' !in name && name !in setting.booleanFlags && (sawWord || i + 1 != setting.commandIndex) && !IsFlag(value)
    case Alone(name) =>
      '=' !in name &&
      (name in setting.booleanFlags || (!sawWord && i + 1 == setting.commandIndex) || next.None? || !next.value.Word?)
  }

  function First(items: seq<Item>): Option<Item> {
    if items == [] then None else Some(items[0])
  }

  /** No flag stands where the parser would read it as another spelling, or give it the next word. */
  predicate Unambiguous(items: seq<Item>, i: nat, sawWord: bool, setting: Setting) {
    items == [] ||
    (Means(items[0], First(items[1..]), i, sawWord, setting) &&
     Unambiguous(items[1..], i + Width(items[0]), sawWord || items[0].Word?, setting))
  }

  lemma {:induction false} BeforeEqualsOf(name: string, rest: string)
    requires '=' !in name && (rest == "" || rest[0] == '=')
    ensures BeforeEquals(name + rest) == name
  {
    if name == "" {
      assert name + rest == rest;
    } else {
      assert (name + rest)[0] == name[0] && (name + rest)[1..] == name[1..] + rest;
      BeforeEqualsOf(name[1..], rest);
    }
  }

  lemma {:induction false} BeforeEqualsIsPrefix(s: string)
    ensures s[..|BeforeEquals(s)|] == BeforeEquals(s)
    ensures '=' in s ==> s[|BeforeEquals(s)|] == '='
    ensures '=' !in s ==> BeforeEquals(s) == s
  {
    if s != "" && s[0] != '=' { BeforeEqualsIsPrefix(s[1..]); }
  }

  lemma FlagPrints(token: string)
    requires IsFlag(token)
    ensures token == "--" + token[2..]
    ensures '=' in token[2..] ==>
              var name := BeforeEquals(token[2..]);
              |name| < |token[2..]| && token == "--" + name + "=" + token[2..][|name| + 1..]
    ensures '=' !in token[2..] ==> BeforeEquals(token[2..]) == token[2..]
  {
    BeforeEqualsIsPrefix(token[2..]);
  }

  lemma ItemPrints(argv: seq<string>, i: nat, sawWord: bool, setting: Setting)
    requires i < |argv|
    ensures var item := ItemAt(argv, i, sawWord, setting);
            i + Width(item) <= |argv| && PrintItem(item) == argv[i..i + Width(item)]
  {
    if IsFlag(argv[i]) { FlagPrints(argv[i]); }
    hide BeforeEquals;
  }

  /** The parser reads every token exactly once: its items print back as the command line. */
  lemma {:induction false} PrintInvertsItems(argv: seq<string>, i: nat, sawWord: bool, setting: Setting)
    requires i <= |argv|
    ensures PrintItems(ItemsFrom(argv, i, sawWord, setting)) == argv[i..]
    decreases |argv| - i
  {
    hide PrintItem, ItemAt;
    if i < |argv| {
      var item := ItemAt(argv, i, sawWord, setting);
      ItemPrints(argv, i, sawWord, setting);
      PrintInvertsItems(argv, i + Width(item), sawWord || item.Word?, setting);
      assert ItemsFrom(argv, i, sawWord, setting)[1..] ==
             ItemsFrom(argv, i + Width(item), sawWord || item.Word?, setting);
      assert argv[i..] == argv[i..i + Width(item)] + argv[i + Width(item)..];
    }
  }

  lemma AssignedMeans(name: string, value: string, token: string)
    requires '=' !in name && token == "--" + name + "=" + value
    ensures IsFlag(token) && '=' in token[2..] && BeforeEquals(token[2..]) == name && token[2..][|name| + 1..] == value
  {
    assert token[2..] == name + ("=" + value);
    assert token[2..][|name|] == '=';
    BeforeEqualsOf(name, "=" + value);
  }

  /** One item is read back where it stands. */
  lemma ItemMeans(argv: seq<string>, i: nat, item: Item, next: Option<Item>, sawWord: bool, setting: Setting)
    requires i + Width(item) <= |argv| && argv[i..i + Width(item)] == PrintItem(item)
    requires next.None? <==> i + Width(item) == |argv|
    requires next.Some? ==> IsFlag(argv[i + Width(item)]) == !next.value.Word?
    requires Means(item, next, i, sawWord, setting)
    ensures ItemAt(argv, i, sawWord, setting) == item
  {
    assert argv[i] == PrintItem(item)[0];
    if item.Assigned? {
      AssignedMeans(item.name, item.value, argv[i]);
    } else if !item.Word? {
      assert argv[i][2..] == item.name;
      if item.Spaced? { assert argv[i + 1] == PrintItem(item)[1]; }
    }
  }

  lemma FirstTokens(items: seq<Item>, i: nat, sawWord: bool, setting: Setting)
    requires items != [] && Means(items[0], First(items[1..]), i, sawWord, setting)
    ensures PrintItems(items) != [] && IsFlag(PrintItems(items)[0]) == !items[0].Word?
  {
    assert PrintItems(items)[0] == PrintItem(items[0])[0];
  }

  /** Command words and flags in any order and spelling are read back, if they are unambiguous. */
  lemma {:induction false} ItemsInvertPrint(argv: seq<string>, i: nat, items: seq<Item>, sawWord: bool,
      setting: Setting)
    requires i <= |argv| && argv[i..] == PrintItems(items) && Unambiguous(items, i, sawWord, setting)
    ensures ItemsFrom(argv, i, sawWord, setting) == items
    decreases |items|
  {
    hide PrintItem, Means, ItemAt;
    if items != [] {
      var item, rest := items[0], items[1..];
      var j := i + Width(item);
      assert argv[i..j] == argv[i..][..Width(item)] == PrintItem(item);
      assert argv[j..] == argv[i..][Width(item)..] == PrintItems(rest);
      if rest != [] {
        FirstTokens(rest, j, sawWord || item.Word?, setting);
        assert argv[j] == argv[j..][0];
      }
      ItemMeans(argv, i, item, First(rest), sawWord, setting);
      ItemsInvertPrint(argv, j, rest, sawWord || item.Word?, setting);
    }
  }

  lemma ItemIsMeant(argv: seq<string>, i: nat, sawWord: bool, setting: Setting)
    requires i < |argv|
    ensures var item := ItemAt(argv, i, sawWord, setting);
            var rest := ItemsFrom(argv, i + Width(item), sawWord || item.Word?, setting);
            Means(item, First(rest), i, sawWord, setting)
  {
    if IsFlag(argv[i]) { FlagPrints(argv[i]); }
    var item := ItemAt(argv, i, sawWord, setting);
    var j := i + Width(item);
    assert item.Alone? && j < |argv| ==>
             ItemsFrom(argv, j, sawWord, setting)[0] == ItemAt(argv, j, sawWord, setting);
    hide BeforeEquals, ItemsFrom;
  }

  lemma {:induction false} ItemsAreUnambiguous(argv: seq<string>, i: nat, sawWord: bool, setting: Setting)
    ensures Unambiguous(ItemsFrom(argv, i, sawWord, setting), i, sawWord, setting)
    decreases |argv| - i
  {
    hide ItemAt, Means;
    if i < |argv| {
      var item := ItemAt(argv, i, sawWord, setting);
      ItemIsMeant(argv, i, sawWord, setting);
      ItemsAreUnambiguous(argv, i + Width(item), sawWord || item.Word?, setting);
      assert ItemsFrom(argv, i, sawWord, setting)[1..] ==
             ItemsFrom(argv, i + Width(item), sawWord || item.Word?, setting);
    }
  }

  /** Exactly the unambiguous item lists survive printing and parsing. */
  lemma RoundTripIffUnambiguous(items: seq<Item>, setting: Setting)
    ensures ItemsFrom(PrintItems(items), 0, false, setting) == items <==> Unambiguous(items, 0, false, setting)
  {
    var argv := PrintItems(items);
    assert argv[0..] == argv;
    if Unambiguous(items, 0, false, setting) { ItemsInvertPrint(argv, 0, items, false, setting); }
    ItemsAreUnambiguous(argv, 0, false, setting);
  }

  /** A flag given without a value takes the word behind it, unless the command is known to start there. */
  lemma BareFlagTakesWord(setting: Setting)
    requires "x" !in setting.booleanFlags && setting.commandIndex != 1
    ensures ItemsFrom(PrintItems([Alone("x"), Word("w")]), 0, false, setting) == [Spaced("x", "w")]
  {
    var printed := PrintItems([Spaced("x", "w")]);
    assert printed == PrintItems([Alone("x"), Word("w")]);
    RoundTripIffUnambiguous([Spaced("x", "w")], setting);
  }

  function WordsOf(items: seq<Item>): seq<string> {
    if items == [] then []
    else if items[0].Word? then [items[0].word] + WordsOf(items[1..])
    else WordsOf(items[1..])
  }

  function EntryOf(item: Item): Entry
    requires !item.Word?
  {
    Entry(item.name, if item.Alone? then Bare else Given(item.value))
  }

  function EntriesOf(items: seq<Item>): seq<Entry> {
    if items == [] then []
    else if items[0].Word? then EntriesOf(items[1..])
    else [EntryOf(items[0])] + EntriesOf(items[1..])
  }

  function Joined(existing: string, value: string): string {
    existing + ([SEPARATOR] + value)
  }

  /** A repeated text is appended to the text already there; anything else replaces what is there. */
  function SetFlag(flags: map<string, Value>, entry: Entry, repeatable: set<string>): map<string, Value> {
    if entry.value.Given? && entry.name in flags && flags[entry.name].Given? && entry.name in repeatable
    then flags[entry.name := Given(Joined(flags[entry.name].text, entry.value.text))]
    else flags[entry.name := entry.value]
  }

  function FoldFlags(entries: seq<Entry>, repeatable: set<string>): map<string, Value> {
    if entries == [] then map[]
    else SetFlag(FoldFlags(entries[..|entries| - 1], repeatable), entries[|entries| - 1], repeatable)
  }

  /** The values a flag was given, in order. */
  function ValuesOf(entries: seq<Entry>, name: string): seq<Value> {
    if entries == [] then []
    else
      var last := entries[|entries| - 1];
      var before := ValuesOf(entries[..|entries| - 1], name);
      if last.name == name then before + [last.value] else before
  }

  /** The texts given since the flag last stood alone. */
  function SinceBare(values: seq<Value>): seq<string> {
    if values == [] || values[|values| - 1].Bare? then []
    else SinceBare(values[..|values| - 1]) + [values[|values| - 1].text]
  }

  /** What the map holds for a flag in the end. */
  function Final(values: seq<Value>, repeats: bool): Value
    requires values != []
  {
    var last := values[|values| - 1];
    if last.Given? && repeats then Given(Join(SinceBare(values), [SEPARATOR])) else last
  }

  lemma FinalStep(values: seq<Value>, text: string, repeats: bool)
    ensures var longer := values + [Given(text)];
            Final(longer, repeats) == if repeats && values != [] && Final(values, repeats).Given?
                                      then Given(Joined(Final(values, repeats).text, text)) else Given(text)
  {
    var longer := values + [Given(text)];
    assert longer[..|values|] == values;
    JoinSnoc(SinceBare(values), text, [SEPARATOR]);
  }

  /** Every flag ends up with the fold of its own values alone. */
  lemma {:induction false} FoldIsPerFlag(entries: seq<Entry>, repeatable: set<string>, name: string)
    ensures var values := ValuesOf(entries, name);
            && (name in FoldFlags(entries, repeatable) <==> values != [])
            && (values != [] ==> FoldFlags(entries, repeatable)[name] == Final(values, name in repeatable))
  {
    if entries != [] {
      var n := |entries| - 1;
      FoldIsPerFlag(entries[..n], repeatable, name);
      if entries[n].name == name && entries[n].value.Given? {
        FinalStep(ValuesOf(entries[..n], name), entries[n].value.text, name in repeatable);
      }
    }
  }

  datatype FlagError = RequiresValue(name: string)

  /** `getRepeatedStringFlag`, through `getOptionalStringFlag`. */
  function GetRepeatedStringFlag(flags: map<string, Value>, name: string): Result<seq<string>, FlagError> {
    if name !in flags then Ok([])
    else if flags[name].Bare? then Err(RequiresValue(name))
    else if flags[name].text == "" then Ok([])
    else Ok(NonEmpty(Split(flags[name].text, SEPARATOR)))
  }

  /**
   A repeatable flag gives back the non-empty texts since it last stood alone, in order, and is
   refused when it stands alone last; texts before that are lost.
   */
  lemma RepeatedFlagIsRecovered(entries: seq<Entry>, repeatable: set<string>, name: string)
    requires name in repeatable
    requires forall text :: text in SinceBare(ValuesOf(entries, name)) ==> '\0' !in text
    ensures var values := ValuesOf(entries, name);
            GetRepeatedStringFlag(FoldFlags(entries, repeatable), name) ==
            if values != [] && values[|values| - 1].Bare? then Err(RequiresValue(name))
            else Ok(NonEmpty(SinceBare(values)))
  {
    var values := ValuesOf(entries, name);
    var texts := SinceBare(values);
    FoldIsPerFlag(entries, repeatable, name);
    if values != [] && values[|values| - 1].Given? {
      assert texts != [];
      SplitInvertsJoin(texts, SEPARATOR);
      if Join(texts, [SEPARATOR]) == "" {
        assert Split("", SEPARATOR) == [""];
        assert texts == [""];
      }
    }
  }

  /** All texts given to a flag, in order. */
  function TextsOf(values: seq<Value>): seq<string> {
    if values == [] then []
    else TextsOf(values[..|values| - 1]) + if values[|values| - 1].Given? then [values[|values| - 1].text] else []
  }

  lemma {:induction false} NonEmptyConcat(a: seq<string>, b: seq<string>)
    ensures NonEmpty(a + b) == NonEmpty(a) + NonEmpty(b)
  {
    if a == [] {
      assert a + b == b;
    } else {
      assert (a + b)[1..] == a[1..] + b;
      NonEmptyConcat(a[1..], b);
    }
  }

  /** No text that is not empty comes before a place where the flag stands alone. */
  predicate NothingBeforeBare(values: seq<Value>) {
    forall i, j :: 0 <= i < j < |values| && values[i].Given? && values[j].Bare? ==> values[i].text == ""
  }

  predicate NothingGiven(values: seq<Value>) {
    forall i :: 0 <= i < |values| && values[i].Given? ==> values[i].text == ""
  }

  lemma NothingGivenSnoc(values: seq<Value>)
    requires values != []
    ensures var last := values[|values| - 1];
            NothingGiven(values) <==> NothingGiven(values[..|values| - 1]) && (last.Given? ==> last.text == "")
  {
    assert forall i :: 0 <= i < |values| - 1 ==> values[..|values| - 1][i] == values[i];
  }

  lemma NonEmptyOfOne(text: string)
    ensures NonEmpty([text]) == if text == "" then [] else [text]
    ensures NonEmpty([]) == []
  {
    assert [text][1..] == [];
  }

  lemma {:induction false} NoTextsIff(values: seq<Value>)
    ensures NonEmpty(TextsOf(values)) == [] <==> NothingGiven(values)
  {
    if values != [] {
      hide NothingGiven, NonEmpty;
      var before, last := values[..|values| - 1], values[|values| - 1];
      NoTextsIff(before);
      NothingGivenSnoc(values);
      NonEmptyConcat(TextsOf(before), if last.Given? then [last.text] else []);
      NonEmptyOfOne(if last.Given? then last.text else "");
    } else {
      NonEmptyOfOne("");
    }
  }

  lemma NothingBeforeSnoc(values: seq<Value>)
    requires values != []
    ensures var before := values[..|values| - 1];
            NothingBeforeBare(values) <==>
            if values[|values| - 1].Bare? then NothingGiven(before) else NothingBeforeBare(before)
  {
    assert forall i :: 0 <= i < |values| - 1 ==> values[..|values| - 1][i] == values[i];
  }

  /** Exactly the texts before the last such place are missing from those since. */
  lemma {:induction false} SinceBareIsAllIff(values: seq<Value>)
    ensures |NonEmpty(SinceBare(values))| <= |NonEmpty(TextsOf(values))|
    ensures NonEmpty(SinceBare(values)) == NonEmpty(TextsOf(values)) <==> NothingBeforeBare(values)
  {
    if values != [] {
      hide NonEmpty, NothingBeforeBare, NothingGiven;
      var n := |values| - 1;
      var before := values[..n];
      NothingBeforeSnoc(values);
      if values[n].Bare? {
        NoTextsIff(before);
        NonEmptyOfOne("");
        assert TextsOf(values) == TextsOf(before);
      } else {
        SinceBareIsAllIff(before);
        NonEmptyConcat(SinceBare(before), [values[n].text]);
        NonEmptyConcat(TextsOf(before), [values[n].text]);
        SameEnd(NonEmpty(SinceBare(before)), NonEmpty(TextsOf(before)), NonEmpty([values[n].text]));
      }
    }
  }

  lemma SameEnd(a: seq<string>, b: seq<string>, end: seq<string>)
    ensures a + end == b + end <==> a == b
  {
    if a + end == b + end {
      assert a == (a + end)[..|a|] && b == (b + end)[..|b|];
    }
  }

  /**
   A repeatable flag gives back all texts it was given exactly when none is lost before a bare flag and it does not end
   bare.
   */
  lemma AllTextsAreRecoveredIff(entries: seq<Entry>, repeatable: set<string>, name: string)
    requires name in repeatable
    requires forall text :: text in SinceBare(ValuesOf(entries, name)) ==> '\0' !in text
    ensures var values := ValuesOf(entries, name);
            GetRepeatedStringFlag(FoldFlags(entries, repeatable), name) == Ok(NonEmpty(TextsOf(values))) <==>
            (values != [] ==> values[|values| - 1].Given?) && NothingBeforeBare(values)
  {
    RepeatedFlagIsRecovered(entries, repeatable, name);
    SinceBareIsAllIff(ValuesOf(entries, name));
  }

  /** A text given before the flag stands alone is lost, although another follows. */
  lemma TextBeforeBareIsLost()
    ensures var entries := [Entry("label", Given("a")), Entry("label", Bare), Entry("label", Given("b"))];
            GetRepeatedStringFlag(FoldFlags(entries, REPEATABLE_STRING_FLAGS), "label") == Ok(["b"])
  {
    var entries := [Entry("label", Given("a")), Entry("label", Bare), Entry("label", Given("b"))];
    assert entries[..2] == [Entry("label", Given("a")), Entry("label", Bare)] &&
           entries[..2][..1] == [Entry("label", Given("a"))];
    assert ValuesOf(entries[..2][..1], "label") == [Given("a")];
    assert ValuesOf(entries[..2], "label") == [Given("a"), Bare];
    var values := ValuesOf(entries, "label");
    assert values == [Given("a"), Bare, Given("b")];
    assert values[..2] == [Given("a"), Bare];
    assert SinceBare(values) == ["b"];
    NonEmptyOfOne("b");
    RepeatedFlagIsRecovered(entries, REPEATABLE_STRING_FLAGS, "label");
  }

  predicate IsPrefix(candidate: seq<string>, path: seq<string>) {
    |candidate| <= |path| && path[..|candidate|] == candidate
  }

  /** One more than the length of the longest of these paths that `path` starts with, or 0. */
  function LongestMatch(paths: seq<seq<string>>, path: seq<string>): nat {
    if paths == [] then 0
    else
      var before := LongestMatch(paths[..|paths| - 1], path);
      var last := paths[|paths| - 1];
      if IsPrefix(last, path) && |last| + 1 > before then |last| + 1 else before
  }

  /** The first of the specs with the longest matching path, and how long that is, counted as above. */
  function BestSpec(specs: seq<CommandSpec>, path: seq<string>): (Option<CommandSpec>, nat) {
    if specs == [] then (None, 0)
    else
      var before := BestSpec(specs[..|specs| - 1], path);
      var spec := specs[|specs| - 1];
      var length := LongestMatch(SpecPaths(spec), path);
      if length > before.1 then (Some(spec), length) else before
  }

  lemma {:induction false} LongestMatchIsLongest(paths: seq<seq<string>>, path: seq<string>)
    ensures forall k :: 0 <= k < |paths| && IsPrefix(paths[k], path) ==> |paths[k]| < LongestMatch(paths, path)
    ensures LongestMatch(paths, path) > 0 ==>
              exists k :: 0 <= k < |paths| && IsPrefix(paths[k], path) && |paths[k]| + 1 == LongestMatch(paths, path)
  {
    if paths != [] { LongestMatchIsLongest(paths[..|paths| - 1], path); }
  }

  /** Spec `k` has a path of this length, counted as above, and no earlier one has. */
  ghost predicate IsFirstMatch(specs: seq<CommandSpec>, path: seq<string>, k: nat, length: nat) {
    && k < |specs|
    && LongestMatch(SpecPaths(specs[k]), path) == length
    && forall j :: 0 <= j < k ==> LongestMatch(SpecPaths(specs[j]), path) < length
  }

  lemma FirstMatchInPrefix(specs: seq<CommandSpec>, path: seq<string>, n: nat, k: nat, length: nat)
    requires n <= |specs| && IsFirstMatch(specs[..n], path, k, length)
    ensures IsFirstMatch(specs, path, k, length) && specs[k] == specs[..n][k]
  {
    assert forall j :: 0 <= j < n ==> specs[j] == specs[..n][j];
  }

  /** Repeatability follows the most specific spec: none has a longer matching path, no earlier one as long. */
  lemma {:induction false} BestSpecIsMostSpecific(specs: seq<CommandSpec>, path: seq<string>)
    ensures var best := BestSpec(specs, path);
            && (forall k :: 0 <= k < |specs| ==> LongestMatch(SpecPaths(specs[k]), path) <= best.1)
            && (best.0.None? <==> best.1 == 0)
            && (best.0.Some? ==> exists k: nat :: IsFirstMatch(specs, path, k, best.1) && specs[k] == best.0.value)
  {
    hide LongestMatch, SpecPaths;
    if specs != [] {
      var n := |specs| - 1;
      var before, best := BestSpec(specs[..n], path), BestSpec(specs, path);
      BestSpecIsMostSpecific(specs[..n], path);
      assert forall k :: 0 <= k < n ==> specs[k] == specs[..n][k];
      if best == before {
        if best.0.Some? {
          var k: nat :| IsFirstMatch(specs[..n], path, k, best.1) && specs[..n][k] == best.0.value;
          FirstMatchInPrefix(specs, path, n, k, best.1);
        }
      } else {
        assert IsFirstMatch(specs, path, n, best.1);
      }
    }
  }

  method SpecForPathPrefix(specs: seq<CommandSpec>, path: seq<string>) returns (best: Option<CommandSpec>)
    ensures best == BestSpec(specs, path).0
  {
    best := None;
    var length: nat := 0;
    for i := 0 to |specs|
      invariant (best, length) == BestSpec(specs[..i], path)
    {
      var candidates := SpecPaths(specs[i]);
      var before, longest := best, length;
      for j := 0 to |candidates|
        invariant longest == Max(length, LongestMatch(candidates[..j], path))
        invariant if longest > length then best == Some(specs[i]) else best == before
      {
        assert candidates[..j + 1][..j] == candidates[..j];
        if IsPrefix(candidates[j], path) && |candidates[j]| + 1 > longest {
          longest := |candidates[j]| + 1;
        }
        if longest > length { best := Some(specs[i]); }
      }
      assert candidates[..|candidates|] == candidates && specs[..i + 1][..i] == specs[..i];
      length := longest;
    }
    assert specs[..|specs|] == specs;
  }

  function Repeatable(specs: seq<CommandSpec>, path: seq<string>): set<string> {
    var best := BestSpec(specs, path).0;
    REPEATABLE_STRING_FLAGS + if best.Some? then best.value.repeatableFlags else {}
  }

  /**
   Repeatable are `label`, `skill`, and what is declared by the first of the specifications that have
   the longest path the command starts with.
   */
  lemma RepeatableIff(specs: seq<CommandSpec>, path: seq<string>, name: string)
    ensures name in Repeatable(specs, path) <==>
            || name == "label" || name == "skill"
            || exists k: nat, j: nat :: IsMostSpecific(specs, path, k, j) && name in specs[k].repeatableFlags
  {
    hide LongestMatch, SpecPaths;
    BestSpecIsMostSpecific(specs, path);
    var best := BestSpec(specs, path);
    if best.0.Some? {
      var k: nat :| IsFirstMatch(specs, path, k, best.1) && specs[k] == best.0.value;
      MostSpecificIs(specs, path, k, best.1);
    }
    forall k: nat, j: nat | IsMostSpecific(specs, path, k, j) ensures best.0 == Some(specs[k]) {
      MostSpecificIsBest(specs, path, k, j);
    }
  }

  /**
   The command starts with path `j` of specification `k`; no path of any is longer, and none of an earlier one as long.
   */
  ghost predicate IsMostSpecific(specs: seq<CommandSpec>, path: seq<string>, k: nat, j: nat) {
    && k < |specs| && j < |SpecPaths(specs[k])| && SpecPaths(specs[k])[j] <= path
    && forall m, n :: 0 <= m < |specs| && 0 <= n < |SpecPaths(specs[m])| && SpecPaths(specs[m])[n] <= path ==>
         |SpecPaths(specs[m])[n]| < |SpecPaths(specs[k])[j]| + if m < k then 0 else 1
  }

  lemma MostSpecificIs(specs: seq<CommandSpec>, path: seq<string>, k: nat, length: nat)
    requires length > 0 && IsFirstMatch(specs, path, k, length)
    requires forall m :: 0 <= m < |specs| ==> LongestMatch(SpecPaths(specs[m]), path) <= length
    ensures exists j: nat :: IsMostSpecific(specs, path, k, j)
  {
    hide LongestMatch, SpecPaths;
    LongestMatchIsLongest(SpecPaths(specs[k]), path);
    var j: nat :| j < |SpecPaths(specs[k])| && IsPrefix(SpecPaths(specs[k])[j], path) &&
                  |SpecPaths(specs[k])[j]| + 1 == length;
    forall m, n | 0 <= m < |specs| && 0 <= n < |SpecPaths(specs[m])| && SpecPaths(specs[m])[n] <= path
      ensures |SpecPaths(specs[m])[n]| < |SpecPaths(specs[k])[j]| + if m < k then 0 else 1
    {
      LongestMatchIsLongest(SpecPaths(specs[m]), path);
      assert IsPrefix(SpecPaths(specs[m])[n], path);
    }
    assert IsMostSpecific(specs, path, k, j);
  }

  lemma MostSpecificIsBest(specs: seq<CommandSpec>, path: seq<string>, k: nat, j: nat)
    requires IsMostSpecific(specs, path, k, j)
    ensures BestSpec(specs, path).0 == Some(specs[k])
  {
    hide LongestMatch, SpecPaths, BestSpec;
    var best := BestSpec(specs, path);
    BestSpecIsMostSpecific(specs, path);
    LongestMatchIsLongest(SpecPaths(specs[k]), path);
    assert IsPrefix(SpecPaths(specs[k])[j], path);
    var m: nat :| IsFirstMatch(specs, path, m, best.1) && specs[m] == best.0.value;
    LongestMatchIsLongest(SpecPaths(specs[m]), path);
    var n: nat :| n < |SpecPaths(specs[m])| && IsPrefix(SpecPaths(specs[m])[n], path) &&
                  |SpecPaths(specs[m])[n]| + 1 == best.1;
    assert SpecPaths(specs[m])[n] <= path;
  }

  lemma Regrouped<T>(a: seq<T>, x: T, b: seq<T>)
    ensures a + ([x] + b) == (a + [x]) + b
  {
  }

  /** The token loop: words and flag entries, in order. */
  method ReadTokens(argv: seq<string>, setting: Setting) returns (commandPath: seq<string>, entries: seq<Entry>)
    ensures var items := ItemsFrom(argv, 0, false, setting);
            commandPath == WordsOf(items) && entries == EntriesOf(items)
  {
    commandPath, entries := [], [];
    ghost var items := ItemsFrom(argv, 0, false, setting);
    var i: nat := 0;
    while i < |argv|
      invariant commandPath + WordsOf(ItemsFrom(argv, i, commandPath != [], setting)) == WordsOf(items)
      invariant entries + EntriesOf(ItemsFrom(argv, i, commandPath != [], setting)) == EntriesOf(items)
    {
      ghost var item := ItemAt(argv, i, commandPath != [], setting);
      ghost var rest := ItemsFrom(argv, i + Width(item), commandPath != [] || item.Word?, setting);
      assert ItemsFrom(argv, i, commandPath != [], setting)[1..] == rest;
      var token := argv[i];
      i := i + 1;
      if !IsFlag(token) {
        Regrouped(commandPath, token, WordsOf(rest));
        commandPath := commandPath + [token];
        continue;
      }
      var assignment := token[2..];
      var entry;
      if '=' in assignment {
        var name := BeforeEquals(assignment);
        entry := Entry(name, Given(assignment[|name| + 1..]));
      } else if assignment in setting.booleanFlags || (commandPath == [] && i == setting.commandIndex) {
        entry := Entry(assignment, Bare);
      } else if i >= |argv| || IsFlag(argv[i]) {
        entry := Entry(assignment, Bare);
      } else {
        entry := Entry(assignment, Given(argv[i]));
        i := i + 1;
      }
      assert entry == EntryOf(item);
      Regrouped(entries, entry, EntriesOf(rest));
      entries := entries + [entry];
    }
  }

  /** The words, and the fold of the flags with the repeatability of the most specific spec. */
  function Parse(argv: seq<string>, setting: Setting, specs: seq<CommandSpec>): Parsed {
    var items := ItemsFrom(argv, 0, false, setting);
    Parsed(WordsOf(items), FoldFlags(EntriesOf(items), Repeatable(specs, WordsOf(items))))
  }

  method ParseArgs(argv: seq<string>, setting: Setting, specs: seq<CommandSpec>) returns (parsed: Parsed)
    ensures parsed == Parse(argv, setting, specs)
  {
    var commandPath, entries := ReadTokens(argv, setting);
    var spec := SpecForPathPrefix(specs, commandPath);
    var repeatable := REPEATABLE_STRING_FLAGS + if spec.Some? then spec.value.repeatableFlags else {};
    var flags: map<string, Value> := map[];
    for k := 0 to |entries|
      invariant flags == FoldFlags(entries[..k], repeatable)
    {
      assert entries[..k + 1][..k] == entries[..k];
      flags := SetFlag(flags, entries[k], repeatable);
    }
    assert entries[..|entries|] == entries;
    parsed := Parsed(commandPath, flags);
  }

  /** Parsing a printed command gives back its words, and the fold of its flags under the spec of those words. */
  lemma ParseInvertsPrint(items: seq<Item>, setting: Setting, specs: seq<CommandSpec>)
    requires Unambiguous(items, 0, false, setting)
    ensures Parse(PrintItems(items), setting, specs) ==
            Parsed(WordsOf(items), FoldFlags(EntriesOf(items), Repeatable(specs, WordsOf(items))))
  {
    RoundTripIffUnambiguous(items, setting);
  }

  /** A command as it is usually printed: its words, then each flag as `--name=value` or `--name`. */
  function PrintCommand(words: seq<string>, entries: seq<Entry>): seq<string> {
    words + PrintFlags(entries)
  }

  function PrintFlags(entries: seq<Entry>): seq<string> {
    if entries == [] then []
    else
      var (name, value) := (entries[0].name, entries[0].value);
      ["--" + name + if value.Given? then "=" + value.text else ""] + PrintFlags(entries[1..])
  }

  function FlagItems(entries: seq<Entry>): seq<Item> {
    if entries == [] then []
    else
      var (name, value) := (entries[0].name, entries[0].value);
      [if value.Given? then Assigned(name, value.text) else Alone(name)] + FlagItems(entries[1..])
  }

  function CommandItems(words: seq<string>, entries: seq<Entry>): seq<Item> {
    if words == [] then FlagItems(entries) else [Word(words[0])] + CommandItems(words[1..], entries)
  }

  lemma {:induction false} FlagItemsAre(entries: seq<Entry>)
    ensures PrintItems(FlagItems(entries)) == PrintFlags(entries)
    ensures EntriesOf(FlagItems(entries)) == entries && WordsOf(FlagItems(entries)) == []
  {
    if entries != [] {
      FlagItemsAre(entries[1..]);
      var (name, value) := (entries[0].name, entries[0].value);
      if value.Given? {
        assert "--" + name + "=" + value.text == "--" + name + ("=" + value.text);
      } else {
        assert "--" + name + "" == "--" + name;
      }
    }
  }

  lemma {:induction false} CommandItemsAre(words: seq<string>, entries: seq<Entry>)
    ensures PrintItems(CommandItems(words, entries)) == PrintCommand(words, entries)
    ensures WordsOf(CommandItems(words, entries)) == words && EntriesOf(CommandItems(words, entries)) == entries
  {
    if words == [] {
      FlagItemsAre(entries);
      assert [] + PrintFlags(entries) == PrintFlags(entries);
    } else {
      CommandItemsAre(words[1..], entries);
      assert [words[0]] + (words[1..] + PrintFlags(entries)) == words + PrintFlags(entries);
    }
  }

  lemma {:induction false} FlagItemsAreUnambiguous(entries: seq<Entry>, i: nat, sawWord: bool, setting: Setting)
    requires forall k :: 0 <= k < |entries| ==> '=' !in entries[k].name
    ensures Unambiguous(FlagItems(entries), i, sawWord, setting)
  {
    if entries != [] {
      FlagItemsAreUnambiguous(entries[1..], i + 1, sawWord, setting);
      assert FlagItems(entries)[1..] == FlagItems(entries[1..]);
    }
  }

  lemma {:induction false} CommandItemsAreUnambiguous(words: seq<string>, entries: seq<Entry>, i: nat, sawWord: bool,
      setting: Setting)
    requires forall k :: 0 <= k < |words| ==> !IsFlag(words[k])
    requires forall k :: 0 <= k < |entries| ==> '=' !in entries[k].name
    ensures Unambiguous(CommandItems(words, entries), i, sawWord, setting)
  {
    if words == [] {
      FlagItemsAreUnambiguous(entries, i, sawWord, setting);
    } else {
      CommandItemsAreUnambiguous(words[1..], entries, i + 1, true, setting);
      assert CommandItems(words, entries)[1..] == CommandItems(words[1..], entries);
    }
  }

  /** A command of words without `--` and flags printed behind them is always read back, in any setting. */
  lemma CommandIsReadBack(words: seq<string>, entries: seq<Entry>, setting: Setting, specs: seq<CommandSpec>)
    requires forall k :: 0 <= k < |words| ==> !IsFlag(words[k])
    requires forall k :: 0 <= k < |entries| ==> '=' !in entries[k].name
    ensures Parse(PrintCommand(words, entries), setting, specs) ==
            Parsed(words, FoldFlags(entries, Repeatable(specs, words)))
  {
    CommandItemsAreUnambiguous(words, entries, 0, false, setting);
    ParseInvertsPrint(CommandItems(words, entries), setting, specs);
    CommandItemsAre(words, entries);
  }
}
