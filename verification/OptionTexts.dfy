/**
 What the option-key reader does on every text: which argument lists pass its guard, which keys it
 reads from one object literal, and when it reports nothing although it could not read a shape.
 */
module OptionTexts {
  import opened Wrappers
  import opened Text
  import opened OptionKeys
  import opened OptionTokens

  // ---- Any well-formed tokens are the body of an object literal

  /** The tokens before the first character that ends a key, or a value, at the top level. */
  function Before(t: Tokens, inValue: bool): Tokens {
    match t
    case End => End
    case Plain(c, rest) => if Ends(c, 0, inValue) then End else Plain(c, Before(rest, inValue))
    case NonCode(kind, body, rest) => NonCode(kind, body, Before(rest, inValue))
    case Group(open, inner, close, rest) => Group(open, inner, close, Before(rest, inValue))
  }

  function Count(t: Tokens): nat {
    match t
    case End => 0
    case Plain(_, rest) => 1 + Count(rest)
    case NonCode(_, _, rest) => 1 + Count(rest)
    case Group(_, _, _, rest) => 1 + Count(rest)
  }

  /** The tokens from that character on. */
  function From(t: Tokens, inValue: bool): (from: Tokens)
    ensures from == End || (from.Plain? && Ends(from.c, 0, inValue))
    ensures Count(from) <= Count(t)
  {
    match t
    case End => End
    case Plain(c, rest) => if Ends(c, 0, inValue) then t else From(rest, inValue)
    case NonCode(_, _, rest) => From(rest, inValue)
    case Group(_, _, _, rest) => From(rest, inValue)
  }

  /** The slots between the top-level commas, each cut at its first colon. */
  function SlotsOf(t: Tokens): (slots: seq<Entry>)
    ensures slots != []
    decreases Count(t)
  {
    var key, rest := Before(t, false), From(t, false);
    if rest == End then [Entry(key, None)]
    else if rest.c == ',' then [Entry(key, None)] + SlotsOf(rest.rest)
    else
      var value, next := Before(rest.rest, true), From(rest.rest, true);
      [Entry(key, Some(value))] + if next == End then [] else SlotsOf(next.rest)
  }

  lemma {:induction false} BeforeAndFrom(t: Tokens, inValue: bool)
    ensures Append(Before(t, inValue), From(t, inValue)) == t
  {
    if t != End { BeforeAndFrom(t.rest, inValue); }
  }

  lemma {:induction false} BeforeStarts(t: Tokens, inValue: bool)
    ensures Print(Before(t, inValue)) == "" || At(Print(Before(t, inValue)), 0) == At(Print(t), 0)
  {
    match t
    case End =>
    case Plain(c, rest) =>
    case NonCode(kind, body, rest) => if kind == Code { BeforeStarts(rest, inValue); }
    case Group(open, inner, close, rest) =>
  }

  lemma {:induction false} BeforeIsOk(t: Tokens, inValue: bool)
    requires WellFormed(t)
    ensures WellFormed(Before(t, inValue)) && NeverEnds(Before(t, inValue), 0, inValue)
  {
    match t
    case End =>
    case Plain(c, rest) =>
      BeforeIsOk(rest, inValue);
      BeforeStarts(rest, inValue);
    case NonCode(_, _, rest) => BeforeIsOk(rest, inValue);
    case Group(_, _, _, rest) => BeforeIsOk(rest, inValue);
  }

  lemma {:induction false} FromIsOk(t: Tokens, inValue: bool)
    requires WellFormed(t)
    ensures WellFormed(From(t, inValue))
  {
    if t != End { FromIsOk(t.rest, inValue); }
  }

  lemma {:induction false} SlotsAre(t: Tokens)
    requires WellFormed(t)
    ensures Body(SlotsOf(t)) == t && EntriesOk(SlotsOf(t))
    decreases Count(t)
  {
    hide WellFormed, NeverEnds, Append, Before, From;
    var key, rest := Before(t, false), From(t, false);
    BeforeAndFrom(t, false);
    BeforeIsOk(t, false);
    FromIsOk(t, false);
    if rest == End {
      assert SlotsOf(t)[1..] == [];
    } else if rest.c == ',' {
      RestIsOk(rest);
      SlotsAre(rest.rest);
      SlotInFront(Entry(key, None), SlotsOf(rest.rest));
    } else {
      var value, next := Before(rest.rest, true), From(rest.rest, true);
      RestIsOk(rest);
      BeforeAndFrom(rest.rest, true);
      BeforeIsOk(rest.rest, true);
      FromIsOk(rest.rest, true);
      if next == End {
        assert [Entry(key, Some(value))] + [] == [Entry(key, Some(value))];
      } else {
        RestIsOk(next);
        SlotsAre(next.rest);
        SlotInFront(Entry(key, Some(value)), SlotsOf(next.rest));
      }
    }
  }

  lemma RestIsOk(t: Tokens)
    requires t.Plain? && WellFormed(t)
    ensures WellFormed(t.rest)
  {
  }

  lemma SlotInFront(e: Entry, slots: seq<Entry>)
    requires EntryOk(e) && EntriesOk(slots) && slots != []
    ensures EntriesOk([e] + slots) && Body([e] + slots) == EntryTokens(e, Plain(',', Body(slots)))
  {
    assert ([e] + slots)[1..] == slots;
  }

  // ---- The guard on the argument list

  ghost predicate HasTokens(s: string) {
    exists t :: WellFormed(t) && Print(t) == s
  }

  /** The tokens of a text. */
  ghost function TokensOf(s: string): (t: Tokens)
    requires HasTokens(s)
    ensures WellFormed(t) && Print(t) == s
  {
    var t :| WellFormed(t) && Print(t) == s;
    t
  }

  predicate IsBraced(s: string) {
    |s| >= 2 && s[0] == '{' && s[|s| - 1] == '}'
  }

  /** The first brace closes at the very end: the text is one object literal. */
  predicate IsOneLiteral(s: string) {
    IsBraced(s) && ArgumentSlice(s, 0) == Some(s[1..|s| - 1])
  }

  /** The first brace closes before the last one: something else follows the literal. */
  predicate ClosesEarly(s: string) {
    IsBraced(s) && ArgumentSlice(s, 0).Some? && |ArgumentSlice(s, 0).value| < |s| - 2
  }

  lemma {:induction false} TokensBehindSpace(s: string, t: Tokens) returns (rest: Tokens)
    requires WellFormed(t) && Print(t) == s
    ensures WellFormed(rest) && Print(rest) == TrimStart(s)
  {
    if s != "" && IsSpace(s[0]) {
      SpaceIsPlain(s[0]);
      SpacePrints(t);
      rest := TokensBehindSpace(s[1..], t.rest);
    } else {
      rest := t;
    }
  }

  lemma SpacePrints(t: Tokens)
    requires WellFormed(t) && Print(t) != "" && IsSpace(Print(t)[0])
    ensures t.Plain? && Print(t)[1..] == Print(t.rest)
  {
    hide IsSpace;
    match t
    case Plain(c, rest) =>
    case NonCode(kind, body, rest) => NonCodeStarts(t);
    case Group(open, inner, close, rest) => OpenIsNoSpace(open);
  }

  lemma NonCodeStarts(t: Tokens)
    requires t.NonCode? && WellFormed(t)
    ensures Print(t) != "" && !IsSpace(Print(t)[0]) && !IsOpen(Print(t)[0])
  {
    assert Print(t)[0] == Opening(t.kind)[0];
  }

  lemma OpenIsNoSpace(c: char)
    requires IsOpen(c) || IsClose(c)
    ensures !IsSpace(c)
  {
  }

  lemma OpenPrints(t: Tokens)
    requires WellFormed(t) && Print(t) != "" && IsOpen(Print(t)[0])
    ensures t.Group? && WellFormed(t.inner) && IsOpen(t.open) && IsClose(t.close) && !IsSpace(t.close)
    ensures Print(t) == [t.open] + (Print(t.inner) + [t.close]) + Print(t.rest)
  {
    if t.NonCode? {
      NonCodeStarts(t);
    } else {
      OpenIsNoSpace(t.close);
    }
  }

  /** Trimming the end of a text keeps what ends with a character that is no white space. */
  lemma {:induction false} TrimEndKeeps(front: string, rest: string)
    requires front != "" && !IsSpace(front[|front| - 1])
    ensures front <= TrimEnd(front + rest)
  {
    if rest == "" {
      assert front + rest == front;
    } else {
      assert (front + rest)[..|front + rest| - 1] == front + rest[..|rest| - 1];
      TrimEndKeeps(front, rest[..|rest| - 1]);
    }
  }

  /** An argument list that starts with a brace has a group of tokens there, also when it is trimmed. */
  lemma FirstGroup(text: string, index: nat, slice: string) returns (inner: Tokens)
    requires index < |text| && IsOpen(text[index]) && ArgumentSlice(text, index) == Some(slice)
    requires Trim(slice) != "" && Trim(slice)[0] == '{'
    ensures WellFormed(inner) && ArgumentSlice(Trim(slice), 0) == Some(Print(inner))
    ensures |Print(inner)| + 2 <= |Trim(slice)|
  {
    hide Print, WellFormed, ArgumentSlice, TrimStart, TrimEnd, IsSpace;
    var all, end := TokensOfSlice(text, index);
    var t := TokensBehindSpace(slice, all);
    TrimFirst(TrimStart(slice));
    OpenPrints(t);
    inner := t.inner;
    var front := [t.open] + (Print(inner) + [t.close]);
    TrimEndKeeps(front, Print(t.rest));
    GroupInText(Trim(slice), front, t.open, inner, t.close);
  }

  lemma TrimFirst(s: string)
    requires TrimEnd(s) != ""
    ensures s != "" && TrimEnd(s)[0] == s[0]
  {
    TrimEndIsPrefix(s);
  }

  lemma {:induction false} TrimEndIsPrefix(s: string)
    ensures TrimEnd(s) <= s
  {
    if s != "" && IsSpace(s[|s| - 1]) { TrimEndIsPrefix(s[..|s| - 1]); }
  }

  lemma GroupInText(s: string, front: string, open: char, inner: Tokens, close: char)
    requires front == [open] + (Print(inner) + [close]) && front <= s && IsOpen(open) && IsClose(close) &&
             WellFormed(inner)
    ensures ArgumentSlice(s, 0) == Some(Print(inner)) && |Print(inner)| + 2 <= |s|
  {
    hide Print, WellFormed, ArgumentSlice;
    assert s[0] == front[0] && |s| >= |front| == |Print(inner)| + 2;
    assert s[1..1 + |Print(inner)|] == front[1..1 + |Print(inner)|] == Print(inner);
    assert s[1 + |Print(inner)|] == front[1 + |Print(inner)|] == close;
    SliceOfTokens(s, 0, inner, close);
  }

  /** The guard accepts an argument list exactly when it is one literal, or its first brace closes before the last. */
  lemma GuardAcceptsIff(text: string, index: nat, slice: string)
    requires index < |text| && IsOpen(text[index]) && ArgumentSlice(text, index) == Some(slice)
    ensures ObjectBody(Trim(slice)).Some? <==> IsOneLiteral(Trim(slice)) || ClosesEarly(Trim(slice))
    ensures !(IsOneLiteral(Trim(slice)) && ClosesEarly(Trim(slice)))
  {
    var trimmed := Trim(slice);
    if IsBraced(trimmed) {
      var inner := FirstGroup(text, index, slice);
      hide Trim, WellFormed;
      SliceIsThere(trimmed);
    }
  }

  lemma SliceIsThere(s: string)
    requires s != "" && ArgumentSlice(s, 0).Some?
    ensures var inner := ArgumentSlice(s, 0).value; 1 + |inner| <= |s| && inner == s[1..1 + |inner|]
  {
  }

  // ---- The keys of one literal

  /** A slot with something in it. */
  predicate IsEntry(e: Entry) {
    e.value.Some? || !IsBlank(e.key)
  }

  function EntriesIn(slots: seq<Entry>): seq<Entry> {
    if slots == [] then []
    else if IsEntry(slots[0]) then [slots[0]] + EntriesIn(slots[1..])
    else EntriesIn(slots[1..])
  }

  /** The entries of the literal that a text is. */
  ghost function LiteralEntries(s: string): seq<Entry>
    requires IsOneLiteral(s) && HasTokens(s[1..|s| - 1])
  {
    EntriesIn(SlotsOf(TokensOf(s[1..|s| - 1])))
  }

  lemma OneLiteralHasTokens(s: string)
    requires IsOneLiteral(s)
    ensures HasTokens(s[1..|s| - 1])
  {
    var t, close := TokensOfSlice(s, 0);
    assert Print(t) == s[1..|s| - 1];
  }

  lemma {:induction false} KeysOfEntries(slots: seq<Entry>)
    requires EntriesOk(slots)
    ensures KeysOf(EntriesIn(slots)) == KeysOf(slots)
    ensures |KeysOf(slots)| <= |EntriesIn(slots)|
    ensures |KeysOf(slots)| == |EntriesIn(slots)| <==>
            forall e :: e in EntriesIn(slots) ==> KeyOf(e) != ""
    ensures (forall k :: k in KeysOf(slots) ==> IsName(k)) <==>
            forall e :: e in EntriesIn(slots) ==> KeyOf(e) == "" || IsName(KeyOf(e))
  {
    hide WellFormed, NeverEnds, KeyOf, IsBlank, IsName;
    if slots != [] {
      KeysOfEntries(slots[1..]);
      if !IsEntry(slots[0]) { BlankShowsNothing(slots[0]); }
    }
  }

  lemma BlankShowsNothing(e: Entry)
    requires EntryOk(e) && IsBlank(e.key)
    ensures KeyOf(e) == ""
  {
    BlankIs(e.key);
    TrimIsEmptyIff(CodeOf(e.key));
  }

  lemma OneLiteralKeys(s: string)
    requires IsOneLiteral(s) && HasTokens(s[1..|s| - 1])
    ensures KeysAt(s[1..|s| - 1], 0, 0, Code, false, "") == KeysOf(LiteralEntries(s))
    ensures EntriesOk(SlotsOf(TokensOf(s[1..|s| - 1])))
  {
    var body := s[1..|s| - 1];
    var slots := SlotsOf(TokensOf(body));
    SlotsAre(TokensOf(body));
    assert body[0..0 + |body|] == body;
    KeysEntries(body, 0, slots);
    KeysOfEntries(slots);
  }

  /** What the reader makes of the argument list at an open bracket. */
  ghost predicate Reads(text: string, index: nat, trimmed: string) {
    index < |text| && IsOpen(text[index]) && ArgumentSlice(text, index).Some? &&
        Trim(ArgumentSlice(text, index).value) == trimmed
  }

  lemma BracedReads(text: string, index: nat, trimmed: string)
    requires Reads(text, index, trimmed) && IsBraced(trimmed)
    ensures ReadKeys(text, index) == CheckKeys(KeysAt(trimmed[1..|trimmed| - 1], 0, 0, Code, false, ""))
  {
    hide Trim, KeysAt, ArgumentSlice, CheckKeys;
  }

  /**
   For every text.  Keys are returned exactly for one literal whose entries show identifiers or
   nothing, and for a longer list that starts and ends like one in which what is read are identifiers.
   */
  lemma ReadIff(text: string, index: nat, trimmed: string)
    requires Reads(text, index, trimmed)
    ensures IsOneLiteral(trimmed) ==> HasTokens(trimmed[1..|trimmed| - 1])
    ensures ReadKeys(text, index).Ok? <==>
            || (IsOneLiteral(trimmed) &&
                forall e :: e in LiteralEntries(trimmed) ==> KeyOf(e) == "" || IsName(KeyOf(e)))
            || (ClosesEarly(trimmed) &&
                forall k :: k in KeysAt(trimmed[1..|trimmed| - 1], 0, 0, Code, false, "") ==> IsName(k))
  {
    hide Trim, KeysAt, KeyOf, IsName, LiteralEntries, ArgumentSlice, HasTokens, CheckKeys;
    GuardAcceptsIff(text, index, ArgumentSlice(text, index).value);
    if IsOneLiteral(trimmed) {
      BracedReads(text, index, trimmed);
      OneLiteralHasTokens(trimmed);
      LiteralKeys(trimmed);
    } else if ClosesEarly(trimmed) {
      BracedReads(text, index, trimmed);
    }
  }

  lemma LiteralKeys(s: string)
    requires IsOneLiteral(s) && HasTokens(s[1..|s| - 1])
    ensures var keys, es := KeysAt(s[1..|s| - 1], 0, 0, Code, false, ""), LiteralEntries(s);
            && keys == KeysOf(es) && |keys| <= |es|
            && (|keys| == |es| <==> forall e :: e in es ==> KeyOf(e) != "")
            && ((forall k :: k in keys ==> IsName(k)) <==>
                forall e :: e in es ==> KeyOf(e) == "" || IsName(KeyOf(e)))
  {
    OneLiteralKeys(s);
    KeysOfEntries(SlotsOf(TokensOf(s[1..|s| - 1])));
  }

  /** The entry's key is made of strings alone, or it is a value without a key. */
  ghost predicate ShowsNoKey(e: Entry) {
    IsQuoted(e) || IsBlank(e.key)
  }

  lemma ShowsNoKeyIff(e: Entry)
    requires WellFormed(e.key)
    ensures ShowsNoKey(e) <==> KeyOf(e) == ""
  {
    BlankIs(e.key);
    TrimIsEmptyIff(CodeOf(e.key));
  }

  lemma {:induction false} EntriesInAreOk(slots: seq<Entry>)
    requires EntriesOk(slots)
    ensures EntriesOk(EntriesIn(slots))
  {
    hide EntryOk, IsEntry;
    if slots != [] { EntriesInAreOk(slots[1..]); }
  }

  /** One literal, and a key for each of its entries: what a reader that returns keys has to have read. */
  ghost predicate IsFullyRead(trimmed: string, keys: seq<string>) {
    IsOneLiteral(trimmed) && HasTokens(trimmed[1..|trimmed| - 1]) && |keys| == |LiteralEntries(trimmed)|
  }

  /**
   Exactly when keys are returned for something that was not read fully: a longer list that starts
   and ends like a literal and reads as identifiers, or a literal with an entry that shows no key.
   */
  lemma UnreportedIff(text: string, index: nat, trimmed: string)
    requires Reads(text, index, trimmed)
    ensures IsOneLiteral(trimmed) ==> HasTokens(trimmed[1..|trimmed| - 1])
    ensures var keys := ReadKeys(text, index);
            keys.Ok? && !IsFullyRead(trimmed, keys.value) <==>
            || (ClosesEarly(trimmed) &&
                forall k :: k in KeysAt(trimmed[1..|trimmed| - 1], 0, 0, Code, false, "") ==> IsName(k))
            || (IsOneLiteral(trimmed) && (exists e :: e in LiteralEntries(trimmed) && ShowsNoKey(e)) &&
                forall e :: e in LiteralEntries(trimmed) ==> ShowsNoKey(e) || IsName(KeyOf(e)))
  {
    hide Trim, KeysAt, KeyOf, IsName, LiteralEntries, ArgumentSlice, ReadKeys, HasTokens, ShowsNoKey, CheckKeys;
    GuardAcceptsIff(text, index, ArgumentSlice(text, index).value);
    ReadIff(text, index, trimmed);
    if IsOneLiteral(trimmed) {
      BracedReads(text, index, trimmed);
      LiteralKeys(trimmed);
      EntriesShow(trimmed);
    }
  }

  lemma EntriesShow(s: string)
    requires IsOneLiteral(s) && HasTokens(s[1..|s| - 1])
    ensures forall e :: e in LiteralEntries(s) ==> (ShowsNoKey(e) <==> KeyOf(e) == "")
  {
    hide KeyOf, SlotsOf, WellFormed, NeverEnds, ShowsNoKey, KeysAt, ArgumentSlice;
    var slots := SlotsOf(TokensOf(s[1..|s| - 1]));
    OneLiteralKeys(s);
    EntriesInAreOk(slots);
    forall e | e in LiteralEntries(s) ensures ShowsNoKey(e) <==> KeyOf(e) == "" {
      var i :| 0 <= i < |EntriesIn(slots)| && EntriesIn(slots)[i] == e;
      assert EntryOk(EntriesIn(slots)[i]);
      ShowsNoKeyIff(e);
    }
  }

  /** How the reader goes about a braced argument list without white space around it. */
  lemma BracedArgument(text: string, slice: string, argument: Tokens)
    requires WellFormed(argument) && Print(argument) == slice && text == "(" + slice + ")" && IsBraced(slice)
    ensures Reads(text, 0, slice)
    ensures ReadKeys(text, 0) == CheckKeys(KeysAt(slice[1..|slice| - 1], 0, 0, Code, false, ""))
  {
    hide Print, WellFormed, KeysAt, ArgumentSlice, Trim, ReadKeys, CheckKeys;
    TrimBraced(slice);
    assert Here(text, 1, slice) by { assert text[1..1 + |slice|] == slice; }
    SliceOfTokens(text, 0, argument, ')');
    BracedReads(text, 0, slice);
  }

  lemma TrimBraced(s: string)
    requires IsBraced(s)
    ensures Trim(s) == s
  {
  }

  /** The keys of `({a:1},{b:2,c:3})` are read as those of one object, and without `b`. */
  lemma TwoArgumentsAreMixed(text: string)
    requires text == "({a:1},{b:2,c:3})"
    ensures ReadKeys(text, 0) == Ok(["a", "c"])
    ensures Reads(text, 0, "{a:1},{b:2,c:3}") && ClosesEarly("{a:1},{b:2,c:3}")
  {
    hide Print, WellFormed, KeysAt, ArgumentSlice, ReadKeys, CheckKeys, Reads, ClosesEarly;
    var slice := "{a:1},{b:2,c:3}";
    assert text == "(" + slice + ")";
    var argument := TwoObjects(slice);
    BracedArgument(text, slice, argument);
    assert slice[1..|slice| - 1] == "a:1},{b:2,c:3";
    MixedKeys(slice[1..|slice| - 1]);
    IdentifiersPass("a", "c");
  }

  lemma CharacterTokens(s: string) returns (t: Tokens)
    requires forall i :: 0 <= i < |s| ==> IsPlain(s[i]) && s[i] != '/'
    ensures WellFormed(t) && Print(t) == s
  {
    t := Characters(s, End);
    CharactersAre(s);
  }

  lemma TwoObjects(slice: string) returns (argument: Tokens)
    requires slice == "{a:1},{b:2,c:3}"
    ensures WellFormed(argument) && Print(argument) == slice && ClosesEarly(slice)
  {
    hide Print, ArgumentSlice;
    var first := CharacterTokens("a:1");
    var second := CharacterTokens("b:2,c:3");
    var behind := Group('{', second, '}', End);
    argument := Group('{', first, '}', Plain(',', behind));
    EndPrintsNothing();
    GroupPrints(behind);
    PlainInFrontPrints(',', behind);
    GroupPrints(argument);
    assert Print(behind) == "{b:2,c:3}";
    GroupIsWellFormed(second);
    CommaIsWellFormed(behind);
    assert ['{'] + ("a:1" + ['}']) == "{a:1}" <= slice;
    hide WellFormed;
    GroupInText(slice, "{a:1}", '{', first, '}');
  }

  lemma CommaIsWellFormed(rest: Tokens)
    requires WellFormed(rest)
    ensures WellFormed(Plain(',', rest))
  {
  }

  lemma PlainInFrontPrints(c: char, rest: Tokens)
    ensures Print(Plain(c, rest)) == [c] + Print(rest)
  {
  }

  lemma IdentifiersPass(a: string, b: string)
    requires IsName(a) && IsName(b)
    ensures CheckKeys([a, b]) == Ok([a, b]) && CheckKeys([a]) == Ok([a])
  {
  }

  lemma MixedKeys(body: string)
    requires body == "a:1},{b:2,c:3"
    ensures KeysAt(body, 0, 0, Code, false, "") == ["a", "c"]
  {
    assert Trim("a") == "a" && "" + ['a'] == "a";
    SecondKeys(body);
    assert KeysAt(body, 5, -1, Code, true, "") == ["c"];
    assert KeysAt(body, 4, -1, Code, true, "") == ["c"];
    assert KeysAt(body, 3, 0, Code, true, "") == ["c"];
    assert KeysAt(body, 2, 0, Code, true, "") == ["c"];
    assert KeysAt(body, 1, 0, Code, false, "a") == ["a", "c"];
  }

  lemma SecondKeys(body: string)
    requires body == "a:1},{b:2,c:3"
    ensures KeysAt(body, 6, 0, Code, true, "") == ["c"]
  {
    assert Trim("c") == "c" && "" + ['c'] == "c";
    assert KeysAt(body, 13, 0, Code, true, "") == [];
    assert KeysAt(body, 12, 0, Code, true, "") == [];
    assert KeysAt(body, 11, 0, Code, false, "c") == ["c"];
    assert KeysAt(body, 10, 0, Code, false, "") == ["c"];
    assert KeysAt(body, 9, 0, Code, true, "") == ["c"];
    assert KeysAt(body, 8, 0, Code, true, "") == ["c"];
    assert KeysAt(body, 7, 0, Code, true, "") == ["c"];
  }

  /** Regular expressions are scanned as code: in `({a:/'/,b:/'/})` a string seems to hide the second key. */
  lemma RegularExpressionHidesKey(text: string)
    requires text == "({a:/'/,b:/'/})"
    ensures ReadKeys(text, 0) == Ok(["a"])
  {
    hide Print, WellFormed, KeysAt, ArgumentSlice, ReadKeys, CheckKeys;
    var slice := text[1..|text| - 1];
    var body := Plain('a', Plain(':', Plain('/', NonCode(Single, "/,b:/", Plain('/', End)))));
    RegularExpressionPrints(body);
    var argument := Group('{', body, '}', End);
    EndPrintsNothing();
    GroupPrints(argument);
    GroupIsWellFormed(body);
    assert text == "(" + slice + ")" && Print(argument) == slice;
    BracedArgument(text, slice, argument);
    HiddenKeys(slice[1..|slice| - 1]);
    IdentifiersPass("a", "a");
  }

  lemma GroupIsWellFormed(body: Tokens)
    requires WellFormed(body)
    ensures WellFormed(Group('{', body, '}', End))
  {
  }

  lemma RegularExpressionPrints(t: Tokens)
    requires t == Plain('a', Plain(':', Plain('/', NonCode(Single, "/,b:/", Plain('/', End)))))
    ensures Print(t) == "a:/'/,b:/'/" && WellFormed(t)
  {
    var quoted := t.rest.rest.rest;
    QuotedPrints(quoted, "/,b:/");
    hide Print;
    PlainInFrontPrints('/', quoted);
    PlainInFrontPrints(':', t.rest.rest);
    PlainInFrontPrints('a', t.rest);
  }

  lemma QuotedPrints(t: Tokens, body: string)
    requires body == "/,b:/" && t == NonCode(Single, body, Plain('/', End))
    ensures Print(t) == "'/,b:/'/" && WellFormed(t)
  {
    assert body[1..] == ",b:/" && ",b:/"[1..] == "b:/" && "b:/"[1..] == ":/";
    assert IsStringBody('\'', body);
  }

  lemma HiddenKeys(body: string)
    requires body == "a:/'/,b:/'/"
    ensures KeysAt(body, 0, 0, Code, false, "") == ["a"]
  {
    assert Trim("a") == "a" && "" + ['a'] == "a";
    assert KeysAt(body, 11, 0, Code, true, "") == [];
    assert KeysAt(body, 10, 0, Code, true, "") == [];
    assert KeysAt(body, 9, 0, Single, true, "") == [];
    assert KeysAt(body, 8, 0, Single, true, "") == [];
    assert KeysAt(body, 7, 0, Single, true, "") == [];
    assert KeysAt(body, 6, 0, Single, true, "") == [];
    assert KeysAt(body, 5, 0, Single, true, "") == [];
    assert KeysAt(body, 4, 0, Single, true, "") == [];
    assert KeysAt(body, 3, 0, Code, true, "") == [];
    assert KeysAt(body, 2, 0, Code, true, "") == [];
    assert KeysAt(body, 1, 0, Code, false, "a") == ["a"];
  }
}
