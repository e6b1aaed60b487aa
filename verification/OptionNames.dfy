/**
 Which keys the option-key reader accepts, character by character, and which error it gives for
 every other text.
 */
module OptionNames {
  import opened Wrappers
  import opened Text
  import opened OptionKeys
  import opened OptionTokens

  lemma CheckedIff(keys: seq<string>)
    ensures CheckKeys(keys) == Ok(keys) <==> forall i :: 0 <= i < |keys| ==> IsName(keys[i])
    ensures forall key :: CheckKeys(keys) == Err(BadKey(key)) <==>
                          exists i: nat :: IsFirstBad(keys, i) && keys[i] == key
  {
    hide IsName;
    forall i: nat, j: nat | IsFirstBad(keys, i) && IsFirstBad(keys, j) ensures i == j {
    }
    if !(forall i :: 0 <= i < |keys| ==> IsName(keys[i])) {
      var i := FirstOther(keys);
    }
  }

  lemma FirstOther(keys: seq<string>) returns (i: nat)
    requires exists i :: 0 <= i < |keys| && !IsName(keys[i])
    ensures IsFirstBad(keys, i)
  {
    hide IsName;
    i := 0;
    while IsName(keys[i])
      invariant i < |keys| && forall j :: 0 <= j < i ==> IsName(keys[j])
      decreases |keys| - i
    {
      i := i + 1;
    }
  }

  /**
   A printed literal is read exactly when every entry is quoted or has a name for a key; then the keys
   are returned in order, and otherwise the error tells the first key that is no name.
   */
  lemma NamesAreRead(text: string, index: nat, before: string, l: Literal, after: string)
    requires LiteralOk(l) && AllSpace(before) && AllSpace(after)
    requires Here(text, index, "(" + (before + LiteralText(l) + after) + ")")
    ensures ReadKeys(text, index).Ok? <==>
            forall i :: 0 <= i < |l.entries| ==> IsQuoted(l.entries[i]) || IsName(KeyOf(l.entries[i]))
    ensures ReadKeys(text, index).Ok? ==> ReadKeys(text, index) == Ok(KeysOf(l.entries))
    ensures forall key :: ReadKeys(text, index) == Err(BadKey(key)) <==>
                          exists i: nat :: IsFirstBad(KeysOf(l.entries), i) && KeysOf(l.entries)[i] == key
  {
    CallKeys(text, index, before, l, after);
    KeysOfAre(l.entries);
    CheckedIff(KeysOf(l.entries));
    hide IsName, IsQuoted, KeyOf, KeysOf, LiteralText, LiteralOk, ReadKeys, IsFirstBad;
  }

  /** Characters that stand for nothing else in code, and neither start nor end with white space. */
  predicate IsPlainKey(key: string) {
    && key != "" && !IsSpace(key[0]) && !IsSpace(key[|key| - 1])
    && forall i :: 0 <= i < |key| ==> IsPlain(key[i]) && key[i] != ',' && key[i] != ':' && key[i] != '/'
  }

  lemma NameIsPlain(key: string)
    requires IsName(key)
    ensures IsPlainKey(key)
  {
  }

  /** One key and its value: the key is read if it is a name, and refused otherwise. */
  lemma OneKeyIsRead(text: string, key: string, value: Tokens)
    requires IsName(key) || IsPlainKey(key)
    requires WellFormed(value) && NeverEnds(value, 0, true)
    requires text == "({" + (key + (":" + Print(value))) + "})"
    ensures ReadKeys(text, 0) == if IsName(key) then Ok([key]) else Err(BadKey(key))
  {
    hide WellFormed, NeverEnds, Print, IsName, IsPlainKey, CheckKeys, ReadKeys, ObjectText, Characters;
    if IsName(key) { NameIsPlain(key); }
    var e := Entry(Characters(key, End), Some(value));
    PlainKeyIs(key);
    OneEntryPrints(e);
    assert text == "(" + ObjectText([e]) + ")";
    OneEntryIsRead(text, e);
    OneKeyOf(e);
    CheckedIff([key]);
    if !IsName(key) { assert IsFirstBad([key], 0); }
  }

  lemma OneKeyOf(e: Entry)
    requires KeyOf(e) != ""
    ensures KeysOf([e]) == [KeyOf(e)]
  {
    hide KeyOf;
    assert [e][1..] == [];
    assert [KeyOf(e)] + [] == [KeyOf(e)];
  }

  lemma OneEntryIsRead(text: string, e: Entry)
    requires EntryOk(e) && !IsBlank(e.key) && text == "(" + ObjectText([e]) + ")"
    ensures ReadKeys(text, 0) == CheckKeys(KeysOf([e]))
  {
    hide EntryOk, IsBlank, ReadKeys, ObjectText, CheckKeys, KeysOf;
    var l := Literal([e], None);
    assert Slots(l) == [e];
    assert text == "(" + ("" + ObjectText([e]) + "") + ")";
    assert text[0..|text|] == text;
    CallKeys(text, 0, "", l, "");
  }

  lemma PlainKeyIs(key: string)
    requires IsPlainKey(key)
    ensures key != ""
    ensures var t := Characters(key, End);
            WellFormed(t) && NeverEnds(t, 0, false) && Print(t) == key && !IsBlank(t) && Trim(CodeOf(t)) == key
  {
    CharactersAre(key);
    hide IsSpace, IsPlain, WellFormed;
    TrimOf("", key, "");
    assert "" + key + "" == key;
    BlankIs(Characters(key, End));
  }

  lemma OneEntryPrints(e: Entry)
    requires e.value.Some?
    ensures ObjectText([e]) == "{" + (Print(e.key) + (":" + Print(e.value.value))) + "}"
  {
    EntryPrints(e, End);
    EndPrintsNothing();
    hide Print;
    assert EntryText(e) + "" == EntryText(e);
  }

  /** Which error is given, for every text. */
  lemma ErrorsIff(text: string, index: nat)
    ensures var keys, slice := ReadKeys(text, index), ArgumentSlice(text, index);
            && (keys == Err(NeverCloses) <==> slice.None?)
            && (keys == Err(NoArgument) <==> slice.Some? && AllSpace(slice.value))
            && (keys == Err(NotAnObject) <==>
                  slice.Some? && !AllSpace(slice.value) &&
                  (var s := Trim(slice.value); |s| < 2 || s[0] != '{' || s[|s| - 1] != '}'))
  {
    if ArgumentSlice(text, index).Some? { TrimIsEmptyIff(ArgumentSlice(text, index).value); }
    hide ArgumentSlice, Trim, AllSpace;
  }

  /** A key of several characters with a digit is read; with the digit first it is refused. */
  lemma DigitsInKeys(name: string, other: string, text: string, bad: string)
    requires name == "max_2" && other == "2max" && text == "({max_2:1})" && bad == "({2max:1})"
    ensures ReadKeys(text, 0) == Ok(["max_2"]) && ReadKeys(bad, 0) == Err(BadKey("2max"))
  {
    hide ReadKeys;
    var one := Plain('1', End);
    assert WellFormed(one) && NeverEnds(one, 0, true) && Print(one) == "1";
    OneKeyIsRead(text, name, one);
    OneKeyIsRead(bad, other, one);
  }
}
