/**
 Reading the option keys of a call out of raw source text.  Two scanners walk the text, one
 character at a time: the first finds the end of the argument list, the second collects keys.
 */
module OptionKeys {
  import opened Wrappers
  import opened Text

  datatype ScanState = Code | Line | Block | Single | Double | Template

  predicate IsOpen(c: char) { c == '(' || c == '{' || c == '[' }

  predicate IsClose(c: char) { c == ')' || c == '}' || c == ']' }

  predicate IsQuote(c: char) { c == '\'' || c == '"' || c == '`' }

  function StringState(quote: char): ScanState {
    if quote == '\'' then Single else if quote == '"' then Double else Template
  }

  /** The character at `index`, if there is one. */
  function At(text: string, index: nat): Option<char> {
    if index < |text| then Some(text[index]) else None
  }

  function OpensNonCode(current: char, next: Option<char>): Option<ScanState> {
    if current == '/' && next == Some('/') then Some(Line)
    else if current == '/' && next == Some('*') then Some(Block)
    else if IsQuote(current) then Some(StringState(current))
    else None
  }

  predicate ClosesString(state: ScanState, current: char) {
    || (state == Single && current == '\'')
    || (state == Double && current == '"')
    || (state == Template && current == '`')
  }

  /** The scan state after the character at `index`, and where the scan goes on. */
  function Lex(text: string, index: nat, state: ScanState): (step: (ScanState, nat))
    requires index < |text|
    ensures index < step.1 <= index + 2
  {
    var current, next := text[index], At(text, index + 1);
    match state
    case Code =>
      var entered := OpensNonCode(current, next);
      if entered.None? then (Code, index + 1)
      else (entered.value, if entered.value.Line? || entered.value.Block? then index + 2 else index + 1)
    case Line => (if current == '\n' then Code else Line, index + 1)
    case Block => if current == '*' && next == Some('/') then (Code, index + 2) else (Block, index + 1)
    case _ =>
      if current == '\\' then (state, index + 2)
      else (if ClosesString(state, current) then Code else state, index + 1)
  }

  function Deepening(c: char, state: ScanState): int {
    if state != Code then 0 else if IsOpen(c) then 1 else if IsClose(c) then -1 else 0
  }

  /** Where the scan gives up: at `${` in a template, or at a bracket that closes none. */
  predicate GivesUp(text: string, index: nat, depth: int, state: ScanState) {
    || index >= |text|
    || (state == Template && text[index] == '$' && At(text, index + 1) == Some('{'))
    || (state == Code && IsClose(text[index]) && depth < 1)
  }

  /** The index, from `index` on, of the bracket that makes the depth zero. */
  function ClosingAt(text: string, index: nat, depth: int, state: ScanState): (found: Option<nat>)
    ensures found.Some? ==> index <= found.value < |text| && (depth < 1 ==> index < found.value)
    decreases |text| - index
  {
    if GivesUp(text, index, depth, state) then None
    else if state == Code && IsClose(text[index]) && depth == 1 then Some(index)
    else
      var (after, next) := Lex(text, index, state);
      ClosingAt(text, next, depth + Deepening(text[index], state), after)
  }

  /** The text between the bracket at `openIndex` and the one that closes it. */
  function ArgumentSlice(text: string, openIndex: nat): Option<string> {
    var closing := ClosingAt(text, openIndex, 0, Code);
    if closing.None? then None else Some(text[openIndex + 1..closing.value])
  }

  method BalancedArguments(text: string, openIndex: nat) returns (slice: Option<string>)
    ensures slice == ArgumentSlice(text, openIndex)
  {
    var depth, state := 0, Code;
    var index := openIndex;
    while index < |text|
      invariant openIndex <= index && depth >= 0
      invariant ClosingAt(text, openIndex, 0, Code) == ClosingAt(text, index, depth, state)
      decreases |text| - index
    {
      ghost var (after, following) := Lex(text, index, state);
      ghost var depth' := depth + Deepening(text[index], state);
      ghost var ends := GivesUp(text, index, depth, state) || (state == Code && IsClose(text[index]) && depth == 1);
      assert !ends ==> ClosingAt(text, index, depth, state) == ClosingAt(text, following, depth', after);
      var current := text[index];
      var next := if index + 1 < |text| then Some(text[index + 1]) else None;
      if state == Code {
        var entered := OpensNonCode(current, next);
        if entered.Some? {
          state := entered.value;
          if state == Line || state == Block { index := index + 1; }
        } else if IsOpen(current) {
          depth := depth + 1;
        } else if IsClose(current) {
          depth := depth - 1;
          if depth == 0 { return Some(text[openIndex + 1..index]); }
          if depth < 0 { return None; }
        }
      } else if state == Line {
        if current == '\n' { state := Code; }
      } else if state == Block {
        if current == '*' && next == Some('/') {
          state := Code;
          index := index + 1;
        }
      } else if current == '\\' {
        index := index + 1;
      } else if state == Template && current == '$' && next == Some('{') {
        return None;
      } else if ClosesString(state, current) {
        state := Code;
      }
      index := index + 1;
      assert !ends && state == after && index == following && depth == depth';
    }
    slice := None;
  }

  /** What the second scanner pushes when it ends a key. */
  function Flushed(token: string, depth: int): seq<string> {
    if Trim(token) != "" && depth == 0 then [Trim(token)] else []
  }

  /** The keys still to come in an object literal's body. */
  function KeysAt(body: string, index: nat, depth: int, state: ScanState, inValue: bool, token: string): seq<string>
    decreases |body| - index
  {
    if index >= |body| then if inValue then [] else Flushed(token, depth)
    else
      var c := body[index];
      var (after, next) := Lex(body, index, state);
      if state != Code || after != Code then KeysAt(body, next, depth, after, inValue, token)
      else if c == ':' && depth == 0 && !inValue then Flushed(token, depth) + KeysAt(body, next, depth, Code, true, "")
      else if c == ',' && depth == 0 then
        (if inValue then [] else Flushed(token, depth)) + KeysAt(body, next, depth, Code, false, "")
      else KeysAt(body, next, depth + Deepening(c, Code), Code, inValue, if inValue then token else token + [c])
  }

  method ObjectLiteralKeys(body: string) returns (keys: seq<string>)
    ensures keys == KeysAt(body, 0, 0, Code, false, "")
  {
    keys := [];
    var depth, state, inValue, token := 0, Code, false, "";
    var index: nat := 0;
    while index < |body|
      invariant keys + KeysAt(body, index, depth, state, inValue, token) == KeysAt(body, 0, 0, Code, false, "")
      decreases |body| - index
    {
      ghost var (after, following) := Lex(body, index, state);
      var current := body[index];
      var next := if index + 1 < |body| then Some(body[index + 1]) else None;
      if state == Code {
        var entered := OpensNonCode(current, next);
        if entered.Some? {
          state := entered.value;
          if state == Line || state == Block { index := index + 1; }
        } else if IsOpen(current) {
          depth := depth + 1;
          if !inValue { token := token + [current]; }
        } else if IsClose(current) {
          depth := depth - 1;
          if !inValue { token := token + [current]; }
        } else if current == ':' && depth == 0 && !inValue {
          keys := keys + Flushed(token, depth);
          token := "";
          inValue := true;
        } else if current == ',' && depth == 0 {
          if inValue {
            inValue := false;
          } else {
            keys := keys + Flushed(token, depth);
          }
          token := "";
        } else if !inValue {
          token := token + [current];
        }
      } else if state == Line {
        if current == '\n' { state := Code; }
      } else if state == Block {
        if current == '*' && next == Some('/') {
          state := Code;
          index := index + 1;
        }
      } else if current == '\\' {
        index := index + 1;
      } else if ClosesString(state, current) {
        state := Code;
      }
      index := index + 1;
      assert state == after && index == following;
    }
    if !inValue { keys := keys + Flushed(token, depth); }
  }

  /** Why the keys could not be read. */
  datatype Unreadable = NeverCloses | NoArgument | NotAnObject | BadKey(key: string)

  predicate IsWordStart(c: char) {
    'A' <= c <= 'Z' || 'a' <= c <= 'z' || c == '_' || c == '$'
  }

  predicate IsIdentifier(key: string) {
    key != "" && IsWordStart(key[0]) && forall i :: 0 < i < |key| ==> IsWordStart(key[i]) || '0' <= key[i] <= '9'
  }

  predicate IsNameCharacter(c: char) {
    'a' <= c <= 'z' || 'A' <= c <= 'Z' || '0' <= c <= '9' || c == '_' || c == '$'
  }

  /** What a key has to be made of: letters, digits, `_` and `$`, at least one, and no digit first. */
  predicate IsName(key: string) {
    key != "" && !('0' <= key[0] <= '9') && forall i :: 0 <= i < |key| ==> IsNameCharacter(key[i])
  }

  lemma NameIff(key: string)
    ensures IsIdentifier(key) <==> IsName(key)
  {
  }

  predicate IsFirstBad(keys: seq<string>, i: nat) {
    i < |keys| && !IsName(keys[i]) && forall j :: 0 <= j < i ==> IsName(keys[j])
  }

  /** The keys if all are identifiers, otherwise the first that is none. */
  function CheckKeys(keys: seq<string>): (checked: Result<seq<string>, Unreadable>)
    ensures checked.Ok? <==> forall k :: k in keys ==> IsName(k)
    ensures checked.Ok? ==> checked.value == keys
    ensures checked.Err? ==>
              exists i: nat :: i < |keys| && checked.error == BadKey(keys[i]) && IsFirstBad(keys, i)
  {
    if keys == [] then Ok([])
    else
      NameIff(keys[0]);
      if !IsIdentifier(keys[0]) then Err(BadKey(keys[0]))
      else
        var rest := CheckKeys(keys[1..]);
        assert forall i: nat :: i < |keys| - 1 && IsFirstBad(keys[1..], i) ==> IsFirstBad(keys, i + 1);
        if rest.Err? then rest else Ok([keys[0]] + rest.value)
  }

  /** The object literal's body, when the trimmed arguments are one in braces. */
  function ObjectBody(arguments: string): Option<string> {
    if |arguments| >= 2 && arguments[0] == '{' && arguments[|arguments| - 1] == '}'
    then Some(arguments[1..|arguments| - 1]) else None
  }

  function ReadKeys(text: string, parenIndex: nat): Result<seq<string>, Unreadable> {
    var slice := ArgumentSlice(text, parenIndex);
    if slice.None? then Err(NeverCloses)
    else if Trim(slice.value) == "" then Err(NoArgument)
    else
      var body := ObjectBody(Trim(slice.value));
      if body.None? then Err(NotAnObject) else CheckKeys(KeysAt(body.value, 0, 0, Code, false, ""))
  }

  method ReadCallOptionKeys(text: string, parenIndex: nat) returns (keys: Result<seq<string>, Unreadable>)
    ensures keys == ReadKeys(text, parenIndex)
  {
    var arguments := BalancedArguments(text, parenIndex);
    if arguments.None? { return Err(NeverCloses); }
    var trimmed := Trim(arguments.value);
    if trimmed == "" { return Err(NoArgument); }
    var body := ObjectBody(trimmed);
    if body.None? { return Err(NotAnObject); }
    var found := ObjectLiteralKeys(body.value);
    keys := CheckKeys(found);
  }
}
