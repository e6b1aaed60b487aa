/**
 The source text the option-key scanners are meant for, as tokens, and what they do on it: the
 first scanner accepts exactly the bracketed token texts, and the second reads back the keys of
 a printed object literal.
 */
module OptionTokens {
  import opened Wrappers
  import opened Text
  import opened OptionKeys

  /** Where the scan is back in code, when it is inside a string or comment at `index`. */
  function BackInCode(text: string, index: nat, state: ScanState): (back: Option<nat>)
    ensures back.Some? ==> index <= back.value <= |text| + 1
    decreases |text| - index
  {
    if state == Code then if index <= |text| + 1 then Some(index) else None
    else if GivesUp(text, index, 0, state) then None
    else var (after, next) := Lex(text, index, state); BackInCode(text, next, after)
  }

  lemma {:induction false} ClosingSkips(text: string, index: nat, depth: int, state: ScanState)
    requires BackInCode(text, index, state).Some?
    ensures ClosingAt(text, index, depth, state) == ClosingAt(text, BackInCode(text, index, state).value, depth, Code)
    decreases |text| - index
  {
    if state != Code {
      var (after, next) := Lex(text, index, state);
      ClosingSkips(text, next, depth, after);
    }
  }

  function Opening(state: ScanState): string
    requires state != Code
  {
    match state
    case Line => "//"
    case Block => "/*"
    case Single => "'"
    case Double => "\""
    case Template => "`"
  }

  function Closing(state: ScanState): string
    requires state != Code
  {
    match state
    case Line => "\n"
    case Block => "*/"
    case _ => Opening(state)
  }

  /**
   The source text between two points of code: single characters, strings and comments, and
   groups between brackets.
   */
  datatype Tokens =
    | End
    | Plain(c: char, rest: Tokens)
    | NonCode(kind: ScanState, body: string, rest: Tokens)
    | Group(open: char, inner: Tokens, close: char, rest: Tokens)

  function Print(t: Tokens): string {
    match t
    case End => ""
    case Plain(c, rest) => [c] + Print(rest)
    case NonCode(kind, body, rest) =>
      if kind == Code then Print(rest) else Opening(kind) + ((body + Closing(kind)) + Print(rest))
    case Group(open, inner, close, rest) => [open] + (Print(inner) + ([close] + Print(rest)))
  }

  /** Escapes are allowed; an unescaped closing quote, or `${` in a template, is not. */
  predicate IsStringBody(quote: char, body: string) {
    body == "" ||
    (if body[0] == '\\' then |body| > 1 && IsStringBody(quote, body[2..])
     else
       && body[0] != quote && !(quote == '`' && body[0] == '$' && At(body, 1) == Some('{'))
       && IsStringBody(quote, body[1..]))
  }

  predicate IsBlockBody(body: string) {
    forall i :: 0 <= i < |body| - 1 ==> !(body[i] == '*' && body[i + 1] == '/')
  }

  predicate IsBody(kind: ScanState, body: string) {
    match kind
    case Code => false
    case Line => '\n' !in body
    case Block => IsBlockBody(body)
    case _ => IsStringBody(Opening(kind)[0], body)
  }

  /** The brackets of the grammar. */
  predicate OpensGroup(c: char) {
    c == '(' || c == '[' || c == '{'
  }

  predicate ClosesGroup(c: char) {
    c == ')' || c == ']' || c == '}'
  }

  predicate IsPlain(c: char) {
    && c != '(' && c != ')' && c != '[' && c != ']' && c != '{' && c != '}'
    && c != '\'' && c != '"' && c != '`'
  }

  /** What follows a slash in code must not make it a comment. */
  predicate Separated(next: Option<char>) {
    next != Some('/') && next != Some('*')
  }

  /** A slash in code stands alone: it starts neither a comment nor, here, a regular expression. */
  predicate WellFormed(t: Tokens) {
    match t
    case End => true
    case Plain(c, rest) => IsPlain(c) && (c == '/' ==> Separated(At(Print(rest), 0))) && WellFormed(rest)
    case NonCode(kind, body, rest) => IsBody(kind, body) && WellFormed(rest)
    case Group(open, inner, close, rest) =>
      OpensGroup(open) && ClosesGroup(close) && WellFormed(inner) && WellFormed(rest)
  }

  /** `s` stands in `text` at `index`. */
  predicate Here(text: string, index: nat, s: string) {
    index + |s| <= |text| && text[index..index + |s|] == s
  }

  lemma HereParts(text: string, index: nat, a: string, b: string)
    ensures Here(text, index, a + b) <==> Here(text, index, a) && Here(text, index + |a|, b)
  {
    if Here(text, index, a + b) {
      assert text[index..index + |a + b|][..|a|] == a;
      assert text[index..index + |a + b|][|a|..] == b;
    }
  }

  lemma HereFirst(text: string, index: nat, s: string)
    requires Here(text, index, s) && s != ""
    ensures text[index] == s[0]
    ensures Here(text, index + 1, s[1..])
  {
    assert text[index..index + |s|][0] == s[0];
    assert s == s[..1] + s[1..];
    HereParts(text, index, s[..1], s[1..]);
  }

  lemma {:induction false} StringBack(text: string, index: nat, quote: char, body: string)
    requires IsQuote(quote) && IsStringBody(quote, body) && Here(text, index, body + [quote])
    ensures BackInCode(text, index, StringState(quote)) == Some(index + |body| + 1)
    decreases |body|
  {
    var s := body + [quote];
    HereFirst(text, index, s);
    if body == "" {
    } else if body[0] == '\\' {
      HereFirst(text, index + 1, s[1..]);
      assert s[1..][1..] == body[2..] + [quote];
      StringBack(text, index + 2, quote, body[2..]);
    } else {
      assert s[1..] == body[1..] + [quote];
      HereFirst(text, index + 1, s[1..]);
      StringBack(text, index + 1, quote, body[1..]);
    }
  }

  lemma {:induction false} LineBack(text: string, index: nat, body: string)
    requires '\n' !in body && Here(text, index, body + "\n")
    ensures BackInCode(text, index, Line) == Some(index + |body| + 1)
    decreases |body|
  {
    var s := body + "\n";
    HereFirst(text, index, s);
    if body != "" {
      assert s[1..] == body[1..] + "\n";
      LineBack(text, index + 1, body[1..]);
    }
  }

  lemma {:induction false} BlockBack(text: string, index: nat, body: string)
    requires IsBlockBody(body) && Here(text, index, body + "*/")
    ensures BackInCode(text, index, Block) == Some(index + |body| + 2)
    decreases |body|
  {
    var s := body + "*/";
    HereFirst(text, index, s);
    HereFirst(text, index + 1, s[1..]);
    if body != "" {
      assert s[1..] == body[1..] + "*/";
      assert IsBlockBody(body[1..]);
      BlockBack(text, index + 1, body[1..]);
    }
  }

  lemma BodyBack(text: string, index: nat, kind: ScanState, body: string)
    requires IsBody(kind, body) && Here(text, index, body + Closing(kind))
    ensures BackInCode(text, index, kind) == Some(index + |body + Closing(kind)|)
  {
    if kind == Line { LineBack(text, index, body); }
    else if kind == Block { BlockBack(text, index, body); }
    else { StringBack(text, index, Opening(kind)[0], body); }
  }

  lemma OpeningLex(text: string, index: nat, kind: ScanState)
    requires kind != Code && Here(text, index, Opening(kind))
    ensures index < |text| && Lex(text, index, Code) == (kind, index + |Opening(kind)|)
  {
    HereFirst(text, index, Opening(kind));
    if kind == Line || kind == Block { HereFirst(text, index + 1, Opening(kind)[1..]); }
  }

  /** A string or comment token takes any scan from code back to code. */
  lemma NonCodeRun(text: string, index: nat, t: Tokens)
    requires t.NonCode? && WellFormed(t) && Here(text, index, Print(t))
    ensures index < |text| && Lex(text, index, Code) == (t.kind, index + |Opening(t.kind)|)
    ensures var restAt := index + |Print(t)| - |Print(t.rest)|;
            BackInCode(text, index + |Opening(t.kind)|, t.kind) == Some(restAt) && Here(text, restAt, Print(t.rest))
    ensures WellFormed(t.rest) && |Print(t.rest)| <= |Print(t)|
  {
    hide Lex, BackInCode, Opening, Closing;
    var opening, ending := Opening(t.kind), t.body + Closing(t.kind);
    assert Here(text, index, opening) && Here(text, index + |opening|, ending + Print(t.rest)) by {
      HereParts(text, index, opening, ending + Print(t.rest));
    }
    HereParts(text, index + |opening|, ending, Print(t.rest));
    OpeningLex(text, index, t.kind);
    BodyBack(text, index + |opening|, t.kind, t.body);
  }

  lemma PlainRun(text: string, index: nat, t: Tokens)
    requires t.Plain? && WellFormed(t) && Here(text, index, Print(t)) && Separated(At(text, index + |Print(t)|))
    ensures At(text, index) == Some(t.c) && Lex(text, index, Code) == (Code, index + 1) && IsPlain(t.c)
    ensures Here(text, index + 1, Print(t.rest)) && WellFormed(t.rest) && |Print(t)| == 1 + |Print(t.rest)|
  {
    HereFirst(text, index, Print(t));
    assert Print(t)[1..] == Print(t.rest);
    if Print(t.rest) != "" { HereFirst(text, index + 1, Print(t.rest)); }
  }

  /** A bracket in code, which both scanners read on its own. */
  predicate IsBracket(text: string, index: nat) {
    index < |text| && (IsOpen(text[index]) || IsClose(text[index])) && Lex(text, index, Code) == (Code, index + 1)
  }

  lemma BracketAt(text: string, index: nat, c: char)
    requires Here(text, index, [c]) && (IsOpen(c) || IsClose(c))
    ensures IsBracket(text, index) && text[index] == c
  {
    HereFirst(text, index, [c]);
  }

  lemma GroupPrints(t: Tokens)
    requires t.Group?
    ensures Print(t) == [t.open] + (Print(t.inner) + ([t.close] + Print(t.rest)))
  {
  }

  lemma GroupParts(t: Tokens)
    requires t.Group? && WellFormed(t)
    ensures IsOpen(t.open) && IsClose(t.close) && WellFormed(t.inner) && WellFormed(t.rest)
  {
  }

  lemma GroupRun(text: string, index: nat, t: Tokens)
    requires t.Group? && WellFormed(t) && Here(text, index, Print(t))
    ensures IsBracket(text, index) && text[index] == t.open && IsOpen(t.open) && IsClose(t.close)
    ensures WellFormed(t.inner) && WellFormed(t.rest) && |Print(t)| == 2 + |Print(t.inner)| + |Print(t.rest)|
    ensures var inside := index + 1 + |Print(t.inner)|;
            && Here(text, index + 1, Print(t.inner))
            && IsBracket(text, inside) && text[inside] == t.close
            && Here(text, inside + 1, Print(t.rest))
  {
    hide Print, Lex, IsBracket, WellFormed;
    GroupPrints(t);
    GroupParts(t);
    var inner, rest := Print(t.inner), Print(t.rest);
    HereParts(text, index, [t.open], inner + ([t.close] + rest));
    HereParts(text, index + 1, inner, [t.close] + rest);
    HereParts(text, index + 1 + |inner|, [t.close], rest);
    hide Here;
    BracketAt(text, index, t.open);
    BracketAt(text, index + 1 + |inner|, t.close);
  }

  lemma ClosingMoves(text: string, index: nat, depth: int)
    requires index < |text| && Lex(text, index, Code) == (Code, index + 1) && depth > 0
    requires IsClose(text[index]) ==> depth > 1
    ensures ClosingAt(text, index, depth, Code) ==
            ClosingAt(text, index + 1, depth + Deepening(text[index], Code), Code)
  {
  }

  lemma ClosingEnters(text: string, index: nat, depth: int, kind: ScanState, next: nat)
    requires index < |text| && kind != Code && Lex(text, index, Code) == (kind, next)
    ensures ClosingAt(text, index, depth, Code) == ClosingAt(text, next, depth, kind)
  {
  }

  lemma ClosingNonCode(text: string, index: nat, t: Tokens, depth: int)
    requires t.NonCode? && WellFormed(t) && Here(text, index, Print(t)) && depth > 0
    ensures ClosingAt(text, index, depth, Code) == ClosingAt(text, index + |Print(t)| - |Print(t.rest)|, depth, Code)
  {
    NonCodeRun(text, index, t);
    hide ClosingAt, BackInCode, Lex, Print, WellFormed, Here;
    ClosingEnters(text, index, depth, t.kind, index + |Opening(t.kind)|);
    ClosingSkips(text, index + |Opening(t.kind)|, depth, t.kind);
  }

  lemma ClosingGroup(text: string, index: nat, inside: nat, end: nat, depth: int)
    requires IsBracket(text, index) && IsBracket(text, inside) && IsOpen(text[index]) && IsClose(text[inside]) &&
             depth > 0
    requires ClosingAt(text, index + 1, depth + 1, Code) == ClosingAt(text, inside, depth + 1, Code)
    requires ClosingAt(text, inside + 1, depth, Code) == ClosingAt(text, end, depth, Code)
    ensures ClosingAt(text, index, depth, Code) == ClosingAt(text, end, depth, Code)
  {
    hide ClosingAt, Lex;
    ClosingMoves(text, index, depth);
    ClosingMoves(text, inside, depth + 1);
  }

  lemma EndPrintsNothing()
    ensures Print(End) == ""
  {
  }

  /** Inside a bracket the first scanner passes over any well-formed tokens. */
  lemma {:induction false} ClosingRun(text: string, index: nat, t: Tokens, end: nat, depth: int)
    requires WellFormed(t) && Here(text, index, Print(t)) && end == index + |Print(t)| && Separated(At(text, end)) &&
             depth > 0
    ensures ClosingAt(text, index, depth, Code) == ClosingAt(text, end, depth, Code)
    decreases t
  {
    hide ClosingAt, Lex, Print, WellFormed;
    match t
    case End => EndPrintsNothing();
    case Plain(c, rest) =>
      PlainRun(text, index, t);
      ClosingRun(text, index + 1, rest, end, depth);
      ClosingMoves(text, index, depth);
      assert ClosingAt(text, index, depth, Code) == ClosingAt(text, end, depth, Code);
    case NonCode(kind, body, rest) =>
      NonCodeRun(text, index, t);
      ClosingRun(text, end - |Print(rest)|, rest, end, depth);
      ClosingNonCode(text, index, t, depth);
      assert ClosingAt(text, index, depth, Code) == ClosingAt(text, end, depth, Code);
    case Group(open, inner, close, rest) =>
      var inside := index + 1 + |Print(inner)|;
      GroupRun(text, index, t);
      ClosingRun(text, index + 1, inner, inside, depth + 1);
      ClosingRun(text, inside + 1, rest, end, depth);
      ClosingGroup(text, index, inside, end, depth);
  }

  lemma {:induction false} KeysSkips(text: string, index: nat, depth: int, state: ScanState, inValue: bool,
      token: string)
    requires BackInCode(text, index, state).Some?
    ensures KeysAt(text, index, depth, state, inValue, token) ==
            KeysAt(text, BackInCode(text, index, state).value, depth, Code, inValue, token)
    decreases |text| - index
  {
    if state != Code {
      var (after, next) := Lex(text, index, state);
      KeysSkips(text, next, depth, after, inValue, token);
    }
  }

  lemma KeysNonCode(text: string, index: nat, t: Tokens, restAt: nat, depth: int, inValue: bool, token: string)
    requires t.NonCode? && WellFormed(t) && Here(text, index, Print(t)) &&
             restAt == index + |Print(t)| - |Print(t.rest)|
    ensures KeysAt(text, index, depth, Code, inValue, token) == KeysAt(text, restAt, depth, Code, inValue, token)
  {
    NonCodeRun(text, index, t);
    KeysEnters(text, index, depth, t.kind, index + |Opening(t.kind)|, inValue, token);
    KeysSkips(text, index + |Opening(t.kind)|, depth, t.kind, inValue, token);
  }

  lemma KeysEnters(text: string, index: nat, depth: int, kind: ScanState, next: nat, inValue: bool, token: string)
    requires index < |text| && kind != Code && Lex(text, index, Code) == (kind, next)
    ensures KeysAt(text, index, depth, Code, inValue, token) == KeysAt(text, next, depth, kind, inValue, token)
  {
  }

  /** What a token adds to a key that is being collected. */
  function Collected(inValue: bool, token: string, more: string): string {
    if inValue then token else token + more
  }

  /** A comma, or in a key a colon, ends something at the top level of the body. */
  predicate Ends(c: char, depth: int, inValue: bool) {
    depth == 0 && (c == ',' || (c == ':' && !inValue))
  }

  lemma KeysMoves(text: string, index: nat, depth: int, inValue: bool, token: string)
    requires index < |text| && Lex(text, index, Code) == (Code, index + 1) && !Ends(text[index], depth, inValue)
    ensures KeysAt(text, index, depth, Code, inValue, token) ==
            KeysAt(text, index + 1, depth + Deepening(text[index], Code), Code, inValue,
                Collected(inValue, token, [text[index]]))
  {
  }

  /** The characters of the tokens outside strings and comments. */
  function CodeOf(t: Tokens): string {
    match t
    case End => ""
    case Plain(c, rest) => [c] + CodeOf(rest)
    case NonCode(_, _, rest) => CodeOf(rest)
    case Group(open, inner, close, rest) => [open] + (CodeOf(inner) + ([close] + CodeOf(rest)))
  }

  /** No character of the tokens outside their groups ends a key, or a value. */
  predicate NeverEnds(t: Tokens, depth: int, inValue: bool) {
    match t
    case End => true
    case Plain(c, rest) => !Ends(c, depth, inValue) && NeverEnds(rest, depth, inValue)
    case NonCode(_, _, rest) => NeverEnds(rest, depth, inValue)
    case Group(_, _, _, rest) => NeverEnds(rest, depth, inValue)
  }

  lemma {:induction false} NeverEndsInside(t: Tokens, depth: int, inValue: bool)
    requires depth > 0
    ensures NeverEnds(t, depth, inValue)
  {
    if t != End { NeverEndsInside(t.rest, depth, inValue); }
  }

  lemma KeysGroup(text: string, index: nat, inside: nat, end: nat, depth: int, inValue: bool,
                  token: string, inner: string, final: string)
    requires IsBracket(text, index) && IsBracket(text, inside) && IsOpen(text[index]) && IsClose(text[inside])
    requires var entered := Collected(inValue, token, [text[index]]);
             KeysAt(text, index + 1, depth + 1, Code, inValue, entered) ==
             KeysAt(text, inside, depth + 1, Code, inValue, Collected(inValue, entered, inner))
    requires var left := Collected(inValue, Collected(inValue, Collected(inValue, token, [text[index]]), inner),
             [text[inside]]);
             KeysAt(text, inside + 1, depth, Code, inValue, left) == KeysAt(text, end, depth, Code, inValue, final)
    ensures KeysAt(text, index, depth, Code, inValue, token) == KeysAt(text, end, depth, Code, inValue, final)
  {
    hide KeysAt, Lex;
    var entered := Collected(inValue, token, [text[index]]);
    KeysMoves(text, index, depth, inValue, token);
    KeysMoves(text, inside, depth + 1, inValue, Collected(inValue, entered, inner));
  }

  lemma CollectedTwice(inValue: bool, token: string, a: string, b: string)
    ensures Collected(inValue, Collected(inValue, token, a), b) == Collected(inValue, token, a + b)
  {
    assert (token + a) + b == token + (a + b);
  }

  /** The second scanner passes over tokens that end nothing, and collects their code while in a key. */
  lemma {:induction false} KeysRun(text: string, index: nat, t: Tokens, end: nat, depth: int, inValue: bool,
      token: string)
    requires WellFormed(t) && Here(text, index, Print(t)) && end == index + |Print(t)| && Separated(At(text, end))
    requires depth >= 0 && NeverEnds(t, depth, inValue)
    ensures KeysAt(text, index, depth, Code, inValue, token) ==
            KeysAt(text, end, depth, Code, inValue, Collected(inValue, token, CodeOf(t)))
    decreases t, 1
  {
    hide KeysAt, Lex, Print, WellFormed;
    var final := Collected(inValue, token, CodeOf(t));
    match t
    case End =>
      EndPrintsNothing();
      assert token + "" == token;
    case Plain(c, rest) =>
      PlainRun(text, index, t);
      KeysRun(text, index + 1, rest, end, depth, inValue, Collected(inValue, token, [c]));
      CollectedTwice(inValue, token, [c], CodeOf(rest));
      KeysRunPlain(text, index, t, end, depth, inValue, token, final);
    case NonCode(kind, body, rest) =>
      NonCodeRun(text, index, t);
      KeysRun(text, end - |Print(rest)|, rest, end, depth, inValue, token);
      KeysNonCode(text, index, t, end - |Print(rest)|, depth, inValue, token);
      assert KeysAt(text, index, depth, Code, inValue, token) == KeysAt(text, end, depth, Code, inValue, final);
    case Group(_, _, _, _) =>
      KeysRunGroup(text, index, t, end, depth, inValue, token);
  }

  lemma KeysRunPlain(text: string, index: nat, t: Tokens, end: nat, depth: int, inValue: bool, token: string,
      final: string)
    requires t.Plain? && WellFormed(t) && Here(text, index, Print(t)) && end == index + |Print(t)| &&
             Separated(At(text, end))
    requires !Ends(t.c, depth, inValue)
    requires KeysAt(text, index + 1, depth, Code, inValue, Collected(inValue, token, [t.c])) ==
             KeysAt(text, end, depth, Code, inValue, final)
    ensures KeysAt(text, index, depth, Code, inValue, token) == KeysAt(text, end, depth, Code, inValue, final)
  {
    PlainRun(text, index, t);
    KeysMoves(text, index, depth, inValue, token);
  }

  lemma {:induction false} KeysRunGroup(text: string, index: nat, t: Tokens, end: nat, depth: int, inValue: bool,
      token: string)
    requires t.Group? && WellFormed(t) && Here(text, index, Print(t)) && end == index + |Print(t)| &&
             Separated(At(text, end))
    requires depth >= 0 && NeverEnds(t, depth, inValue)
    ensures KeysAt(text, index, depth, Code, inValue, token) ==
            KeysAt(text, end, depth, Code, inValue, Collected(inValue, token, CodeOf(t)))
    decreases t, 0
  {
    hide KeysAt, Lex, Print, WellFormed, Here, IsBracket;
    var Group(open, inner, close, rest) := t;
    var inside := index + 1 + |Print(inner)|;
    var entered := Collected(inValue, token, [open]);
    var left := Collected(inValue, Collected(inValue, entered, CodeOf(inner)), [close]);
    GroupRun(text, index, t);
    NeverEndsInside(inner, depth + 1, inValue);
    KeysRun(text, index + 1, inner, inside, depth + 1, inValue, entered);
    KeysRun(text, inside + 1, rest, end, depth, inValue, left);
    CollectedTwice(inValue, Collected(inValue, entered, CodeOf(inner)), [close], CodeOf(rest));
    CollectedTwice(inValue, entered, CodeOf(inner), [close] + CodeOf(rest));
    CollectedTwice(inValue, token, [open], CodeOf(inner) + ([close] + CodeOf(rest)));
    KeysGroup(text, index, inside, end, depth, inValue, token, CodeOf(inner), Collected(inValue, token, CodeOf(t)));
  }

  /** One entry of the object literal: its key, and its value unless it is a shorthand. */
  datatype Entry = Entry(key: Tokens, value: Option<Tokens>)

  predicate EntryOk(e: Entry) {
    && WellFormed(e.key) && NeverEnds(e.key, 0, false)
    && (e.value.Some? ==> WellFormed(e.value.value) && NeverEnds(e.value.value, 0, true))
  }

  function Append(a: Tokens, b: Tokens): Tokens {
    match a
    case End => b
    case Plain(c, rest) => Plain(c, Append(rest, b))
    case NonCode(kind, body, rest) => NonCode(kind, body, Append(rest, b))
    case Group(open, inner, close, rest) => Group(open, inner, close, Append(rest, b))
  }

  lemma {:induction false} AppendPrints(a: Tokens, b: Tokens)
    ensures Print(Append(a, b)) == Print(a) + Print(b)
  {
    if a != End { AppendPrints(a.rest, b); }
    match a
    case End =>
    case Plain(c, rest) =>
    case NonCode(kind, body, rest) =>
      if kind != Code {
        var ending := body + Closing(kind);
        assert Opening(kind) + (ending + (Print(rest) + Print(b))) ==
               (Opening(kind) + (ending + Print(rest))) + Print(b);
      }
    case Group(open, inner, close, rest) =>
      assert [open] + (Print(inner) + ([close] + (Print(rest) + Print(b)))) ==
             ([open] + (Print(inner) + ([close] + Print(rest)))) + Print(b);
  }

  lemma {:induction false} AppendIsWellFormed(a: Tokens, b: Tokens)
    requires WellFormed(a) && WellFormed(b) && Separated(At(Print(b), 0))
    ensures WellFormed(Append(a, b))
  {
    if a != End {
      AppendIsWellFormed(a.rest, b);
      AppendPrints(a.rest, b);
    }
  }

  /** An entry, and what follows it in the literal. */
  function EntryTokens(e: Entry, rest: Tokens): Tokens {
    Append(e.key, if e.value.None? then rest else Plain(':', Append(e.value.value, rest)))
  }

  /** The literal's body: the entries, with commas between them. */
  function Body(es: seq<Entry>): Tokens {
    if es == [] then End
    else EntryTokens(es[0], if |es| == 1 then End else Plain(',', Body(es[1..])))
  }

  /** The key an entry shows: its code, trimmed. */
  function KeyOf(e: Entry): string {
    Trim(CodeOf(e.key))
  }

  function KeysOf(es: seq<Entry>): seq<string> {
    if es == [] then []
    else (if KeyOf(es[0]) != "" then [KeyOf(es[0])] else []) + KeysOf(es[1..])
  }

  predicate EntriesOk(es: seq<Entry>) {
    forall i :: 0 <= i < |es| ==> EntryOk(es[i])
  }

  lemma EntryIsWellFormed(e: Entry, rest: Tokens)
    requires EntryOk(e) && WellFormed(rest) && Separated(At(Print(rest), 0))
    ensures WellFormed(EntryTokens(e, rest))
  {
    if e.value.None? {
      AppendIsWellFormed(e.key, rest);
    } else {
      AppendIsWellFormed(e.value.value, rest);
      assert Print(Plain(':', Append(e.value.value, rest)))[0] == ':';
      AppendIsWellFormed(e.key, Plain(':', Append(e.value.value, rest)));
    }
  }

  lemma {:induction false} BodyIsWellFormed(es: seq<Entry>)
    requires EntriesOk(es)
    ensures WellFormed(Body(es))
  {
    if |es| == 1 {
      EntryIsWellFormed(es[0], End);
    } else if |es| > 1 {
      BodyIsWellFormed(es[1..]);
      assert Print(Plain(',', Body(es[1..])))[0] == ',';
      EntryIsWellFormed(es[0], Plain(',', Body(es[1..])));
    }
  }

  lemma Regroup(a: string, c: char, b: string, d: string)
    ensures a + ([c] + (b + d)) == (a + ([c] + b)) + d
  {
  }

  function EntryText(e: Entry): string {
    if e.value.None? then Print(e.key) else Print(e.key) + (":" + Print(e.value.value))
  }

  lemma EntryPrints(e: Entry, rest: Tokens)
    ensures Print(EntryTokens(e, rest)) == EntryText(e) + Print(rest)
  {
    if e.value.None? {
      AppendPrints(e.key, rest);
    } else {
      AppendPrints(e.key, Plain(':', Append(e.value.value, rest)));
      AppendPrints(e.value.value, rest);
      Regroup(Print(e.key), ':', Print(e.value.value), Print(rest));
    }
  }

  lemma HereChar(text: string, index: nat, c: char, s: string)
    requires Here(text, index, [c] + s)
    ensures At(text, index) == Some(c) && Here(text, index + 1, s)
  {
    HereFirst(text, index, [c] + s);
    assert ([c] + s)[1..] == s;
  }

  /** A key is pushed when its colon is read. */
  lemma KeysColon(text: string, index: nat, token: string)
    requires At(text, index) == Some(':')
    ensures KeysAt(text, index, 0, Code, false, token) == Flushed(token, 0) + KeysAt(text, index + 1, 0, Code, true, "")
  {
  }

  /** An entry ends at a comma or at the end of the body: a shorthand is pushed there, a value is not. */
  lemma KeysComma(text: string, index: nat, inValue: bool, token: string)
    requires At(text, index) == Some(',')
    ensures KeysAt(text, index, 0, Code, inValue, token) ==
            (if inValue then [] else Flushed(token, 0)) + KeysAt(text, index + 1, 0, Code, false, "")
  {
  }

  /** Reading an entry leaves the scanner at its end: in a value, or with the shorthand collected. */
  lemma KeysEntry(text: string, index: nat, e: Entry, end: nat)
    requires EntryOk(e) && Here(text, index, EntryText(e)) && end == index + |EntryText(e)| && Separated(At(text, end))
    ensures e.value.None? ==>
              KeysAt(text, index, 0, Code, false, "") == KeysAt(text, end, 0, Code, false, CodeOf(e.key))
    ensures e.value.Some? ==>
              KeysAt(text, index, 0, Code, false, "") ==
                  Flushed(CodeOf(e.key), 0) + KeysAt(text, end, 0, Code, true, "")
  {
    hide KeysAt, Lex, CodeOf, WellFormed, NeverEnds, Print;
    assert "" + CodeOf(e.key) == CodeOf(e.key);
    if e.value.None? {
      KeysRun(text, index, e.key, end, 0, false, "");
    } else {
      var colon := index + |Print(e.key)|;
      HereParts(text, index, Print(e.key), [':'] + Print(e.value.value));
      HereChar(text, colon, ':', Print(e.value.value));
      KeysRun(text, index, e.key, colon, 0, false, "");
      KeysColon(text, colon, CodeOf(e.key));
      KeysRun(text, colon + 1, e.value.value, end, 0, true, "");
    }
  }

  lemma BodyParts(text: string, index: nat, es: seq<Entry>)
    requires |es| > 1 && Here(text, index, Print(Body(es)))
    ensures var comma := index + |EntryText(es[0])|;
            && Here(text, index, EntryText(es[0])) && At(text, comma) == Some(',')
            && Here(text, comma + 1, Print(Body(es[1..])))
            && comma + 1 + |Print(Body(es[1..]))| == index + |Print(Body(es))|
  {
    EntryPrints(es[0], Plain(',', Body(es[1..])));
    assert Print(Body(es)) == EntryText(es[0]) + ([','] + Print(Body(es[1..])));
    hide Print, EntryText;
    HereParts(text, index, EntryText(es[0]), [','] + Print(Body(es[1..])));
    HereChar(text, index + |EntryText(es[0])|, ',', Print(Body(es[1..])));
  }

  lemma KeysEntryComma(text: string, index: nat, e: Entry, comma: nat)
    requires EntryOk(e) && Here(text, index, EntryText(e)) && comma == index + |EntryText(e)| &&
             At(text, comma) == Some(',')
    ensures KeysAt(text, index, 0, Code, false, "") ==
            Flushed(CodeOf(e.key), 0) + KeysAt(text, comma + 1, 0, Code, false, "")
  {
    hide KeysAt, Print;
    KeysEntry(text, index, e, comma);
    KeysComma(text, comma, e.value.Some?, if e.value.None? then CodeOf(e.key) else "");
  }

  lemma KeysLastEntry(text: string, index: nat, e: Entry)
    requires EntryOk(e) && Here(text, index, EntryText(e)) && |text| == index + |EntryText(e)|
    ensures KeysAt(text, index, 0, Code, false, "") == Flushed(CodeOf(e.key), 0)
  {
    KeysEntry(text, index, e, |text|);
  }

  lemma NoMoreKeys(text: string, index: nat)
    requires index >= |text|
    ensures KeysAt(text, index, 0, Code, false, "") == []
  {
    assert TrimEnd(TrimStart("")) == "";
  }

  /** The second scanner reads the keys of the entries, in order. */
  lemma {:induction false} KeysEntries(text: string, index: nat, es: seq<Entry>)
    requires EntriesOk(es) && Here(text, index, Print(Body(es))) && |text| == index + |Print(Body(es))|
    ensures KeysAt(text, index, 0, Code, false, "") == KeysOf(es)
    decreases |es|
  {
    hide KeysAt, EntryText, CodeOf, WellFormed, NeverEnds, Print, Here, Trim;
    EndPrintsNothing();
    if es == [] {
      NoMoreKeys(text, index);
    } else if |es| == 1 {
      EntryPrints(es[0], End);
      assert Print(Body(es)) == EntryText(es[0]);
      KeysLastEntry(text, index, es[0]);
      assert KeysOf(es[1..]) == [];
    } else {
      var comma := index + |EntryText(es[0])|;
      BodyParts(text, index, es);
      KeysEntryComma(text, index, es[0], comma);
      KeysEntries(text, comma + 1, es[1..]);
    }
  }

  /** Single characters as tokens. */
  function Characters(s: string, rest: Tokens): Tokens {
    if s == "" then rest else Plain(s[0], Characters(s[1..], rest))
  }

  lemma {:induction false} SpacesAreTokens(s: string, rest: Tokens)
    requires AllSpace(s) && WellFormed(rest)
    ensures WellFormed(Characters(s, rest)) && Print(Characters(s, rest)) == s + Print(rest)
  {
    if s == "" {
      assert s + Print(rest) == Print(rest);
    } else {
      hide IsSpace;
      assert IsPlain(s[0]) && s[0] != '/' by { SpaceIsPlain(s[0]); }
      SpacesAreTokens(s[1..], rest);
      assert s + Print(rest) == [s[0]] + (s[1..] + Print(rest));
    }
  }

  /** Characters that mean nothing else are read as they stand. */
  lemma {:induction false} CharactersAre(s: string)
    requires forall i :: 0 <= i < |s| ==> IsPlain(s[i]) && s[i] != '/'
    ensures var t := Characters(s, End); WellFormed(t) && Print(t) == s && CodeOf(t) == s && !HasString(t)
    ensures (forall i :: 0 <= i < |s| ==> s[i] != ',' && s[i] != ':') ==> NeverEnds(Characters(s, End), 0, false)
  {
    hide IsPlain;
    if s != "" {
      CharactersAre(s[1..]);
      assert [s[0]] + s[1..] == s;
    }
  }

  lemma SpaceIsPlain(c: char)
    requires IsSpace(c)
    ensures IsPlain(c) && c != '/'
  {
  }

  function ObjectText(es: seq<Entry>): string {
    "{" + Print(Body(es)) + "}"
  }

  lemma LiteralTokens(es: seq<Entry>, after: string) returns (literal: Tokens)
    requires EntriesOk(es) && AllSpace(after)
    ensures WellFormed(literal) && Print(literal) == ObjectText(es) + after
  {
    var tail := Characters(after, End);
    literal := Group('{', Body(es), '}', tail);
    BodyIsWellFormed(es);
    SpacesAreTokens(after, End);
    assert ['{'] + (Print(Body(es)) + (['}'] + after)) == ObjectText(es) + after;
  }

  /** The whole argument list as tokens. */
  lemma ArgumentTokens(before: string, es: seq<Entry>, after: string) returns (argument: Tokens)
    requires EntriesOk(es) && AllSpace(before) && AllSpace(after)
    ensures WellFormed(argument) && Print(argument) == before + ObjectText(es) + after
  {
    hide ObjectText, WellFormed, Print;
    var literal := LiteralTokens(es, after);
    SpacesAreTokens(before, literal);
    argument := Characters(before, literal);
  }

  /** The bracket at `index` closes right behind the tokens after it. */
  lemma SliceOfTokens(text: string, index: nat, argument: Tokens, close: char)
    requires WellFormed(argument) && IsClose(close) && index < |text| && IsOpen(text[index])
    requires Here(text, index + 1, Print(argument)) && At(text, index + 1 + |Print(argument)|) == Some(close)
    ensures ArgumentSlice(text, index) == Some(Print(argument))
  {
    hide Print, WellFormed;
    var end := index + 1 + |Print(argument)|;
    ClosingRun(text, index + 1, argument, end, 1);
    assert ClosingAt(text, end, 1, Code) == Some(end);
    assert text[index + 1..end] == Print(argument);
  }

  lemma CallSlice(text: string, index: nat, before: string, es: seq<Entry>, after: string)
    requires EntriesOk(es) && AllSpace(before) && AllSpace(after)
    requires Here(text, index, "(" + (before + ObjectText(es) + after) + ")")
    ensures ArgumentSlice(text, index) == Some(before + ObjectText(es) + after)
  {
    hide ObjectText, ArgumentSlice;
    var slice := before + ObjectText(es) + after;
    var argument := ArgumentTokens(before, es, after);
    HereParts(text, index, "(" + slice, ")");
    HereParts(text, index, "(", slice);
    HereChar(text, index, '(', "");
    HereChar(text, index + 1 + |slice|, ')', "");
    SliceOfTokens(text, index, argument, ')');
  }

  // ---- Object literals

  /** White space and comments. */
  predicate IsBlank(t: Tokens) {
    match t
    case End => true
    case Plain(c, rest) => IsSpace(c) && IsBlank(rest)
    case NonCode(kind, _, rest) => (kind == Line || kind == Block) && IsBlank(rest)
    case Group(_, _, _, _) => false
  }

  /** A string or template outside all brackets. */
  predicate HasString(t: Tokens) {
    match t
    case End => false
    case Plain(_, rest) => HasString(rest)
    case NonCode(kind, _, rest) => (kind != Line && kind != Block) || HasString(rest)
    case Group(_, _, _, rest) => HasString(rest)
  }

  /**
   Entries, and what stands blank before the closing brace: behind a trailing comma if there are
   entries, alone in the braces if there are none.
   */
  datatype Literal = Literal(entries: seq<Entry>, blank: Option<Tokens>)

  predicate LiteralOk(l: Literal) {
    && EntriesOk(l.entries) && (forall i :: 0 <= i < |l.entries| ==> !IsBlank(l.entries[i].key))
    && (l.blank.Some? ==> WellFormed(l.blank.value) && IsBlank(l.blank.value))
  }

  /** The blank part is printed like one more entry. */
  function Slots(l: Literal): seq<Entry> {
    l.entries + if l.blank.Some? then [Entry(l.blank.value, None)] else []
  }

  function LiteralText(l: Literal): string {
    ObjectText(Slots(l))
  }

  lemma {:induction false} BlankIs(t: Tokens)
    requires WellFormed(t)
    ensures IsBlank(t) <==> AllSpace(CodeOf(t)) && !HasString(t)
    ensures IsBlank(t) ==> NeverEnds(t, 0, false)
    decreases t
  {
    match t
    case End =>
    case Plain(c, rest) =>
      BlankIs(rest);
      hide IsSpace, WellFormed;
      AllSpaceOfFirst(c, CodeOf(rest));
      if IsSpace(c) { SpaceEndsNothing(c); }
    case NonCode(kind, _, rest) => BlankIs(rest);
    case Group(open, inner, close, rest) =>
      assert CodeOf(t)[0] == open && !IsSpace(open);
  }

  lemma AllSpaceOfFirst(c: char, rest: string)
    ensures AllSpace([c] + rest) <==> IsSpace(c) && AllSpace(rest)
  {
    assert ([c] + rest)[0] == c;
    assert forall i :: 0 <= i < |rest| ==> ([c] + rest)[i + 1] == rest[i];
  }

  lemma SpaceEndsNothing(c: char)
    requires IsSpace(c)
    ensures !Ends(c, 0, false)
  {
  }

  lemma SlotsOk(l: Literal)
    requires LiteralOk(l)
    ensures EntriesOk(Slots(l)) && KeysOf(Slots(l)) == KeysOf(l.entries)
  {
    hide WellFormed, IsBlank, NeverEnds;
    if l.blank.Some? {
      BlankIs(l.blank.value);
      TrimIsEmptyIff(CodeOf(l.blank.value));
      KeysOfSnoc(l.entries, Entry(l.blank.value, None));
    } else {
      assert Slots(l) == l.entries;
    }
  }

  lemma {:induction false} KeysOfSnoc(es: seq<Entry>, last: Entry)
    ensures KeysOf(es + [last]) == KeysOf(es) + if KeyOf(last) != "" then [KeyOf(last)] else []
  {
    hide KeyOf;
    if es == [] {
      assert es + [last] == [last] && [last][1..] == [];
    } else {
      assert (es + [last])[1..] == es[1..] + [last];
      KeysOfSnoc(es[1..], last);
    }
  }

  /**
   Reading the options of any call with one object literal gives exactly the keys its entries
   show, in order, or names the first that is no identifier: spreads and computed keys are refused.
   */
  lemma CallKeys(text: string, index: nat, before: string, l: Literal, after: string)
    requires LiteralOk(l) && AllSpace(before) && AllSpace(after)
    requires Here(text, index, "(" + (before + LiteralText(l) + after) + ")")
    ensures ReadKeys(text, index) == CheckKeys(KeysOf(l.entries))
  {
    var body := Print(Body(Slots(l)));
    SlotsOk(l);
    CallSlice(text, index, before, Slots(l), after);
    TrimOf(before, LiteralText(l), after);
    assert ObjectBody(LiteralText(l)) == Some(body);
    KeysEntries(body, 0, Slots(l));
  }

  /** The entry's key is `name` with white space and comments around it. */
  ghost predicate HasKey(e: Entry, name: string) {
    && IsName(name)
    && exists before, after :: AllSpace(before) && AllSpace(after) && CodeOf(e.key) == before + name + after
  }

  lemma KeyIsName(e: Entry, name: string)
    requires HasKey(e, name)
    ensures KeyOf(e) == name
  {
    var before, after :| AllSpace(before) && AllSpace(after) && CodeOf(e.key) == before + name + after;
    TrimOf(before, name, after);
  }

  lemma {:induction false} KeysAreNames(es: seq<Entry>, names: seq<string>)
    requires |es| == |names| && forall i :: 0 <= i < |es| ==> HasKey(es[i], names[i])
    ensures KeysOf(es) == names
  {
    if es != [] {
      KeyIsName(es[0], names[0]);
      KeysAreNames(es[1..], names[1..]);
    }
  }

  /**
   The round trip: a printed literal with bare or shorthand keys, possibly none and possibly with a
   trailing comma, is read back as exactly those keys.
   */
  lemma ReadInvertsPrint(text: string, index: nat, before: string, l: Literal, after: string, names: seq<string>)
    requires LiteralOk(l) && AllSpace(before) && AllSpace(after)
    requires Here(text, index, "(" + (before + LiteralText(l) + after) + ")")
    requires |l.entries| == |names| && forall i :: 0 <= i < |names| ==> HasKey(l.entries[i], names[i])
    ensures ReadKeys(text, index) == Ok(names)
  {
    CallKeys(text, index, before, l, after);
    KeysAreNames(l.entries, names);
    forall k | k in names ensures IsName(k) {
      var i :| 0 <= i < |names| && names[i] == k;
      assert HasKey(l.entries[i], names[i]);
    }
  }

  /** The key is one or more strings, and nothing else. */
  ghost predicate IsQuoted(e: Entry) {
    HasString(e.key) && AllSpace(CodeOf(e.key))
  }

  lemma QuotedShowsNothing(e: Entry)
    requires WellFormed(e.key) && !IsBlank(e.key)
    ensures KeyOf(e) == "" <==> IsQuoted(e)
  {
    BlankIs(e.key);
    TrimIsEmptyIff(CodeOf(e.key));
  }

  lemma {:induction false} KeysOfAre(es: seq<Entry>)
    requires forall i :: 0 <= i < |es| ==> WellFormed(es[i].key) && !IsBlank(es[i].key)
    ensures |KeysOf(es)| <= |es|
    ensures |KeysOf(es)| == |es| <==> forall i :: 0 <= i < |es| ==> !IsQuoted(es[i])
    ensures (forall k :: k in KeysOf(es) ==> IsName(k)) <==>
            forall i :: 0 <= i < |es| ==> IsQuoted(es[i]) || IsName(KeyOf(es[i]))
  {
    hide IsQuoted, IsName, KeyOf, WellFormed, IsBlank;
    if es != [] {
      QuotedShowsNothing(es[0]);
      KeysOfAre(es[1..]);
      assert forall i :: 1 <= i < |es| ==> es[i] == es[1..][i - 1];
    }
  }

  /**
   A literal is read exactly when every key is an identifier or quoted, and then a key is lost,
   silently, exactly when some key is quoted.
   */
  lemma KeyLostIff(text: string, index: nat, before: string, l: Literal, after: string)
    requires LiteralOk(l) && AllSpace(before) && AllSpace(after)
    requires Here(text, index, "(" + (before + LiteralText(l) + after) + ")")
    ensures var keys := ReadKeys(text, index);
            && (keys.Ok? <==> forall i :: 0 <= i < |l.entries| ==>
                                IsQuoted(l.entries[i]) || IsName(KeyOf(l.entries[i])))
            && (keys.Ok? ==> (|keys.value| < |l.entries| <==>
                                exists i :: 0 <= i < |l.entries| && IsQuoted(l.entries[i])))
  {
    CallKeys(text, index, before, l, after);
    KeysOfAre(l.entries);
  }

  /** A concrete loss: the quoted key of `({'a':1})` is read as no key at all. */
  lemma QuotedKeyIsLost()
    ensures ReadKeys("({'a':1})", 0) == Ok([])
  {
    var e := Entry(NonCode(Single, "a", End), Some(Plain('1', End)));
    var text := "({'a':1})";
    assert IsStringBody('\'', "a");
    assert EntryOk(e);
    assert Print(e.key) == "'a'";
    assert Print(Body([e])) == "'a':1";
    assert Slots(Literal([e], None)) == [e];
    assert text[0..9] == text;
    CallKeys(text, 0, "", Literal([e], None), "");
    assert KeyOf(e) == "";
    assert KeysOf([e]) == [];
  }

  /**
   The text from a point in code, inside `depth` brackets, to the one that closes the last:
   tokens, a closing bracket, tokens, and so on.
   */
  datatype Chain = Last(tokens: Tokens) | More(tokens: Tokens, close: char, rest: Chain)

  function ChainDepth(c: Chain): nat {
    if c.Last? then 1 else 1 + ChainDepth(c.rest)
  }

  function AfterFirst(c: Chain): string
    decreases c, 0
  {
    if c.Last? then "" else [c.close] + PrintChain(c.rest)
  }

  function PrintChain(c: Chain): string
    decreases c, 1
  {
    Print(c.tokens) + AfterFirst(c)
  }

  predicate ChainOk(c: Chain) {
    WellFormed(c.tokens) && (c.More? ==> IsClose(c.close) && ChainOk(c.rest))
  }

  /** The chain with other tokens in front. */
  function WithFirst(c: Chain, tokens: Tokens): (d: Chain)
    requires WellFormed(tokens)
    ensures ChainDepth(d) == ChainDepth(c) && AfterFirst(d) == AfterFirst(c) && (ChainOk(c) ==> ChainOk(d))
  {
    c.(tokens := tokens)
  }

  lemma HereOne(text: string, index: nat, s: string)
    requires index < |text| && Here(text, index + 1, s)
    ensures Here(text, index, [text[index]] + s)
  {
    assert Here(text, index, [text[index]]);
    HereParts(text, index, [text[index]], s);
  }

  lemma HereTwo(text: string, index: nat, s: string, ending: string)
    requires index + 1 < |text| && Here(text, index + 2, s + ending)
    ensures Here(text, index, (text[index..index + 2] + s) + ending)
  {
    assert Here(text, index, text[index..index + 2]);
    HereParts(text, index, text[index..index + 2], s + ending);
    assert text[index..index + 2] + (s + ending) == (text[index..index + 2] + s) + ending;
  }

  lemma HereNext(text: string, index: nat, s: string, ending: string)
    requires index < |text| && Here(text, index + 1, s + ending)
    ensures Here(text, index, ([text[index]] + s) + ending)
  {
    HereOne(text, index, s + ending);
    assert [text[index]] + (s + ending) == ([text[index]] + s) + ending;
  }

  lemma EscapeInFront(quote: char, pair: string, body: string)
    requires |pair| == 2 && pair[0] == '\\' && IsStringBody(quote, body)
    ensures IsStringBody(quote, pair + body)
  {
    assert (pair + body)[2..] == body;
  }

  lemma CharacterInFront(quote: char, c: char, body: string)
    requires c != '\\' && c != quote && !(quote == '`' && c == '$' && At(body, 0) == Some('{')) &&
             IsStringBody(quote, body)
    ensures IsStringBody(quote, [c] + body)
  {
    assert ([c] + body)[1..] == body;
  }

  /** One step inside a string: past an escape, out at the quote, or past a character. */
  lemma StringStep(text: string, index: nat, quote: char)
    requires IsQuote(quote) && BackInCode(text, index, StringState(quote)).Some?
    ensures index < |text|
    ensures var back := BackInCode(text, index, StringState(quote));
            if text[index] == '\\' then index + 1 < |text| && back == BackInCode(text, index + 2, StringState(quote))
            else if text[index] == quote then back == Some(index + 1)
            else back == BackInCode(text, index + 1, StringState(quote)) &&
                 !(quote == '`' && text[index] == '$' && At(text, index + 1) == Some('{'))
  {
  }

  lemma {:induction false} StringBodyOf(text: string, index: nat, quote: char) returns (body: string)
    requires IsQuote(quote) && BackInCode(text, index, StringState(quote)).Some?
    ensures IsStringBody(quote, body) && Here(text, index, body + [quote])
    ensures BackInCode(text, index, StringState(quote)) == Some(index + |body| + 1)
    decreases |text| - index
  {
    StringStep(text, index, quote);
    hide BackInCode, IsStringBody, StringState, IsQuote;
    if text[index] == '\\' {
      var rest := StringBodyOf(text, index + 2, quote);
      body := text[index..index + 2] + rest;
      HereTwo(text, index, rest, [quote]);
      EscapeInFront(quote, text[index..index + 2], rest);
    } else if text[index] == quote {
      body := "";
      HereOne(text, index, "");
      assert IsStringBody(quote, body) by { NoBody(quote); }
    } else {
      var rest := StringBodyOf(text, index + 1, quote);
      body := [text[index]] + rest;
      HereNext(text, index, rest, [quote]);
      HereFirst(text, index + 1, rest + [quote]);
      CharacterInFront(quote, text[index], rest);
    }
  }

  lemma NoBody(quote: char)
    ensures IsStringBody(quote, "")
  {
  }

  lemma {:induction false} LineBodyOf(text: string, index: nat) returns (body: string)
    requires BackInCode(text, index, Line).Some?
    ensures '\n' !in body && Here(text, index, body + "\n")
    ensures BackInCode(text, index, Line) == Some(index + |body| + 1)
    decreases |text| - index
  {
    if text[index] == '\n' {
      body := "";
      HereOne(text, index, "");
    } else {
      var rest := LineBodyOf(text, index + 1);
      body := [text[index]] + rest;
      HereNext(text, index, rest, "\n");
    }
  }

  lemma {:induction false} BlockBodyOf(text: string, index: nat) returns (body: string)
    requires BackInCode(text, index, Block).Some?
    ensures IsBlockBody(body) && Here(text, index, body + "*/")
    ensures BackInCode(text, index, Block) == Some(index + |body| + 2)
    decreases |text| - index
  {
    if text[index] == '*' && At(text, index + 1) == Some('/') {
      body := "";
      HereOne(text, index + 1, "");
      HereOne(text, index, "/");
    } else {
      assert BackInCode(text, index, Block) == BackInCode(text, index + 1, Block);
      hide BackInCode, Lex;
      var rest := BlockBodyOf(text, index + 1);
      body := [text[index]] + rest;
      HereNext(text, index, rest, "*/");
      HereFirst(text, index + 1, rest + "*/");
    }
  }

  lemma BodyOf(text: string, index: nat, kind: ScanState) returns (body: string)
    requires kind != Code && BackInCode(text, index, kind).Some?
    ensures IsBody(kind, body) && Here(text, index, body + Closing(kind))
    ensures BackInCode(text, index, kind) == Some(index + |body + Closing(kind)|)
  {
    if kind == Line { body := LineBodyOf(text, index); }
    else if kind == Block { body := BlockBodyOf(text, index); }
    else { body := StringBodyOf(text, index, Opening(kind)[0]); }
  }

  lemma {:induction false} ClosingNeedsCode(text: string, index: nat, depth: int, state: ScanState)
    requires ClosingAt(text, index, depth, state).Some?
    ensures BackInCode(text, index, state).Some?
    decreases |text| - index
  {
    if state != Code {
      var (after, next) := Lex(text, index, state);
      ClosingNeedsCode(text, next, depth, after);
    }
  }

  lemma LexOpening(text: string, index: nat, kind: ScanState, next: nat)
    requires index < |text| && Lex(text, index, Code) == (kind, next) && kind != Code
    ensures Here(text, index, Opening(kind)) && next == index + |Opening(kind)|
  {
    if kind == Line || kind == Block {
      assert text[index..index + 2] == Opening(kind);
    } else {
      assert text[index..index + 1] == Opening(kind);
    }
  }

  /** A string or comment that the first scanner gets past, as a token in front of what follows it. */
  lemma NonCodeOf(text: string, index: nat, depth: int, kind: ScanState, next: nat) returns (body: string, restAt: nat)
    requires index < |text| && Lex(text, index, Code) == (kind, next) && kind != Code
    requires ClosingAt(text, next, depth, kind).Some?
    ensures IsBody(kind, body) && restAt > index &&
            ClosingAt(text, restAt, depth, Code) == ClosingAt(text, next, depth, kind)
    ensures Here(text, index, Opening(kind) + (body + Closing(kind))) &&
            restAt == index + |Opening(kind) + (body + Closing(kind))|
  {
    ClosingNeedsCode(text, next, depth, kind);
    ClosingSkips(text, next, depth, kind);
    body := BodyOf(text, next, kind);
    restAt := next + |body + Closing(kind)|;
    LexOpening(text, index, kind, next);
    HereParts(text, index, Opening(kind), body + Closing(kind));
  }

  lemma NonCodeInFront(rest: Chain, kind: ScanState, body: string) returns (c: Chain)
    requires ChainOk(rest) && kind != Code && IsBody(kind, body)
    ensures ChainOk(c) && ChainDepth(c) == ChainDepth(rest)
    ensures PrintChain(c) == (Opening(kind) + (body + Closing(kind))) + PrintChain(rest)
  {
    c := WithFirst(rest, NonCode(kind, body, rest.tokens));
    var opening, ending, first, after := Opening(kind), body + Closing(kind), Print(rest.tokens), AfterFirst(rest);
    assert (opening + (ending + first)) + after == (opening + ending) + (first + after);
  }

  lemma GroupInFront(rest: Chain, open: char) returns (c: Chain)
    requires ChainOk(rest) && ChainDepth(rest) > 1 && IsOpen(open)
    ensures ChainOk(c) && ChainDepth(c) == ChainDepth(rest) - 1 && PrintChain(c) == [open] + PrintChain(rest)
  {
    c := WithFirst(rest.rest, Group(open, rest.tokens, rest.close, rest.rest.tokens));
    var inner, first, after := Print(rest.tokens), Print(rest.rest.tokens), AfterFirst(rest.rest);
    assert PrintChain(rest) == inner + ([rest.close] + (first + after));
    assert ([open] + (inner + ([rest.close] + first))) + after == [open] + (inner + ([rest.close] + (first + after)));
  }

  lemma PlainInFront(text: string, index: nat, rest: Chain) returns (c: Chain)
    requires index < |text| && IsPlain(text[index]) && Lex(text, index, Code) == (Code, index + 1)
    requires ChainOk(rest) && Here(text, index + 1, PrintChain(rest))
    ensures ChainOk(c) && ChainDepth(c) == ChainDepth(rest) && PrintChain(c) == [text[index]] + PrintChain(rest)
  {
    var first, after := Print(rest.tokens), AfterFirst(rest);
    if first != "" {
      HereParts(text, index + 1, first, after);
      HereFirst(text, index + 1, first);
    }
    c := WithFirst(rest, Plain(text[index], rest.tokens));
    assert ([text[index]] + first) + after == [text[index]] + (first + after);
  }

  lemma CloseInFront(rest: Chain, close: char) returns (c: Chain)
    requires ChainOk(rest) && IsClose(close)
    ensures ChainOk(c) && ChainDepth(c) == ChainDepth(rest) + 1 && PrintChain(c) == [close] + PrintChain(rest)
  {
    c := More(End, close, rest);
    assert PrintChain(c) == "" + ([close] + PrintChain(rest));
  }

  lemma NothingInFront() returns (c: Chain)
    ensures ChainOk(c) && ChainDepth(c) == 1 && PrintChain(c) == ""
  {
    c := Last(End);
  }

  lemma NothingHere(text: string, index: nat)
    requires index <= |text|
    ensures Here(text, index, "")
  {
  }

  /** Whatever the first scanner accepts is made of tokens: where it stops, every bracket is matched. */
  lemma {:induction false} ChainOf(text: string, index: nat, depth: int) returns (c: Chain)
    requires depth > 0 && ClosingAt(text, index, depth, Code).Some?
    ensures ChainOk(c) && ChainDepth(c) == depth && Here(text, index, PrintChain(c))
    ensures index + |PrintChain(c)| == ClosingAt(text, index, depth, Code).value
    decreases |text| - index
  {
    hide ChainOk, PrintChain, ChainDepth, Here, IsBody, Opening, Closing;
    var (kind, next) := Lex(text, index, Code);
    if kind != Code {
      ClosingEnters(text, index, depth, kind, next);
      hide ClosingAt, Lex;
      var body, restAt := NonCodeOf(text, index, depth, kind, next);
      var rest := ChainOf(text, restAt, depth);
      c := NonCodeInFront(rest, kind, body);
      HereParts(text, index, Opening(kind) + (body + Closing(kind)), PrintChain(rest));
      hide *;
      assert index + |PrintChain(c)| == ClosingAt(text, index, depth, Code).value;
    } else if IsClose(text[index]) && depth == 1 {
      c := NothingInFront();
      NothingHere(text, index);
    } else {
      CodeStep(text, index, depth);
      hide ClosingAt, Lex;
      var rest := ChainOf(text, index + 1, depth + Deepening(text[index], Code));
      c := CharacterOf(text, index, rest);
    }
  }

  lemma CodeStep(text: string, index: nat, depth: int)
    requires depth > 0 && ClosingAt(text, index, depth, Code).Some?
    requires Lex(text, index, Code).0 == Code && !(IsClose(text[index]) && depth == 1)
    ensures Lex(text, index, Code) == (Code, index + 1) && !IsQuote(text[index])
    ensures depth + Deepening(text[index], Code) > 0
    ensures ClosingAt(text, index, depth, Code) ==
            ClosingAt(text, index + 1, depth + Deepening(text[index], Code), Code)
  {
    ClosingMoves(text, index, depth);
  }

  /** A character of code in front of what follows it. */
  lemma CharacterOf(text: string, index: nat, rest: Chain) returns (c: Chain)
    requires index < |text| && Lex(text, index, Code) == (Code, index + 1) && !IsQuote(text[index])
    requires ChainOk(rest) && Here(text, index + 1, PrintChain(rest)) &&
             ChainDepth(rest) - Deepening(text[index], Code) > 0
    ensures ChainOk(c) && ChainDepth(c) == ChainDepth(rest) - Deepening(text[index], Code)
    ensures Here(text, index, PrintChain(c)) && |PrintChain(c)| == 1 + |PrintChain(rest)|
  {
    hide ChainOk, PrintChain, ChainDepth, Here, Lex;
    HereOne(text, index, PrintChain(rest));
    if IsClose(text[index]) {
      c := CloseInFront(rest, text[index]);
    } else if IsOpen(text[index]) {
      c := GroupInFront(rest, text[index]);
    } else {
      c := PlainInFront(text, index, rest);
    }
  }

  lemma {:induction false} ClosingIsBracket(text: string, index: nat, depth: int, state: ScanState)
    requires ClosingAt(text, index, depth, state).Some?
    ensures IsClose(text[ClosingAt(text, index, depth, state).value])
    decreases |text| - index
  {
    if !(state == Code && IsClose(text[index]) && depth == 1) {
      var (after, next) := Lex(text, index, state);
      ClosingIsBracket(text, next, depth + Deepening(text[index], state), after);
    }
  }

  lemma EndsWithBracket(text: string, index: nat, end: nat, s: string)
    requires index <= end < |text| && text[index..end] == s
    ensures Here(text, index, s + [text[end]])
  {
    assert text[index..end + 1] == s + [text[end]];
  }

  lemma TokensOfSlice(text: string, index: nat) returns (t: Tokens, close: char)
    requires index < |text| && IsOpen(text[index]) && ArgumentSlice(text, index).Some?
    ensures WellFormed(t) && IsClose(close) && ArgumentSlice(text, index) == Some(Print(t))
    ensures Here(text, index + 1, Print(t) + [close])
  {
    var end := ClosingAt(text, index, 0, Code).value;
    assert ClosingAt(text, index + 1, 1, Code) == Some(end);
    ClosingIsBracket(text, index, 0, Code);
    hide ClosingAt, Print, WellFormed;
    var c := ChainOf(text, index + 1, 1);
    t, close := c.tokens, text[end];
    assert PrintChain(c) == Print(t) + "" == Print(t);
    EndsWithBracket(text, index + 1, end, Print(t));
  }

  /**
   The first scanner, on any text at an open bracket: it returns a slice exactly when well-formed
   tokens and a closing bracket follow, and the slice is those tokens.
   */
  lemma SliceIffTokens(text: string, index: nat, slice: string)
    requires index < |text| && OpensGroup(text[index])
    ensures ArgumentSlice(text, index) == Some(slice) <==>
            exists t, close :: WellFormed(t) && ClosesGroup(close) && slice == Print(t) &&
                Here(text, index + 1, slice + [close])
  {
    hide ArgumentSlice, Print, WellFormed;
    if ArgumentSlice(text, index) == Some(slice) {
      var t, close := TokensOfSlice(text, index);
    }
    if t, close :| WellFormed(t) && ClosesGroup(close) && slice == Print(t) && Here(text, index + 1, slice + [close]) {
      HereParts(text, index + 1, slice, [close]);
      HereFirst(text, index + 1 + |slice|, [close]);
      SliceOfTokens(text, index, t, close);
    }
  }

  /** At a closing bracket there is nothing to slice. */
  lemma NoSliceAtClose(text: string, index: nat)
    requires index < |text| && ClosesGroup(text[index])
    ensures ArgumentSlice(text, index) == None
  {
  }
}
