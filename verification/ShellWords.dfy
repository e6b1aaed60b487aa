/**
 The command lines of orchestration recovery: the POSIX renderer, the full parser that reads
 such lines back, and the leading-word tokenizer that Codex command detection uses instead.
 */
module ShellWords {
  import opened Wrappers
  import opened Text

  /** The open quote, if any. */
  datatype Quote = Unquoted | Single | Double

  predicate IsSafe(c: char) {
    'A' <= c <= 'Z' || 'a' <= c <= 'z' || '0' <= c <= '9' || c in "_./:@%+=,-"
  }

  /** `replaceAll("'", `'"'"'`)`: close the quote, add a double-quoted quote, reopen. */
  function EscapeSingle(value: string): string {
    if value == [] then []
    else (if value[0] == '\'' then "'\"'\"'" else [value[0]]) + EscapeSingle(value[1..])
  }

  function ShellQuote(value: string): string {
    if value != [] && forall i :: 0 <= i < |value| ==> IsSafe(value[i]) then value
    else "'" + EscapeSingle(value) + "'"
  }

  function QuoteAll(command: seq<string>): seq<string> {
    if command == [] then [] else [ShellQuote(command[0])] + QuoteAll(command[1..])
  }

  /** `renderCommand` on a POSIX shell. */
  function RenderCommand(command: seq<string>): string {
    Join(QuoteAll(command), " ")
  }

  predicate EscapesInDouble(s: string) {
    |s| > 1 && s[0] == '\\' && s[1] in "\"\\"
  }

  predicate EscapesUnquoted(s: string) {
    |s| > 1 && s[0] == '\\' && s[1] in " \\'\""
  }

  /** The words still to come when `part` has been collected so far; none if a quote stays open. */
  function WordsFrom(s: string, part: string, quote: Quote, started: bool): Option<seq<string>> {
    if s == [] then
      if quote != Unquoted then None else Some(if started then [part] else [])
    else if quote == Single then
      if s[0] == '\'' then WordsFrom(s[1..], part, Unquoted, true)
      else WordsFrom(s[1..], part + [s[0]], Single, true)
    else if quote == Double then
      if s[0] == '"' then WordsFrom(s[1..], part, Unquoted, true)
      else if EscapesInDouble(s) then WordsFrom(s[2..], part + [s[1]], Double, true)
      else WordsFrom(s[1..], part + [s[0]], Double, true)
    else if s[0] == '\'' then WordsFrom(s[1..], part, Single, true)
    else if s[0] == '"' then WordsFrom(s[1..], part, Double, true)
    else if IsSpace(s[0]) then
      if started then
        var rest := WordsFrom(s[1..], "", Unquoted, false);
        if rest.None? then None else Some([part] + rest.value)
      else WordsFrom(s[1..], part, Unquoted, false)
    else if EscapesUnquoted(s) then WordsFrom(s[2..], part + [s[1]], Unquoted, true)
    else WordsFrom(s[1..], part + [s[0]], Unquoted, true)
  }

  /** The words of a command line; no result for an open quote or a line without words. */
  function Words(s: string): Option<seq<string>> {
    var words := WordsFrom(s, "", Unquoted, false);
    if words == Some([]) then None else words
  }

  /** What the loop has pushed, followed by what is still to come. */
  function After(parts: seq<string>, rest: Option<seq<string>>): Option<seq<string>> {
    if rest.None? then None else Some(parts + rest.value)
  }

  method ParseCommandLine(value: string) returns (words: Option<seq<string>>)
    ensures words == Words(value)
  {
    hide IsSpace;
    var parts: seq<string>, part, quote, tokenStarted := [], "", Unquoted, false;
    var index := 0;
    assert value[index..] == value;
    assert forall rest: seq<string> :: [] + rest == rest;
    while index < |value|
      invariant index <= |value|
      invariant After(parts, WordsFrom(value[index..], part, quote, tokenStarted)) ==
                WordsFrom(value, "", Unquoted, false)
    {
      ghost var rest := value[index..];
      var character := value[index];
      assert rest[0] == character && rest[1..] == value[index + 1..];
      assert index + 1 < |value| ==> rest[1] == value[index + 1] && rest[2..] == value[index + 2..];
      if quote == Single {
        if character == '\'' { quote := Unquoted; } else { part := part + [character]; }
        tokenStarted := true;
      } else if quote == Double {
        if character == '"' {
          quote := Unquoted;
        } else if character == '\\' && index + 1 < |value| && value[index + 1] in "\"\\" {
          index := index + 1;
          part := part + [value[index]];
        } else {
          part := part + [character];
        }
        tokenStarted := true;
      } else if character == '\'' || character == '"' {
        quote := if character == '\'' then Single else Double;
        tokenStarted := true;
      } else if IsSpace(character) {
        if tokenStarted {
          ghost var later := WordsFrom(rest[1..], "", Unquoted, false);
          assert later.Some? ==> parts + ([part] + later.value) == (parts + [part]) + later.value;
          parts := parts + [part];
          part := "";
          tokenStarted := false;
        }
      } else if character == '\\' && index + 1 < |value| && value[index + 1] in " \\'\"" {
        index := index + 1;
        part := part + [value[index]];
        tokenStarted := true;
      } else {
        part := part + [character];
        tokenStarted := true;
      }
      index := index + 1;
    }
    assert value[index..] == [];
    if quote != Unquoted { return None; }
    assert parts + [] == parts;
    if tokenStarted { parts := parts + [part]; }
    words := if |parts| > 0 then Some(parts) else None;
  }

  lemma {:induction false} SafeRun(v: string, rest: string, part: string, started: bool)
    requires forall i :: 0 <= i < |v| ==> IsSafe(v[i])
    ensures WordsFrom(v + rest, part, Unquoted, started) == WordsFrom(rest, part + v, Unquoted, started || v != [])
  {
    if v == [] {
      assert v + rest == rest && part + v == part;
    } else {
      assert (v + rest)[0] == v[0] && (v + rest)[1..] == v[1..] + rest;
      assert (part + [v[0]]) + v[1..] == part + v;
      SafeRun(v[1..], rest, part + [v[0]], true);
    }
  }

  /** The five characters that stand for a quote inside single quotes. */
  lemma QuoteInQuotes(rest: string, part: string)
    ensures WordsFrom("'\"'\"'" + rest, part, Single, true) == WordsFrom(rest, part + "'", Single, true)
  {
    var s := "'\"'\"'" + rest;
    assert s[1..] == "\"'\"'" + rest;
    assert s[1..][1..] == "'\"'" + rest;
    assert s[1..][1..][1..] == "\"'" + rest;
    assert s[1..][1..][1..][1..] == "'" + rest;
    assert s[1..][1..][1..][1..][1..] == rest;
    calc {
      WordsFrom(s, part, Single, true);
      WordsFrom(s[1..], part, Unquoted, true);
      WordsFrom(s[1..][1..], part, Double, true);
      WordsFrom(s[1..][1..][1..], part + "'", Double, true);
      WordsFrom(s[1..][1..][1..][1..], part + "'", Unquoted, true);
      WordsFrom(rest, part + "'", Single, true);
    }
  }

  lemma {:induction false} QuotedRun(v: string, rest: string, part: string)
    ensures WordsFrom(EscapeSingle(v) + "'" + rest, part, Single, true) == WordsFrom(rest, part + v, Unquoted, true)
  {
    var s := EscapeSingle(v) + "'" + rest;
    if v == [] {
      assert s[0] == '\'' && s[1..] == rest && part + v == part;
    } else {
      var tail := EscapeSingle(v[1..]) + "'" + rest;
      assert (part + [v[0]]) + v[1..] == part + v;
      QuotedRun(v[1..], rest, part + [v[0]]);
      if v[0] == '\'' {
        assert s == "'\"'\"'" + tail;
        QuoteInQuotes(tail, part);
        assert part + "'" == part + [v[0]];
      } else {
        assert s == [v[0]] + tail;
        assert s[1..] == tail;
      }
    }
  }

  lemma WordRun(v: string, rest: string)
    ensures WordsFrom(ShellQuote(v) + rest, "", Unquoted, false) == WordsFrom(rest, v, Unquoted, true)
  {
    if v != [] && forall i :: 0 <= i < |v| ==> IsSafe(v[i]) {
      SafeRun(v, rest, "", false);
      assert "" + v == v;
    } else {
      var s := ShellQuote(v) + rest;
      assert s[0] == '\'' && s[1..] == EscapeSingle(v) + "'" + rest;
      QuotedRun(v, rest, "");
      assert "" + v == v;
    }
  }

  lemma RenderCons(command: seq<string>)
    requires |command| > 1
    ensures RenderCommand(command) == ShellQuote(command[0]) + (" " + RenderCommand(command[1..]))
  {
    assert QuoteAll(command)[1..] == QuoteAll(command[1..]) && |QuoteAll(command)| > 1;
  }

  lemma SpaceEndsWord(part: string, rest: string)
    ensures WordsFrom(" " + rest, part, Unquoted, true) == After([part], WordsFrom(rest, "", Unquoted, false))
  {
    assert (" " + rest)[1..] == rest;
  }

  lemma {:induction false} RenderedWords(command: seq<string>)
    requires command != []
    ensures WordsFrom(RenderCommand(command), "", Unquoted, false) == Some(command)
  {
    if |command| == 1 {
      assert QuoteAll(command) == [ShellQuote(command[0])];
      assert RenderCommand(command) == ShellQuote(command[0]) + "";
      WordRun(command[0], "");
      assert command == [command[0]];
    } else {
      RenderCons(command);
      WordRun(command[0], " " + RenderCommand(command[1..]));
      SpaceEndsWord(command[0], RenderCommand(command[1..]));
      RenderedWords(command[1..]);
      assert command == [command[0]] + command[1..];
    }
  }

  /** The shell quoting round trip, for all words: empty ones, quotes, backslashes, white space. */
  lemma ParseInvertsRender(command: seq<string>)
    ensures Words(RenderCommand(command)) == if command == [] then None else Some(command)
  {
    if command != [] { RenderedWords(command); }
  }

  lemma RenderIsInjective(a: seq<string>, b: seq<string>)
    requires RenderCommand(a) == RenderCommand(b)
    ensures a == b
  {
    ParseInvertsRender(a);
    ParseInvertsRender(b);
  }

  /** `renderResolvedOrchestrationCommand`: only lines whose first word is `orca` are rewritten. */
  method RenderResolvedOrchestrationCommand(command: string, executable: string) returns (resolved: string)
    ensures Words(command).Some? && Words(command).value[0] == "orca" ==>
              Words(resolved) == Some([executable] + Words(command).value[1..])
    ensures !(Words(command).Some? && Words(command).value[0] == "orca") ==> resolved == command
  {
    var parts := ParseCommandLine(command);
    if parts.None? || parts.value[0] != "orca" { return command; }
    resolved := RenderCommand([executable] + parts.value[1..]);
    ParseInvertsRender([executable] + parts.value[1..]);
  }

  /**
   The first words the tokenizer still pushes, `room` of them at most; but a word that ends at white
   space is pushed even if there is no room.
   */
  function TokensFrom(s: string, current: string, quote: Quote, room: int): seq<string> {
    if s == [] then if current != "" && room > 0 then [current] else []
    else if quote != Unquoted then
      if s[0] == (if quote == Single then '\'' else '"') then TokensFrom(s[1..], current, Unquoted, room)
      else TokensFrom(s[1..], current + [s[0]], quote, room)
    else if s[0] == '"' then TokensFrom(s[1..], current, Double, room)
    else if s[0] == '\'' then TokensFrom(s[1..], current, Single, room)
    else if IsSpace(s[0]) then
      if current == "" then TokensFrom(s[1..], "", Unquoted, room)
      else if room <= 1 then [current]
      else [current] + TokensFrom(s[1..], "", Unquoted, room - 1)
    else TokensFrom(s[1..], current + [s[0]], Unquoted, room)
  }

  method TokenizeLeadingShellWords(command: string, limit: int) returns (tokens: seq<string>)
    ensures tokens == TokensFrom(command, "", Unquoted, limit)
  {
    var current, quote := "", Unquoted;
    tokens := [];
    for i := 0 to |command|
      invariant tokens == [] || |tokens| < limit
      invariant tokens + TokensFrom(command[i..], current, quote, limit - |tokens|) ==
                TokensFrom(command, "", Unquoted, limit)
    {
      var ch := command[i];
      assert command[i..][0] == ch && command[i..][1..] == command[i + 1..];
      if quote != Unquoted {
        if ch == (if quote == Single then '\'' else '"') { quote := Unquoted; } else { current := current + [ch]; }
        continue;
      }
      if ch == '"' || ch == '\'' {
        quote := if ch == '"' then Double else Single;
        continue;
      }
      if IsSpace(ch) {
        if current != "" {
          tokens := tokens + [current];
          if |tokens| >= limit { return; }
          current := "";
        }
        continue;
      }
      current := current + [ch];
    }
    if current != "" && |tokens| < limit { tokens := tokens + [current]; }
  }

  /** No backslash stands where the full parser would treat it as an escape. */
  ghost predicate NoEscapes(s: string) {
    forall i :: 0 <= i < |s| && s[i] == '\\' ==> i + 1 == |s| || s[i + 1] !in " \\'\""
  }

  function Take(words: seq<string>, n: nat): seq<string> {
    if |words| <= n then words else words[..n]
  }

  lemma {:induction false} TokensAreWords(s: string, part: string, quote: Quote, started: bool, room: nat)
    requires room > 0 && NoEscapes(s)
    requires part != "" ==> started
    requires WordsFrom(s, part, quote, started).Some?
    ensures TokensFrom(s, part, quote, room) == Take(NonEmpty(WordsFrom(s, part, quote, started).value), room)
  {
    if s != [] {
      assert NoEscapes(s[1..]);
      if quote == Single {
        if s[0] == '\'' { TokensAreWords(s[1..], part, Unquoted, true, room); }
        else { TokensAreWords(s[1..], part + [s[0]], Single, true, room); }
      } else if quote == Double {
        if s[0] == '"' { TokensAreWords(s[1..], part, Unquoted, true, room); }
        else { TokensAreWords(s[1..], part + [s[0]], Double, true, room); }
      } else if s[0] == '\'' || s[0] == '"' {
        TokensAreWords(s[1..], part, if s[0] == '"' then Double else Single, true, room);
      } else if IsSpace(s[0]) {
        if !started {
          TokensAreWords(s[1..], part, Unquoted, false, room);
        } else {
          var later := WordsFrom(s[1..], "", Unquoted, false).value;
          assert ([part] + later)[1..] == later;
          if part == "" { TokensAreWords(s[1..], "", Unquoted, false, room); }
          else if room > 1 { TokensAreWords(s[1..], "", Unquoted, false, room - 1); }
        }
      } else {
        TokensAreWords(s[1..], part + [s[0]], Unquoted, true, room);
      }
    }
  }

  /** On a line without escapes that the full parser accepts, the tokenizer returns its first non-empty words. */
  lemma TokenizerAgreesWithParser(command: string, limit: nat)
    requires limit > 0 && NoEscapes(command) && Words(command).Some?
    ensures TokensFrom(command, "", Unquoted, limit) == Take(NonEmpty(Words(command).value), limit)
  {
    TokensAreWords(command, "", Unquoted, false, limit);
  }
}
