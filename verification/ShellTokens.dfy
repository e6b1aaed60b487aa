/**
 The leading-word tokenizer on every text, by a grammar of its own: words of ordinary characters, the
 backslash among them, and quoted texts, the last of which may stay open.
 */
module ShellTokens {
  import opened Text
  import opened ShellWords

  datatype Part = Ordinary(c: char) | Quoted(quote: char, text: string, closed: bool)

  /** A word, and the white space behind it. */
  datatype Token = Token(parts: seq<Part>, after: string)

  datatype Line = Line(lead: string, tokens: seq<Token>)

  function PrintPart(part: Part): string {
    match part
    case Ordinary(c) => [c]
    case Quoted(quote, text, closed) => [quote] + (text + if closed then [quote] else "")
  }

  function PrintParts(parts: seq<Part>): string {
    if parts == [] then "" else PrintPart(parts[0]) + PrintParts(parts[1..])
  }

  function PrintTokens(tokens: seq<Token>): string {
    if tokens == [] then "" else PrintParts(tokens[0].parts) + (tokens[0].after + PrintTokens(tokens[1..]))
  }

  function PrintLine(line: Line): string {
    line.lead + PrintTokens(line.tokens)
  }

  function ValueOf(parts: seq<Part>): string {
    if parts == [] then ""
    else (if parts[0].Ordinary? then [parts[0].c] else parts[0].text) + ValueOf(parts[1..])
  }

  function ValuesOf(tokens: seq<Token>): seq<string> {
    if tokens == [] then [] else [ValueOf(tokens[0].parts)] + ValuesOf(tokens[1..])
  }

  /** A quote stays open only at the end of the text. */
  predicate PartOk(part: Part, next: string) {
    match part
    case Ordinary(c) => c != '\'' && c != '"' && !IsSpace(c)
    case Quoted(quote, text, closed) => (quote == '\'' || quote == '"') && quote !in text && (!closed ==> next == "")
  }

  predicate PartsOk(parts: seq<Part>, next: string) {
    parts == [] || (PartOk(parts[0], PrintParts(parts[1..]) + next) && PartsOk(parts[1..], next))
  }

  ghost predicate TokensOk(tokens: seq<Token>) {
    tokens == [] ||
    (&& tokens[0].parts != [] && PartsOk(tokens[0].parts, tokens[0].after + PrintTokens(tokens[1..]))
     && AllSpace(tokens[0].after) && (|tokens| > 1 ==> tokens[0].after != "")
     && TokensOk(tokens[1..]))
  }

  ghost predicate LineOk(line: Line) {
    AllSpace(line.lead) && TokensOk(line.tokens)
  }

  // ---- The tokenizer reads what is printed

  function QuoteOf(quote: char): Quote {
    if quote == '\'' then Single else Double
  }

  lemma {:induction false} QuotedRun(quote: char, text: string, rest: string, current: string, room: int)
    requires (quote == '\'' || quote == '"') && quote !in text
    ensures TokensFrom(text + ([quote] + rest), current, QuoteOf(quote), room) ==
            TokensFrom(rest, current + text, Unquoted, room)
    ensures TokensFrom(text, current, QuoteOf(quote), room) == TokensFrom("", current + text, Unquoted, room)
  {
    var s := text + ([quote] + rest);
    if text == "" {
      assert s[0] == quote && s[1..] == rest && current + text == current;
    } else {
      assert s[0] == text[0] && s[1..] == text[1..] + ([quote] + rest);
      assert (current + [text[0]]) + text[1..] == current + text;
      QuotedRun(quote, text[1..], rest, current + [text[0]], room);
    }
  }

  lemma PartRun(part: Part, rest: string, current: string, room: int)
    requires PartOk(part, rest)
    ensures TokensFrom(PrintPart(part) + rest, current, Unquoted, room) ==
            TokensFrom(rest, current + (if part.Ordinary? then [part.c] else part.text), Unquoted, room)
  {
    hide IsSpace;
    var s := PrintPart(part) + rest;
    match part
    case Ordinary(c) =>
      assert s[0] == c && s[1..] == rest;
    case Quoted(quote, text, closed) =>
      OpenedRun(quote, text, closed, rest, current, room);
  }

  lemma OpenedRun(quote: char, text: string, closed: bool, rest: string, current: string, room: int)
    requires (quote == '\'' || quote == '"') && quote !in text && (!closed ==> rest == "")
    ensures TokensFrom([quote] + (text + if closed then [quote] else "") + rest, current, Unquoted, room) ==
            TokensFrom(rest, current + text, Unquoted, room)
  {
    hide IsSpace;
    var s := [quote] + (text + if closed then [quote] else "") + rest;
    QuotedRun(quote, text, rest, current, room);
    assert s[0] == quote && s[1..] == if closed then text + ([quote] + rest) else text;
    assert TokensFrom(s, current, Unquoted, room) == TokensFrom(s[1..], current, QuoteOf(quote), room);
  }

  lemma {:induction false} PartsRun(parts: seq<Part>, rest: string, current: string, room: int)
    requires PartsOk(parts, rest)
    ensures TokensFrom(PrintParts(parts) + rest, current, Unquoted, room) ==
            TokensFrom(rest, current + ValueOf(parts), Unquoted, room)
  {
    hide PartOk, PrintPart, TokensFrom;
    if parts == [] {
      assert "" + rest == rest && current + "" == current;
    } else {
      var value := if parts[0].Ordinary? then [parts[0].c] else parts[0].text;
      PartRun(parts[0], PrintParts(parts[1..]) + rest, current, room);
      PartsRun(parts[1..], rest, current + value, room);
      Joined(PrintPart(parts[0]), PrintParts(parts[1..]), rest);
      Joined(current, value, ValueOf(parts[1..]));
    }
  }

  lemma Joined(a: string, b: string, c: string)
    ensures (a + b) + c == a + (b + c)
  {
  }

  lemma {:induction false} BlanksRun(blanks: string, rest: string, current: string, room: int)
    requires AllSpace(blanks)
    ensures TokensFrom(blanks + rest, current, Unquoted, room) ==
            if blanks == "" || current == "" then TokensFrom(rest, current, Unquoted, room)
            else if room <= 1 then [current]
            else [current] + TokensFrom(rest, "", Unquoted, room - 1)
  {
    var s := blanks + rest;
    if blanks == "" {
      assert s == rest;
    } else {
      SpaceIsNoQuote(blanks[0]);
      assert IsSpace(blanks[0]) && s[0] == blanks[0] && s[1..] == blanks[1..] + rest;
      hide IsSpace;
      BlanksRun(blanks[1..], rest, "", if current == "" then room else room - 1);
    }
  }

  lemma SpaceIsNoQuote(c: char)
    requires IsSpace(c)
    ensures c != '\'' && c != '"'
  {
  }

  lemma {:induction false} TokensRun(tokens: seq<Token>, room: nat)
    requires TokensOk(tokens) && room > 0
    ensures TokensFrom(PrintTokens(tokens), "", Unquoted, room) == Take(NonEmpty(ValuesOf(tokens)), room)
  {
    hide PartsOk, PrintParts, ValueOf, AllSpace;
    if tokens != [] {
      var t, value := tokens[0], ValueOf(tokens[0].parts);
      var later := PrintTokens(tokens[1..]);
      hide TokensFrom;
      PartsRun(t.parts, t.after + later, "", room);
      assert "" + value == value;
      BlanksRun(t.after, later, value, room);
      TokensRun(tokens[1..], room);
      if room > 1 { TokensRun(tokens[1..], room - 1); }
      if t.after == "" { LastToken(value, room); }
      assert ValuesOf(tokens)[1..] == ValuesOf(tokens[1..]);
    }
  }

  lemma LastToken(value: string, room: nat)
    requires room > 0
    ensures TokensFrom("", value, Unquoted, room) == if value == "" then [] else [value]
  {
  }

  /** The words that white space follows. */
  function Ended(tokens: seq<Token>): seq<string> {
    if tokens == [] then []
    else (if tokens[0].after != "" then [ValueOf(tokens[0].parts)] else []) + Ended(tokens[1..])
  }

  /** With a limit below 1 the first non-empty word is still returned, if white space ends it. */
  lemma {:induction false} NoRoomRun(tokens: seq<Token>, room: int)
    requires TokensOk(tokens) && room <= 0
    ensures TokensFrom(PrintTokens(tokens), "", Unquoted, room) == Take(NonEmpty(Ended(tokens)), 1)
  {
    hide PartsOk, PrintParts, ValueOf, AllSpace;
    if tokens != [] {
      var t, value := tokens[0], ValueOf(tokens[0].parts);
      var later := PrintTokens(tokens[1..]);
      NoRoomLeft(value, room);
      hide TokensFrom;
      PartsRun(t.parts, t.after + later, "", room);
      assert "" + value == value;
      BlanksRun(t.after, later, value, room);
      NoRoomRun(tokens[1..], room);
      if t.after != "" { assert Ended(tokens)[1..] == Ended(tokens[1..]); }
    }
  }

  lemma NoRoomLeft(value: string, room: int)
    requires room <= 0
    ensures TokensFrom("", value, Unquoted, room) == []
  {
  }

  /** What the tokenizer returns for a line: its first non-empty words, up to the limit. */
  function FirstWords(line: Line, limit: int): seq<string> {
    if limit > 0 then Take(NonEmpty(ValuesOf(line.tokens)), limit) else Take(NonEmpty(Ended(line.tokens)), 1)
  }

  lemma LineIsTokenized(line: Line, limit: int)
    requires LineOk(line)
    ensures TokensFrom(PrintLine(line), "", Unquoted, limit) == FirstWords(line, limit)
  {
    hide TokensFrom;
    BlanksRun(line.lead, PrintTokens(line.tokens), "", limit);
    if limit > 0 { TokensRun(line.tokens, limit); } else { NoRoomRun(line.tokens, limit); }
  }

  // ---- Every text is a line

  lemma {:induction false} QuotedSplit(quote: char, s: string) returns (text: string, closed: bool, rest: string)
    ensures quote !in text && s == text + ((if closed then [quote] else "") + rest) && (!closed ==> rest == "")
  {
    if s == "" || s[0] == quote {
      text, closed, rest := "", s != "", if s == "" then "" else s[1..];
      if s != "" { assert s == [s[0]] + s[1..]; }
    } else {
      text, closed, rest := QuotedSplit(quote, s[1..]);
      assert s == [s[0]] + s[1..];
      text := [s[0]] + text;
    }
  }

  lemma JoinsToken(part: Part, t: Token, tokens: seq<Token>)
    requires TokensOk([t] + tokens) && PartOk(part, PrintTokens([t] + tokens))
    ensures var longer := Token([part] + t.parts, t.after);
            TokensOk([longer] + tokens) &&
            PrintTokens([longer] + tokens) == PrintPart(part) + PrintTokens([t] + tokens)
  {
    hide PartOk, PrintPart, AllSpace;
    var parts := [part] + t.parts;
    var longer := Token(parts, t.after);
    assert ([t] + tokens)[1..] == tokens && ([longer] + tokens)[1..] == tokens && parts[1..] == t.parts;
    Joined(PrintPart(part), PrintParts(t.parts), t.after + PrintTokens(tokens));
  }

  lemma IsNewToken(part: Part, after: string, tokens: seq<Token>)
    requires TokensOk(tokens) && AllSpace(after) && (after == "" ==> tokens == [])
    requires PartOk(part, after + PrintTokens(tokens))
    ensures var t := Token([part], after);
            TokensOk([t] + tokens) && PrintTokens([t] + tokens) == PrintPart(part) + (after + PrintTokens(tokens))
  {
    hide PartOk, PrintPart, AllSpace;
    var t := Token([part], after);
    OnePart(part, after + PrintTokens(tokens));
    assert ([t] + tokens)[1..] == tokens;
    hide PartsOk, PrintParts;
  }

  lemma OnePart(part: Part, next: string)
    requires PartOk(part, next)
    ensures PartsOk([part], next) && PrintParts([part]) == PrintPart(part)
  {
    hide PartOk, PrintPart;
    assert [part][1..] == [];
    assert PrintParts([part]) == PrintPart(part) + "" == PrintPart(part);
    assert PrintParts([]) + next == next;
  }

  lemma AddPart(part: Part, line: Line) returns (longer: Line)
    requires LineOk(line) && PartOk(part, PrintLine(line))
    ensures LineOk(longer) && PrintLine(longer) == PrintPart(part) + PrintLine(line)
  {
    hide PartOk, PrintPart, AllSpace, TokensOk, PrintTokens, LineOk, PrintLine;
    LineParts(line);
    if line.lead == "" && line.tokens != [] {
      var t, rest := line.tokens[0], line.tokens[1..];
      assert line.tokens == [t] + rest;
      assert "" + PrintTokens(line.tokens) == PrintTokens(line.tokens);
      JoinsToken(part, t, rest);
      longer := WithoutLead([Token([part] + t.parts, t.after)] + rest);
    } else {
      IsNewToken(part, line.lead, line.tokens);
      longer := WithoutLead([Token([part], line.lead)] + line.tokens);
    }
  }

  lemma LineParts(line: Line)
    requires LineOk(line)
    ensures AllSpace(line.lead) && TokensOk(line.tokens) && PrintLine(line) == line.lead + PrintTokens(line.tokens)
  {
  }

  lemma WithoutLead(tokens: seq<Token>) returns (line: Line)
    requires TokensOk(tokens)
    ensures LineOk(line) && PrintLine(line) == PrintTokens(tokens)
  {
    hide TokensOk, PrintTokens;
    line := Line("", tokens);
    assert "" + PrintTokens(tokens) == PrintTokens(tokens);
  }

  lemma {:induction false} LineOf(s: string) returns (line: Line)
    ensures LineOk(line) && PrintLine(line) == s
    decreases |s|
  {
    hide IsSpace, PrintLine, LineOk;
    if s == "" {
      line := Line("", []);
      NoTokens(line);
    } else if s[0] == '\'' || s[0] == '"' {
      var text, closed, rest := QuotedSplit(s[0], s[1..]);
      var part := Quoted(s[0], text, closed);
      assert s == [s[0]] + s[1..];
      assert s == PrintPart(part) + rest;
      var later := LineOf(rest);
      line := AddPart(part, later);
    } else if IsSpace(s[0]) {
      var later := LineOf(s[1..]);
      line := Line([s[0]] + later.lead, later.tokens);
      LeadGrows(s[0], later);
    } else {
      assert s == PrintPart(Ordinary(s[0])) + s[1..];
      var later := LineOf(s[1..]);
      line := AddPart(Ordinary(s[0]), later);
    }
  }

  lemma NoTokens(line: Line)
    requires line == Line("", [])
    ensures LineOk(line) && PrintLine(line) == ""
  {
  }

  lemma LeadGrows(c: char, line: Line)
    requires LineOk(line) && IsSpace(c)
    ensures var longer := Line([c] + line.lead, line.tokens);
            LineOk(longer) && PrintLine(longer) == [c] + PrintLine(line)
  {
    hide IsSpace;
  }

  /** Every text is a line of the grammar, and the tokenizer returns its first non-empty words. */
  lemma EveryTextIsTokenized(s: string, limit: int) returns (line: Line)
    ensures LineOk(line) && PrintLine(line) == s
    ensures TokensFrom(s, "", Unquoted, limit) == FirstWords(line, limit)
  {
    line := LineOf(s);
    LineIsTokenized(line, limit);
  }
}
