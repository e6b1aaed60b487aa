/**
 The command lines the full parser accepts, as a grammar of their own: words made of bare characters,
 escapes and quoted texts, with white space between them.
 */
module ShellGrammar {
  import opened Wrappers
  import opened Text
  import opened ShellWords

  /** A character between double quotes, or a backslash with the quote or backslash it stands for. */
  datatype Piece = Character(c: char) | EscapedPiece(c: char)

  datatype Segment =
    | Bare(c: char)
    | Escaped(c: char)
    | SingleQuoted(text: string)
    | DoubleQuoted(pieces: seq<Piece>)

  /** A word of the line, and the white space behind it. */
  datatype Word = Word(segments: seq<Segment>, after: string)

  datatype Line = Line(lead: string, words: seq<Word>)

  // ---- What is printed

  function PrintPieces(pieces: seq<Piece>): string {
    if pieces == [] then ""
    else (if pieces[0].Character? then [pieces[0].c] else ['\\', pieces[0].c]) + PrintPieces(pieces[1..])
  }

  function PrintSegment(segment: Segment): string {
    match segment
    case Bare(c) => [c]
    case Escaped(c) => ['\\', c]
    case SingleQuoted(text) => "'" + (text + "'")
    case DoubleQuoted(pieces) => "\"" + (PrintPieces(pieces) + "\"")
  }

  function PrintSegments(segments: seq<Segment>): string {
    if segments == [] then "" else PrintSegment(segments[0]) + PrintSegments(segments[1..])
  }

  function PrintWords(words: seq<Word>): string {
    if words == [] then "" else PrintSegments(words[0].segments) + (words[0].after + PrintWords(words[1..]))
  }

  function PrintLine(line: Line): string {
    line.lead + PrintWords(line.words)
  }

  // ---- What it stands for

  function ValueOfPieces(pieces: seq<Piece>): string {
    if pieces == [] then "" else [pieces[0].c] + ValueOfPieces(pieces[1..])
  }

  function ValueOfSegment(segment: Segment): string {
    match segment
    case Bare(c) => [c]
    case Escaped(c) => [c]
    case SingleQuoted(text) => text
    case DoubleQuoted(pieces) => ValueOfPieces(pieces)
  }

  function ValueOf(segments: seq<Segment>): string {
    if segments == [] then "" else ValueOfSegment(segments[0]) + ValueOf(segments[1..])
  }

  function ValuesOf(words: seq<Word>): seq<string> {
    if words == [] then [] else [ValueOf(words[0].segments)] + ValuesOf(words[1..])
  }

  // ---- What is well formed; `next` is the text that follows

  /** A backslash in front of `next` stands for itself, because none of `escapable` follows. */
  predicate StandsAlone(next: string, escapable: string) {
    next == "" || next[0] !in escapable
  }

  predicate PiecesOk(pieces: seq<Piece>, next: string) {
    pieces == [] ||
    (PiecesOk(pieces[1..], next) &&
     match pieces[0]
     case Character(c) => c != '"' && (c == '\\' ==> StandsAlone(PrintPieces(pieces[1..]) + next, ['"', '\\']))
     case EscapedPiece(c) => c == '"' || c == '\\')
  }

  predicate SegmentOk(segment: Segment, next: string) {
    match segment
    case Bare(c) =>
      c != '\'' && c != '"' && !IsSpace(c) && (c == '\\' ==> StandsAlone(next, [' ', '\\', '\'', '"']))
    case Escaped(c) => c == ' ' || c == '\\' || c == '\'' || c == '"'
    case SingleQuoted(text) => '\'' !in text
    case DoubleQuoted(pieces) => PiecesOk(pieces, "\"")
  }

  predicate SegmentsOk(segments: seq<Segment>, next: string) {
    segments == [] ||
    (SegmentOk(segments[0], PrintSegments(segments[1..]) + next) && SegmentsOk(segments[1..], next))
  }

  /** Words are not empty, and white space follows each but the last. */
  ghost predicate WordsOk(words: seq<Word>, next: string) {
    words == [] ||
    (&& words[0].segments != []
     && SegmentsOk(words[0].segments, words[0].after + (PrintWords(words[1..]) + next))
     && AllSpace(words[0].after) && (|words| > 1 ==> words[0].after != "")
     && WordsOk(words[1..], next))
  }

  ghost predicate LineOk(line: Line, next: string) {
    AllSpace(line.lead) && WordsOk(line.words, next)
  }

  /** A text that opens a quote and never closes it. */
  ghost predicate IsOpenQuote(s: string) {
    s != "" &&
    ((s[0] == '\'' && '\'' !in s[1..]) ||
     (s[0] == '"' && exists pieces :: PiecesOk(pieces, "") && PrintPieces(pieces) == s[1..]))
  }

  // ---- The parser reads what is printed

  lemma {:induction false} SingleRun(text: string, rest: string, part: string)
    requires '\'' !in text
    ensures WordsFrom(text + ("'" + rest), part, Single, true) == WordsFrom(rest, part + text, Unquoted, true)
    ensures WordsFrom(text, part, Single, true) == None
  {
    var s := text + ("'" + rest);
    if text == "" {
      assert s[0] == '\'' && s[1..] == rest && part + text == part;
    } else {
      assert s[0] == text[0] && s[1..] == text[1..] + ("'" + rest);
      assert (part + [text[0]]) + text[1..] == part + text;
      SingleRun(text[1..], rest, part + [text[0]]);
    }
  }

  lemma {:induction false} DoubleRun(pieces: seq<Piece>, rest: string, part: string)
    requires PiecesOk(pieces, "\"")
    ensures WordsFrom(PrintPieces(pieces) + ("\"" + rest), part, Double, true) ==
            WordsFrom(rest, part + ValueOfPieces(pieces), Unquoted, true)
  {
    var s := PrintPieces(pieces) + ("\"" + rest);
    if pieces == [] {
      assert s[0] == '"' && s[1..] == rest && part + "" == part;
    } else {
      var c := pieces[0].c;
      var more := PrintPieces(pieces[1..]);
      var tail := more + ("\"" + rest);
      DoubleRun(pieces[1..], rest, part + [c]);
      assert (part + [c]) + ValueOfPieces(pieces[1..]) == part + ValueOfPieces(pieces);
      if pieces[0].Character? {
        assert s[0] == c && s[1..] == tail;
        assert tail[0] == (more + "\"")[0];
      } else {
        assert s[0] == '\\' && s[1] == c && s[2..] == tail;
      }
    }
  }

  lemma BareRun(c: char, rest: string, part: string, started: bool)
    requires SegmentOk(Bare(c), rest)
    ensures WordsFrom([c] + rest, part, Unquoted, started) == WordsFrom(rest, part + [c], Unquoted, true)
  {
    hide IsSpace;
    var s := [c] + rest;
    assert s[0] == c && s[1..] == rest;
    assert rest != "" ==> s[1] == rest[0];
  }

  lemma EscapedRun(c: char, rest: string, part: string, started: bool)
    requires SegmentOk(Escaped(c), rest)
    ensures WordsFrom(['\\', c] + rest, part, Unquoted, started) == WordsFrom(rest, part + [c], Unquoted, true)
  {
    hide IsSpace;
    var s := ['\\', c] + rest;
    assert s[0] == '\\' && s[1] == c && s[2..] == rest;
    assert EscapesUnquoted(s);
    BackslashIsNoSpace();
  }

  /** One segment in front of anything: its value is added to the word. */
  lemma SegmentRun(segment: Segment, rest: string, part: string, started: bool)
    requires SegmentOk(segment, rest)
    ensures WordsFrom(PrintSegment(segment) + rest, part, Unquoted, started) ==
            WordsFrom(rest, part + ValueOfSegment(segment), Unquoted, true)
  {
    hide IsSpace, PiecesOk, PrintPieces, ValueOfPieces;
    match segment
    case Bare(c) =>
      BareRun(c, rest, part, started);
    case Escaped(c) =>
      EscapedRun(c, rest, part, started);
    case SingleQuoted(text) =>
      var s := PrintSegment(segment) + rest;
      assert s[0] == '\'' && s[1..] == text + ("'" + rest);
      SingleRun(text, rest, part);
    case DoubleQuoted(pieces) =>
      var s := PrintSegment(segment) + rest;
      assert s[0] == '"' && s[1..] == PrintPieces(pieces) + ("\"" + rest);
      DoubleRun(pieces, rest, part);
  }

  lemma BackslashIsNoSpace()
    ensures !IsSpace('\\') && !IsSpace('\'') && !IsSpace('"')
  {
  }

  lemma {:induction false} SegmentsRun(segments: seq<Segment>, rest: string, part: string, started: bool)
    requires SegmentsOk(segments, rest)
    ensures WordsFrom(PrintSegments(segments) + rest, part, Unquoted, started) ==
            WordsFrom(rest, part + ValueOf(segments), Unquoted, started || segments != [])
  {
    hide SegmentOk, WordsFrom, PrintSegment, ValueOfSegment;
    if segments == [] {
      assert "" + rest == rest && part + "" == part;
    } else {
      var more := PrintSegments(segments[1..]) + rest;
      SegmentRun(segments[0], more, part, started);
      SegmentsRun(segments[1..], rest, part + ValueOfSegment(segments[0]), true);
      Joined(PrintSegment(segments[0]), PrintSegments(segments[1..]), rest);
      Joined(part, ValueOfSegment(segments[0]), ValueOf(segments[1..]));
    }
  }

  lemma Joined(a: string, b: string, c: string)
    ensures (a + b) + c == a + (b + c)
  {
  }

  /** White space ends a word that has been started, and nothing else. */
  lemma {:induction false} BlanksRun(blanks: string, rest: string, part: string, started: bool)
    requires AllSpace(blanks) && (!started ==> part == "")
    ensures WordsFrom(blanks + rest, part, Unquoted, started) ==
            if blanks == "" || !started then WordsFrom(rest, part, Unquoted, started)
            else After([part], WordsFrom(rest, "", Unquoted, false))
  {
    var s := blanks + rest;
    if blanks == "" {
      assert s == rest;
    } else {
      BlankStarts(blanks[0]);
      assert IsSpace(blanks[0]) && s[0] == blanks[0] && s[1..] == blanks[1..] + rest;
      hide IsSpace;
      BlanksRun(blanks[1..], rest, "", false);
    }
  }

  lemma BlankStarts(c: char)
    ensures IsSpace(c) ==> c != '\'' && c != '"' && c != '\\'
  {
  }

  /** The words of a line up to `rest`; the last is still open when no white space follows it. */
  lemma {:induction false} WordsRun(words: seq<Word>, rest: string)
    requires words != [] && WordsOk(words, rest)
    ensures var last := |words| - 1;
            WordsFrom(PrintWords(words) + rest, "", Unquoted, false) ==
            After(ValuesOf(words[..last]),
                  if words[last].after == "" then WordsFrom(rest, ValueOf(words[last].segments), Unquoted, true)
                  else After([ValueOf(words[last].segments)], WordsFrom(rest, "", Unquoted, false)))
  {
    hide WordsFrom, SegmentsOk, PrintSegments, ValueOf, AllSpace;
    var last := |words| - 1;
    var w, value := words[0], ValueOf(words[0].segments);
    var later := PrintWords(words[1..]) + rest;
    SegmentsRun(w.segments, w.after + later, "", false);
    assert "" + value == value;
    assert PrintWords(words) + rest == PrintSegments(w.segments) + (w.after + later);
    BlanksRun(w.after, later, value, true);
    if last == 0 {
      assert later == rest;
      AfterNothing(WordsFrom(PrintWords(words) + rest, "", Unquoted, false));
    } else {
      WordsRun(words[1..], rest);
      assert words[1..][..last - 1] == words[..last][1..];
      AfterBoth(value, ValuesOf(words[..last][1..]),
          if words[last].after == "" then WordsFrom(rest, ValueOf(words[last].segments), Unquoted, true)
          else After([ValueOf(words[last].segments)], WordsFrom(rest, "", Unquoted, false)));
    }
  }

  lemma AfterNothing(rest: Option<seq<string>>)
    ensures After([], rest) == rest
  {
    if rest.Some? { assert [] + rest.value == rest.value; }
  }

  lemma AfterBoth(value: string, values: seq<string>, rest: Option<seq<string>>)
    ensures After([value], After(values, rest)) == After([value] + values, rest)
  {
    if rest.Some? { assert [value] + (values + rest.value) == ([value] + values) + rest.value; }
  }

  lemma NothingLeft(value: string)
    ensures WordsFrom("", "", Unquoted, false) == Some([])
    ensures WordsFrom("", value, Unquoted, true) == Some([value])
    ensures After([value], Some([])) == Some([value])
  {
    assert [value] + [] == [value];
  }

  lemma WordsAreParsed(words: seq<Word>)
    requires words != [] && WordsOk(words, "")
    ensures WordsFrom(PrintWords(words), "", Unquoted, false) == Some(ValuesOf(words))
  {
    hide WordsFrom, WordsOk, PrintWords, ValuesOf, ValueOf;
    var last := |words| - 1;
    var value := ValueOf(words[last].segments);
    WordsRun(words, "");
    NothingLeft(value);
    assert PrintWords(words) + "" == PrintWords(words);
    ValuesOfSnoc(words[..last], words[last]);
    assert words[..last] + [words[last]] == words;
  }

  /** A printed line is parsed to the words it stands for. */
  lemma PrintedLineIsParsed(line: Line)
    requires LineOk(line, "")
    ensures WordsFrom(PrintLine(line), "", Unquoted, false) == Some(ValuesOf(line.words))
  {
    hide AllSpace, WordsFrom;
    BlanksRun(line.lead, PrintWords(line.words), "", false);
    NothingLeft("");
    if line.words != [] { WordsAreParsed(line.words); }
  }

  lemma {:induction false} ValuesOfSnoc(words: seq<Word>, last: Word)
    ensures ValuesOf(words + [last]) == ValuesOf(words) + [ValueOf(last.segments)]
  {
    if words == [] {
      assert words + [last] == [last] && [last][1..] == [];
    } else {
      assert (words + [last])[1..] == words[1..] + [last];
      ValuesOfSnoc(words[1..], last);
    }
  }

  // ---- Every line is printed

  /** The text up to the first single quote, if there is one. */
  lemma {:induction false} SingleSplit(s: string) returns (closed: bool, text: string, rest: string)
    ensures closed <==> '\'' in s
    ensures closed ==> '\'' !in text && s == text + ("'" + rest)
  {
    if s == "" || s[0] == '\'' {
      closed, text, rest := s != "", "", if s == "" then "" else s[1..];
      if s != "" { assert s == [s[0]] + s[1..]; }
    } else {
      closed, text, rest := SingleSplit(s[1..]);
      assert s == [s[0]] + s[1..];
      text := [s[0]] + text;
    }
  }

  lemma NoPieces()
    ensures PiecesOk([], "") && PiecesOk([], "\"") && PrintPieces([]) == ""
  {
  }

  lemma PieceInFront(piece: Piece, later: seq<Piece>, next: string, rest: string)
    requires PiecesOk(later, next)
    requires match piece
             case Character(c) =>
               c != '"' && (c == '\\' ==> StandsAlone(PrintPieces(later) + (next + rest), ['"', '\\']))
             case EscapedPiece(c) => c == '"' || c == '\\'
    ensures PiecesOk([piece] + later, next)
    ensures PrintPieces([piece] + later) ==
            (if piece.Character? then [piece.c] else ['\\', piece.c]) + PrintPieces(later)
  {
    assert ([piece] + later)[1..] == later;
    var printed := PrintPieces(later) + next;
    assert PrintPieces(later) + (next + rest) == printed + rest;
    assert printed != "" ==> printed[0] == (printed + rest)[0];
  }

  lemma {:induction false} DoubleSplit(s: string) returns (closed: bool, pieces: seq<Piece>, rest: string)
    ensures closed ==> PiecesOk(pieces, "\"") && s == PrintPieces(pieces) + ("\"" + rest)
    ensures !closed ==> PiecesOk(pieces, "") && s == PrintPieces(pieces)
  {
    hide PiecesOk, PrintPieces;
    NoPieces();
    if s == "" || s[0] == '"' {
      closed, pieces, rest := s != "", [], if s == "" then "" else s[1..];
      if s != "" { assert s == "" + ([s[0]] + s[1..]); }
    } else if EscapesInDouble(s) {
      var later: seq<Piece>;
      closed, later, rest := DoubleSplit(s[2..]);
      pieces := [EscapedPiece(s[1])] + later;
      PieceInFront(pieces[0], later, if closed then "\"" else "", rest);
      assert s == ['\\', s[1]] + s[2..];
    } else {
      var later: seq<Piece>;
      closed, later, rest := DoubleSplit(s[1..]);
      pieces := [Character(s[0])] + later;
      assert s == [s[0]] + s[1..];
      var next := if closed then "\"" else "";
      assert s[1..] == PrintPieces(later) + (next + if closed then rest else "");
      PieceInFront(pieces[0], later, next, if closed then rest else "");
    }
  }

  /** A quote at the start: a quoted segment and what follows it, or an open quote. */
  lemma QuoteSplit(s: string) returns (closed: bool, segment: Segment, rest: string)
    requires s != "" && (s[0] == '\'' || s[0] == '"')
    ensures closed ==> SegmentOk(segment, rest) && s == PrintSegment(segment) + rest
    ensures !closed ==> IsOpenQuote(s)
  {
    assert s == [s[0]] + s[1..];
    if s[0] == '\'' {
      var text;
      closed, text, rest := SingleSplit(s[1..]);
      segment := SingleQuoted(text);
    } else {
      var pieces;
      closed, pieces, rest := DoubleSplit(s[1..]);
      segment := DoubleQuoted(pieces);
    }
  }

  lemma JoinsWord(segment: Segment, w: Word, words: seq<Word>, tail: string)
    requires WordsOk([w] + words, tail) && SegmentOk(segment, PrintWords([w] + words) + tail)
    ensures var longer := Word([segment] + w.segments, w.after);
            WordsOk([longer] + words, tail) &&
            PrintWords([longer] + words) == PrintSegment(segment) + PrintWords([w] + words)
  {
    hide SegmentOk, PrintSegment, AllSpace, SegmentsOk, PrintSegments;
    var longer := Word([segment] + w.segments, w.after);
    assert ([w] + words)[1..] == words && ([longer] + words)[1..] == words;
    var printed, next := PrintSegments(w.segments), w.after + (PrintWords(words) + tail);
    assert printed + next == PrintWords([w] + words) + tail;
    MoreSegments(segment, w.segments, next);
    Joined(PrintSegment(segment), printed, w.after + PrintWords(words));
  }

  lemma MoreSegments(segment: Segment, segments: seq<Segment>, next: string)
    requires SegmentsOk(segments, next) && SegmentOk(segment, PrintSegments(segments) + next)
    ensures SegmentsOk([segment] + segments, next)
    ensures PrintSegments([segment] + segments) == PrintSegment(segment) + PrintSegments(segments)
  {
    assert ([segment] + segments)[1..] == segments;
  }

  lemma IsNewWord(segment: Segment, after: string, words: seq<Word>, tail: string)
    requires WordsOk(words, tail) && AllSpace(after) && (after == "" ==> words == [])
    requires SegmentOk(segment, after + PrintWords(words) + tail)
    ensures var w := Word([segment], after);
            WordsOk([w] + words, tail) && PrintWords([w] + words) == PrintSegment(segment) + (after + PrintWords(words))
  {
    hide SegmentOk, PrintSegment, AllSpace;
    var w, next := Word([segment], after), after + (PrintWords(words) + tail);
    assert next == after + PrintWords(words) + tail;
    OneSegment(segment, next);
    assert ([w] + words)[1..] == words;
    hide SegmentsOk, PrintSegments;
  }

  lemma OneSegment(segment: Segment, next: string)
    requires SegmentOk(segment, next)
    ensures SegmentsOk([segment], next) && PrintSegments([segment]) == PrintSegment(segment)
  {
    hide SegmentOk, PrintSegment;
    assert [segment][1..] == [];
    assert PrintSegments([segment]) == PrintSegment(segment) + "" == PrintSegment(segment);
    assert PrintSegments([]) + next == next;
  }

  /** A segment in front of a line joins its first word, or is a word of its own. */
  lemma AddSegment(segment: Segment, line: Line, tail: string) returns (longer: Line)
    requires LineOk(line, tail) && SegmentOk(segment, PrintLine(line) + tail)
    ensures LineOk(longer, tail) && PrintLine(longer) == PrintSegment(segment) + PrintLine(line)
  {
    hide SegmentOk, PrintSegment, AllSpace, WordsOk, PrintWords, LineOk, PrintLine;
    LineParts(line, tail);
    if line.lead == "" && line.words != [] {
      var w, rest := line.words[0], line.words[1..];
      assert line.words == [w] + rest;
      assert "" + PrintWords(line.words) == PrintWords(line.words);
      JoinsWord(segment, w, rest, tail);
      longer := WithoutLead([Word([segment] + w.segments, w.after)] + rest, tail);
    } else {
      IsNewWord(segment, line.lead, line.words, tail);
      longer := WithoutLead([Word([segment], line.lead)] + line.words, tail);
    }
  }

  lemma LineParts(line: Line, tail: string)
    requires LineOk(line, tail)
    ensures AllSpace(line.lead) && WordsOk(line.words, tail) && PrintLine(line) == line.lead + PrintWords(line.words)
  {
  }

  lemma WithoutLead(words: seq<Word>, tail: string) returns (line: Line)
    requires WordsOk(words, tail)
    ensures LineOk(line, tail) && PrintLine(line) == PrintWords(words)
  {
    hide WordsOk, PrintWords;
    line := Line("", words);
    assert "" + PrintWords(words) == PrintWords(words);
  }

  /** Every text is a printed line, up to a quote that is never closed. */
  lemma {:induction false} LineOf(s: string) returns (line: Line, tail: string)
    ensures LineOk(line, tail) && s == PrintLine(line) + tail && (tail == "" || IsOpenQuote(tail))
    decreases |s|
  {
    hide IsOpenQuote, IsSpace, PrintLine, LineOk;
    if s == "" {
      line, tail := Line("", []), "";
      NoWords(line, tail);
    } else if s[0] == '\'' || s[0] == '"' {
      var closed, segment, rest := QuoteSplit(s);
      if closed {
        PrintsSomething(segment);
        var later: Line;
        later, tail := LineOf(rest);
        line := AddSegment(segment, later, tail);
      } else {
        line, tail := Line("", []), s;
        NoWords(line, tail);
      }
    } else if IsSpace(s[0]) {
      var later: Line;
      later, tail := LineOf(s[1..]);
      line := Line([s[0]] + later.lead, later.words);
      LeadGrows(s[0], later, tail);
    } else {
      var segment := if EscapesUnquoted(s) then Escaped(s[1]) else Bare(s[0]);
      var rest := if EscapesUnquoted(s) then s[2..] else s[1..];
      assert s == PrintSegment(segment) + rest;
      var later: Line;
      later, tail := LineOf(rest);
      line := AddSegment(segment, later, tail);
    }
  }

  lemma NoWords(line: Line, tail: string)
    requires line == Line("", [])
    ensures LineOk(line, tail) && PrintLine(line) == ""
  {
  }

  lemma PrintsSomething(segment: Segment)
    ensures PrintSegment(segment) != ""
  {
  }

  lemma LeadGrows(c: char, line: Line, tail: string)
    requires LineOk(line, tail) && IsSpace(c)
    ensures var longer := Line([c] + line.lead, line.words);
            LineOk(longer, tail) && PrintLine(longer) == [c] + PrintLine(line)
  {
    hide IsSpace;
  }

  // ---- What the parser does with every text

  lemma {:induction false} OpenDoubleIsNone(pieces: seq<Piece>, part: string)
    requires PiecesOk(pieces, "")
    ensures WordsFrom(PrintPieces(pieces), part, Double, true) == None
  {
    if pieces != [] {
      var s, c := PrintPieces(pieces), pieces[0].c;
      var tail := PrintPieces(pieces[1..]);
      OpenDoubleIsNone(pieces[1..], part + [c]);
      assert tail + "" == tail;
      if pieces[0].Character? { assert s[0] == c && s[1..] == tail; }
      else { assert s[0] == '\\' && s[1] == c && s[2..] == tail; }
    }
  }

  lemma OpenQuoteIsNone(s: string, part: string, started: bool)
    requires IsOpenQuote(s)
    ensures WordsFrom(s, part, Unquoted, started) == None
  {
    if s[0] == '\'' {
      SingleRun(s[1..], "", part);
    } else {
      var pieces :| PiecesOk(pieces, "") && PrintPieces(pieces) == s[1..];
      OpenDoubleIsNone(pieces, part);
    }
  }

  lemma OpenLineIsNone(line: Line, tail: string)
    requires LineOk(line, tail) && IsOpenQuote(tail)
    ensures WordsFrom(PrintLine(line) + tail, "", Unquoted, false) == None
  {
    hide SegmentsOk, AllSpace, IsOpenQuote, WordsFrom;
    var later := PrintWords(line.words) + tail;
    assert PrintLine(line) + tail == line.lead + later;
    BlanksRun(line.lead, later, "", false);
    OpenQuoteIsNone(tail, "", false);
    if line.words == [] {
      assert later == tail;
    } else {
      WordsRun(line.words, tail);
      OpenQuoteIsNone(tail, ValueOf(line.words[|line.words| - 1].segments), true);
    }
  }

  /** The line is one of the grammar, and these are its words. */
  ghost predicate IsLineOf(s: string, line: Line) {
    LineOk(line, "") && PrintLine(line) == s
  }

  /** Some quote is opened behind a printed line and never closed. */
  ghost predicate LeavesQuoteOpen(s: string) {
    exists line, tail :: LineOk(line, tail) && IsOpenQuote(tail) && s == PrintLine(line) + tail
  }

  /**
   What the parser does with every text: exactly the printed lines with a word are accepted, as the
   words they stand for; what is refused is blank or leaves a quote open.
   */
  lemma WordsIff(s: string, words: seq<string>)
    ensures Words(s) == Some(words) <==>
            words != [] && exists line :: IsLineOf(s, line) && ValuesOf(line.words) == words
    ensures Words(s) == None <==> AllSpace(s) || LeavesQuoteOpen(s)
    ensures !((exists line :: IsLineOf(s, line)) && LeavesQuoteOpen(s))
  {
    hide LineOk, PrintLine, IsOpenQuote, AllSpace, WordsFrom, ValuesOf;
    forall line | IsLineOf(s, line) ensures WordsFrom(s, "", Unquoted, false) == Some(ValuesOf(line.words)) {
      PrintedLineIsParsed(line);
    }
    forall line, tail | LineOk(line, tail) && IsOpenQuote(tail) && s == PrintLine(line) + tail
      ensures WordsFrom(s, "", Unquoted, false) == None
    {
      OpenLineIsNone(line, tail);
    }
    var line, tail := LineOf(s);
    if tail == "" {
      assert PrintLine(line) + tail == PrintLine(line);
      assert IsLineOf(s, line);
    }
    BlankIff(s, line);
  }

  lemma BlankIff(s: string, line: Line)
    ensures IsLineOf(s, line) ==> (AllSpace(s) <==> ValuesOf(line.words) == [])
    ensures AllSpace(s) ==> Words(s) == None && WordsFrom(s, "", Unquoted, false) == Some([])
  {
    if IsLineOf(s, line) {
      PrintedLineIsParsed(line);
      if line.words == [] { assert line.lead + "" == line.lead; }
    }
    if AllSpace(s) {
      BlanksRun(s, "", "", false);
      assert s + "" == s;
    }
  }

  lemma OneWordIsParsed(segments: seq<Segment>)
    requires segments != [] && SegmentsOk(segments, "")
    ensures Words(PrintSegments(segments)) == Some([ValueOf(segments)])
  {
    hide SegmentsOk, PrintSegments, ValueOf;
    var word := Word(segments, "");
    var line := Line("", [word]);
    assert [word][1..] == [];
    assert PrintWords([word]) == PrintSegments(segments) + ("" + PrintWords([])) == PrintSegments(segments);
    assert ValuesOf([word]) == [ValueOf(segments)] + ValuesOf([]) == [ValueOf(segments)];
    assert "" + (PrintWords([]) + "") == "";
    assert WordsOk([], "");
    assert WordsOk([word], "");
    PrintedLineIsParsed(line);
    assert PrintLine(line) == PrintSegments(segments);
  }

  /** An escaped space does not end the word: the line `a\ b` is the one word `a b`. */
  lemma EscapedSpaceIsKept(line: string)
    requires line == "a\\ b"
    ensures Words(line) == Some(["a b"])
  {
    var last := [Bare('b')];
    var later := [Escaped(' '), Bare('b')];
    var segments := [Bare('a'), Escaped(' '), Bare('b')];
    assert segments[1..] == later && later[1..] == last && last[1..] == [];
    assert PrintSegments(last) == "b" && ValueOf(last) == "b" && SegmentsOk(last, "");
    assert PrintSegments(later) == "\\ b" && ValueOf(later) == " b" && SegmentsOk(later, "");
    assert PrintSegments(segments) == line && ValueOf(segments) == "a b";
    OneWordIsParsed(segments);
  }

  // ---- What the renderer writes

  /** A word is written bare exactly when it is not empty and has only safe characters. */
  predicate IsBareWord(value: string) {
    value != "" && forall i :: 0 <= i < |value| ==>
      'a' <= value[i] <= 'z' || 'A' <= value[i] <= 'Z' || '0' <= value[i] <= '9' || value[i] in "_./:@%+=,-"
  }

  lemma {:induction false} EscapeIsJoin(value: string)
    ensures EscapeSingle(value) == Join(Split(value, '\''), "'\"'\"'")
  {
    if value != "" {
      EscapeIsJoin(value[1..]);
      var parts := Split(value[1..], '\'');
      if value[0] == '\'' {
        assert ([""] + parts)[1..] == parts;
      } else {
        var longer := [[value[0]] + parts[0]] + parts[1..];
        assert longer[1..] == parts[1..];
        if |parts| > 1 {
          assert [value[0]] + (parts[0] + "'\"'\"'" + Join(parts[1..], "'\"'\"'")) ==
                 ([value[0]] + parts[0]) + "'\"'\"'" + Join(parts[1..], "'\"'\"'");
        }
      }
    }
  }

  /**
   The rendered line: the words with one space between them, each bare or between single quotes, with
   every single quote in it replaced by a closing, a double-quoted and an opening one.
   */
  lemma {:induction false} RenderedIs(command: seq<string>)
    ensures forall value :: ShellQuote(value) ==
                            if IsBareWord(value) then value
                            else "'" + Join(Split(value, '\''), "'\"'\"'") + "'"
    ensures |QuoteAll(command)| == |command| && forall i :: 0 <= i < |command| ==>
              QuoteAll(command)[i] == ShellQuote(command[i])
    ensures RenderCommand(command) == Join(QuoteAll(command), " ")
  {
    forall value: string
      ensures ShellQuote(value) ==
              if IsBareWord(value) then value else "'" + Join(Split(value, '\''), "'\"'\"'") + "'"
    {
      EscapeIsJoin(value);
      hide EscapeSingle, Join, Split;
    }
    if command != [] {
      RenderedIs(command[1..]);
      hide ShellQuote;
      assert forall i :: 1 <= i < |command| ==> QuoteAll(command)[i] == QuoteAll(command[1..])[i - 1];
    }
  }
}
