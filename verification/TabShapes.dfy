/**
 Which lines of the snapshot count as browser tabs, which of them as active, and when a row of them is
 compacted, with the source's patterns and numbers written out.
 */
module TabShapes {
  import opened Wrappers
  import opened Numbers
  import opened Text
  import opened Snapshot
  import opened TabCompaction

  /** What may follow the word: nothing, a blank, a bracket, a comma, or a last line break. */
  predicate EndsWord(rest: string) {
    rest == "" || rest == "\n" || rest[0] == ' ' || rest[0] == '(' || rest[0] == ','
  }

  /** The text after the indentation: a number, a blank, one of the three roles in any case, and an end of the word. */
  ghost predicate IsTabText(text: string, digits: string, role: string, rest: string) {
    && text == digits + (" " + (role + rest))
    && digits != "" && IsDigits(digits)
    && (Lower(role) == "page tab" || Lower(role) == "tab item" || Lower(role) == "tab")
    && EndsWord(rest)
  }

  lemma {:induction false} LowerOfBoth(a: string, b: string)
    ensures Lower(a + b) == Lower(a) + Lower(b)
  {
    if a == "" {
      assert a + b == b;
    } else {
      assert (a + b)[1..] == a[1..] + b;
      LowerOfBoth(a[1..], b);
    }
  }

  lemma {:induction false} DigitsAre(text: string)
    ensures IsDigits(text[..Digits(text)])
    ensures Digits(text) < |text| ==> !IsDigit(text[Digits(text)])
  {
    if text != "" && IsDigit(text[0]) {
      DigitsAre(text[1..]);
      assert text[..Digits(text)] == [text[0]] + text[1..][..Digits(text[1..])];
    }
  }

  lemma LowerSlice(text: string, i: nat, j: nat)
    requires i <= j <= |text|
    ensures |Lower(text)| == |text| && Lower(text[i..j]) == Lower(text)[i..j]
  {
    LowerIs(text);
    LowerIs(text[i..j]);
    hide Lower;
    forall k | 0 <= k < j - i ensures Lower(text[i..j])[k] == Lower(text)[i..j][k] {
      assert text[i..j][k] == text[i + k];
    }
  }

  lemma EndIs(rest: string)
    requires rest == "" || Lower(rest)[0] in " (," || Lower(rest) == "\n"
    ensures EndsWord(rest)
  {
    LowerIs(rest);
    if rest != "" && Lower(rest) == "\n" { assert rest == [rest[0]]; }
  }

  /** A word at the start of a text in lower case stands there in the text too, in some case. */
  lemma WordIs(text: string, word: string)
    requires word != "" && word[0] == ' ' && StartsWithWord(Lower(text), word)
    ensures |word| <= |text| && text[0] == ' ' && Lower(text[1..|word|]) == word[1..] && EndsWord(text[|word|..])
  {
    hide Lower, EndsWord;
    var n := |word|;
    LowerIs(text);
    LowerSlice(text, 1, n);
    LowerSlice(text, n, |text|);
    assert text[n..|text|] == text[n..];
    assert Lower(text)[0..n] == word;
    assert Lower(text)[0] == word[0];
    assert Lower(text)[1..n] == word[1..];
    EndIs(text[n..]);
  }

  lemma WordStarts(role: string, rest: string, word: string)
    requires word == " " + Lower(role)
    requires EndsWord(rest)
    ensures StartsWithWord(Lower(" " + (role + rest)), word)
  {
    LowerOfBoth(" ", role + rest);
    LowerOfBoth(role, rest);
    LowerIs(" ");
    LowerIs(role);
    LowerIs(rest);
    var lower := Lower(" " + (role + rest));
    assert Lower(" ") == " ";
    assert lower == word + Lower(rest);
    assert lower[0..|word|] == word;
    assert lower[|word|..] == Lower(rest);
    if rest == "\n" { assert Lower(rest) == "\n"; }
  }

  /** A line is a tab of its depth exactly when it is that many tabs followed by such a text. */
  lemma TabLineIff(line: string, depth: nat)
    ensures IsTabLine(line, depth) <==>
            exists digits, role, rest ::
              IsTabText(Unindented(line, depth), digits, role, rest) && line == Tabs(depth) + Unindented(line, depth)
  {
    var text := Unindented(line, depth);
    TabsLength(depth);
    if IsTabLine(line, depth) {
      assert line == line[..depth] + text;
      var digits, role, rest := TabTextIs(text);
    }
    forall digits, role, rest | IsTabText(text, digits, role, rest) && line == Tabs(depth) + text
      ensures IsTabLine(line, depth)
    {
      assert line[0..depth] == Tabs(depth);
      DigitsOf(digits, " " + (role + rest));
      assert text[|digits|..] == " " + (role + rest);
      RoleStarts(role, rest);
    }
  }

  lemma RoleStarts(role: string, rest: string)
    requires Lower(role) == "page tab" || Lower(role) == "tab item" || Lower(role) == "tab"
    requires EndsWord(rest)
    ensures var lower := Lower(" " + (role + rest));
            StartsWithWord(lower, " page tab") || StartsWithWord(lower, " tab item") || StartsWithWord(lower, " tab")
  {
    hide Lower, StartsWithWord;
    WordStarts(role, rest, " " + Lower(role));
    assert " " + "page tab" == " page tab" && " " + "tab item" == " tab item" && " " + "tab" == " tab";
  }

  lemma TabTextIs(text: string) returns (digits: string, role: string, rest: string)
    requires Digits(text) > 0
    requires var lower := Lower(text[Digits(text)..]);
             StartsWithWord(lower, " page tab") || StartsWithWord(lower, " tab item") || StartsWithWord(lower, " tab")
    ensures IsTabText(text, digits, role, rest)
  {
    hide StartsWithWord, Lower;
    var n := Digits(text);
    var lower := Lower(text[n..]);
    DigitsAre(text);
    if StartsWithWord(lower, " page tab") {
      digits, role, rest := TailIs(text, n, " page tab", "page tab");
    } else if StartsWithWord(lower, " tab item") {
      digits, role, rest := TailIs(text, n, " tab item", "tab item");
    } else {
      digits, role, rest := TailIs(text, n, " tab", "tab");
    }
  }

  lemma TailIs(text: string, n: nat, word: string, name: string) returns (digits: string, role: string, rest: string)
    requires 0 < n <= |text| && IsDigits(text[..n]) && word == " " + name
    requires name == "page tab" || name == "tab item" || name == "tab"
    requires StartsWithWord(Lower(text[n..]), word)
    ensures IsTabText(text, digits, role, rest)
  {
    hide StartsWithWord, Lower, EndsWord;
    var tail := text[n..];
    WordIs(tail, word);
    assert word[1..] == name;
    digits, role, rest := text[..n], tail[1..|word|], tail[|word|..];
    assert tail == " " + (role + rest);
  }

  /** The number a line shows: the digits behind its indentation, up to the first other character. */
  lemma ShownIndexIs(line: string, depth: nat, digits: string, rest: string)
    requires line == Tabs(depth) + (digits + rest) && digits != "" && IsDigits(digits)
    requires rest == "" || !IsDigit(rest[0])
    ensures RenderedIndex(line, depth) == Some(NumberOf(digits))
  {
    TabsLength(depth);
    assert line[depth..] == digits + rest;
    DigitsOf(digits, rest);
    assert (digits + rest)[..|digits|] == digits;
  }

  /** The last record with this index. */
  ghost predicate IsRecordAt(records: seq<Record>, k: nat, index: nat) {
    k < |records| && records[k].index == index && forall j :: k < j < |records| ==> records[j].index != index
  }

  lemma {:induction false} RecordAtIs(records: seq<Record>, index: nat, r: Record)
    ensures RecordAt(records, index) == Some(r) <==> exists k: nat :: IsRecordAt(records, k, index) && records[k] == r
  {
    if records != [] {
      var n := |records| - 1;
      RecordAtIs(records[..n], index, r);
      if records[n].index == index {
        assert IsRecordAt(records, n, index);
      } else {
        forall k: nat | k < |records|
          ensures IsRecordAt(records, k, index) <==> k < n && IsRecordAt(records[..n], k, index)
        {
          assert forall j :: 0 <= j < n ==> records[..n][j] == records[j];
        }
      }
    }
  }

  /** A line is active when it says so, or when the last record with its number is selected or has the value 1. */
  lemma ActiveLineIff(line: string, depth: nat, records: seq<Record>)
    ensures IsActiveLine(line, depth, records) <==>
            || Contains(line, "(selected")
            || exists k: nat :: k < |records| && RenderedIndex(line, depth) == Some(records[k].index) &&
                 IsRecordAt(records, k, records[k].index) && (records[k].selected || Trim(records[k].value) == "1")
  {
    hide RenderedIndex, Contains, Trim, RecordAt;
    var index := RenderedIndex(line, depth);
    if index.Some? {
      forall k: nat | IsRecordAt(records, k, index.value) ensures RecordAt(records, index.value) == Some(records[k]) {
        RecordAtIs(records, index.value, records[k]);
      }
      if RecordAt(records, index.value).Some? {
        RecordAtIs(records, index.value, RecordAt(records, index.value).value);
        var k: nat :| IsRecordAt(records, k, index.value) && records[k] == RecordAt(records, index.value).value;
        assert IsRecordAt(records, k, records[k].index);
      }
    }
  }

  /** The positions of the tab lines from `start` on. */
  ghost function TabPositions(lines: seq<string>, start: nat, depth: nat): set<nat> {
    set i: nat | start <= i < |lines| && IsTabLine(lines[i], depth)
  }

  lemma {:induction false} TabsAreCounted(lines: seq<string>, start: nat, depth: nat)
    requires start <= |lines|
    ensures |TabsFrom(lines, start, depth)| == |TabPositions(lines, start, depth)|
    decreases |lines| - start
  {
    hide IsTabLine;
    if start == |lines| {
      assert TabPositions(lines, start, depth) == {};
    } else {
      TabsAreCounted(lines, start + 1, depth);
      var rest := TabPositions(lines, start + 1, depth);
      if IsTabLine(lines[start], depth) {
        assert TabPositions(lines, start, depth) == rest + {start};
      } else {
        assert TabPositions(lines, start, depth) == rest;
      }
    }
  }

  /** The row is compacted exactly when it has ten tabs or more, and both an active and an inactive one. */
  lemma CompactsIff(s: State, start: nat, depth: nat)
    requires start <= |s.lines|
    ensures Compacts(s, start, depth) <==>
            && |TabPositions(s.lines, start, depth)| >= 10
            && (exists i :: i in TabPositions(s.lines, start, depth) && IsActiveLine(s.lines[i], depth, s.records))
            && exists i :: i in TabPositions(s.lines, start, depth) && !IsActiveLine(s.lines[i], depth, s.records)
  {
    hide IsTabLine, IsActiveLine, OmittedFrom, TabsFrom;
    TabsAreCounted(s.lines, start, depth);
    ActiveAmongTabs(s, start, depth);
    InactiveAmongTabs(s, start, depth);
  }

  lemma ActiveAmongTabs(s: State, start: nat, depth: nat)
    requires start <= |s.lines|
    ensures AnyActive(s.lines, TabsFrom(s.lines, start, depth), depth, s.records) <==>
            exists i :: i in TabPositions(s.lines, start, depth) && IsActiveLine(s.lines[i], depth, s.records)
  {
    hide IsTabLine, IsActiveLine, TabsFrom;
    var tabs := TabsFrom(s.lines, start, depth);
    TabsAreTheTabLines(s.lines, start, depth);
    if i :| i in TabPositions(s.lines, start, depth) && IsActiveLine(s.lines[i], depth, s.records) {
      assert i in tabs;
    }
    if k :| 0 <= k < |tabs| && IsActiveLine(s.lines[tabs[k]], depth, s.records) {
      assert tabs[k] in tabs;
      assert tabs[k] in TabPositions(s.lines, start, depth);
    }
  }

  lemma InactiveAmongTabs(s: State, start: nat, depth: nat)
    requires start <= |s.lines|
    ensures OmittedFrom(s.lines, start, depth, s.records) != [] <==>
            exists i :: i in TabPositions(s.lines, start, depth) && !IsActiveLine(s.lines[i], depth, s.records)
  {
    hide IsTabLine, IsActiveLine, OmittedFrom;
    var omitted := OmittedFrom(s.lines, start, depth, s.records);
    if omitted != [] {
      OmittedAreInactive(s.lines, start, depth, s.records, omitted[0]);
      var j :| 0 <= j < |s.lines[start..]| && s.lines[start..][j] == omitted[0];
      assert start + j in TabPositions(s.lines, start, depth) && !IsActiveLine(s.lines[start + j], depth, s.records);
    }
    if i :| i in TabPositions(s.lines, start, depth) && !IsActiveLine(s.lines[i], depth, s.records) {
      OmittedAreInactive(s.lines, start, depth, s.records, s.lines[i]);
      assert s.lines[start..][i - start] == s.lines[i];
      assert s.lines[i] in omitted;
    }
  }

  /** The marker that stands for omitted tabs is no tab line itself, at any depth, and shows no number. */
  lemma MarkerIsNoTab(omitted: nat, depth: nat, other: nat)
    ensures !IsTabLine(Marker(omitted, depth), other)
    ensures RenderedIndex(Marker(omitted, depth), depth) == None
  {
    var marker := Marker(omitted, depth);
    TabsLength(depth);
    TabsLength(other);
    assert marker[depth..] == "... " + Decimal(omitted) + " inactive browser tabs omitted";
    assert marker[depth] == '.';
    if IsTabLine(marker, other) {
      if other < depth {
        TabsAt(depth, other);
      } else if other > depth {
        TabsAt(other, depth);
      }
    }
  }
}
