// The quick fixes that insert cci-ignore comments: AppendSuppressionCodeActions of
// pkg/utils/codeActions.go, applied by a client and judged by the scanner of Suppression.

module QuickFixes {
  import opened Common
  import opened Positions
  import opened IncrementalSync
  import opened Suppression

  // ---------- the actions ----------

  datatype CodeAction = CodeAction(title: string, edits: seq<Change>, isPreferred: bool)

  // A diagnostic's free-form data: absent, a list of actions, or something that is not one.
  datatype Data = NoData | Actions(actions: seq<CodeAction>) | Malformed

  datatype Annotated = Annotated(diagnostic: Diagnostic, data: Data)

  datatype Result = Ok(diagnostics: seq<Annotated>) | DataError

  const NEXT_LINE_TEXT := "# " + "cci-ignore-next-line"
  const START_TEXT := "# " + "cci-ignore-start"
  const END_TEXT := "# " + "cci-ignore-end"
  const FILE_TEXT := "# " + "cci-ignore-file"

  /** The blanks a line starts with. */
  function Indent(line: string): string {
    if line == [] || (line[0] != ' ' && line[0] != '\t') then "" else [line[0]] + Indent(line[1..])
  }

  predicate IsIndent(c: char) {
    c == ' ' || c == '\t'
  }

  /** The indentation is the longest blank beginning of the line. */
  lemma {:induction false} IndentIsLongest(line: string)
    ensures Indent(line) <= line && forall k :: 0 <= k < |Indent(line)| ==> IsIndent(line[k])
    ensures |Indent(line)| < |line| ==> !IsIndent(line[|Indent(line)|])
  {
    if line != [] && IsIndent(line[0]) {
      IndentIsLongest(line[1..]);
      assert line == [line[0]] + line[1..];
    }
  }

  function IndentAt(lines: seq<string>, line: uint32): string {
    if line < |lines| then Indent(lines[line]) else ""
  }

  /** The edit that puts a line of its own in front of a line. */
  function InsertLine(line: uint32, text: string): Change {
    Change(Position(line, 0), Position(line, 0), text + "\n")
  }

  function IgnoreLine(lines: seq<string>, range: Range): CodeAction {
    var line := range.start.line;
    CodeAction("Ignore this line", [InsertLine(line, IndentAt(lines, line) + NEXT_LINE_TEXT)], false)
  }

  function IgnoreInline(range: Range): CodeAction {
    var line, end := range.start.line, range.end.character;
    CodeAction("Ignore this line (inline)",
               [Change(Position(line, Wrap(end + 1)), Position(line, Wrap(end + 14)), " # cci-ignore")], false)
  }

  function IgnoreRange(lines: seq<string>, range: Range): CodeAction {
    var indent := IndentAt(lines, range.start.line);
    CodeAction("Ignore this range",
               [InsertLine(range.start.line, indent + START_TEXT),
                InsertLine(Wrap(range.end.line + 1), indent + END_TEXT)], false)
  }

  const IGNORE_FILE := CodeAction("Ignore all errors in this file", [InsertLine(0, FILE_TEXT)], false)

  function Fixes(lines: seq<string>, range: Range): seq<CodeAction> {
    [IgnoreLine(lines, range)]
    + [if range.start.line == range.end.line then IgnoreInline(range) else IgnoreRange(lines, range)]
    + [IGNORE_FILE]
  }

  function ActionsOf(data: Data): seq<CodeAction> {
    if data.Actions? then data.actions else []
  }

  /** The diagnostic keeps its content and the actions it had, and has its fixes behind them. */
  predicate Annotates(lines: seq<string>, before: Annotated, after: Annotated) {
    && after.diagnostic == before.diagnostic
    && after.data == Actions(ActionsOf(before.data) + Fixes(lines, before.diagnostic.range))
  }

  method IndentOf(line: string) returns (indent: string)
    ensures indent == Indent(line)
  {
    indent := "";
    var i := 0;
    while i < |line|
      invariant i <= |line| && indent + Indent(line[i..]) == Indent(line)
    {
      if line[i] == ' ' || line[i] == '\t' {
        assert line[i..][1..] == line[i + 1..];
        indent := indent + [line[i]];
      } else {
        break;
      }
      i := i + 1;
    }
  }

  /** Every diagnostic keeps its range, message and existing actions, in order, and gets its three
      fixes behind them; the only failure is data that is not a list of actions. */
  method AppendSuppressionCodeActions(diagnostics: seq<Annotated>, content: string) returns (result: Result)
    ensures result.DataError? <==> exists k :: 0 <= k < |diagnostics| && diagnostics[k].data.Malformed?
    ensures result.Ok? ==> |result.diagnostics| == |diagnostics|
    ensures result.Ok? ==> forall k :: 0 <= k < |diagnostics| ==>
              Annotates(Split(content), diagnostics[k], result.diagnostics[k])
  {
    var docLines := Split(content);
    var annotated: seq<Annotated> := [];
    for n := 0 to |diagnostics|
      invariant |annotated| == n
      invariant forall k :: 0 <= k < n ==> !diagnostics[k].data.Malformed?
      invariant forall k :: 0 <= k < n ==> Annotates(docLines, diagnostics[k], annotated[k])
    {
      var range := diagnostics[n].diagnostic.range;
      var line := range.start.line;
      var indent := "";
      if line < |docLines| {
        indent := IndentOf(docLines[line]);
      }
      var ignoreActions := [CodeAction("Ignore this line", [InsertLine(line, indent + NEXT_LINE_TEXT)], false)];
      if line == range.end.line {
        ignoreActions := ignoreActions + [IgnoreInline(range)];
      } else {
        ignoreActions := ignoreActions
          + [CodeAction("Ignore this range",
                        [InsertLine(line, indent + START_TEXT),
                         InsertLine(Wrap(range.end.line + 1), indent + END_TEXT)], false)];
      }
      ignoreActions := ignoreActions + [IGNORE_FILE];
      var existingActions: seq<CodeAction> := [];
      match diagnostics[n].data {
        case NoData =>
        case Actions(actions) => existingActions := actions;
        case Malformed => return DataError;
      }
      assert ignoreActions == Fixes(docLines, range);
      annotated := annotated + [Annotated(diagnostics[n].diagnostic, Actions(existingActions + ignoreActions))];
    }
    return Ok(annotated);
  }

  // ---------- applying them ----------

  /** All edits refer to the document as it was, so the client applies ordered edits from the last. */
  function ApplyEdits(lines: seq<string>, edits: seq<Change>): seq<string>
    requires lines != []
    decreases |edits|
  {
    if edits == [] then lines
    else ApplyEdits(ClientApply(lines, edits[|edits| - 1]), edits[..|edits| - 1])
  }

  function Inserted<T>(s: seq<T>, at: nat, x: T): seq<T>
    requires at <= |s|
  {
    seq(|s| + 1, k requires 0 <= k <= |s| => if k < at then s[k] else if k == at then x else s[k - 1])
  }

  lemma InsertLineInserts(lines: seq<string>, at: uint32, text: string)
    requires Lines(lines) && at < |lines| && '\n' !in text
    ensures ClientApply(lines, InsertLine(at, text)) == Inserted(lines, at, text)
  {
    var row := lines[at];
    assert row[..0] + (text + "\n") + row[0..] == text + "\n" + row;
    SplitAtBreak(text, row);
    SplitPlain(row);
    assert ClientApply(lines, InsertLine(at, text)) == lines[..at] + ([text] + [row]) + lines[at + 1..];
  }

  // ---------- the markers of a text ----------

  predicate IsSpace(c: char) {
    c == ' ' || c == '\t' || c == '\n' || c == '\U{0C}' || c == '\r'
  }

  function TrimStart(s: string): string {
    if s == [] || !IsSpace(s[0]) then s else TrimStart(s[1..])
  }

  function TrimEnd(s: string): string {
    if s == [] || !IsSpace(s[|s| - 1]) then s else TrimEnd(s[..|s| - 1])
  }

  /** The patterns anchored at both ends: spaces, '#', spaces, the word, spaces. */
  predicate Matches(line: string, word: string) {
    var comment := TrimStart(line);
    comment != [] && comment[0] == '#' && TrimEnd(TrimStart(comment[1..])) == word
  }

  /** A way to read markers off lines that honours the four anchored patterns, each for a comment
      that has its line to itself, and finds none on an empty line. What another line holds (an inline
      marker, or none) is left open. */
  ghost predicate Anchored(mark: string -> Marker) {
    && mark("") == Plain
    && (forall s {:trigger Matches(s, "cci-ignore-file")} :: Matches(s, "cci-ignore-file") ==> mark(s) == File)
    && (forall s {:trigger Matches(s, "cci-ignore-next-line")} ::
          Matches(s, "cci-ignore-next-line") ==> mark(s) == NextLine)
    && (forall s {:trigger Matches(s, "cci-ignore-start")} :: Matches(s, "cci-ignore-start") ==> mark(s) == Start)
    && (forall s {:trigger Matches(s, "cci-ignore-end")} :: Matches(s, "cci-ignore-end") ==> mark(s) == End)
  }

  function Markers(lines: seq<string>, mark: string -> Marker): seq<Marker> {
    seq(|lines|, k requires 0 <= k < |lines| => mark(lines[k]))
  }

  /** What none of the four patterns matches is read as by `other`. */
  ghost predicate Extends(mark: string -> Marker, other: string -> Marker) {
    forall s :: !Matches(s, "cci-ignore-file") && !Matches(s, "cci-ignore-next-line")
                && !Matches(s, "cci-ignore-start") && !Matches(s, "cci-ignore-end")
                ==> mark(s) == other(s)
  }

  /** The four patterns exclude each other, so every reading of the remaining lines extends to one. */
  lemma AnchoredReading(other: string -> Marker) returns (mark: string -> Marker)
    requires other("") == Plain
    ensures Anchored(mark) && Extends(mark, other)
  {
    WordsDiffer();
    mark := s =>
      if Matches(s, "cci-ignore-file") then File
      else if Matches(s, "cci-ignore-next-line") then NextLine
      else if Matches(s, "cci-ignore-start") then Start
      else if Matches(s, "cci-ignore-end") then End
      else other(s);
  }

  lemma {:induction false} IndentIsBlank(line: string, rest: string)
    requires rest != [] && !IsSpace(rest[0])
    ensures TrimStart(Indent(line) + rest) == rest && '\n' !in Indent(line)
  {
    if line == [] || (line[0] != ' ' && line[0] != '\t') {
      assert Indent(line) + rest == rest;
    } else {
      assert (Indent(line) + rest)[1..] == Indent(line[1..]) + rest;
      IndentIsBlank(line[1..], rest);
    }
  }

  // What a fix writes is what the scanner reads.
  lemma FixTextMatches(lines: seq<string>, line: uint32, word: string)
    requires |word| > 0 && !IsSpace(word[0]) && !IsSpace(word[|word| - 1]) && '\n' !in word
    ensures Matches(IndentAt(lines, line) + ("# " + word), word)
    ensures '\n' !in IndentAt(lines, line) + ("# " + word)
  {
    var text := "# " + word;
    if line < |lines| {
      IndentIsBlank(lines[line], text);
    } else {
      assert "" + text == text;
    }
    assert text[1..] == " " + word && (" " + word)[1..] == word;
    assert TrimStart(" " + word) == word;
  }

  lemma NextLineText(lines: seq<string>, line: uint32, mark: string -> Marker) returns (text: string)
    requires Anchored(mark)
    ensures text == IndentAt(lines, line) + NEXT_LINE_TEXT && mark(text) == NextLine && '\n' !in text
  {
    FixTextMatches(lines, line, "cci-ignore-next-line");
    text := IndentAt(lines, line) + NEXT_LINE_TEXT;
  }

  lemma StartText(lines: seq<string>, line: uint32, mark: string -> Marker) returns (text: string)
    requires Anchored(mark)
    ensures text == IndentAt(lines, line) + START_TEXT && mark(text) == Start && '\n' !in text
  {
    FixTextMatches(lines, line, "cci-ignore-start");
    text := IndentAt(lines, line) + START_TEXT;
  }

  lemma EndText(lines: seq<string>, line: uint32, mark: string -> Marker) returns (text: string)
    requires Anchored(mark)
    ensures text == IndentAt(lines, line) + END_TEXT && mark(text) == End && '\n' !in text
  {
    FixTextMatches(lines, line, "cci-ignore-end");
    text := IndentAt(lines, line) + END_TEXT;
  }

  lemma FileText(mark: string -> Marker)
    requires Anchored(mark)
    ensures mark(FILE_TEXT) == File && '\n' !in FILE_TEXT
  {
    FixTextMatches([], 0, "cci-ignore-file");
    assert IndentAt([], 0) + ("# " + "cci-ignore-file") == FILE_TEXT;
  }

  lemma WordsDiffer()
    ensures "cci-ignore-file" != "cci-ignore-next-line" && "cci-ignore-file" != "cci-ignore-start"
    ensures "cci-ignore-file" != "cci-ignore-end" && "cci-ignore-next-line" != "cci-ignore-start"
    ensures "cci-ignore-next-line" != "cci-ignore-end" && "cci-ignore-start" != "cci-ignore-end"
  {
    assert |"cci-ignore-file"| == 15 && |"cci-ignore-next-line"| == 20;
    assert |"cci-ignore-start"| == 16 && |"cci-ignore-end"| == 14;
  }

  // ---------- suppressed lines of a document ----------

  /** One comment per line; a line without a marker counts as a plain one. */
  function Comments(doc: seq<Marker>): seq<Comment>
    requires |doc| < UINT32_LIMIT
  {
    seq(|doc|, k requires 0 <= k < |doc| => Comment(k, doc[k]))
  }

  predicate Suppressed(doc: seq<Marker>, line: uint32)
    requires |doc| < UINT32_LIMIT
  {
    IsSuppressed(Parse(Comments(doc)), line)
  }

  ghost predicate NoEndWithin(doc: seq<Marker>, low: int, high: int) {
    forall k :: 0 <= k < |doc| && low < k < high ==> doc[k] != End
  }

  ghost predicate BracketOf(doc: seq<Marker>, line: nat, s: nat, e: nat) {
    && s <= line <= e < |doc|
    && doc[s] == Start && doc[e] == End && NoEndWithin(doc, s, line)
  }

  ghost predicate InBracket(doc: seq<Marker>, line: nat) {
    exists s: nat, e: nat :: BracketOf(doc, line, s, e)
  }

  ghost predicate Flagged(doc: seq<Marker>, line: nat) {
    || File in doc
    || (line < |doc| && doc[line] == Inline)
    || (0 < line <= |doc| && doc[line - 1] == NextLine)
  }

  lemma SuppressedInDoc(doc: seq<Marker>, line: uint32)
    requires |doc| < UINT32_LIMIT
    ensures Suppressed(doc, line) <==> Flagged(doc, line) || InBracket(doc, line)
  {
    var comments := Comments(doc);
    ScannerFollowsRule(comments, line);
    BracketsAgree(doc, line);
    FlagsAgree(doc, line);
  }

  lemma BracketsAgree(doc: seq<Marker>, line: uint32)
    requires |doc| < UINT32_LIMIT
    ensures Bracketed(Comments(doc), line) <==> InBracket(doc, line)
  {
    var comments := Comments(doc);
    if Bracketed(comments, line) {
      var i: nat, j: nat :| BracketedBy(comments, line, i, j);
      assert forall k :: 0 <= k < |doc| ==> comments[k].line == k && comments[k].marker == doc[k];
      assert BracketOf(doc, line, i, j);
    }
    if InBracket(doc, line) {
      var s: nat, e: nat :| BracketOf(doc, line, s, e);
      assert BracketedBy(comments, line, s, e);
    }
  }

  lemma FlagsAgree(doc: seq<Marker>, line: uint32)
    requires |doc| < UINT32_LIMIT
    ensures Flagged(doc, line)
            <==> (exists c :: c in Comments(doc) && c.marker == File)
                 || (exists c :: c in Comments(doc) && c.marker == Inline && c.line == line)
                 || (exists c :: c in Comments(doc) && c.marker == NextLine && Wrap(c.line + 1) == line)
  {
    var comments := Comments(doc);
    assert forall k :: 0 <= k < |doc| ==> comments[k] == Comment(k, doc[k]) && comments[k] in comments;
    if File in doc {
      var k :| 0 <= k < |doc| && doc[k] == File;
      assert comments[k].marker == File;
    }
    if line < |doc| && doc[line] == Inline {
      assert comments[line].line == line;
    }
    if 0 < line <= |doc| && doc[line - 1] == NextLine {
      assert Wrap(comments[line - 1].line + 1) == line;
    }
  }

  // ---------- "Ignore this line" ----------

  /** Where a line of the document moves when a line is inserted in front of line `at`. */
  function Shift(at: nat, line: nat): nat {
    if line < at then line else line + 1
  }

  function Unshift(at: nat, k: nat): nat
    requires k != at
  {
    if k < at then k else k - 1
  }

  lemma BracketMovesDown(doc: seq<Marker>, at: nat, x: Marker, line: nat)
    requires at <= |doc| && line < |doc| && x != End && InBracket(doc, line)
    ensures InBracket(Inserted(doc, at, x), Shift(at, line))
  {
    var doc' := Inserted(doc, at, x);
    var s: nat, e: nat :| BracketOf(doc, line, s, e);
    forall k | 0 <= k < |doc'| && Shift(at, s) < k < Shift(at, line)
      ensures doc'[k] != End
    {
      assert k == at || doc'[k] == doc[Unshift(at, k)];
    }
    assert BracketOf(doc', Shift(at, line), Shift(at, s), Shift(at, e));
  }

  lemma BracketMovesUp(doc: seq<Marker>, at: nat, x: Marker, line: nat)
    requires at <= |doc| && line < |doc| && x != Start && x != End
    requires InBracket(Inserted(doc, at, x), Shift(at, line))
    ensures InBracket(doc, line)
  {
    var doc' := Inserted(doc, at, x);
    var s: nat, e: nat :| BracketOf(doc', Shift(at, line), s, e);
    forall k | 0 <= k < |doc| && Unshift(at, s) < k < line
      ensures doc[k] != End
    {
      assert doc'[Shift(at, k)] == doc[k];
    }
    assert BracketOf(doc, line, Unshift(at, s), Unshift(at, e));
  }

  lemma FileShift(doc: seq<Marker>, at: nat)
    requires at <= |doc|
    ensures File in Inserted(doc, at, NextLine) <==> File in doc
  {
    var doc' := Inserted(doc, at, NextLine);
    if File in doc {
      var k :| 0 <= k < |doc| && doc[k] == File;
      assert doc'[Shift(at, k)] == File;
    }
    if File in doc' {
      var k :| 0 <= k < |doc'| && doc'[k] == File;
      assert doc[Unshift(at, k)] == File;
    }
  }

  lemma FlagsShift(doc: seq<Marker>, at: nat, line: nat)
    requires at <= |doc| && line < |doc|
    ensures Flagged(Inserted(doc, at, NextLine), Shift(at, line)) <==> Flagged(doc, line) || line == at
  {
    FileShift(doc, at);
  }

  /** A next-line marker inserted in front of a line suppresses that line and changes no other. */
  lemma NextLineEffect(doc: seq<Marker>, at: uint32, line: uint32)
    requires at < |doc| && line < |doc| && |doc| + 1 < UINT32_LIMIT
    ensures Suppressed(Inserted(doc, at, NextLine), Shift(at, line))
            <==> Suppressed(doc, line) || line == at
  {
    SuppressedInDoc(doc, line);
    SuppressedInDoc(Inserted(doc, at, NextLine), Shift(at, line));
    FlagsShift(doc, at, line);
    if InBracket(doc, line) {
      BracketMovesDown(doc, at, NextLine, line);
    }
    if InBracket(Inserted(doc, at, NextLine), Shift(at, line)) {
      BracketMovesUp(doc, at, NextLine, line);
    }
  }

  lemma MarkersInserted(lines: seq<string>, at: nat, text: string, mark: string -> Marker)
    requires at <= |lines|
    ensures Markers(Inserted(lines, at, text), mark) == Inserted(Markers(lines, mark), at, mark(text))
  {
  }

  /** "Ignore this line", applied by the client, suppresses exactly the line of the diagnostic on top
      of the lines suppressed before. */
  lemma IgnoreLineWorks(lines: seq<string>, range: Range, edits: seq<Change>, line: uint32, mark: string -> Marker)
    requires Anchored(mark) && Lines(lines) && |lines| + 1 < UINT32_LIMIT
    requires range.start.line < |lines| && line < |lines| && edits == IgnoreLine(lines, range).edits
    ensures var at, after := range.start.line, ApplyEdits(lines, edits);
            && |after| == |lines| + 1
            && after == Inserted(lines, at, IndentAt(lines, at) + NEXT_LINE_TEXT)
            && (Suppressed(Markers(after, mark), Shift(at, line))
                <==> Suppressed(Markers(lines, mark), line) || line == at)
  {
    var at := range.start.line;
    var text := NextLineText(lines, at, mark);
    InsertLineInserts(lines, at, text);
    OneEdit(lines, InsertLine(at, text));
    assert edits == [InsertLine(at, text)];
    MarkersInserted(lines, at, text, mark);
    NextLineEffect(Markers(lines, mark), at, line);
  }

  lemma OneEdit(lines: seq<string>, edit: Change)
    requires lines != []
    ensures ApplyEdits(lines, [edit]) == ClientApply(lines, edit)
  {
    assert [edit][..0] == [];
  }

  // ---------- "Ignore all errors in this file" ----------

  lemma FileEffect(doc: seq<Marker>, line: uint32)
    requires File in doc && |doc| < UINT32_LIMIT
    ensures Suppressed(doc, line)
  {
    SuppressedInDoc(doc, line);
  }

  /** "Ignore all errors in this file" suppresses every line. */
  lemma IgnoreFileWorks(lines: seq<string>, line: uint32, mark: string -> Marker)
    requires Anchored(mark) && Lines(lines) && |lines| + 1 < UINT32_LIMIT
    ensures var after := ApplyEdits(lines, IGNORE_FILE.edits);
            after == Inserted(lines, 0, FILE_TEXT) && Suppressed(Markers(after, mark), line)
  {
    FileText(mark);
    InsertLineInserts(lines, 0, FILE_TEXT);
    OneEdit(lines, InsertLine(0, FILE_TEXT));
    MarkersInserted(lines, 0, FILE_TEXT, mark);
    var doc := Inserted(Markers(lines, mark), 0, File);
    assert doc[0] == File;
    FileEffect(doc, line);
  }

  // ---------- "Ignore this range" ----------

  /** The document with a start in front of line `first` and an end behind line `last`. */
  function Wrapped(doc: seq<Marker>, first: nat, last: nat): seq<Marker>
    requires first <= last < |doc|
  {
    seq(|doc| + 2, k requires 0 <= k < |doc| + 2 =>
      if k < first then doc[k]
      else if k == first then Start
      else if k < last + 2 then doc[k - 1]
      else if k == last + 2 then End
      else doc[k - 2])
  }

  function Shift2(first: nat, last: nat, line: nat): nat {
    if line < first then line else if line <= last then line + 1 else line + 2
  }

  /** Some start at or before the line, outside the lines from `first` on, has no end behind it up to
      line `first`: the range was left open, or ends only further down. */
  ghost predicate OpenSince(doc: seq<Marker>, first: nat, line: nat) {
    exists s: nat :: OpenFrom(doc, first, line, s)
  }

  ghost predicate OpenFrom(doc: seq<Marker>, first: nat, line: nat, s: nat) {
    s <= line < first <= |doc| && doc[s] == Start && NoEndWithin(doc, s, first)
  }

  /** No end among the wrapped lines in front of this one, or a start behind the last of them. */
  ghost predicate StartedWithin(doc: seq<Marker>, first: nat, line: nat) {
    NoEndWithin(doc, first - 1, line) || exists s: nat :: first <= s && StartsFor(doc, line, s)
  }

  ghost predicate StartsFor(doc: seq<Marker>, line: nat, s: nat) {
    s <= line && s < |doc| && doc[s] == Start && NoEndWithin(doc, s, line)
  }

  /** The line lies in a range that starts behind the wrapped lines. */
  ghost predicate BracketedBehind(doc: seq<Marker>, last: nat, line: nat) {
    exists s: nat, e: nat :: last < s && BracketOf(doc, line, s, e)
  }

  /** The lines suppressed after the fix, told from the document before it. */
  ghost predicate SuppressedAfterFix(doc: seq<Marker>, first: nat, last: nat, line: nat)
    requires first <= last < |doc| && line < |doc|
  {
    if line < first then Flagged(doc, line) || InBracket(doc, line) || OpenSince(doc, first, line)
    else if line <= last then Flagged(doc, line) || StartedWithin(doc, first, line)
    else
      || File in doc || doc[line] == Inline || (line > last + 1 && doc[line - 1] == NextLine)
      || BracketedBehind(doc, last, line)
  }

  /** The line behind the fix was suppressed by a range reaching out of the wrapped lines or past them,
      or by a next-line marker on the last of them, and by nothing else. */
  ghost predicate Uncovered(doc: seq<Marker>, last: nat, line: nat) {
    && last < line < |doc|
    && (InBracket(doc, line) || (line == last + 1 && doc[last] == NextLine))
    && !BracketedBehind(doc, last, line)
    && File !in doc && doc[line] != Inline && (line == last + 1 || doc[line - 1] != NextLine)
  }

  ghost predicate LosesSuppression(doc: seq<Marker>, first: nat, last: nat, line: uint32)
    requires first <= last < |doc| && |doc| + 2 < UINT32_LIMIT
  {
    line < |doc| && Suppressed(doc, line) && !Suppressed(Wrapped(doc, first, last), Shift2(first, last, line))
  }

  lemma BracketInside(doc: seq<Marker>, first: nat, last: nat, line: nat)
    requires first <= line <= last < |doc|
    ensures InBracket(Wrapped(doc, first, last), line + 1) <==> StartedWithin(doc, first, line)
  {
    var doc' := Wrapped(doc, first, last);
    assert forall k :: first <= k <= last ==> doc[k] == doc'[k + 1];
    if NoEndWithin(doc, first - 1, line) {
      assert BracketOf(doc', line + 1, first, last + 2);
    } else if StartedWithin(doc, first, line) {
      var s: nat :| first <= s && StartsFor(doc, line, s);
      assert BracketOf(doc', line + 1, s + 1, last + 2);
    }
    if InBracket(doc', line + 1) {
      var s: nat, e: nat :| BracketOf(doc', line + 1, s, e);
      if s > first {
        assert StartsFor(doc, line, s - 1);
      }
    }
  }

  lemma BracketAbove(doc: seq<Marker>, first: nat, last: nat, line: nat)
    requires line < first <= last < |doc|
    ensures InBracket(Wrapped(doc, first, last), Shift2(first, last, line))
            <==> InBracket(doc, line) || OpenSince(doc, first, line)
  {
    var doc' := Wrapped(doc, first, last);
    assert forall k :: 0 <= k < first ==> doc'[k] == doc[k];
    if InBracket(doc', line) {
      var s: nat, e: nat :| BracketOf(doc', line, s, e);
      if OpenFrom(doc, first, line, s) {
      } else {
        var k: nat :| s < k < first && doc[k] == End;
        assert BracketOf(doc, line, s, k);
      }
    }
    if InBracket(doc, line) {
      var s: nat, e: nat :| BracketOf(doc, line, s, e);
      assert BracketOf(doc', line, s, last + 2);
    }
    if OpenSince(doc, first, line) {
      var s: nat :| OpenFrom(doc, first, line, s);
      assert BracketOf(doc', line, s, last + 2);
    }
  }

  lemma BracketBelow(doc: seq<Marker>, first: nat, last: nat, line: nat)
    requires first <= last < line < |doc|
    ensures InBracket(Wrapped(doc, first, last), line + 2) <==> BracketedBehind(doc, last, line)
  {
    var doc' := Wrapped(doc, first, last);
    assert forall k :: last < k < |doc| ==> doc[k] == doc'[k + 2];
    if InBracket(doc', line + 2) {
      var s: nat, e: nat :| BracketOf(doc', line + 2, s, e);
      assert doc'[last + 2] == End;
      assert BracketOf(doc, line, s - 2, e - 2);
    }
    if BracketedBehind(doc, last, line) {
      var s: nat, e: nat :| last < s && BracketOf(doc, line, s, e);
      assert BracketOf(doc', line + 2, s + 2, e + 2);
    }
  }

  lemma FileWrap(doc: seq<Marker>, first: nat, last: nat)
    requires first <= last < |doc|
    ensures File in Wrapped(doc, first, last) <==> File in doc
  {
    var doc' := Wrapped(doc, first, last);
    if File in doc {
      var k :| 0 <= k < |doc| && doc[k] == File;
      assert doc'[Shift2(first, last, k)] == File;
    }
    if File in doc' {
      var k :| 0 <= k < |doc'| && doc'[k] == File;
      assert doc[if k < first then k else if k < last + 2 then k - 1 else k - 2] == File;
    }
  }

  lemma FlagsWrap(doc: seq<Marker>, first: nat, last: nat, line: nat)
    requires first <= last < |doc| && line < |doc|
    ensures Flagged(Wrapped(doc, first, last), Shift2(first, last, line))
            <==> File in doc || doc[line] == Inline
                 || (line > 0 && line != first && line != last + 1 && doc[line - 1] == NextLine)
  {
    FileWrap(doc, first, last);
  }

  /** The exact effect of the fix on every line of every document, with a line behind the range for the
      end marker to stand in front of. */
  lemma RangeEffect(doc: seq<Marker>, first: uint32, last: uint32, line: uint32)
    requires first <= last && last + 1 < |doc| && line < |doc| && |doc| + 2 < UINT32_LIMIT
    ensures Suppressed(Wrapped(doc, first, last), Shift2(first, last, line))
            <==> SuppressedAfterFix(doc, first, last, line)
  {
    SuppressedInDoc(Wrapped(doc, first, last), Shift2(first, last, line));
    FlagsWrap(doc, first, last, line);
    if line < first {
      BracketAbove(doc, first, last, line);
    } else if line <= last {
      BracketInside(doc, first, last, line);
    } else {
      BracketBelow(doc, first, last, line);
    }
  }

  lemma KeptUpToLast(doc: seq<Marker>, first: nat, last: nat, line: nat)
    requires first <= last < |doc| && line <= last
    requires Flagged(doc, line) || InBracket(doc, line)
    ensures SuppressedAfterFix(doc, first, last, line)
  {
    if first <= line && InBracket(doc, line) {
      var s: nat, e: nat :| BracketOf(doc, line, s, e);
      assert s >= first ==> StartsFor(doc, line, s);
    }
  }

  /** A line loses its suppression exactly when it is uncovered: never up to the last wrapped line, and
      behind it whatever the first wrapped line is. */
  lemma LosesIffUncovered(doc: seq<Marker>, first: uint32, last: uint32, line: uint32)
    requires first <= last && last + 1 < |doc| && |doc| + 2 < UINT32_LIMIT
    ensures LosesSuppression(doc, first, last, line) <==> Uncovered(doc, last, line)
  {
    if line < |doc| {
      SuppressedInDoc(doc, line);
      RangeEffect(doc, first, last, line);
      if line <= last && Suppressed(doc, line) {
        KeptUpToLast(doc, first, last, line);
      } else if BracketedBehind(doc, last, line) {
        var s: nat, e: nat :| last < s && BracketOf(doc, line, s, e);
        assert InBracket(doc, line);
      }
    }
  }

  /** With a line behind the range all that was suppressed stays so if and only if no line is uncovered. */
  lemma RangeFixKeepsIff(doc: seq<Marker>, first: uint32, last: uint32)
    requires first <= last && last + 1 < |doc| && |doc| + 2 < UINT32_LIMIT
    ensures (exists line :: LosesSuppression(doc, first, last, line))
            <==> exists line: nat :: Uncovered(doc, last, line)
  {
    if line: uint32 :| LosesSuppression(doc, first, last, line) {
      LosesIffUncovered(doc, first, last, line);
    }
    if line: nat :| Uncovered(doc, last, line) {
      LosesIffUncovered(doc, first, last, line);
    }
  }

  lemma TwoEdits(lines: seq<string>, first: uint32, second: uint32, a: string, b: string)
    requires Lines(lines) && first <= second < |lines| && '\n' !in a && '\n' !in b
    ensures ApplyEdits(lines, [InsertLine(first, a), InsertLine(second, b)])
            == Inserted(Inserted(lines, second, b), first, a)
  {
    var edits := [InsertLine(first, a), InsertLine(second, b)];
    assert edits[..1] == [edits[0]];
    InsertLineInserts(lines, second, b);
    var once := Inserted(lines, second, b);
    assert Lines(once);
    InsertLineInserts(once, first, a);
    OneEdit(once, edits[0]);
  }

  lemma InsertedTwice(doc: seq<Marker>, first: nat, last: nat)
    requires first <= last < |doc|
    ensures Inserted(Inserted(doc, last + 1, End), first, Start) == Wrapped(doc, first, last)
  {
  }

  lemma TwoInsertsWrap(lines: seq<string>, first: uint32, last: uint32, edits: seq<Change>,
                       a: string, b: string, mark: string -> Marker)
    requires Lines(lines) && first <= last && last + 1 < |lines| < UINT32_LIMIT
    requires edits == [InsertLine(first, a), InsertLine(last + 1, b)]
    requires '\n' !in a && '\n' !in b && mark(a) == Start && mark(b) == End
    ensures Markers(ApplyEdits(lines, edits), mark) == Wrapped(Markers(lines, mark), first, last)
  {
    TwoEdits(lines, first, last + 1, a, b);
    MarkersInserted(lines, last + 1, b, mark);
    MarkersInserted(Inserted(lines, last + 1, b), first, a, mark);
    InsertedTwice(Markers(lines, mark), first, last);
  }

  lemma RangeEdits(lines: seq<string>, range: Range, mark: string -> Marker) returns (a: string, b: string)
    requires Anchored(mark) && range.end.line + 1 < UINT32_LIMIT
    ensures IgnoreRange(lines, range).edits == [InsertLine(range.start.line, a), InsertLine(range.end.line + 1, b)]
    ensures '\n' !in a && '\n' !in b && mark(a) == Start && mark(b) == End
    ensures a == IndentAt(lines, range.start.line) + START_TEXT && b == IndentAt(lines, range.start.line) + END_TEXT
  {
    a := StartText(lines, range.start.line, mark);
    b := EndText(lines, range.start.line, mark);
  }

  /** Applied by the client, the two edits of "Ignore this range" make this document out of the old
      one; the second needs a line behind the range to stand in front of. */
  lemma IgnoreRangeInserts(lines: seq<string>, range: Range, edits: seq<Change>, mark: string -> Marker)
    requires Anchored(mark) && Lines(lines) && edits == IgnoreRange(lines, range).edits
    requires range.start.line < range.end.line && range.end.line + 1 < |lines| < UINT32_LIMIT
    ensures Markers(ApplyEdits(lines, edits), mark)
            == Wrapped(Markers(lines, mark), range.start.line, range.end.line)
  {
    var a, b := RangeEdits(lines, range, mark);
    TwoInsertsWrap(lines, range.start.line, range.end.line, edits, a, b, mark);
  }

  /** One such document: a range that starts among the wrapped lines and used to reach behind them. */
  lemma RangeFixMayUncover()
    ensures var doc := [Plain, Start, Plain, Plain, End];
            Uncovered(doc, 2, 3) && LosesSuppression(doc, 0, 2, 3)
  {
    var doc := [Plain, Start, Plain, Plain, End];
    assert BracketOf(doc, 3, 1, 4);
    assert Uncovered(doc, 2, 3);
    LosesIffUncovered(doc, 0, 2, 3);
  }

  // ---------- a range that ends on the last line ----------

  predicate Blank(s: string) {
    forall k :: 0 <= k < |s| ==> IsSpace(s[k])
  }

  lemma {:induction false} BlankPrefix(a: string, b: string)
    requires Blank(a)
    ensures TrimStart(a + b) == TrimStart(b)
  {
    if a == [] {
      assert a + b == b;
    } else {
      assert (a + b)[1..] == a[1..] + b;
      BlankPrefix(a[1..], b);
    }
  }

  lemma InsertLineAppends(lines: seq<string>, at: uint32, text: string)
    requires Lines(lines) && at >= |lines| && '\n' !in text
    ensures ClientApply(lines, InsertLine(at, text)) == Appended(lines, text)
  {
    var row := lines[|lines| - 1];
    assert row[..|row|] + (text + "\n") + row[|row|..] == (row + text) + "\n" + "";
    SplitAtBreak(row + text, "");
  }

  /** Past the end of the document an inserted line runs on from the last one. */
  function Appended(lines: seq<string>, text: string): seq<string>
    requires lines != []
  {
    lines[..|lines| - 1] + [lines[|lines| - 1] + text, ""]
  }

  lemma AppendAndInsert(lines: seq<string>, first: uint32, at: uint32, edits: seq<Change>, a: string, b: string)
    requires Lines(lines) && first < |lines| <= at && edits == [InsertLine(first, a), InsertLine(at, b)]
    requires '\n' !in a && '\n' !in b
    ensures ApplyEdits(lines, edits) == Inserted(Appended(lines, b), first, a)
  {
    assert edits[..1] == [edits[0]];
    InsertLineAppends(lines, at, b);
    assert Lines(Appended(lines, b));
    InsertLineInserts(Appended(lines, b), first, a);
    OneEdit(Appended(lines, b), edits[0]);
  }

  ghost predicate EndFrom(doc: seq<Marker>, line: nat) {
    exists e: nat :: line <= e < |doc| && doc[e] == End
  }

  /** The lines suppressed after a start is inserted in front of line `first`, told from the document
      before it. */
  ghost predicate SuppressedAfterStart(doc: seq<Marker>, first: nat, line: nat)
    requires line < |doc|
  {
    if line < first then Flagged(doc, line) || InBracket(doc, line)
    else
      || File in doc || doc[line] == Inline || (line > first && doc[line - 1] == NextLine)
      || (StartedWithin(doc, first, line) && EndFrom(doc, line))
  }

  lemma BracketFromStart(doc: seq<Marker>, first: nat, line: nat)
    requires first <= line < |doc|
    ensures InBracket(Inserted(doc, first, Start), line + 1) <==> StartedWithin(doc, first, line) && EndFrom(doc, line)
  {
    var doc' := Inserted(doc, first, Start);
    assert forall k :: first <= k < |doc| ==> doc[k] == doc'[k + 1];
    if StartedWithin(doc, first, line) && EndFrom(doc, line) {
      var e: nat :| line <= e < |doc| && doc[e] == End;
      if NoEndWithin(doc, first - 1, line) {
        assert BracketOf(doc', line + 1, first, e + 1);
      } else {
        var s: nat :| first <= s && StartsFor(doc, line, s);
        assert BracketOf(doc', line + 1, s + 1, e + 1);
      }
    }
    if InBracket(doc', line + 1) {
      var s: nat, e: nat :| BracketOf(doc', line + 1, s, e);
      assert doc[e - 1] == End;
      if s > first {
        assert StartsFor(doc, line, s - 1);
      }
    }
  }

  lemma BracketBeforeStart(doc: seq<Marker>, first: nat, line: nat)
    requires line < first <= |doc|
    ensures InBracket(Inserted(doc, first, Start), line) <==> InBracket(doc, line)
  {
    var doc' := Inserted(doc, first, Start);
    if InBracket(doc', line) {
      var s: nat, e: nat :| BracketOf(doc', line, s, e);
      assert forall k :: 0 <= k < first ==> doc'[k] == doc[k];
      assert BracketOf(doc, line, s, Unshift(first, e));
    }
    if InBracket(doc, line) {
      BracketMovesDown(doc, first, Start, line);
    }
  }

  lemma StartKeepsFile(doc: seq<Marker>, first: nat)
    requires first <= |doc|
    ensures File in Inserted(doc, first, Start) <==> File in doc
  {
    var doc' := Inserted(doc, first, Start);
    if File in doc {
      var k :| 0 <= k < |doc| && doc[k] == File;
      assert doc'[Shift(first, k)] == File;
    }
    if File in doc' {
      var k :| 0 <= k < |doc'| && doc'[k] == File;
      assert doc[Unshift(first, k)] == File;
    }
  }

  lemma StartEffect(doc: seq<Marker>, first: nat, line: nat)
    requires first <= |doc| && line < |doc| && |doc| + 1 < UINT32_LIMIT
    ensures Suppressed(Inserted(doc, first, Start), Shift(first, line)) <==> SuppressedAfterStart(doc, first, line)
  {
    SuppressedInDoc(Inserted(doc, first, Start), Shift(first, line));
    StartKeepsFile(doc, first);
    if line < first {
      BracketBeforeStart(doc, first, line);
    } else {
      BracketFromStart(doc, first, line);
    }
  }

  /** The last line with the closing comment behind it. */
  function Closing(lines: seq<string>, first: uint32): string
    requires lines != []
  {
    lines[|lines| - 1] + (IndentAt(lines, first) + END_TEXT)
  }

  /** The document whose last line now reads as `closing`, with an empty line behind it. */
  function Closed(doc: seq<Marker>, closing: Marker): seq<Marker>
    requires doc != []
  {
    doc[..|doc| - 1] + [closing, Plain]
  }

  /** The first line is suppressed by this or another end marker, by a file marker, or inline. */
  ghost predicate FirstSuppressed(doc: seq<Marker>, first: nat, closing: Marker)
    requires first + 1 < |doc|
  {
    || closing == End || closing == File || doc[first] == Inline
    || (exists k :: 0 <= k < |doc| - 1 && doc[k] == File)
    || exists k :: first <= k < |doc| - 1 && doc[k] == End
  }

  lemma FirstOfClosed(doc: seq<Marker>, first: nat, closing: Marker)
    requires first + 1 < |doc|
    ensures SuppressedAfterStart(Closed(doc, closing), first, first) <==> FirstSuppressed(doc, first, closing)
  {
    var closed := Closed(doc, closing);
    assert closed[|doc| - 1] == closing && closed[|doc|] == Plain;
    assert forall k :: 0 <= k < |doc| - 1 ==> closed[k] == doc[k];
    if k :| 0 <= k < |doc| - 1 && doc[k] == File {
      assert closed[k] == File;
    }
    if k :| first <= k < |doc| - 1 && doc[k] == End {
      assert closed[k] == End;
    }
  }

  /** A blank last line is enough. */
  lemma BlankLastLine(lines: seq<string>, line: uint32, mark: string -> Marker)
    requires Anchored(mark) && lines != [] && Blank(lines[|lines| - 1])
    ensures mark(Closing(lines, line)) == End
  {
    FixTextMatches(lines, line, "cci-ignore-end");
    BlankPrefix(lines[|lines| - 1], IndentAt(lines, line) + END_TEXT);
    assert Matches(Closing(lines, line), "cci-ignore-end");
  }

  lemma ClosedMarkers(lines: seq<string>, first: uint32, a: string, mark: string -> Marker)
    requires lines != [] && first < |lines| && mark("") == Plain && mark(a) == Start
    ensures Markers(Inserted(Appended(lines, IndentAt(lines, first) + END_TEXT), first, a), mark)
            == Inserted(Closed(Markers(lines, mark), mark(Closing(lines, first))), first, Start)
  {
    var appended := Appended(lines, IndentAt(lines, first) + END_TEXT);
    MarkersInserted(appended, first, a, mark);
    assert Markers(appended, mark) == Closed(Markers(lines, mark), mark(Closing(lines, first)));
  }

  /** Applied to a range that ends on the last line, the two edits make this document out of the old one:
      the closing comment runs on from the last line. */
  lemma IgnoreRangeAppends(lines: seq<string>, range: Range, edits: seq<Change>, mark: string -> Marker)
    requires Anchored(mark) && Lines(lines) && edits == IgnoreRange(lines, range).edits
    requires range.start.line < range.end.line == |lines| - 1 && |lines| < UINT32_LIMIT
    ensures var indent := IndentAt(lines, range.start.line);
            ApplyEdits(lines, edits)
            == Inserted(Appended(lines, indent + END_TEXT), range.start.line, indent + START_TEXT)
    ensures Markers(ApplyEdits(lines, edits), mark)
            == Inserted(Closed(Markers(lines, mark), mark(Closing(lines, range.start.line))), range.start.line, Start)
  {
    var a, b := RangeEdits(lines, range, mark);
    AppendAndInsert(lines, range.start.line, range.end.line + 1, edits, a, b);
    ClosedMarkers(lines, range.start.line, a, mark);
  }

  /** What the whole fix suppresses, told from the text before it. */
  ghost predicate SuppressedAfterRange(lines: seq<string>, range: Range, line: nat, mark: string -> Marker)
    requires range.start.line < range.end.line < |lines| && line < |lines|
  {
    if range.end.line + 1 < |lines| then
      SuppressedAfterFix(Markers(lines, mark), range.start.line, range.end.line, line)
    else
      SuppressedAfterStart(Closed(Markers(lines, mark), mark(Closing(lines, range.start.line))), range.start.line, line)
  }

  /** The line was suppressed, and is no longer when the last line of the document reads as `closing`. */
  ghost predicate LostAtEnd(doc: seq<Marker>, first: nat, closing: Marker, line: nat)
    requires first + 1 < |doc| && line < |doc|
  {
    (Flagged(doc, line) || InBracket(doc, line)) && !SuppressedAfterStart(Closed(doc, closing), first, line)
  }

  /** The line loses its suppression to the fix, told from the text before it. */
  ghost predicate Lost(lines: seq<string>, range: Range, line: nat, mark: string -> Marker)
    requires range.start.line < range.end.line < |lines| && line < |lines|
  {
    if range.end.line + 1 < |lines| then
      Uncovered(Markers(lines, mark), range.end.line, line)
    else
      LostAtEnd(Markers(lines, mark), range.start.line, mark(Closing(lines, range.start.line)), line)
  }

  /** After the fix the line is suppressed as told from the text before, and loses its suppression
      exactly as told from it. */
  ghost predicate RangeExact(lines: seq<string>, range: Range, after: seq<Marker>, line: uint32, mark: string -> Marker)
    requires |lines| + 2 < UINT32_LIMIT && range.start.line < range.end.line < |lines| && line < |lines|
  {
    && |after| == |lines| + 2
    && (Suppressed(after, Shift2(range.start.line, range.end.line, line))
        <==> SuppressedAfterRange(lines, range, line, mark))
    && (TakenAway(Markers(lines, mark), range, after, line) <==> Lost(lines, range, line, mark))
  }

  ghost predicate TakenAway(doc: seq<Marker>, range: Range, after: seq<Marker>, line: uint32)
    requires |doc| + 2 == |after| < UINT32_LIMIT
  {
    && line < |doc| && Suppressed(doc, line)
    && !Suppressed(after, Shift2(range.start.line, range.end.line, line))
  }

  lemma RangeWithinIsExact(lines: seq<string>, range: Range, after: seq<Marker>, line: uint32, mark: string -> Marker)
    requires |lines| + 2 < UINT32_LIMIT && line < |lines|
    requires range.start.line < range.end.line && range.end.line + 1 < |lines|
    requires after == Wrapped(Markers(lines, mark), range.start.line, range.end.line)
    ensures RangeExact(lines, range, after, line, mark)
  {
    RangeEffect(Markers(lines, mark), range.start.line, range.end.line, line);
    LosesIffUncovered(Markers(lines, mark), range.start.line, range.end.line, line);
  }

  lemma RangeAtEndIsExact(lines: seq<string>, range: Range, after: seq<Marker>, line: uint32, mark: string -> Marker)
    requires |lines| + 2 < UINT32_LIMIT && line < |lines|
    requires range.start.line < range.end.line == |lines| - 1
    requires after == Inserted(Closed(Markers(lines, mark), mark(Closing(lines, range.start.line))),
                               range.start.line, Start)
    ensures RangeExact(lines, range, after, line, mark)
  {
    StartEffect(Closed(Markers(lines, mark), mark(Closing(lines, range.start.line))), range.start.line, line);
    SuppressedInDoc(Markers(lines, mark), line);
  }

  /** The exact effect of "Ignore this range", applied by the client, on every line of every document. */
  lemma IgnoreRangeExact(lines: seq<string>, range: Range, edits: seq<Change>, line: uint32, mark: string -> Marker)
    requires Anchored(mark) && Lines(lines) && |lines| + 2 < UINT32_LIMIT
    requires edits == IgnoreRange(lines, range).edits
    requires range.start.line < range.end.line < |lines| && line < |lines|
    ensures RangeExact(lines, range, Markers(ApplyEdits(lines, edits), mark), line, mark)
  {
    var after := Markers(ApplyEdits(lines, edits), mark);
    if range.end.line + 1 < |lines| {
      IgnoreRangeInserts(lines, range, edits, mark);
      RangeWithinIsExact(lines, range, after, line, mark);
    } else {
      IgnoreRangeAppends(lines, range, edits, mark);
      RangeAtEndIsExact(lines, range, after, line, mark);
    }
  }

  lemma KeepsFromExact(lines: seq<string>, range: Range, after: seq<Marker>, mark: string -> Marker)
    requires range.start.line < range.end.line < |lines| && |lines| + 2 == |after| < UINT32_LIMIT
    requires forall line: uint32 :: line < |lines| ==> RangeExact(lines, range, after, line, mark)
    ensures (exists line :: TakenAway(Markers(lines, mark), range, after, line))
            <==> exists line: nat :: line < |lines| && Lost(lines, range, line, mark)
  {
    if line: uint32 :| TakenAway(Markers(lines, mark), range, after, line) {
      assert RangeExact(lines, range, after, line, mark);
    }
    if line: nat :| line < |lines| && Lost(lines, range, line, mark) {
      assert RangeExact(lines, range, after, line, mark);
    }
  }

  /** "Ignore this range" takes the suppression from no line of the document, wherever the range ends in
      it, if and only if none is lost as told from the text before. */
  lemma IgnoreRangeKeepsIff(lines: seq<string>, range: Range, edits: seq<Change>, mark: string -> Marker)
    requires Anchored(mark) && Lines(lines) && |lines| + 2 < UINT32_LIMIT
    requires edits == IgnoreRange(lines, range).edits && range.start.line < range.end.line < |lines|
    ensures var after := Markers(ApplyEdits(lines, edits), mark);
            && |after| == |lines| + 2
            && ((exists line :: TakenAway(Markers(lines, mark), range, after, line))
                <==> exists line: nat :: line < |lines| && Lost(lines, range, line, mark))
  {
    var after := Markers(ApplyEdits(lines, edits), mark);
    IgnoreRangeExact(lines, range, edits, 0, mark);
    forall line: uint32 | line < |lines|
      ensures RangeExact(lines, range, after, line, mark)
    {
      IgnoreRangeExact(lines, range, edits, line, mark);
    }
    KeepsFromExact(lines, range, after, mark);
  }

  lemma ClosedBrackets(doc: seq<Marker>, first: nat, closing: Marker, line: nat)
    requires first + 1 < |doc| && line < |doc| && InBracket(doc, line)
    requires closing == doc[|doc| - 1] || doc[|doc| - 1] != End
    ensures SuppressedAfterStart(Closed(doc, closing), first, line)
  {
    var closed := Closed(doc, closing);
    assert forall k :: 0 <= k < |doc| - 1 ==> closed[k] == doc[k];
    var s: nat, e: nat :| BracketOf(doc, line, s, e);
    assert closed[e] == End;
    if line < first {
      assert BracketOf(closed, line, s, e);
    } else {
      assert s >= first && s < |doc| - 1 ==> StartsFor(closed, line, s);
    }
  }

  lemma ClosedFile(doc: seq<Marker>, closing: Marker)
    requires doc != [] && File in doc && (closing == doc[|doc| - 1] || doc[|doc| - 1] != File)
    ensures File in Closed(doc, closing)
  {
    var closed := Closed(doc, closing);
    var k :| 0 <= k < |doc| && doc[k] == File;
    assert closed[k] == File;
  }

  /** When the last line keeps its marker, or holds none that the closing comment could spoil, only the
      first line can lose its suppression: if it came from a next-line marker in front of it. */
  lemma LostAtEndOnlyFirst(doc: seq<Marker>, first: nat, closing: Marker, line: nat)
    requires first + 1 < |doc| && line < |doc|
    requires var last := doc[|doc| - 1]; closing == last || (last != File && last != Inline && last != End)
    ensures LostAtEnd(doc, first, closing, line)
            <==> line == first && first > 0 && doc[first - 1] == NextLine && !FirstSuppressed(doc, first, closing)
  {
    FirstOfClosed(doc, first, closing);
    if InBracket(doc, line) {
      ClosedBrackets(doc, first, closing, line);
    }
    if File in doc {
      ClosedFile(doc, closing);
    }
  }

  lemma FirstFromExact(lines: seq<string>, range: Range, after: seq<Marker>, mark: string -> Marker)
    requires |lines| + 2 < UINT32_LIMIT && range.start.line < range.end.line < |lines|
    requires RangeExact(lines, range, after, range.start.line, mark)
    ensures var first := range.start.line;
            Suppressed(after, first + 1)
            <==> range.end.line + 1 < |lines|
                 || FirstSuppressed(Markers(lines, mark), first, mark(Closing(lines, first)))
  {
    var doc, first := Markers(lines, mark), range.start.line;
    assert Suppressed(after, first + 1) <==> SuppressedAfterRange(lines, range, first, mark);
    if range.end.line + 1 < |lines| {
      assert StartedWithin(doc, first, first);
    } else {
      FirstOfClosed(doc, first, mark(Closing(lines, first)));
    }
  }

  /** "Ignore this range" suppresses the line the diagnostic starts on, whatever markers the document
      holds, if and only if a line stands behind the range, or the last line with the closing comment
      appended to it is an end marker, or another marker does it. */
  lemma IgnoreRangeWorks(lines: seq<string>, range: Range, edits: seq<Change>, mark: string -> Marker)
    requires Anchored(mark) && Lines(lines) && |lines| + 2 < UINT32_LIMIT
    requires edits == IgnoreRange(lines, range).edits && range.start.line < range.end.line < |lines|
    ensures var first, after := range.start.line, Markers(ApplyEdits(lines, edits), mark);
            && |after| == |lines| + 2
            && (Suppressed(after, first + 1)
                <==> range.end.line + 1 < |lines|
                     || FirstSuppressed(Markers(lines, mark), first, mark(Closing(lines, first))))
  {
    IgnoreRangeExact(lines, range, edits, range.start.line, mark);
    FirstFromExact(lines, range, Markers(ApplyEdits(lines, edits), mark), mark);
  }

  // Text in front of the '#' keeps the anchored patterns from matching.
  lemma TextIsNoComment(blank: string, text: string, word: string)
    requires Blank(blank) && text != [] && !IsSpace(text[0]) && text[0] != '#'
    ensures !Matches(blank + text, word)
  {
    BlankPrefix(blank, text);
  }

  lemma ReadsText(mark: string -> Marker, other: string -> Marker, blank: string, text: string)
    requires Blank(blank) && text != [] && !IsSpace(text[0]) && text[0] != '#' && Extends(mark, other)
    ensures mark(blank + text) == other(blank + text)
  {
    TextIsNoComment(blank, text, "cci-ignore-file");
    TextIsNoComment(blank, text, "cci-ignore-next-line");
    TextIsNoComment(blank, text, "cci-ignore-start");
    TextIsNoComment(blank, text, "cci-ignore-end");
  }

  const UNCLOSED_LINES: seq<string> := ["a:", "b"]
  const UNCLOSED_RANGE := Range(Position(0, 0), Position(1, 1))

  function AlwaysPlain(s: string): Marker {
    Plain
  }

  lemma UnclosedReading() returns (mark: string -> Marker)
    ensures Anchored(mark) && mark("a:") == mark("b") == Plain
    ensures Closing(UNCLOSED_LINES, 0) == "b# cci-ignore-end" && mark(Closing(UNCLOSED_LINES, 0)) == Plain
  {
    mark := AnchoredReading(AlwaysPlain);
    ReadsBare(mark, "a:");
    ReadsBare(mark, "b");
    ReadsBare(mark, "b# cci-ignore-end");
    UnclosedClosing();
  }

  lemma ReadsBare(mark: string -> Marker, text: string)
    requires text != [] && !IsSpace(text[0]) && text[0] != '#' && Extends(mark, AlwaysPlain)
    ensures mark(text) == Plain
  {
    ReadsText(mark, AlwaysPlain, "", text);
    assert "" + text == text;
  }

  lemma UnclosedClosing()
    ensures Closing(UNCLOSED_LINES, 0) == "b# cci-ignore-end"
  {
    assert Indent("a:") == "";
  }

  lemma ClosingIsNoComment() returns (mark: string -> Marker)
    ensures Anchored(mark) && Closing(UNCLOSED_LINES, 0) == "b# cci-ignore-end"
    ensures !FirstSuppressed(Markers(UNCLOSED_LINES, mark), 0, mark(Closing(UNCLOSED_LINES, 0)))
    ensures !SuppressedAfterRange(UNCLOSED_LINES, UNCLOSED_RANGE, 0, mark)
    ensures !SuppressedAfterRange(UNCLOSED_LINES, UNCLOSED_RANGE, 1, mark)
  {
    mark := UnclosedReading();
    var doc := Markers(UNCLOSED_LINES, mark);
    assert doc == [Plain, Plain];
    FirstOfClosed(doc, 0, Plain);
    assert Closed(doc, Plain) == [Plain, Plain, Plain];
  }

  /** It fails, for one, on a last line behind which the closing comment is none: nothing at all is
      suppressed there. */
  lemma RangeAtEndMayFail(edits: seq<Change>) returns (mark: string -> Marker)
    requires edits == IgnoreRange(UNCLOSED_LINES, UNCLOSED_RANGE).edits
    ensures Anchored(mark)
    ensures var after := Markers(ApplyEdits(UNCLOSED_LINES, edits), mark);
            |after| == 4 && !Suppressed(after, 1) && !Suppressed(after, 2)
  {
    mark := ClosingIsNoComment();
    IgnoreRangeExact(UNCLOSED_LINES, UNCLOSED_RANGE, edits, 0, mark);
    IgnoreRangeExact(UNCLOSED_LINES, UNCLOSED_RANGE, edits, 1, mark);
  }

  const SPOILED_LINES: seq<string> := ["a:", "  " + "b: 1 # cci-ignore"]
  const SPOILED_RANGE := Range(Position(0, 0), Position(1, 8))

  // An inline marker at the end of a line, behind one blank.
  predicate EndsInline(s: string) {
    |s| >= 12 && s[|s| - 12..] == "# cci-ignore"
  }

  lemma SpoiledClosing()
    ensures Closing(SPOILED_LINES, 0) == "  " + "b: 1 # cci-ignore# cci-ignore-end"
  {
    assert Indent("a:") == "";
  }

  lemma SpoiledEnds()
    ensures EndsInline("  " + "b: 1 # cci-ignore") && !EndsInline("  " + "b: 1 # cci-ignore# cci-ignore-end")
  {
    var row, closing := "  " + "b: 1 # cci-ignore", "  " + "b: 1 # cci-ignore# cci-ignore-end";
    assert row[|row| - 12..] == "# cci-ignore";
    assert closing[|closing| - 12..][11] == 'd';
  }

  function InlineOrPlain(s: string): Marker {
    if EndsInline(s) then Inline else Plain
  }

  lemma ReadsSpoiled(mark: string -> Marker)
    requires Extends(mark, InlineOrPlain)
    ensures mark("  " + "b: 1 # cci-ignore") == Inline
    ensures mark("  " + "b: 1 # cci-ignore# cci-ignore-end") == Plain
  {
    SpoiledEnds();
    ReadsText(mark, InlineOrPlain, "  ", "b: 1 # cci-ignore");
    ReadsText(mark, InlineOrPlain, "  ", "b: 1 # cci-ignore# cci-ignore-end");
  }

  lemma ReadsKey(mark: string -> Marker)
    requires Extends(mark, InlineOrPlain)
    ensures mark("a:") == Plain
  {
    ReadsText(mark, InlineOrPlain, "", "a:");
    assert "" + "a:" == "a:";
  }

  lemma SpoiledReading() returns (mark: string -> Marker)
    ensures Anchored(mark) && mark(SPOILED_LINES[0]) == Plain && mark(SPOILED_LINES[1]) == Inline
    ensures mark(Closing(SPOILED_LINES, 0)) == Plain
  {
    mark := AnchoredReading(InlineOrPlain);
    ReadsKey(mark);
    ReadsSpoiled(mark);
    SpoiledClosing();
  }

  lemma InlineIsLost(mark: string -> Marker)
    requires mark(SPOILED_LINES[0]) == Plain && mark(SPOILED_LINES[1]) == Inline
    requires mark(Closing(SPOILED_LINES, 0)) == Plain
    ensures Lost(SPOILED_LINES, SPOILED_RANGE, 1, mark)
  {
    var doc := Markers(SPOILED_LINES, mark);
    assert doc == [Plain, Inline] && Closed(doc, Plain) == [Plain, Plain, Plain];
  }

  /** The closing comment can spoil the marker it is appended to: the last line loses its suppression. */
  lemma RangeAtEndMayUncover(edits: seq<Change>) returns (mark: string -> Marker)
    requires edits == IgnoreRange(SPOILED_LINES, SPOILED_RANGE).edits
    ensures Anchored(mark)
    ensures var after := Markers(ApplyEdits(SPOILED_LINES, edits), mark);
            |after| == 4 && Suppressed(Markers(SPOILED_LINES, mark), 1) && !Suppressed(after, 2)
  {
    mark := SpoiledReading();
    InlineIsLost(mark);
    IgnoreRangeExact(SPOILED_LINES, SPOILED_RANGE, edits, 1, mark);
    assert TakenAway(Markers(SPOILED_LINES, mark), SPOILED_RANGE, Markers(ApplyEdits(SPOILED_LINES, edits), mark), 1);
  }

  // ---------- the inline comment ----------

  function Least(a: nat, b: nat): nat {
    if a < b then a else b
  }

  /** The row after the inline comment is written one column behind `end`, over as many columns as it has. */
  function WithInline(row: string, end: nat): string {
    row[..Least(end + 1, |row|)] + " # cci-ignore" + row[Least(end + 1 + |" # cci-ignore"|, |row|)..]
  }

  lemma {:induction false} InlineHasNoBreak(row: string, end: nat)
    requires '\n' !in row
    ensures '\n' !in WithInline(row, end)
  {
    assert '\n' !in " # cci-ignore";
  }

  /** The inline fix writes its comment into the diagnostic's line and leaves all others as they are. */
  lemma InlineWrites(lines: seq<string>, range: Range, edits: seq<Change>)
    requires Lines(lines) && edits == IgnoreInline(range).edits
    requires range.start.line < |lines| && range.end.character + 14 < UINT32_LIMIT
    ensures var at := range.start.line;
            ApplyEdits(lines, edits) == lines[at := WithInline(lines[at], range.end.character)]
  {
    var at, end := range.start.line, range.end.character;
    var row := lines[at];
    InlineHasNoBreak(row, end);
    SplitPlain(WithInline(row, end));
    OneEdit(lines, edits[0]);
    assert ClientApply(lines, edits[0]) == lines[..at] + [WithInline(row, end)] + lines[at + 1..];
  }

  lemma InlineSuppresses(lines: seq<string>, at: uint32, row: string, mark: string -> Marker)
    requires at < |lines| < UINT32_LIMIT && mark(row) == Inline
    ensures Suppressed(Markers(lines[at := row], mark), at)
  {
    SuppressedInDoc(Markers(lines[at := row], mark), at);
  }

  /** What the inline fix does: on a line that ends at most one column behind the diagnostic it appends the
      comment; and when the line then reads as an inline marker, it is suppressed. */
  ghost predicate InlineFixWorks(lines: seq<string>, range: Range, edits: seq<Change>, mark: string -> Marker)
    requires range.start.line < |lines| < UINT32_LIMIT
  {
    var at, end := range.start.line, range.end.character;
    var after := ApplyEdits(lines, edits);
    && |after| == |lines| && (forall k :: 0 <= k < |lines| && k != at ==> after[k] == lines[k])
    && after[at] == WithInline(lines[at], end)
    && (|lines[at]| <= end + 1 ==> after[at] == lines[at] + " # cci-ignore")
    && (mark(after[at]) == Inline ==> Suppressed(Markers(after, mark), at))
  }

  lemma InlineIsWritten(lines: seq<string>, range: Range, edits: seq<Change>, mark: string -> Marker)
    requires Lines(lines) && edits == IgnoreInline(range).edits
    requires range.start.line < |lines| < UINT32_LIMIT && range.end.character + 14 < UINT32_LIMIT
    ensures InlineFixWorks(lines, range, edits, mark)
  {
    var at, end := range.start.line, range.end.character;
    InlineWrites(lines, range, edits);
    var row := WithInline(lines[at], end);
    if mark(row) == Inline {
      InlineSuppresses(lines, at, row, mark);
    }
  }

  // ---------- the actions that are returned ----------

  ghost predicate LineFixWorks(lines: seq<string>, range: Range, edits: seq<Change>, line: uint32,
                               mark: string -> Marker)
    requires range.start.line < |lines| && |lines| + 1 < UINT32_LIMIT
  {
    var at, after := range.start.line, ApplyEdits(lines, edits);
    && after == Inserted(lines, at, Indent(lines[at]) + "# cci-ignore-next-line")
    && (line < |lines| ==> (Suppressed(Markers(after, mark), Shift(at, line))
                            <==> Suppressed(Markers(lines, mark), line) || line == at))
  }

  ghost predicate FileFixWorks(lines: seq<string>, edits: seq<Change>, line: uint32, mark: string -> Marker)
    requires lines != [] && |lines| + 1 < UINT32_LIMIT
  {
    var after := ApplyEdits(lines, edits);
    after == Inserted(lines, 0, "# cci-ignore-file") && Suppressed(Markers(after, mark), line)
  }

  ghost predicate RangeFixWorks(lines: seq<string>, range: Range, edits: seq<Change>, line: uint32,
                                mark: string -> Marker)
    requires |lines| + 2 < UINT32_LIMIT && range.start.line < range.end.line < |lines|
  {
    line < |lines| ==> RangeExact(lines, range, Markers(ApplyEdits(lines, edits), mark), line, mark)
  }

  lemma NextLineWritten(lines: seq<string>, at: uint32)
    requires at < |lines|
    ensures IndentAt(lines, at) + NEXT_LINE_TEXT == Indent(lines[at]) + "# cci-ignore-next-line"
  {
    assert NEXT_LINE_TEXT == "# cci-ignore-next-line";
  }

  lemma LineFix(lines: seq<string>, range: Range, edits: seq<Change>, line: uint32, mark: string -> Marker)
    requires Anchored(mark) && Lines(lines) && |lines| + 1 < UINT32_LIMIT
    requires range.start.line < |lines| && edits == IgnoreLine(lines, range).edits
    ensures LineFixWorks(lines, range, edits, line, mark)
  {
    IgnoreLineWorks(lines, range, edits, if line < |lines| then line else 0, mark);
    NextLineWritten(lines, range.start.line);
  }

  lemma FileFix(lines: seq<string>, edits: seq<Change>, line: uint32, mark: string -> Marker)
    requires Anchored(mark) && Lines(lines) && |lines| + 1 < UINT32_LIMIT && edits == IGNORE_FILE.edits
    ensures FileFixWorks(lines, edits, line, mark)
  {
    IgnoreFileWorks(lines, line, mark);
    assert FILE_TEXT == "# cci-ignore-file";
  }

  /** The first action, applied by a client, suppresses the diagnostic's line and no other. */
  ghost predicate FirstWorks(lines: seq<string>, range: Range, action: CodeAction, mark: string -> Marker)
    requires range.start.line < |lines| && |lines| + 1 < UINT32_LIMIT
  {
    && action.title == "Ignore this line" && !action.isPreferred
    && forall line: uint32 :: LineFixWorks(lines, range, action.edits, line, mark)
  }

  /** The second one writes an inline comment for a diagnostic within a line, and wraps the range of any
      other with the effect told by RangeExact. */
  ghost predicate SecondWorks(lines: seq<string>, range: Range, action: CodeAction, mark: string -> Marker)
    requires range.start.line <= range.end.line < |lines| && |lines| + 2 < UINT32_LIMIT
  {
    && !action.isPreferred
    && if range.start.line == range.end.line then
         && action.title == "Ignore this line (inline)"
         && (range.end.character + 14 < UINT32_LIMIT ==> InlineFixWorks(lines, range, action.edits, mark))
       else
         && action.title == "Ignore this range"
         && forall line: uint32 :: RangeFixWorks(lines, range, action.edits, line, mark)
  }

  /** The third one suppresses every line. */
  ghost predicate ThirdWorks(lines: seq<string>, action: CodeAction, mark: string -> Marker)
    requires lines != [] && |lines| + 1 < UINT32_LIMIT
  {
    && action.title == "Ignore all errors in this file" && !action.isPreferred
    && forall line: uint32 :: FileFixWorks(lines, action.edits, line, mark)
  }

  lemma FirstDoes(lines: seq<string>, range: Range, action: CodeAction, mark: string -> Marker)
    requires Anchored(mark) && Lines(lines) && |lines| + 1 < UINT32_LIMIT
    requires range.start.line < |lines| && action == Fixes(lines, range)[0]
    ensures FirstWorks(lines, range, action, mark)
  {
    forall line: uint32
      ensures LineFixWorks(lines, range, action.edits, line, mark)
    {
      LineFix(lines, range, action.edits, line, mark);
    }
  }

  lemma SecondDoes(lines: seq<string>, range: Range, action: CodeAction, mark: string -> Marker)
    requires Anchored(mark) && Lines(lines) && |lines| + 2 < UINT32_LIMIT
    requires range.start.line <= range.end.line < |lines| && action == Fixes(lines, range)[1]
    ensures SecondWorks(lines, range, action, mark)
  {
    if range.start.line == range.end.line {
      if range.end.character + 14 < UINT32_LIMIT {
        InlineIsWritten(lines, range, action.edits, mark);
      }
    } else {
      forall line: uint32
        ensures RangeFixWorks(lines, range, action.edits, line, mark)
      {
        if line < |lines| {
          IgnoreRangeExact(lines, range, action.edits, line, mark);
        }
      }
    }
  }

  lemma ThirdDoes(lines: seq<string>, range: Range, action: CodeAction, mark: string -> Marker)
    requires Anchored(mark) && Lines(lines) && |lines| + 1 < UINT32_LIMIT && action == Fixes(lines, range)[2]
    ensures ThirdWorks(lines, action, mark)
  {
    forall line: uint32
      ensures FileFixWorks(lines, action.edits, line, mark)
    {
      FileFix(lines, action.edits, line, mark);
    }
  }

  /** The three actions added to a diagnostic of the document do what their titles say. */
  lemma AddedActionsWork(content: string, before: Annotated, after: Annotated, mark: string -> Marker)
    requires Anchored(mark) && |Split(content)| + 2 < UINT32_LIMIT && Annotates(Split(content), before, after)
    requires before.diagnostic.range.start.line <= before.diagnostic.range.end.line < |Split(content)|
    ensures after.data.Actions? && |after.data.actions| == |ActionsOf(before.data)| + 3
    ensures ActionsOf(before.data) <= after.data.actions
    ensures var lines, range := Split(content), before.diagnostic.range;
            var added := after.data.actions[|ActionsOf(before.data)|..];
            && FirstWorks(lines, range, added[0], mark)
            && SecondWorks(lines, range, added[1], mark)
            && ThirdWorks(lines, added[2], mark)
  {
    var lines, range := Split(content), before.diagnostic.range;
    SplitJoins(content);
    var added := after.data.actions[|ActionsOf(before.data)|..];
    assert added == Fixes(lines, range);
    FirstDoes(lines, range, added[0], mark);
    SecondDoes(lines, range, added[1], mark);
    ThirdDoes(lines, range, added[2], mark);
  }
}
