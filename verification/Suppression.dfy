// The cci-ignore comments: pkg/parser/suppression.go.
//
// A comment is taken as its line and the marker it matches. No comment matches two of the patterns,
// and a line holds at most one comment.

module Suppression {
  import opened Common
  import opened Positions

  datatype Marker = File | Inline | NextLine | Start | End | Plain

  datatype Comment = Comment(line: uint32, marker: Marker)

  datatype SuppressionRange = SuppressionRange(startLine: uint32, endLine: uint32)

  datatype SuppressionInfo = SuppressionInfo(
    fileWide: bool, lines: set<uint32>, ranges: seq<SuppressionRange>)

  // The three diagnostics the scanner itself reports, each with the line it is reported at.
  datatype MarkerError = NestedStart(line: uint32) | EndWithoutStart(line: uint32) | MissingEnd(line: uint32)

  // ---------- the scanner ----------

  datatype Scan = Scan(info: SuppressionInfo, isRangeOpen: bool, startLine: uint32, errors: seq<MarkerError>)

  const NOTHING := Scan(SuppressionInfo(false, {}, []), false, 0, [])

  /** One comment: uint32 arithmetic makes the line after the last one line 0. */
  function Step(s: Scan, c: Comment): Scan {
    match c.marker
    case File => s.(info := s.info.(fileWide := true))
    case Inline => s.(info := s.info.(lines := s.info.lines + {c.line}))
    case NextLine => s.(info := s.info.(lines := s.info.lines + {Wrap(c.line + 1)}))
    case Start =>
      if s.isRangeOpen then s.(errors := s.errors + [NestedStart(c.line)])
      else s.(isRangeOpen := true, startLine := c.line)
    case End =>
      if !s.isRangeOpen then s.(errors := s.errors + [EndWithoutStart(c.line)])
      else s.(isRangeOpen := false,
              info := s.info.(ranges := s.info.ranges + [SuppressionRange(s.startLine, c.line)]))
    case Plain => s
  }

  function ScanAll(comments: seq<Comment>): Scan {
    if comments == [] then NOTHING
    else Step(ScanAll(comments[..|comments| - 1]), comments[|comments| - 1])
  }

  function Parse(comments: seq<Comment>): SuppressionInfo {
    ScanAll(comments).info
  }

  function Errors(comments: seq<Comment>): seq<MarkerError> {
    var s := ScanAll(comments);
    s.errors + if s.isRangeOpen then [MissingEnd(s.startLine)] else []
  }

  method ParseSuppressionComments(comments: seq<Comment>)
    returns (info: SuppressionInfo, errors: seq<MarkerError>)
    ensures info == Parse(comments) && errors == Errors(comments)
  {
    var fileWide, lines, ranges := false, {}, [];
    var isRangeOpen := false;
    var startLine: uint32 := 0;
    errors := [];
    for i := 0 to |comments|
      invariant ScanAll(comments[..i])
                == Scan(SuppressionInfo(fileWide, lines, ranges), isRangeOpen, startLine, errors)
    {
      assert comments[..i + 1][..i] == comments[..i];
      var c := comments[i];
      if c.marker == File {
        fileWide := true;
        continue;
      }
      if c.marker == Inline {
        lines := lines + {c.line};
      }
      if c.marker == NextLine {
        lines := lines + {Wrap(c.line + 1)};
      }
      if c.marker == Start {
        if isRangeOpen {
          errors := errors + [NestedStart(c.line)];
          continue;
        }
        isRangeOpen := true;
        startLine := c.line;
      }
      if c.marker == End {
        if !isRangeOpen {
          errors := errors + [EndWithoutStart(c.line)];
          continue;
        }
        isRangeOpen := false;
        ranges := ranges + [SuppressionRange(startLine, c.line)];
      }
    }
    assert comments[..|comments|] == comments;
    if isRangeOpen {
      errors := errors + [MissingEnd(startLine)];
    }
    info := SuppressionInfo(fileWide, lines, ranges);
  }

  // ---------- the judgement on a diagnostic ----------

  predicate Overlaps(r: SuppressionRange, line: uint32) {
    r.startLine <= line && r.endLine >= line
  }

  /** A diagnostic is judged by the line it starts on. */
  predicate IsSuppressed(info: SuppressionInfo, line: uint32) {
    info.fileWide || line in info.lines || exists r :: r in info.ranges && Overlaps(r, line)
  }

  method IsDiagnosticSuppressed(given: Option<SuppressionInfo>, diagnostic: Diagnostic) returns (suppressed: bool)
    ensures suppressed <==> given.Some? && IsSuppressed(given.value, diagnostic.range.start.line)
  {
    if given.None? {
      return false;
    }
    var info := given.value;
    if info.fileWide {
      return true;
    }
    if diagnostic.range.start.line in info.lines {
      return true;
    }
    for i := 0 to |info.ranges|
      invariant forall k :: 0 <= k < i ==> !Overlaps(info.ranges[k], diagnostic.range.start.line)
    {
      if Overlaps(info.ranges[i], diagnostic.range.start.line) {
        return true;
      }
    }
    return false;
  }

  /** The diagnostics that are kept, in order. */
  function Kept(diagnostics: seq<Diagnostic>, info: SuppressionInfo): seq<Diagnostic> {
    if diagnostics == [] then []
    else
      var last := diagnostics[|diagnostics| - 1];
      Kept(diagnostics[..|diagnostics| - 1], info)
      + if IsSuppressed(info, last.range.start.line) then [] else [last]
  }

  method FilterSuppressedDiagnostics(diagnostics: seq<Diagnostic>, given: Option<SuppressionInfo>)
    returns (remaining: seq<Diagnostic>)
    ensures remaining == if given.Some? then Kept(diagnostics, given.value) else diagnostics
  {
    remaining := [];
    for i := 0 to |diagnostics|
      invariant remaining == if given.Some? then Kept(diagnostics[..i], given.value) else diagnostics[..i]
    {
      assert diagnostics[..i + 1][..i] == diagnostics[..i];
      var suppressed := IsDiagnosticSuppressed(given, diagnostics[i]);
      if !suppressed {
        remaining := remaining + [diagnostics[i]];
      }
    }
    assert diagnostics[..|diagnostics|] == diagnostics;
  }

  // ---------- the declarative rule ----------

  ghost predicate Ascending(comments: seq<Comment>) {
    forall i, j :: 0 <= i < j < |comments| ==> comments[i].line < comments[j].line
  }

  /** The comments bracket the line: a start at or before it, an end at or after it, and no end
      strictly in between the start and the line. */
  ghost predicate BracketedBy(comments: seq<Comment>, line: uint32, i: nat, j: nat) {
    && i < |comments| && comments[i].marker == Start && comments[i].line <= line
    && j < |comments| && comments[j].marker == End && line <= comments[j].line
    && forall k :: 0 <= k < |comments| && comments[k].marker == End
                   ==> !(comments[i].line < comments[k].line < line)
  }

  ghost predicate Bracketed(comments: seq<Comment>, line: uint32) {
    exists i: nat, j: nat :: BracketedBy(comments, line, i, j)
  }

  ghost predicate SuppressedByRule(comments: seq<Comment>, line: uint32) {
    || (exists c :: c in comments && c.marker == File)
    || (exists c :: c in comments && c.marker == Inline && c.line == line)
    || (exists c :: c in comments && c.marker == NextLine && Wrap(c.line + 1) == line)
    || Bracketed(comments, line)
  }

  ghost predicate InRanges(ranges: seq<SuppressionRange>, line: uint32) {
    exists r :: r in ranges && Overlaps(r, line)
  }

  // The part of the rule that does not concern ranges.
  lemma {:induction false} FlagsFollowRule(comments: seq<Comment>)
    ensures Parse(comments).fileWide <==> exists c :: c in comments && c.marker == File
    ensures forall line :: line in Parse(comments).lines <==>
              exists c :: c in comments
                          && ((c.marker == Inline && c.line == line)
                              || (c.marker == NextLine && Wrap(c.line + 1) == line))
  {
    if comments != [] {
      var shorter, last := comments[..|comments| - 1], comments[|comments| - 1];
      FlagsFollowRule(shorter);
      assert comments == shorter + [last];
      assert last in comments;
    }
  }

  /** Comment i is a start with no end behind it. */
  ghost predicate Unclosed(comments: seq<Comment>, i: nat) {
    && i < |comments| && comments[i].marker == Start
    && forall k :: i < k < |comments| ==> comments[k].marker != End
  }

  /** The scanner has a range open exactly when some start is unclosed; it holds the first of them. */
  ghost predicate OpenIsFirstUnclosed(comments: seq<Comment>, s: Scan) {
    && (s.isRangeOpen ==> exists i: nat :: Unclosed(comments, i) && comments[i].line == s.startLine)
    && forall i: nat :: Unclosed(comments, i) ==> s.isRangeOpen && s.startLine <= comments[i].line
  }

  lemma UnclosedAppend(comments: seq<Comment>, c: Comment, i: nat)
    ensures Unclosed(comments + [c], i)
            <==> (Unclosed(comments, i) && c.marker != End) || (i == |comments| && c.marker == Start)
  {
    var longer := comments + [c];
    assert longer[|comments|] == c;
    assert forall k :: 0 <= k < |comments| ==> longer[k] == comments[k];
  }

  lemma AscendingPrefix(comments: seq<Comment>)
    requires comments != [] && Ascending(comments)
    ensures Ascending(comments[..|comments| - 1])
    ensures forall k :: 0 <= k < |comments| - 1 ==> comments[k].line < comments[|comments| - 1].line
  {
  }

  // A start that stays unclosed, or becomes so, is a witness for the range being open.
  lemma StaysOpen(comments: seq<Comment>, before: Scan, c: Comment)
    requires OpenIsFirstUnclosed(comments, before) && Step(before, c).isRangeOpen
    ensures exists i: nat :: Unclosed(comments + [c], i)
                             && (comments + [c])[i].line == Step(before, c).startLine
  {
    var longer := comments + [c];
    if before.isRangeOpen {
      var i: nat :| Unclosed(comments, i) && comments[i].line == before.startLine;
      UnclosedAppend(comments, c, i);
      assert longer[i] == comments[i];
    } else {
      UnclosedAppend(comments, c, |comments|);
    }
  }

  lemma OpenStep(comments: seq<Comment>, before: Scan, c: Comment)
    requires OpenIsFirstUnclosed(comments, before)
    requires forall k :: 0 <= k < |comments| ==> comments[k].line < c.line
    ensures OpenIsFirstUnclosed(comments + [c], Step(before, c))
  {
    var longer, s := comments + [c], Step(before, c);
    if s.isRangeOpen {
      StaysOpen(comments, before, c);
    }
    forall i: nat | Unclosed(longer, i)
      ensures s.isRangeOpen && s.startLine <= longer[i].line
    {
      UnclosedAppend(comments, c, i);
      if i < |comments| {
        assert longer[i] == comments[i];
      } else if before.isRangeOpen {
        var k: nat :| Unclosed(comments, k) && comments[k].line == before.startLine;
      }
    }
  }

  lemma {:induction false} OpenMeansUnclosed(comments: seq<Comment>)
    requires Ascending(comments)
    ensures OpenIsFirstUnclosed(comments, ScanAll(comments))
  {
    if comments != [] {
      var shorter, c := comments[..|comments| - 1], comments[|comments| - 1];
      AscendingPrefix(comments);
      OpenMeansUnclosed(shorter);
      assert comments == shorter + [c];
      OpenStep(shorter, ScanAll(shorter), c);
    }
  }

  // An end behind a start that has one already brackets nothing new.
  lemma LaterEndAddsNothing(comments: seq<Comment>, line: uint32, i: nat, j: nat)
    requires Ascending(comments) && comments != []
    requires BracketedBy(comments, line, i, j) && j == |comments| - 1
    requires i < |comments| - 1 && !Unclosed(comments[..|comments| - 1], i)
    ensures Bracketed(comments[..|comments| - 1], line)
  {
    var shorter := comments[..|comments| - 1];
    var k: nat :| i < k < |shorter| && shorter[k].marker == End;
    assert comments[k] == shorter[k] && comments[i] == shorter[i];
    assert BracketedBy(shorter, line, i, k) by {
      assert forall n :: 0 <= n < |shorter| ==> shorter[n] == comments[n];
    }
  }

  lemma BracketedGrows(comments: seq<Comment>, line: uint32)
    requires Ascending(comments) && comments != [] && Bracketed(comments[..|comments| - 1], line)
    ensures Bracketed(comments, line)
  {
    var shorter := comments[..|comments| - 1];
    var i: nat, j: nat :| BracketedBy(shorter, line, i, j);
    assert forall n :: 0 <= n < |shorter| ==> shorter[n] == comments[n];
    assert BracketedBy(comments, line, i, j);
  }

  // The last comment brackets new lines only as the end of a range that was open.
  lemma BracketedBefore(comments: seq<Comment>, line: uint32)
    requires Ascending(comments) && comments != [] && Bracketed(comments, line)
    ensures var shorter, c := comments[..|comments| - 1], comments[|comments| - 1];
            var s := ScanAll(shorter);
            Bracketed(shorter, line)
            || (c.marker == End && s.isRangeOpen && s.startLine <= line <= c.line)
  {
    var shorter, c := comments[..|comments| - 1], comments[|comments| - 1];
    var i: nat, j: nat :| BracketedBy(comments, line, i, j);
    AscendingPrefix(comments);
    assert forall n :: 0 <= n < |shorter| ==> shorter[n] == comments[n];
    if j < |shorter| {
      assert BracketedBy(shorter, line, i, j);
    } else if Unclosed(shorter, i) {
      OpenMeansUnclosed(shorter);
    } else {
      LaterEndAddsNothing(comments, line, i, j);
    }
  }

  lemma ClosingBrackets(comments: seq<Comment>, line: uint32)
    requires Ascending(comments) && comments != []
    requires var s := ScanAll(comments[..|comments| - 1]);
             var c := comments[|comments| - 1];
             c.marker == End && s.isRangeOpen && s.startLine <= line <= c.line
    ensures Bracketed(comments, line)
  {
    var shorter := comments[..|comments| - 1];
    AscendingPrefix(comments);
    OpenMeansUnclosed(shorter);
    var i: nat :| Unclosed(shorter, i) && shorter[i].line == ScanAll(shorter).startLine;
    assert forall n :: 0 <= n < |shorter| ==> shorter[n] == comments[n];
    assert BracketedBy(comments, line, i, |comments| - 1);
  }

  lemma {:induction false} RangesFollowRule(comments: seq<Comment>, line: uint32)
    requires Ascending(comments)
    ensures InRanges(Parse(comments).ranges, line) <==> Bracketed(comments, line)
  {
    if comments == [] {
      assert !Bracketed(comments, line);
    } else {
      var shorter, c := comments[..|comments| - 1], comments[|comments| - 1];
      AscendingPrefix(comments);
      RangesFollowRule(shorter, line);
      var before, s := ScanAll(shorter), ScanAll(comments);
      if c.marker == End && before.isRangeOpen {
        RangesAppend(before.info.ranges, SuppressionRange(before.startLine, c.line), line);
        if before.startLine <= line <= c.line {
          ClosingBrackets(comments, line);
        }
      }
      if Bracketed(shorter, line) {
        BracketedGrows(comments, line);
      }
      if Bracketed(comments, line) {
        BracketedBefore(comments, line);
      }
    }
  }

  lemma RangesAppend(ranges: seq<SuppressionRange>, r: SuppressionRange, line: uint32)
    ensures InRanges(ranges + [r], line) <==> InRanges(ranges, line) || Overlaps(r, line)
  {
    assert r in ranges + [r];
    if InRanges(ranges, line) {
      var q :| q in ranges && Overlaps(q, line);
      assert q in ranges + [r];
    }
  }

  /** For comments on increasing lines, the scanner suppresses exactly the lines of the rule. */
  lemma ScannerFollowsRule(comments: seq<Comment>, line: uint32)
    requires Ascending(comments)
    ensures IsSuppressed(Parse(comments), line) <==> SuppressedByRule(comments, line)
  {
    FlagsFollowRule(comments);
    RangesFollowRule(comments, line);
    assert IsSuppressed(Parse(comments), line)
           <==> Parse(comments).fileWide || line in Parse(comments).lines
                || InRanges(Parse(comments).ranges, line);
  }

  /** What is left of the diagnostics is exactly what the rule does not suppress. */
  lemma {:induction false} KeptFollowsRule(diagnostics: seq<Diagnostic>, comments: seq<Comment>, d: Diagnostic)
    requires Ascending(comments)
    ensures d in Kept(diagnostics, Parse(comments))
            <==> d in diagnostics && !SuppressedByRule(comments, d.range.start.line)
  {
    if diagnostics != [] {
      var shorter, last := diagnostics[..|diagnostics| - 1], diagnostics[|diagnostics| - 1];
      KeptFollowsRule(shorter, comments, d);
      ScannerFollowsRule(comments, d.range.start.line);
      assert diagnostics == shorter + [last];
    }
  }

  // ---------- bookkeeping ----------

  function Count(comments: seq<Comment>, marker: Marker): nat {
    if comments == [] then 0
    else Count(comments[..|comments| - 1], marker) + if comments[|comments| - 1].marker == marker then 1 else 0
  }

  /** Every start and every end is accounted for, by a range or by an error: for any comments, in
      any order. */
  lemma {:induction false} MarkersAccountedFor(comments: seq<Comment>)
    ensures Count(comments, Start) + Count(comments, End)
            == 2 * |Parse(comments).ranges| + |Errors(comments)|
  {
    if comments != [] {
      MarkersAccountedFor(comments[..|comments| - 1]);
    }
  }

  ghost predicate WellFormed(ranges: seq<SuppressionRange>) {
    && (forall k :: 0 <= k < |ranges| ==> ranges[k].startLine < ranges[k].endLine)
    && forall i, j :: 0 <= i < j < |ranges| ==> ranges[i].endLine < ranges[j].startLine
  }

  /** Ranges come out non-empty, sorted and pairwise disjoint, and within the comments' lines. */
  lemma {:induction false} RangesWellFormed(comments: seq<Comment>)
    requires Ascending(comments)
    ensures var s := ScanAll(comments);
            && WellFormed(s.info.ranges)
            && (forall k :: 0 <= k < |s.info.ranges| ==>
                  comments != [] && s.info.ranges[k].endLine <= comments[|comments| - 1].line
                  && (s.isRangeOpen ==> s.info.ranges[k].endLine < s.startLine))
            && (s.isRangeOpen ==> comments != [] && s.startLine <= comments[|comments| - 1].line)
  {
    if comments != [] {
      AscendingPrefix(comments);
      RangesWellFormed(comments[..|comments| - 1]);
    }
  }

  // ---------- which diagnostics and errors ----------

  /** What is kept is what is not suppressed, each one once, in the order of the list. */
  lemma {:induction false} KeptAreListed(diagnostics: seq<Diagnostic>, info: SuppressionInfo) returns (at: seq<nat>)
    ensures Ascends(at) && |at| == |Kept(diagnostics, info)|
    ensures forall i :: 0 <= i < |at| ==> at[i] < |diagnostics| && diagnostics[at[i]] == Kept(diagnostics, info)[i]
    ensures forall k :: 0 <= k < |diagnostics| ==> (k in at <==> !IsSuppressed(info, diagnostics[k].range.start.line))
  {
    if diagnostics == [] {
      at := [];
    } else {
      var shorter, last := diagnostics[..|diagnostics| - 1], |diagnostics| - 1;
      at := KeptAreListed(shorter, info);
      assert forall k :: 0 <= k < last ==> shorter[k] == diagnostics[k];
      assert forall i :: 0 <= i < |at| ==> at[i] < last;
      if !IsSuppressed(info, diagnostics[last].range.start.line) {
        at := at + [last];
      }
    }
  }

  /** Some start before comment k has no end behind it up to there. */
  ghost predicate OpenBefore(comments: seq<Comment>, k: int) {
    exists i :: OpenedAt(comments, k, i)
  }

  ghost predicate OpenedAt(comments: seq<Comment>, k: int, i: int) {
    && 0 <= i < k <= |comments| && comments[i].marker == Start
    && forall j :: i < j < k ==> comments[j].marker != End
  }

  /** A start while a range is open, or an end while none is. */
  ghost predicate Offends(comments: seq<Comment>, k: int) {
    && 0 <= k < |comments|
    && ((comments[k].marker == Start && OpenBefore(comments, k))
        || (comments[k].marker == End && !OpenBefore(comments, k)))
  }

  predicate Complains(error: MarkerError, c: Comment) {
    error == if c.marker == Start then NestedStart(c.line) else EndWithoutStart(c.line)
  }

  lemma OpenedInPrefix(comments: seq<Comment>, n: nat, k: int, i: int)
    requires n <= |comments| && k <= n
    ensures OpenedAt(comments[..n], k, i) <==> OpenedAt(comments, k, i)
  {
  }

  lemma OpenInPrefix(comments: seq<Comment>, n: nat, k: int)
    requires n <= |comments| && k <= n
    ensures OpenBefore(comments[..n], k) <==> OpenBefore(comments, k)
  {
    forall i
      ensures OpenedAt(comments[..n], k, i) <==> OpenedAt(comments, k, i)
    {
      OpenedInPrefix(comments, n, k, i);
    }
  }

  lemma OpenStepsOn(comments: seq<Comment>, n: nat)
    requires n < |comments|
    ensures OpenBefore(comments, n + 1)
            <==> comments[n].marker == Start || (OpenBefore(comments, n) && comments[n].marker != End)
  {
    if comments[n].marker == Start {
      assert OpenedAt(comments, n + 1, n);
    }
    if OpenBefore(comments, n) && comments[n].marker != End {
      var i :| OpenedAt(comments, n, i);
      assert OpenedAt(comments, n + 1, i);
    }
    if OpenBefore(comments, n + 1) {
      var i :| OpenedAt(comments, n + 1, i);
      assert i < n ==> OpenedAt(comments, n, i);
    }
  }

  /** The scanner has a range open exactly when some start has no end behind it. */
  lemma {:induction false} OpenIffUnclosed(comments: seq<Comment>)
    ensures ScanAll(comments).isRangeOpen <==> OpenBefore(comments, |comments|)
  {
    if comments != [] {
      var n := |comments| - 1;
      OpenIffUnclosed(comments[..n]);
      OpenInPrefix(comments, n, n);
      OpenStepsOn(comments, n);
    }
  }

  /** Comment i opened the range that is open at the end. */
  ghost predicate OpensLast(comments: seq<Comment>, i: int) {
    OpenedAt(comments, |comments|, i) && !OpenBefore(comments, i)
  }

  lemma {:induction false} OpenStartLine(comments: seq<Comment>) returns (i: nat)
    requires ScanAll(comments).isRangeOpen
    ensures OpensLast(comments, i) && ScanAll(comments).startLine == comments[i].line
  {
    var n := |comments| - 1;
    var shorter := comments[..n];
    OpenIffUnclosed(shorter);
    OpenInPrefix(comments, n, n);
    if ScanAll(shorter).isRangeOpen {
      i := OpenStartLine(shorter);
      OpenedInPrefix(comments, n, n, i);
      OpenInPrefix(comments, n, i);
      assert OpenedAt(comments, |comments|, i);
    } else {
      i := n;
      assert OpenedAt(comments, |comments|, n);
    }
  }

  /** The errors are, in order and once each, those of the offending comments, each of its kind and at its
      line; and behind them one for the start of the range left open, if one is. */
  lemma {:induction false} ErrorsAreOffences(comments: seq<Comment>) returns (at: seq<nat>)
    ensures Ascends(at) && |at| == |ScanAll(comments).errors|
    ensures forall i :: 0 <= i < |at| ==>
              Offends(comments, at[i]) && Complains(ScanAll(comments).errors[i], comments[at[i]])
    ensures forall k :: Offends(comments, k) ==> k in at
  {
    if comments == [] {
      at := [];
    } else {
      var n := |comments| - 1;
      var shorter := comments[..n];
      at := ErrorsAreOffences(shorter);
      forall k | k < n
        ensures Offends(shorter, k) <==> Offends(comments, k)
      {
        if 0 <= k {
          OpenInPrefix(comments, n, k);
        }
      }
      OpenIffUnclosed(shorter);
      OpenInPrefix(comments, n, n);
      if Offends(comments, n) {
        at := at + [n];
      }
    }
  }

  lemma MissingEndReported(comments: seq<Comment>) returns (i: nat)
    ensures Errors(comments)[..|ScanAll(comments).errors|] == ScanAll(comments).errors
    ensures OpenBefore(comments, |comments|) ==>
              OpensLast(comments, i)
              && Errors(comments)[|ScanAll(comments).errors|..] == [MissingEnd(comments[i].line)]
    ensures !OpenBefore(comments, |comments|) ==> Errors(comments) == ScanAll(comments).errors
  {
    OpenIffUnclosed(comments);
    i := 0;
    if ScanAll(comments).isRangeOpen {
      i := OpenStartLine(comments);
    }
  }
}
