// Byte offsets and (line, character) positions: pkg/utils/indexToPos.go.
//
// A document is a byte string; each char stands for one byte, and nothing here looks at a byte
// except to compare it with '\n'.

module Positions {

  const UINT32_LIMIT: nat := 0x1_0000_0000

  // protocol.Position holds two unsigned 32-bit counters
  type uint32 = x: nat | x < UINT32_LIMIT

  /** What an unsigned 32-bit variable holds after it is assigned n: n modulo 2^32. */
  function Wrap(n: nat): uint32 {
    if n < UINT32_LIMIT then n else Wrap(n - UINT32_LIMIT)
  }

  datatype Position = Position(line: uint32, character: uint32)

  /** The number of line breaks in s. */
  function Newlines(s: string): nat {
    if s == [] then 0
    else Newlines(s[..|s| - 1]) + if s[|s| - 1] == '\n' then 1 else 0
  }

  /** The number of bytes after the last line break of s. */
  function Column(s: string): nat {
    if s == [] || s[|s| - 1] == '\n' then 0 else Column(s[..|s| - 1]) + 1
  }

  /** The offset at which line number `line` of s starts; |s| when s has no such line. */
  function LineStart(s: string, line: nat): nat {
    if line == 0 || s == [] then 0
    else 1 + LineStart(s[1..], if s[0] == '\n' then line - 1 else line)
  }

  /** The position of offset i, both counters reduced as unsigned 32-bit arithmetic does. */
  function PosOf(content: string, i: nat): Position
    requires i <= |content|
  {
    Position(Wrap(Newlines(content[..i])), Wrap(Column(content[..i])))
  }

  /** The offset of a position, clamped to the end of the content. */
  function IndexOf(content: string, pos: Position): nat {
    var target := LineStart(content, pos.line) + pos.character;
    if target > |content| then |content| else target
  }

  /** The position names a place that exists: its line exists and is at least that long. */
  predicate InRange(content: string, pos: Position) {
    var start := LineStart(content, pos.line);
    && pos.line <= Newlines(content)
    && start + pos.character <= |content|
    && Newlines(content[start..start + pos.character]) == 0
  }

  predicate Before(p: Position, q: Position) {
    p.line < q.line || (p.line == q.line && p.character < q.character)
  }

  lemma {:induction false} WrapStep(n: nat)
    ensures Wrap(n + 1) == Wrap(Wrap(n) + 1)
  {
    if n >= UINT32_LIMIT {
      WrapStep(n - UINT32_LIMIT);
    }
  }

  // ---------- the two conversions ----------

  // A negative index runs no iteration; an index past the end is out of bounds in the source.
  method IndexToPos(index: int, content: string) returns (pos: Position)
    requires index <= |content|
    ensures pos == PosOf(content, if index < 0 then 0 else index)
  {
    var line: uint32, charsOnLine: uint32 := 0, 0;
    var i := 0;
    while i < index
      invariant 0 <= i && (i <= index || i == 0)
      invariant Position(line, charsOnLine) == PosOf(content, i)
    {
      assert content[..i + 1][..i] == content[..i];
      WrapStep(Newlines(content[..i]));
      WrapStep(Column(content[..i]));
      if content[i] == '\n' {
        charsOnLine := 0;
        line := Wrap(line + 1);
      } else {
        charsOnLine := Wrap(charsOnLine + 1);
      }
      i := i + 1;
    }
    return Position(line, charsOnLine);
  }

  method PosToIndex(pos: Position, content: string) returns (index: nat)
    ensures index == IndexOf(content, pos)
    ensures index <= |content|
  {
    if |content| == 0 {
      return 0;
    }
    var idx := 0;
    var line: uint32 := 0;
    LineStartBound(content, pos.line);
    while idx < |content| && line < pos.line
      invariant 0 <= idx <= |content|
      invariant line <= pos.line
      invariant idx + LineStart(content[idx..], pos.line - line) == LineStart(content, pos.line)
    {
      assert content[idx..][1..] == content[idx + 1..];
      if content[idx] == '\n' {
        line := line + 1;
      }
      idx := idx + 1;
    }
    var target := idx + pos.character;
    if target > |content| {
      return |content|;
    }
    return target;
  }

  // ---------- counting line breaks ----------

  lemma {:induction false} NewlinesConcat(a: string, b: string)
    ensures Newlines(a + b) == Newlines(a) + Newlines(b)
  {
    if b == [] {
      assert a + b == a;
    } else {
      assert (a + b)[..|a + b| - 1] == a + b[..|b| - 1];
      NewlinesConcat(a, b[..|b| - 1]);
    }
  }

  lemma {:induction false} NewlinesZero(s: string)
    ensures Newlines(s) == 0 <==> '\n' !in s
    ensures Newlines(s) <= |s|
    ensures '\n' !in s ==> Column(s) == |s|
  {
    if s != [] {
      NewlinesZero(s[..|s| - 1]);
      assert s == s[..|s| - 1] + [s[|s| - 1]];
    }
  }

  lemma NewlinesSplit(s: string, i: nat, j: nat)
    requires i <= j <= |s|
    ensures Newlines(s[..j]) == Newlines(s[..i]) + Newlines(s[i..j])
  {
    assert s[..j] == s[..i] + s[i..j];
    NewlinesConcat(s[..i], s[i..j]);
  }

  lemma {:induction false} ColumnConcat(a: string, b: string)
    ensures Column(a + b) == if '\n' in b then Column(b) else Column(a) + |b|
  {
    if b == [] {
      assert a + b == a;
    } else {
      assert (a + b)[..|a + b| - 1] == a + b[..|b| - 1];
      assert b == b[..|b| - 1] + [b[|b| - 1]];
      ColumnConcat(a, b[..|b| - 1]);
    }
  }

  lemma {:induction false} LineStartBound(s: string, line: nat)
    ensures LineStart(s, line) <= |s|
    ensures line > Newlines(s) ==> LineStart(s, line) == |s|
  {
    if line != 0 && s != [] {
      assert s == [s[0]] + s[1..];
      NewlinesConcat([s[0]], s[1..]);
      LineStartBound(s[1..], if s[0] == '\n' then line - 1 else line);
    }
  }

  // A line starts at the offset k that follows its line break.
  lemma {:induction false} LineStartIs(s: string, k: nat)
    requires k <= |s|
    requires k == 0 || s[k - 1] == '\n'
    ensures LineStart(s, Newlines(s[..k])) == k
  {
    if k != 0 {
      assert s[..k] == [s[0]] + s[1..][..k - 1];
      NewlinesConcat([s[0]], s[1..][..k - 1]);
      NewlinesZero(s[..k]);
      if k == 1 {
        assert s[1..][..0] == [];
      }
      LineStartIs(s[1..], k - 1);
    }
  }

  lemma {:induction false} LineStartExists(s: string, line: nat) returns (k: nat)
    requires line <= Newlines(s)
    ensures k == LineStart(s, line) <= |s|
    ensures k == 0 || s[k - 1] == '\n'
    ensures Newlines(s[..k]) == line
  {
    if line == 0 {
      k := 0;
    } else {
      assert s == [s[0]] + s[1..];
      NewlinesConcat([s[0]], s[1..]);
      var k' := LineStartExists(s[1..], if s[0] == '\n' then line - 1 else line);
      k := k' + 1;
      assert s[..k] == [s[0]] + s[1..][..k'];
      NewlinesConcat([s[0]], s[1..][..k']);
    }
  }

  // Offset i lies on the line that starts Column bytes before it.
  lemma {:induction false} ColumnSpan(s: string, i: nat) returns (k: nat)
    requires i <= |s|
    ensures k + Column(s[..i]) == i
    ensures k == LineStart(s, Newlines(s[..i]))
    ensures k == 0 || s[k - 1] == '\n'
    ensures '\n' !in s[k..i]
    ensures Newlines(s[..k]) == Newlines(s[..i])
  {
    if i == 0 || s[i - 1] == '\n' {
      k := i;
    } else {
      assert s[..i][..i - 1] == s[..i - 1];
      k := ColumnSpan(s, i - 1);
      assert s[k..i] == s[k..i - 1] + [s[i - 1]];
    }
    LineStartIs(s, k);
  }

  // ---------- the calculus of positions ----------

  // The number of line breaks before an offset decides how line starts are ordered around it.
  lemma LineStartsAscend(s: string, l: nat, m: nat)
    requires l < m <= Newlines(s)
    ensures LineStart(s, l) < LineStart(s, m)
  {
    var i := LineStartExists(s, l);
    var j := LineStartExists(s, m);
    if j <= i {
      NewlinesSplit(s, j, i);
    }
  }

  /** PosToIndex undoes IndexToPos exactly when neither 32-bit counter wrapped around. */
  lemma RoundTripIndex(content: string, i: nat)
    requires i <= |content|
    ensures IndexOf(content, PosOf(content, i)) == i
            <==> Newlines(content[..i]) < UINT32_LIMIT && Column(content[..i]) < UINT32_LIMIT
  {
    var line, col := Newlines(content[..i]), Column(content[..i]);
    var k := ColumnSpan(content, i);
    NewlinesSplit(content, i, |content|);
    assert content[..|content|] == content;
    if line >= UINT32_LIMIT {
      LineStartsAscend(content, Wrap(line), line);
    }
  }

  lemma RoundTripIndexSmall(content: string, i: nat)
    requires i <= |content| < UINT32_LIMIT
    ensures IndexOf(content, PosOf(content, i)) == i
  {
    NewlinesZero(content[..i]);
    var _ := ColumnSpan(content, i);
    RoundTripIndex(content, i);
  }

  /** IndexToPos undoes PosToIndex exactly on the positions that exist in the content. */
  lemma RoundTripPosition(content: string, pos: Position)
    ensures PosOf(content, IndexOf(content, pos)) == pos <==> InRange(content, pos)
  {
    LineStartBound(content, pos.line);
    if pos.line > Newlines(content) {
      assert content[..|content|] == content;
      assert Wrap(Newlines(content)) <= Newlines(content);
    } else {
      RoundTripOnLine(content, pos);
    }
  }

  lemma RoundTripOnLine(content: string, pos: Position)
    requires pos.line <= Newlines(content)
    ensures PosOf(content, IndexOf(content, pos)) == pos <==> InRange(content, pos)
  {
    var k, i := LineStart(content, pos.line), IndexOf(content, pos);
    LineStartBound(content, pos.line);
    CountersOnRow(content, pos.line, i);
    InRangeOnRow(content, pos);
    WrappedBack(pos, Newlines(content[..i]), Column(content[..i]), Newlines(content[k..i]), i - k);
  }

  lemma InRangeOnRow(content: string, pos: Position)
    requires pos.line <= Newlines(content) && LineStart(content, pos.line) <= |content|
    ensures var k, i := LineStart(content, pos.line), IndexOf(content, pos);
            InRange(content, pos) <==> i - k == pos.character && Newlines(content[k..i]) == 0
  {
  }

  lemma WrappedBack(pos: Position, line: nat, col: nat, broken: nat, width: nat)
    requires line == pos.line + broken && broken <= width <= pos.character
    requires broken == 0 ==> col == width
    ensures Position(Wrap(line), Wrap(col)) == pos <==> width == pos.character && broken == 0
  {
    if broken != 0 {
      WrapDiffers(pos.line, broken);
    }
  }

  lemma CountersOnRow(content: string, line: nat, i: nat)
    requires line <= Newlines(content) && LineStart(content, line) <= i <= |content|
    ensures var row := content[LineStart(content, line)..i];
            && Newlines(content[..i]) == line + Newlines(row)
            && Newlines(row) <= |row|
            && (Newlines(row) == 0 ==> Column(content[..i]) == |row|)
  {
    var k := LineStartExists(content, line);
    var row := content[k..i];
    NewlinesSplit(content, k, i);
    NewlinesZero(row);
    assert content[..i] == content[..k] + row;
    ColumnConcat(content[..k], row);
  }

  lemma WrapDiffers(line: uint32, d: nat)
    requires 0 < d < UINT32_LIMIT
    ensures Wrap(line + d) != line
  {
  }

  /** On existing positions PosToIndex is strictly monotone. */
  lemma OrderPreserved(content: string, p: Position, q: Position)
    requires InRange(content, p) && InRange(content, q)
    ensures IndexOf(content, p) < IndexOf(content, q) <==> Before(p, q)
  {
    if p.line < q.line {
      RowsApart(content, p, q);
    } else if q.line < p.line {
      RowsApart(content, q, p);
    }
  }

  lemma RowsApart(content: string, p: Position, q: Position)
    requires InRange(content, p) && InRange(content, q) && p.line < q.line
    ensures IndexOf(content, p) < IndexOf(content, q)
  {
    var i := LineStartExists(content, p.line);
    var j := LineStartExists(content, q.line);
    var e := i + p.character;
    NewlinesSplit(content, i, e);
    NewlinesZero(content[i..e]);
    if j <= e {
      NewlinesSplit(content, j, e);
    }
  }

  // ---------- positions after an edit ----------

  /** The edit of applyIncrementalChanges: content[:start] + text + content[end:]. */
  function Splice(content: string, start: nat, end: nat, text: string): string
    requires start <= |content| && end <= |content|
  {
    content[..start] + text + content[end..]
  }

  /** Offsets before the edit keep their position; an offset j after it moves by the net number of
      line breaks, and its column changes only if it shares the line of the edit's end. */
  lemma PositionAfterSplice(content: string, start: nat, end: nat, text: string, j: nat)
    requires start <= end <= |content| && j <= |content|
    ensures var after := Splice(content, start, end, text);
            if j <= start then after[..j] == content[..j]
            else j >= end ==>
              var j' := j - end + start + |text|;
              && j' <= |after| && after[j'..] == content[j..]
              && Newlines(after[..j']) + Newlines(content[start..end])
                 == Newlines(content[..j]) + Newlines(text)
              && (if Newlines(content[..j]) > Newlines(content[..end])
                  then Column(after[..j']) == Column(content[..j])
                  else Column(after[..j']) == Column(content[..start] + text) + (j - end))
  {
    var after := Splice(content, start, end, text);
    if start < j && end <= j {
      var j' := j - end + start + |text|;
      var moved := content[end..j];
      assert after[..j'] == content[..start] + text + moved;
      assert content[..j] == content[..end] + moved;
      NewlinesAround(content, start, end, text, j);
      NewlinesZero(moved);
      ColumnConcat(content[..start] + text, moved);
      ColumnConcat(content[..end], moved);
    }
  }

  lemma NewlinesAround(content: string, start: nat, end: nat, text: string, j: nat)
    requires start <= end <= j <= |content|
    ensures Newlines(content[..start] + text + content[end..j]) + Newlines(content[start..end])
            == Newlines(content[..j]) + Newlines(text)
    ensures Newlines(content[..j]) == Newlines(content[..end]) + Newlines(content[end..j])
  {
    NewlinesConcat(content[..start] + text, content[end..j]);
    NewlinesConcat(content[..start], text);
    NewlinesSplit(content, end, j);
    NewlinesSplit(content, start, end);
  }
}
