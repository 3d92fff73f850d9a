/** The pipe-table normaliser that `render` applies to the text of every
    `model` message before handing it to the markdown renderer: when a text
    holds pipes but no `---`, every line is made into a table row and, for
    more than one line, a header separator row is inserted after the first. */
module Tables {
  import opened Strings

  /** The length of the white-space run that starts `s`. */
  function SpaceRun(s: string): (n: nat)
    ensures n <= |s|
  {
    if s != [] && IsSpace(s[0]) then 1 + SpaceRun(s[1..]) else 0
  }

  /** The run is white space, so it holds no pipe. */
  lemma {:induction false} SpaceRunNoPipe(s: string)
    ensures '|' !in s[..SpaceRun(s)]
  {
    if s != [] && IsSpace(s[0]) {
      SpaceRunNoPipe(s[1..]);
      assert s[..SpaceRun(s)] == [s[0]] + s[1..][..SpaceRun(s[1..])];
    }
  }

  // The global replacement of white space, a pipe and white space (the pattern
  // `\s*` `\|` `\s*`) by " | " in a line.
  /** Every pipe, together with the white space on both sides of it, becomes
      exactly `" | "`. The global regular
      expression matches at a position exactly when the white-space run that
      starts there ends in a pipe, and then swallows the run after the pipe. */
  function ReplacePipes(s: string): string
    decreases |s|
  {
    if s == [] then []
    else
      var w := SpaceRun(s);
      if w < |s| && s[w] == '|' then
        var rest := s[w + 1..];
        " | " + ReplacePipes(rest[SpaceRun(rest)..])
      else
        [s[0]] + ReplacePipes(s[1..])
  }

  /** A pipe with the white space around it holds exactly one pipe, and the
      text after the run holds every other pipe and newline of `s`. */
  lemma {:induction false} SpacedPipe(s: string)
    requires SpaceRun(s) < |s| && s[SpaceRun(s)] == '|'
    ensures var rest := s[SpaceRun(s) + 1..];
            var tail := rest[SpaceRun(rest)..];
            && Count(s, '|') == 1 + Count(tail, '|')
            && ('\n' !in s ==> '\n' !in tail)
  {
    var w := SpaceRun(s);
    var rest := s[w + 1..];
    var w2 := SpaceRun(rest);
    var tail := rest[w2..];
    assert s == s[..w] + [s[w]] + (rest[..w2] + tail);
    SpaceRunNoPipe(s);
    SpaceRunNoPipe(rest);
    CountAbsent(s[..w], '|');
    CountAbsent(rest[..w2], '|');
    CountAppend(s[..w] + [s[w]], rest[..w2] + tail, '|');
    CountAppend(s[..w], [s[w]], '|');
    CountAppend(rest[..w2], tail, '|');
  }

  /** One step of `ReplacePipes` on a spaced pipe keeps the pipe count,
      given that the rest of the replacement does. */
  lemma {:induction false} PipeStepCount(s: string, tail: string)
    requires SpaceRun(s) < |s| && s[SpaceRun(s)] == '|'
    requires tail == s[SpaceRun(s) + 1..][SpaceRun(s[SpaceRun(s) + 1..])..]
    requires Count(ReplacePipes(tail), '|') == Count(tail, '|')
    ensures Count(ReplacePipes(s), '|') == Count(s, '|')
  {
    SpacedPipe(s);
    assert ReplacePipes(s) == " | " + ReplacePipes(tail);
    CountAppend(" | ", ReplacePipes(tail), '|');
  }

  /** One step of `ReplacePipes` on any other character keeps the pipe count,
      given that the rest of the replacement does. */
  lemma {:induction false} CharStepCount(s: string)
    requires s != [] && !(SpaceRun(s) < |s| && s[SpaceRun(s)] == '|')
    requires Count(ReplacePipes(s[1..]), '|') == Count(s[1..], '|')
    ensures Count(ReplacePipes(s), '|') == Count(s, '|')
  {
    var r := ReplacePipes(s);
    assert r == [s[0]] + ReplacePipes(s[1..]);
    assert r[1..] == ReplacePipes(s[1..]);
  }

  /** The replacement keeps every pipe and adds none. */
  lemma {:induction false} ReplacePipesCount(s: string)
    ensures Count(ReplacePipes(s), '|') == Count(s, '|')
    decreases |s|
  {
    if s != [] {
      var w := SpaceRun(s);
      if w < |s| && s[w] == '|' {
        var rest := s[w + 1..];
        var tail := rest[SpaceRun(rest)..];
        ReplacePipesCount(tail);
        PipeStepCount(s, tail);
      } else {
        ReplacePipesCount(s[1..]);
        CharStepCount(s);
      }
    }
  }

  /** The replacement brings in no newline. */
  lemma {:induction false} ReplacePipesNoNewline(s: string)
    requires '\n' !in s
    ensures '\n' !in ReplacePipes(s)
    decreases |s|
  {
    if s != [] {
      var w := SpaceRun(s);
      if w < |s| && s[w] == '|' {
        var rest := s[w + 1..];
        var tail := rest[SpaceRun(rest)..];
        SpacedPipe(s);
        ReplacePipesNoNewline(tail);
      } else {
        ReplacePipesNoNewline(s[1..]);
      }
    }
  }

  /** A trimmed line that starts and ends with a pipe is already a table row. */
  predicate IsRow(t: string) {
    |t| > 0 && t[0] == '|' && t[|t| - 1] == '|'
  }

  /** The per-line rewrite: rows are kept as they are, any other line is
      framed as `"| " + line + " |"` with its pipes spaced out. */
  function WrapLine(line: string): string {
    if IsRow(Trim(line)) then line else "| " + ReplacePipes(line) + " |"
  }

  /** A text framed by `"| "` and `" |"` is a table row once trimmed. */
  lemma {:induction false} FramedRow(body: string)
    ensures IsRow(Trim("| " + body + " |"))
  {
    var w := "| " + body + " |";
    assert w[0] == '|' && w[|w| - 1] == '|';
    TrimUnpadded(w);
  }

  /** Framing adds exactly the two frame pipes. */
  lemma {:induction false} FramedCount(body: string)
    ensures Count("| " + body + " |", '|') == Count(body, '|') + 2
  {
    CountAppend("| " + body, " |", '|');
    CountAppend("| ", body, '|');
  }

  /** Framing brings in no newline. */
  lemma {:induction false} FramedNoNewline(body: string)
    requires '\n' !in body
    ensures '\n' !in "| " + body + " |"
  {
    var w := "| " + body + " |";
    forall i | 0 <= i < |w| ensures w[i] != '\n' {
      if 2 <= i < |w| - 2 {
        assert w[i] == body[i - 2];
      }
    }
  }

  /** Every rewritten line is a table row once trimmed, a framed line gains
      the two frame pipes, and no newline is introduced. */
  lemma {:induction false} WrapLineIsRow(line: string)
    ensures IsRow(Trim(WrapLine(line)))
    ensures !IsRow(Trim(line)) ==> Count(WrapLine(line), '|') == Count(line, '|') + 2
    ensures '\n' !in line ==> '\n' !in WrapLine(line)
  {
    if !IsRow(Trim(line)) {
      ReplacePipesCount(line);
      if '\n' !in line {
        ReplacePipesNoNewline(line);
        FramedNoNewline(ReplacePipes(line));
      }
      FramedRow(ReplacePipes(line));
      FramedCount(ReplacePipes(line));
    }
  }

  function MapLines(lines: seq<string>): (r: seq<string>)
    ensures |r| == |lines|
  {
    seq(|lines|, i requires 0 <= i < |lines| => WrapLine(lines[i]))
  }

  function Dashes(n: nat): (r: seq<string>)
    ensures |r| == n
  {
    seq(n, _ => "---")
  }

  /** The row inserted after the header: one `---` cell for every piece of
      `header.split('|').slice(1, -1)`. */
  function HeaderSeparator(header: string): string {
    var cells := Split(header, '|');
    var inner := if |cells| >= 2 then cells[1..|cells| - 1] else [];
    "| " + Join(Dashes(|inner|), " | ") + " |"
  }

  lemma {:induction false} DashesPipes(n: nat)
    requires n >= 1
    ensures Count(Join(Dashes(n), " | "), '|') == n - 1
    ensures '\n' !in Join(Dashes(n), " | ")
  {
    if n > 1 {
      assert Dashes(n)[1..] == Dashes(n - 1);
      DashesPipes(n - 1);
      CountAppend("---" + " | ", Join(Dashes(n - 1), " | "), '|');
      CountAppend("---", " | ", '|');
    }
  }

  /** The separator row is a table row without newlines and, under a header
      of at least two pipes, has exactly as many pipes (columns) as it. */
  lemma {:induction false} SeparatorMatchesHeader(header: string)
    ensures IsRow(Trim(HeaderSeparator(header)))
    ensures '\n' !in HeaderSeparator(header)
    ensures Count(header, '|') >= 2 ==> Count(HeaderSeparator(header), '|') == Count(header, '|')
  {
    var cells := Split(header, '|');
    var n := if |cells| >= 2 then |cells| - 2 else 0;
    var body := Join(Dashes(n), " | ");
    assert HeaderSeparator(header) == "| " + body + " |";
    if n >= 1 {
      DashesPipes(n);
    } else {
      assert body == [];
    }
    FramedRow(body);
    FramedCount(body);
    FramedNoNewline(body);
  }

  /** The table fix-up of `render`, applied to a model message's text. */
  function NormalizeTables(content: string): string {
    if '|' in content && !Contains(content, "---") then
      var wrapped := Join(MapLines(Split(content, '\n')), "\n");
      var lines := Split(wrapped, '\n');
      if |lines| > 1 && '|' in lines[0] then
        Join(lines[..1] + [HeaderSeparator(lines[0])] + lines[1..], "\n")
      else
        wrapped
    else
      content
  }

  /** Text without a pipe, or already holding `---`, is left alone. */
  lemma {:induction false} NormalizeTablesUnchanged(content: string)
    requires '|' !in content || Contains(content, "---")
    ensures NormalizeTables(content) == content
  {
  }

  lemma {:induction false} RowHasPipe(line: string)
    requires IsRow(Trim(line))
    ensures '|' in line
  {
    var a := |TrimStart(line)|;
    assert Trim(line)[0] == TrimStart(line)[0] == line[|line| - a];
  }

  /** The rows for a list of lines, with the separator inserted after the
      header row when there is more than one line. */
  function WithSeparator(lines: seq<string>): seq<string> {
    var rows := MapLines(lines);
    if |rows| > 1 then rows[..1] + [HeaderSeparator(rows[0])] + rows[1..] else rows
  }

  /** The lines the fix-up should produce, described on lines rather than on
      text: each input line made into a row, with the separator row inserted
      at index 1 when there is more than one line. */
  function ExpectedRows(content: string): seq<string> {
    WithSeparator(Split(content, '\n'))
  }

  /** A line that can stand in the output: a table row without newlines. */
  predicate CleanRow(line: string) {
    '\n' !in line && IsRow(Trim(line))
  }

  lemma {:induction false} WrappedLineClean(lines: seq<string>, i: nat)
    requires i < |lines|
    requires '\n' !in lines[i]
    ensures CleanRow(MapLines(lines)[i])
  {
    WrapLineIsRow(lines[i]);
  }

  /** Where each row lands once `x` is inserted at index 1. */
  lemma {:induction false} InsertedAt(rows: seq<string>, x: string, i: nat)
    requires 0 < |rows| && i <= |rows|
    ensures |rows[..1] + [x] + rows[1..]| == |rows| + 1
    ensures (rows[..1] + [x] + rows[1..])[i] == if i == 0 then rows[0] else if i == 1 then x else rows[i - 1]
  {
  }

  /** Each expected row is a clean row when the content has no newline in it
      beyond the line breaks. */
  lemma {:induction false} SeparatedRowClean(lines: seq<string>, i: nat)
    requires i < |WithSeparator(lines)|
    requires forall k :: 0 <= k < |lines| ==> '\n' !in lines[k]
    ensures CleanRow(WithSeparator(lines)[i])
  {
    var rows := MapLines(lines);
    if |rows| > 1 {
      InsertedAt(rows, HeaderSeparator(rows[0]), i);
      if i == 1 {
        SeparatorMatchesHeader(rows[0]);
      } else {
        WrappedLineClean(lines, if i == 0 then 0 else i - 1);
      }
    } else {
      WrappedLineClean(lines, i);
    }
  }

  lemma {:induction false} ExpectedRowClean(content: string, i: nat)
    requires i < |ExpectedRows(content)|
    ensures CleanRow(ExpectedRows(content)[i])
  {
    SeparatedRowClean(Split(content, '\n'), i);
  }

  lemma {:induction false} ExpectedRowsClean(content: string)
    ensures forall i :: 0 <= i < |ExpectedRows(content)| ==> CleanRow(ExpectedRows(content)[i])
  {
    forall i | 0 <= i < |ExpectedRows(content)| ensures CleanRow(ExpectedRows(content)[i]) {
      ExpectedRowClean(content, i);
    }
  }

  /** The text the fix-up produces splits into exactly the expected rows. */
  lemma {:induction false} NormalizeTablesSplits(content: string)
    requires '|' in content && !Contains(content, "---")
    ensures Split(NormalizeTables(content), '\n') == ExpectedRows(content)
  {
    var lines := Split(content, '\n');
    var rows := MapLines(lines);
    forall i | 0 <= i < |rows| ensures CleanRow(rows[i]) {
      WrappedLineClean(lines, i);
    }
    SplitJoin(rows, '\n');
    RowHasPipe(rows[0]);
    ExpectedRowsClean(content);
    if |rows| > 1 {
      SplitJoin(ExpectedRows(content), '\n');
    } else {
      SplitSingle(rows[0], '\n');
    }
  }

  /** The expected rows are the input lines each made into a row, with the
      separator row for the first inserted at index 1 when there is more than
      one line; the separator has as many pipes as the header row. */
  predicate RowsOf(lines: seq<string>, out: seq<string>)
    requires |lines| > 0
  {
    && (|lines| == 1 ==> out == [WrapLine(lines[0])])
    && (|lines| > 1 ==>
          && |out| == |lines| + 1
          && out[0] == WrapLine(lines[0])
          && out[1] == HeaderSeparator(WrapLine(lines[0]))
          && (forall i :: 1 <= i < |lines| ==> out[i + 1] == WrapLine(lines[i]))
          && (Count(out[0], '|') >= 2 ==> Count(out[1], '|') == Count(out[0], '|')))
  }

  /** One line gives one row. */
  lemma {:induction false} SingleRow(line: string)
    ensures WithSeparator([line]) == [WrapLine(line)]
  {
    assert MapLines([line]) == [WrapLine(line)];
  }

  /** The header row comes first, then its separator. */
  lemma {:induction false} SeparatedHead(lines: seq<string>)
    requires |lines| > 1
    ensures |WithSeparator(lines)| == |lines| + 1
    ensures WithSeparator(lines)[0] == WrapLine(lines[0])
    ensures WithSeparator(lines)[1] == HeaderSeparator(WrapLine(lines[0]))
  {
    var rows := MapLines(lines);
    var x := HeaderSeparator(rows[0]);
    InsertedAt(rows, x, 0);
    InsertedAt(rows, x, 1);
  }

  /** After the separator, the other rows in order. */
  lemma {:induction false} SeparatedTail(lines: seq<string>)
    requires |lines| > 1
    ensures forall i :: 1 <= i < |lines| ==> WithSeparator(lines)[i + 1] == WrapLine(lines[i])
  {
    var rows := MapLines(lines);
    var out := WithSeparator(lines);
    assert out[2..] == rows[1..] by {
      assert out == rows[..1] + [HeaderSeparator(rows[0])] + rows[1..];
    }
    forall i | 1 <= i < |lines| ensures out[i + 1] == WrapLine(lines[i]) {
      assert out[i + 1] == out[2..][i - 1];
    }
  }

  lemma {:induction false} WithSeparatorShape(lines: seq<string>)
    requires |lines| > 0
    ensures RowsOf(lines, WithSeparator(lines))
  {
    if |lines| == 1 {
      assert lines == [lines[0]];
      SingleRow(lines[0]);
    } else {
      SeparatedHead(lines);
      SeparatedTail(lines);
      SeparatorMatchesHeader(WrapLine(lines[0]));
    }
  }

  lemma {:induction false} ExpectedRowsShape(content: string)
    ensures RowsOf(Split(content, '\n'), ExpectedRows(content))
  {
    WithSeparatorShape(Split(content, '\n'));
  }

  /** When the fix-up applies, the output lines are the input lines each made
      into a row, with a separator row inserted at index 1 when there is more
      than one line, so the line count grows by exactly one; the separator has
      as many pipes as the header row. */
  lemma {:induction false} NormalizeTablesRows(content: string)
    requires '|' in content && !Contains(content, "---")
    ensures RowsOf(Split(content, '\n'), Split(NormalizeTables(content), '\n'))
  {
    NormalizeTablesSplits(content);
    ExpectedRowsShape(content);
  }

  /** When the fix-up applies, every line of its output is a table row. */
  lemma {:induction false} NormalizeTablesAllRows(content: string)
    requires '|' in content && !Contains(content, "---")
    ensures forall line :: line in Split(NormalizeTables(content), '\n') ==> IsRow(Trim(line))
  {
    NormalizeTablesSplits(content);
    ExpectedRowsClean(content);
  }
}
