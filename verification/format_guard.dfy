/**
 * The format guard `check_format`: drop every line whose `strip()` is empty,
 * make sure the last kept line ends in `\n`, and write the result back over
 * the file. An empty file is left alone. This module holds the pure content
 * transformation; `Logger.Folder.CheckFormat` applies it to a file in place.
 */
module FormatGuard {
  import opened PyText
  import opened Seqs
  import opened Lines

  /** `line.strip() == ''`. */
  predicate IsBlankLine(l: string)
  {
    Strip(l) == []
  }

  /** `[line for line in lines if line.strip() != '']`. */
  function KeepNonBlank(lines: seq<string>): seq<string>
  {
    Filter(lines, l => !IsBlankLine(l))
  }

  /** Append `\n` to the last line unless it already ends with one. */
  function EnsureFinalNewline(lines: seq<string>): seq<string>
  {
    if lines != [] && !EndsWithNewline(lines[|lines| - 1]) then
      lines[..|lines| - 1] + [lines[|lines| - 1] + "\n"]
    else
      lines
  }

  /** The cleaned line list `check_format` writes back. */
  function CleanLines(lines: seq<string>): seq<string>
  {
    EnsureFinalNewline(KeepNonBlank(lines))
  }

  /** No line kept by the filter is blank. */
  lemma KeptNotBlank(lines: seq<string>)
    ensures forall i :: 0 <= i < |KeepNonBlank(lines)| ==> !IsBlankLine(KeepNonBlank(lines)[i])
  {
    var k := KeepNonBlank(lines);
    FilterSpec(lines, l => !IsBlankLine(l));
    forall i | 0 <= i < |k| ensures !IsBlankLine(k[i]) {
      assert k[i] in k;
    }
  }

  /**
   * Adding the final `\n` keeps every line but the last, and the last gains
   * one `\n` exactly when it did not end with one; no line becomes blank.
   */
  lemma FinalNewlineSpec(k: seq<string>)
    requires forall i :: 0 <= i < |k| ==> !IsBlankLine(k[i])
    ensures var r := EnsureFinalNewline(k);
            && |r| == |k|
            && (forall i :: 0 <= i < |r| - 1 ==> r[i] == k[i])
            && (r != [] ==> r[|r| - 1] == k[|k| - 1] || r[|r| - 1] == k[|k| - 1] + "\n")
            && (r != [] ==> (r[|r| - 1] == k[|k| - 1] <==> EndsWithNewline(k[|k| - 1])))
            && (forall i :: 0 <= i < |r| ==> !IsBlankLine(r[i]))
            && (r != [] ==> EndsWithNewline(r[|r| - 1]))
  {
    var r := EnsureFinalNewline(k);
    if r != [] {
      NewlineKeepsContent(k[|k| - 1]);
      assert !IsBlankLine(r[|r| - 1]);
      forall i | 0 <= i < |r| ensures !IsBlankLine(r[i]) {
        if i < |r| - 1 {
          assert r[i] == k[i];
        }
      }
    }
  }

  /**
   * The cleaned line list holds the non-blank lines, unchanged and in order,
   * except that the last of them gains one `\n` when it has none; none of its lines is
   * blank and its last line ends in `\n`.
   */
  lemma CleanLinesSpec(lines: seq<string>)
    ensures var r, k := CleanLines(lines), KeepNonBlank(lines);
            && |r| == |k|
            && (forall i :: 0 <= i < |r| - 1 ==> r[i] == k[i])
            && (r != [] ==> r[|r| - 1] == k[|k| - 1] || r[|r| - 1] == k[|k| - 1] + "\n")
            && (r != [] ==> (r[|r| - 1] == k[|k| - 1] <==> EndsWithNewline(k[|k| - 1])))
            && (forall i :: 0 <= i < |r| ==> !IsBlankLine(r[i]))
            && (r != [] ==> EndsWithNewline(r[|r| - 1]))
  {
    KeptNotBlank(lines);
    FinalNewlineSpec(KeepNonBlank(lines));
  }

  /** Adding `\n` to a line with visible content leaves it with visible content. */
  lemma NewlineKeepsContent(l: string)
    requires !IsBlankLine(l)
    ensures !IsBlankLine(l + "\n")
  {
    StripSpec(l);
    StripSpec(l + "\n");
    var i :| 0 <= i < |l| && !IsSpace(l[i]);
    assert (l + "\n")[i] == l[i];
  }

  /** The file content after `check_format`. */
  function Formatted(content: string): string
  {
    var lines := ReadLines(content);
    if lines == [] then content else Concat(CleanLines(lines))
  }

  /** A clean line list: chained, nothing blank, the last line ending in `\n`. */
  predicate Tidy(lines: seq<string>)
  {
    && Chained(lines)
    && (forall i :: 0 <= i < |lines| ==> !IsBlankLine(lines[i]) && Terminated(lines[i]))
    && (lines != [] ==> EndsWithNewline(lines[|lines| - 1]))
  }

  /** A single line that starts with `\n` is the blank line "\n". */
  lemma NewlineStartIsBlank(l: string)
    requires IsLine(l) && l[0] == '\n'
    ensures IsBlankLine(l)
  {
    assert l == "\n";
    StripSpec(l);
  }

  /** Dropping blank lines keeps a well-formed line list well formed, with no line starting in `\n`. */
  lemma {:induction false} KeepNonBlankChained(lines: seq<string>)
    requires LinesOk(lines)
    ensures Chained(KeepNonBlank(lines))
    ensures forall i :: 0 <= i < |KeepNonBlank(lines)| ==> KeepNonBlank(lines)[i][0] != '\n'
  {
    if lines != [] {
      var rest := lines[1..];
      assert LinesOk(rest);
      KeepNonBlankChained(rest);
      var l := lines[0];
      if !IsBlankLine(l) {
        assert KeepNonBlank(lines) == [l] + KeepNonBlank(rest);
        if l[0] == '\n' {
          NewlineStartIsBlank(l);
        }
        if KeepNonBlank(rest) != [] {
          assert rest != [];
        }
      }
    }
  }

  /** A line that does not end in `\n` is still one line once `\n` is added. */
  lemma {:induction false} AddNewlineIsLine(l: string)
    requires IsLine(l) && !EndsWithNewline(l)
    ensures IsLine(l + "\n")
  {
    if l[0] != '\n' && l[0] != '\r' && |l| > 1 {
      assert (l + "\n")[1..] == l[1..] + "\n";
      AddNewlineIsLine(l[1..]);
    }
  }

  /** The cleaned lines of any file are tidy. */
  lemma CleanLinesTidy(lines: seq<string>)
    requires LinesOk(lines)
    ensures Tidy(CleanLines(lines))
  {
    CleanLinesSpec(lines);
    KeepNonBlankChained(lines);
    var k := KeepNonBlank(lines);
    var r := CleanLines(lines);
    if r != [] {
      var n := |r| - 1;
      if r[n] != k[n] {
        assert LinesOk(k);
        assert IsLine(k[n]);
        assert r == k[..n] + [k[n] + "\n"];
        assert !EndsWithNewline(k[n]);
        AddNewlineIsLine(k[n]);
      }
      assert IsLine(r[n]) && Terminated(r[n]) && r[n][0] != '\n';
      forall i | 0 <= i < |r|
        ensures IsLine(r[i]) && Terminated(r[i]) && r[i][0] != '\n'
      {
        if i < n {
          assert r[i] == k[i];
          assert IsLine(k[i]);
          assert Terminated(k[i]);
          assert k[i][0] != '\n';
        }
      }
    }
  }

  /**
   * After `check_format` a non-empty file reads back as its cleaned lines:
   * no line is blank, every line is terminated and the last ends in `\n`.
   */
  lemma FormattedReadsBack(content: string)
    requires content != []
    ensures ReadLines(Formatted(content)) == CleanLines(ReadLines(content))
    ensures Tidy(ReadLines(Formatted(content)))
  {
    ReadLinesOk(content);
    CleanLinesTidy(ReadLines(content));
    ReadLinesConcat(CleanLines(ReadLines(content)));
  }

  /** `check_format` leaves an empty file empty. */
  lemma FormattedEmpty()
    ensures Formatted([]) == []
  {
  }

  /** No line of the formatted file is blank. */
  lemma FormattedNoBlankLine(content: string)
    ensures forall l :: l in ReadLines(Formatted(content)) ==> !IsBlankLine(l)
  {
    if content != [] {
      FormattedReadsBack(content);
      var r := ReadLines(Formatted(content));
      forall l | l in r
        ensures !IsBlankLine(l)
      {
        var i :| 0 <= i < |r| && r[i] == l;
      }
    }
  }

  /** The formatted file is empty or ends in `\n`. */
  lemma FormattedEndsInNewline(content: string)
    ensures var f := Formatted(content); f == [] || f[|f| - 1] == '\n'
  {
    var f := Formatted(content);
    if content != [] && f != [] {
      FormattedReadsBack(content);
      var r := ReadLines(f);
      ConcatAppend(r[..|r| - 1], [r[|r| - 1]]);
      assert r == r[..|r| - 1] + [r[|r| - 1]];
      assert Concat([r[|r| - 1]]) == r[|r| - 1];
    }
  }

  /** The formatted file is empty exactly when the original held only blank lines. */
  lemma FormattedEmptyWhenBlank(content: string)
    ensures Formatted(content) == [] <==> forall l :: l in ReadLines(content) ==> IsBlankLine(l)
  {
    if content != [] {
      FormattedReadsBack(content);
      var lines := ReadLines(content);
      if forall l :: l in lines ==> IsBlankLine(l) {
        FilterSpec(lines, l => !IsBlankLine(l));
      } else {
        var i :| 0 <= i < |lines| && !IsBlankLine(lines[i]);
        FilterPosition(lines, l => !IsBlankLine(l), i);
      }
    }
  }

  /**
   * The formatted file holds no blank line and is empty or ends in `\n`;
   * it is empty only when the original held nothing but blank lines.
   */
  lemma FormattedShape(content: string)
    ensures var f := Formatted(content);
            && (forall l :: l in ReadLines(f) ==> !IsBlankLine(l))
            && (f == [] || f[|f| - 1] == '\n')
            && (f == [] <==> forall l :: l in ReadLines(content) ==> IsBlankLine(l))
  {
    FormattedNoBlankLine(content);
    FormattedEndsInNewline(content);
    FormattedEmptyWhenBlank(content);
  }

  /**
   * `check_format` keeps line `i` when and only when it is not blank, and a
   * kept line lands after exactly the kept lines that preceded it.
   */
  lemma KeptInOrder(lines: seq<string>, i: nat)
    requires i < |lines| && !IsBlankLine(lines[i])
    ensures var j := |KeepNonBlank(lines[..i])|;
            j < |CleanLines(lines)| && (CleanLines(lines)[j] == lines[i] || CleanLines(lines)[j] == lines[i] + "\n")
    ensures |KeepNonBlank(lines[..i])| < |CleanLines(lines)| - 1 ==> CleanLines(lines)[|KeepNonBlank(lines[..i])|] == lines[i]
  {
    CleanLinesSpec(lines);
    FilterPosition(lines, l => !IsBlankLine(l), i);
  }

  /** A file that is already clean is left exactly as it is. */
  lemma FormattedTidy(content: string)
    requires Tidy(ReadLines(content))
    ensures Formatted(content) == content
  {
    var lines := ReadLines(content);
    FilterSpec(lines, l => !IsBlankLine(l));
    assert KeepNonBlank(lines) == lines;
    ReadLinesJoin(content);
  }

  /** `check_format` is idempotent. */
  lemma FormatIdempotent(content: string)
    ensures Formatted(Formatted(content)) == Formatted(content)
  {
    if content != [] {
      FormattedReadsBack(content);
      FormattedTidy(Formatted(content));
    }
  }

  /**
   * Appending clean lines to a formatted file: they read back as lines of
   * their own after all the earlier ones, and formatting again changes
   * nothing.
   */
  lemma AppendToFormatted(content: string, rows: seq<string>)
    requires Tidy(rows)
    ensures ReadLines(Formatted(content) + Concat(rows)) == ReadLines(Formatted(content)) + rows
    ensures Formatted(Formatted(content) + Concat(rows)) == Formatted(content) + Concat(rows)
  {
    var f := Formatted(content);
    if content != [] {
      FormattedReadsBack(content);
    }
    var lines := ReadLines(f);
    var all := lines + rows;
    forall i | 0 <= i < |all|
      ensures IsLine(all[i]) && Terminated(all[i]) && !IsBlankLine(all[i])
      ensures i > 0 ==> all[i][0] != '\n'
    {
      if i < |lines| {
        assert all[i] == lines[i];
      } else {
        assert all[i] == rows[i - |lines|];
        if all[i][0] == '\n' {
          NewlineStartIsBlank(all[i]);
        }
      }
    }
    assert Tidy(all);
    ConcatAppend(lines, rows);
    ReadLinesConcat(all);
    FormattedTidy(f + Concat(rows));
  }

  /** A CSV record line: visible text without line breaks, then `\r\n`. */
  lemma CsvLineTidy(body: string)
    requires body != [] && !IsSpace(body[0])
    requires forall i :: 0 <= i < |body| ==> !IsTerminator(body[i])
    ensures Tidy([body + "\r\n"])
    ensures Chomp(body + "\r\n") == body
  {
    var l := body + "\r\n";
    LineOfBody(body);
    StripSpec(l);
    assert l[0] == body[0];
    assert !IsBlankLine(l);
    assert EndsWithNewline(l);
  }

  /** Lines that each end in `\n` and have visible content form a clean list. */
  lemma TidyByLine(lines: seq<string>)
    requires forall i :: 0 <= i < |lines| ==> IsLine(lines[i]) && EndsWithNewline(lines[i]) && !IsBlankLine(lines[i])
    ensures Tidy(lines)
  {
    forall i | 0 <= i < |lines| ensures lines[i][0] != '\n' {
      if lines[i][0] == '\n' {
        NewlineStartIsBlank(lines[i]);
      }
    }
  }
}
