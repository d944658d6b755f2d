/**
 * A file's text as a list of lines, the way Python's `readlines()` sees it
 * when the file is opened with `newline=''`: a line ends after `\n`, after
 * `\r\n`, or after a `\r` not followed by `\n`, and keeps its terminator.
 * Reading with universal newlines (the default) finds the same boundaries.
 */
module Lines {

  predicate IsTerminator(c: char)
  {
    c == '\n' || c == '\r'
  }

  /** The length of the first line of `s`, terminator included. */
  function LineEnd(s: string): (n: nat)
    ensures n <= |s|
    ensures s != [] ==> 0 < n
  {
    if s == [] then 0
    else if s[0] == '\n' then 1
    else if s[0] == '\r' then (if |s| > 1 && s[1] == '\n' then 2 else 1)
    else 1 + LineEnd(s[1..])
  }

  function Concat(lines: seq<string>): string
  {
    if lines == [] then [] else lines[0] + Concat(lines[1..])
  }

  /** `readlines()`: the lines of `s`, each with its terminator. */
  function ReadLines(s: string): seq<string>
    decreases |s|
  {
    if s == [] then []
    else
      var n := LineEnd(s);
      [s[..n]] + ReadLines(s[n..])
  }

  /** Writing the lines `readlines()` returns back one after another gives `s` again. */
  lemma {:induction false} ReadLinesJoin(s: string)
    ensures Concat(ReadLines(s)) == s
    decreases |s|
  {
    if s != [] {
      var n := LineEnd(s);
      ReadLinesJoin(s[n..]);
      var lines := ReadLines(s);
      assert lines[1..] == ReadLines(s[n..]);
      assert s == s[..n] + s[n..];
    }
  }

  /** A single line: non-empty, with no line break before its end. */
  predicate IsLine(l: string)
  {
    l != [] && LineEnd(l) == |l|
  }

  predicate Terminated(l: string)
  {
    l != [] && IsTerminator(l[|l| - 1])
  }

  /** Python's `l.endswith('\n')`. */
  predicate EndsWithNewline(l: string)
  {
    l != [] && l[|l| - 1] == '\n'
  }

  /** Every entry is one line and every entry but the last is terminated. */
  predicate LinesOk(lines: seq<string>)
  {
    && (forall i :: 0 <= i < |lines| ==> IsLine(lines[i]))
    && (forall i :: 0 <= i < |lines| - 1 ==> Terminated(lines[i]))
  }

  /** Lines that, written one after another, read back as themselves. */
  predicate Chained(lines: seq<string>)
  {
    LinesOk(lines) && forall i :: 0 < i < |lines| ==> lines[i][0] != '\n'
  }

  lemma {:induction false} LineEndPrefix(s: string)
    requires s != []
    ensures IsLine(s[..LineEnd(s)])
    ensures LineEnd(s) < |s| ==> Terminated(s[..LineEnd(s)])
  {
    if s[0] != '\n' && s[0] != '\r' {
      var n := LineEnd(s);
      if |s| > 1 {
        LineEndPrefix(s[1..]);
        assert s[..n][1..] == s[1..][..n - 1];
      }
    }
  }

  /** `readlines()` only ever produces single lines, all terminated but the last. */
  lemma {:induction false} ReadLinesOk(s: string)
    ensures LinesOk(ReadLines(s))
    decreases |s|
  {
    if s != [] {
      var n := LineEnd(s);
      LineEndPrefix(s);
      ReadLinesOk(s[n..]);
      var lines := ReadLines(s);
      assert lines[1..] == ReadLines(s[n..]);
      assert |lines| > 1 ==> n < |s|;
    }
  }

  /** A terminated line ends where it ends, whatever follows (unless a `\n` completes a `\r\n`). */
  lemma {:induction false} LineEndJoin(l: string, rest: string)
    requires IsLine(l) && Terminated(l)
    requires rest == [] || rest[0] != '\n'
    ensures LineEnd(l + rest) == |l|
  {
    if l[0] != '\n' && l[0] != '\r' {
      assert (l + rest)[1..] == l[1..] + rest;
      LineEndJoin(l[1..], rest);
    }
  }

  /** Writing chained lines and reading them back gives the same lines. */
  lemma {:induction false} ReadLinesConcat(lines: seq<string>)
    requires Chained(lines)
    ensures ReadLines(Concat(lines)) == lines
  {
    if lines != [] {
      var s := Concat(lines);
      var l := lines[0];
      var rest := Concat(lines[1..]);
      assert Chained(lines[1..]);
      ReadLinesConcat(lines[1..]);
      if |lines| > 1 {
        assert rest == lines[1] + Concat(lines[2..]);
        LineEndJoin(l, rest);
      } else {
        assert rest == [] && s == l;
      }
      assert LineEnd(s) == |l|;
      assert s[..|l|] == l && s[|l|..] == rest;
      assert ReadLines(s) == [l] + ReadLines(rest);
      assert lines == [l] + lines[1..];
    }
  }

  /** Concatenation of line lists is concatenation of their texts. */
  lemma {:induction false} ConcatAppend(a: seq<string>, b: seq<string>)
    ensures Concat(a + b) == Concat(a) + Concat(b)
  {
    if a == [] {
      assert a + b == b;
    } else {
      assert (a + b)[1..] == a[1..] + b;
      ConcatAppend(a[1..], b);
    }
  }

  /** Inside a single line, a line break occurs only as its terminator. */
  lemma {:induction false} BreaksAtEnd(l: string)
    ensures IsLine(l) ==> forall i :: 0 <= i < |l| - 1 && IsTerminator(l[i]) ==> i == |l| - 2 && l[i..] == "\r\n"
  {
    if IsLine(l) && !IsTerminator(l[0]) && |l| > 1 {
      assert LineEnd(l[1..]) == |l| - 1;
      BreaksAtEnd(l[1..]);
      assert forall i :: 1 <= i < |l| ==> l[i] == l[1..][i - 1];
      assert forall i :: 1 <= i < |l| ==> l[i..] == l[1..][i - 1..];
    }
  }

  /** The line with its terminator removed, as a `csv` reader sees it. */
  function Chomp(l: string): string
  {
    if |l| >= 2 && l[|l| - 2..] == "\r\n" then l[..|l| - 2]
    else if l != [] && IsTerminator(l[|l| - 1]) then l[..|l| - 1]
    else l
  }

  /**
   * Only the line's terminator is dropped: the body is a prefix of the line,
   * what follows it is nothing, `\n`, `\r` or `\r\n`, and it is nothing
   * exactly when the line does not end in a line break; for a single line the
   * body holds no line break.
   */
  lemma ChompSpec(l: string)
    ensures var body := Chomp(l);
            && |body| <= |l| && body == l[..|body|]
            && l[|body|..] in {"", "\n", "\r", "\r\n"}
            && (|body| == |l| <==> l == [] || !IsTerminator(l[|l| - 1]))
            && (IsLine(l) ==> forall i :: 0 <= i < |body| ==> !IsTerminator(body[i]))
  {
    BreaksAtEnd(l);
    if |l| >= 2 && l[|l| - 2..] == "\r\n" {
      assert l[|l| - 2..] == "\r\n";
    } else if l != [] && IsTerminator(l[|l| - 1]) {
      if l[|l| - 1] == '\n' {
        assert l[|l| - 1..] == "\n";
      } else {
        assert l[|l| - 1..] == "\r";
      }
    } else {
      assert l[|l|..] == "";
    }
  }

  /** Text without line breaks, followed by `\r\n`, is one line whose body is that text. */
  lemma {:induction false} LineOfBody(body: string)
    requires forall i :: 0 <= i < |body| ==> !IsTerminator(body[i])
    ensures IsLine(body + "\r\n") && Terminated(body + "\r\n")
    ensures Chomp(body + "\r\n") == body
  {
    var l := body + "\r\n";
    if body != [] {
      assert l[1..] == body[1..] + "\r\n";
      LineOfBody(body[1..]);
    }
    assert l[|l| - 2..] == "\r\n";
    assert l[..|l| - 2] == body;
  }
}
