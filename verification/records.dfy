/**
 * The record file shared by the logger and the plotter: a header row
 * `time,score` and one `time,score` row per observation, each written by the
 * `csv` module with the `\r\n` terminator (the record shape of section 2 of
 * RFC 4180). The values never need quoting.
 */
module Records {
  import opened Wrappers
  import opened PyText
  import opened PyInt
  import opened Lines
  import opened FormatGuard
  import opened Timestamps

  datatype Record = Record(time: Timestamp, score: int)

  /** `writerow(['time', 'score'])`. */
  const Header: string := "time,score\r\n"

  /** `writerow([timestamp, score])`. */
  function RowText(r: Record): string
  {
    Format(r.time) + "," + Str(r.score) + "\r\n"
  }

  function RowLines(rs: seq<Record>): (lines: seq<string>)
    ensures |lines| == |rs|
  {
    if rs == [] then [] else [RowText(rs[0])] + RowLines(rs[1..])
  }

  /** Line `i` is the text of record `i`. */
  lemma {:induction false} RowLinesAt(rs: seq<Record>, i: nat)
    requires i < |rs|
    ensures RowLines(rs)[i] == RowText(rs[i])
  {
    if i > 0 {
      RowLinesAt(rs[1..], i - 1);
    }
  }

  /** The text of a record file holding the header and `rs`. */
  function FileText(rs: seq<Record>): string
  {
    Header + Concat(RowLines(rs))
  }

  /**
   * The fields a `csv` reader yields for one line: none for an empty line,
   * otherwise the comma-separated pieces of the line without its terminator.
   */
  function Fields(line: string): seq<string>
  {
    var body := Chomp(line);
    if body == [] then [] else SplitOn(body, ',')
  }

  /** One data row as the plotter reads it: exactly two fields, a valid time and an integer score. */
  function ParseRow(line: string): (r: Option<Record>)
    ensures r.Some? ==> Valid(r.value.time)
  {
    var f := Fields(line);
    if |f| != 2 then None
    else
      match (Parse(f[0]), ParseInt(f[1]))
      case (Some(t), Some(n)) => Some(Record(t, n))
      case _ => None
  }

  lemma HeaderTidy()
    ensures Tidy([Header])
  {
    var body := "time,score";
    assert Header == body + "\r\n";
    CsvLineTidy(body);
  }

  /** Every row the logger writes is one clean line whose body is `time,score`. */
  lemma RowTidy(r: Record)
    ensures Tidy([RowText(r)])
    ensures Chomp(RowText(r)) == Format(r.time) + "," + Str(r.score)
  {
    var body := Format(r.time) + "," + Str(r.score);
    forall i | 0 <= i < |body| ensures !IsTerminator(body[i]) && !IsSpace(body[i]) {
      if i < |Format(r.time)| {
        FormatChars(r.time, body[i]);
      } else if i > |Format(r.time)| {
        assert body[i] in Str(r.score);
        StrAvoids(r.score, '\n');
        StrAvoids(r.score, '\r');
        StrAvoids(r.score, ' ');
        assert body[i] == '-' || IsDigit(body[i]);
      }
    }
    assert RowText(r) == body + "\r\n";
    CsvLineTidy(body);
  }

  /** A written row splits into exactly its time and its score. */
  lemma RowFields(r: Record)
    ensures Fields(RowText(r)) == [Format(r.time), Str(r.score)]
  {
    RowTidy(r);
    var t, n := Format(r.time), Str(r.score);
    assert ',' !in t by {
      if ',' in t {
        FormatChars(r.time, ',');
      }
    }
    StrAvoids(r.score, ',');
    SplitOnPrefix(t, n, ',');
    SplitOnPlain(n, ',');
  }

  /** Reading a written row gives the record back, for every valid time. */
  lemma ParseRowText(r: Record)
    requires Valid(r.time)
    ensures ParseRow(RowText(r)) == Some(r)
  {
    RowFields(r);
    ParseFormat(r.time);
    ParseStr(r.score);
  }

  /** The rows the logger writes form a clean line list. */
  lemma RowLinesTidy(rs: seq<Record>)
    ensures Tidy(RowLines(rs))
  {
    var lines := RowLines(rs);
    forall i | 0 <= i < |lines|
      ensures IsLine(lines[i]) && EndsWithNewline(lines[i]) && !IsBlankLine(lines[i])
    {
      RowLinesAt(rs, i);
      RowTidy(rs[i]);
    }
    TidyByLine(lines);
  }

  /** The lines of a record file are the header followed by one line per record. */
  lemma FileLines(rs: seq<Record>)
    ensures ReadLines(FileText(rs)) == [Header] + RowLines(rs)
    ensures Tidy([Header] + RowLines(rs))
  {
    var lines := [Header] + RowLines(rs);
    HeaderTidy();
    forall i | 0 <= i < |lines|
      ensures IsLine(lines[i]) && EndsWithNewline(lines[i]) && !IsBlankLine(lines[i])
    {
      if i > 0 {
        RowLinesAt(rs, i - 1);
        RowTidy(rs[i - 1]);
      }
    }
    TidyByLine(lines);
    assert lines[1..] == RowLines(rs);
    ReadLinesConcat(lines);
  }

  /**
   * Round trip of the record file: reading the file written for `rs` yields
   * one data row per record, in order, each parsing back to its record.
   */
  lemma FileRoundTrip(rs: seq<Record>)
    requires forall i :: 0 <= i < |rs| ==> Valid(rs[i].time)
    ensures var lines := ReadLines(FileText(rs));
            && |lines| == |rs| + 1
            && forall i :: 0 <= i < |rs| ==> ParseRow(lines[i + 1]) == Some(rs[i])
  {
    FileLines(rs);
    forall i | 0 <= i < |rs| ensures ParseRow(ReadLines(FileText(rs))[i + 1]) == Some(rs[i]) {
      RowLinesAt(rs, i);
      ParseRowText(rs[i]);
    }
  }
}
