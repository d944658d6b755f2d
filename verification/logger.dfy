/**
 * The logger of data.py: create a record file or resume one, then append a
 * timestamped row for every accepted score change until the user quits.
 * The working directory is a `Folder`; the user's input is a sequence of
 * lines, each carrying the clock reading at the moment it is handled.
 */
module Logger {
  import opened Wrappers
  import opened PyText
  import opened PyInt
  import opened Lines
  import opened FormatGuard
  import opened Timestamps
  import opened Records
  import opened Validation
  import opened Prompts

  /** One line typed by the user and the clock reading when it is handled. */
  datatype Entry = Entry(text: string, at: Timestamp)

  /** The in-memory session state: the record file and its current score. */
  datatype Session = Session(name: string, score: int)

  /** The working directory: each file name with the file's text. */
  class Folder {
    var files: map<string, string>

    constructor (files: map<string, string>)
      ensures this.files == files
    {
      this.files := files;
    }

    /**
     * `check_format(name)`: rewrite the file in place with its cleaned lines.
     * `ok` is false when the file cannot be opened; the source then exits.
     */
    method CheckFormat(name: string) returns (ok: bool)
      modifies this
      ensures ok == (name in old(files))
      ensures files == if ok then old(files)[name := Formatted(old(files)[name])] else old(files)
    {
      if name !in files {
        return false;
      }
      var lines := ReadLines(files[name]);
      if lines != [] {
        files := files[name := Concat(CleanLines(lines))];
      }
      return true;
    }

    /** `open(name, 'a')` and `writerow([time, score])`: a missing file is created. */
    method AppendRow(name: string, r: Record)
      modifies this
      ensures files == old(files)[name := (if name in old(files) then old(files)[name] else []) + RowText(r)]
    {
      var before := if name in files then files[name] else [];
      files := files[name := before + RowText(r)];
    }
  }

  /** A file name the creation prompt accepts: not empty, and no `name.csv` exists yet. */
  predicate NameAccepted(name: string, files: map<string, string>)
  {
    name != [] && name + ".csv" !in files
  }

  /** The name prompt: skip input lines until one names a new record file. */
  method AskName(files: map<string, string>, inputs: seq<Entry>) returns (at: nat)
    ensures at <= |inputs|
    ensures forall j :: 0 <= j < at ==> !NameAccepted(Strip(inputs[j].text), files)
    ensures at < |inputs| ==> NameAccepted(Strip(inputs[at].text), files)
  {
    at := 0;
    while at < |inputs| && !NameAccepted(Strip(inputs[at].text), files)
      invariant at <= |inputs|
      invariant forall j :: 0 <= j < at ==> !NameAccepted(Strip(inputs[j].text), files)
    {
      at := at + 1;
    }
  }

  /** The initial score prompt: skip input lines, from `from` on, until one is a valid initial score. */
  method AskInitialScore(inputs: seq<Entry>, from: nat) returns (at: nat, score: int)
    requires from <= |inputs|
    ensures from <= at <= |inputs|
    ensures forall j :: from <= j < at ==> ValidateInitialScore(Strip(inputs[j].text)) == None
    ensures at < |inputs| ==> ValidateInitialScore(Strip(inputs[at].text)) == Some(score) && score > 0
  {
    at, score := from, 0;
    while at < |inputs|
      invariant from <= at <= |inputs|
      invariant forall j :: from <= j < at ==> ValidateInitialScore(Strip(inputs[j].text)) == None
    {
      var v := ValidateInitialScore(Strip(inputs[at].text));
      if v.Some? {
        return at, v.value;
      }
      at := at + 1;
    }
  }

  /**
   * `create_new_record`: ask for names until one is accepted, then for
   * initial scores until one is valid, then write the header and one row
   * holding that score. `None` when the input runs out first.
   */
  method CreateNewRecord(folder: Folder, inputs: seq<Entry>) returns (s: Option<Session>, used: nat, ghost nameAt: nat)
    modifies folder
    ensures used <= |inputs| && nameAt <= |inputs|
    ensures forall j :: 0 <= j < nameAt ==> !NameAccepted(Strip(inputs[j].text), old(folder.files))
    ensures nameAt < |inputs| ==> NameAccepted(Strip(inputs[nameAt].text), old(folder.files))
    ensures forall j :: nameAt < j < used - 1 ==> ValidateInitialScore(Strip(inputs[j].text)) == None
    ensures s.None? ==> used == |inputs| && folder.files == old(folder.files)
    ensures s.None? ==> forall j :: nameAt < j < used ==> ValidateInitialScore(Strip(inputs[j].text)) == None
    ensures s.Some? ==>
      && nameAt < used - 1
      && s.value.name == Strip(inputs[nameAt].text) + ".csv"
      && ValidateInitialScore(Strip(inputs[used - 1].text)) == Some(s.value.score)
      && s.value.score > 0
      && folder.files == old(folder.files)[s.value.name := FileText([Record(inputs[used - 1].at, s.value.score)])]
  {
    var asked := AskName(folder.files, inputs);
    nameAt := asked;
    if asked == |inputs| {
      return None, asked, nameAt;
    }
    var name := Strip(inputs[asked].text) + ".csv";
    var at, score := AskInitialScore(inputs, asked + 1);
    if at == |inputs| {
      return None, at, nameAt;
    }
    folder.files := folder.files[name := FileText([Record(inputs[at].at, score)])];
    s, used := Some(Session(name, score)), at + 1;
    assert inputs[used - 1] == inputs[at];
  }

  /** What reading the last row of a (formatted) record file gives the resume prompt. */
  datatype LastRow =
    | Score(n: int)   // `int(last_row[1])` succeeded
    | NoScore         // no data row, or an empty one: the prompt asks again
    | BadScore        // `ValueError`: the prompt asks again
    | Crash           // `StopIteration` on an empty file or `IndexError` on a one-field row: uncaught

  /** Read the integer in the second field of a data row. */
  function ReadRow(line: string): LastRow
  {
    var fields := Fields(line);
    if fields == [] then NoScore
    else if |fields| < 2 then Crash
    else match ParseInt(fields[1])
      case Some(n) => Score(n)
      case None => BadScore
  }

  /** Skip the header row, keep the last row, read the integer in its second field. */
  function ResumeRead(content: string): LastRow
  {
    var lines := ReadLines(content);
    if lines == [] then Crash
    else if |lines| == 1 then NoScore
    else ReadRow(lines[|lines| - 1])
  }

  /**
   * An empty row gives no score and a one-field row crashes; a score is
   * `int()` of the second field.
   */
  lemma ReadRowSpec(line: string)
    ensures ReadRow(line) == NoScore <==> Fields(line) == []
    ensures ReadRow(line) == Crash <==> |Fields(line)| == 1
    ensures ReadRow(line).Score? ==> |Fields(line)| >= 2 && ParseInt(Fields(line)[1]) == Some(ReadRow(line).n)
    ensures |Fields(line)| >= 2 && ParseInt(Fields(line)[1]).Some? ==> ReadRow(line) == Score(ParseInt(Fields(line)[1]).value)
    ensures ReadRow(line) == BadScore <==> |Fields(line)| >= 2 && ParseInt(Fields(line)[1]).None?
  {
  }

  /**
   * An empty file crashes and a header-only file gives no score; a file of
   * two or more lines is read from its last line, and only such a file gives a score.
   */
  lemma ResumeReadSpec(content: string)
    ensures content == [] ==> ResumeRead(content) == Crash
    ensures |ReadLines(content)| == 1 ==> ResumeRead(content) == NoScore
    ensures |ReadLines(content)| >= 2 ==> ResumeRead(content) == ReadRow(ReadLines(content)[|ReadLines(content)| - 1])
    ensures ResumeRead(content).Score? ==> |ReadLines(content)| >= 2
  {
  }

  /** A row the logger wrote reads back as its own score. */
  lemma RowReadsBack(r: Record)
    ensures ReadRow(RowText(r)) == Score(r.score)
  {
    RowFields(r);
    ParseStr(r.score);
  }

  /** A score that the resume prompt would read back from the file. */
  lemma ScoredFileNotBlank(content: string)
    requires ResumeRead(content).Score?
    ensures Formatted(content) != []
  {
    var lines := ReadLines(content);
    var l := lines[|lines| - 1];
    var body := Chomp(l);
    ChompSpec(l);
    if ',' !in body {
      SplitOnPlain(body, ',');
    }
    var k :| 0 <= k < |body| && body[k] == ',';
    assert l[k] == ',';
    StripSpec(l);
    assert !IsBlankLine(l);
    FormattedShape(content);
  }

  /** A file whose last line is a row the logger wrote resumes with that row's score. */
  lemma ResumeReadsLastRow(content: string, r: Record)
    requires |ReadLines(content)| >= 2
    requires ReadLines(content)[|ReadLines(content)| - 1] == RowText(r)
    ensures ResumeRead(content) == Score(r.score)
  {
    RowReadsBack(r);
  }

  /** Resume correctness: a record file reads back its last row's score, and a header-only file none. */
  lemma ResumeAfterWrites(rs: seq<Record>)
    ensures ResumeRead(FileText(rs)) == if rs == [] then NoScore else Score(rs[|rs| - 1].score)
  {
    FileLines(rs);
    if rs != [] {
      RowLinesAt(rs, |rs| - 1);
      ResumeReadsLastRow(FileText(rs), rs[|rs| - 1]);
    }
  }

  /** Every file of `orig` is still there, either untouched or passed through the format guard. */
  predicate Guarded(now: map<string, string>, orig: map<string, string>)
  {
    && now.Keys == orig.Keys
    && forall f :: f in now ==> now[f] == orig[f] || now[f] == Formatted(orig[f])
  }

  /** Formatting a guarded file once more keeps the folder guarded, and the file formatted. */
  lemma GuardedStep(now: map<string, string>, orig: map<string, string>, name: string)
    requires Guarded(now, orig) && name in now
    ensures Guarded(now[name := Formatted(now[name])], orig)
    ensures now[name := Formatted(now[name])][name] == Formatted(orig[name])
  {
    FormatIdempotent(orig[name]);
  }

  /** `files` with each of `names` that it holds passed through the format guard, and nothing else changed. */
  function FormatAll(files: map<string, string>, names: set<string>): map<string, string>
  {
    map f | f in files :: if f in names then Formatted(files[f]) else files[f]
  }

  /** Guarding some files keeps the folder guarded. */
  lemma FormatAllGuarded(files: map<string, string>, names: set<string>)
    ensures Guarded(FormatAll(files, names), files)
  {
  }

  /** Guarding no file changes nothing; guarding one file changes that file alone, if it exists. */
  lemma FormatOne(files: map<string, string>, name: string)
    ensures FormatAll(files, {}) == files
    ensures FormatAll(files, {name}) == if name in files then files[name := Formatted(files[name])] else files
  {
  }

  /** Guarding two sets of files one after the other is guarding their union once. */
  lemma FormatAllTwice(files: map<string, string>, names: set<string>, more: set<string>)
    ensures FormatAll(FormatAll(files, names), more) == FormatAll(files, names + more)
  {
    forall f | f in files && f in names
      ensures Formatted(Formatted(files[f])) == Formatted(files[f])
    {
      FormatIdempotent(files[f]);
    }
  }

  /**
   * The numbered file a stripped answer picks, which the resume prompt then
   * passes through the format guard: none for `q`, `Q`, a non-number or a
   * number out of range.
   */
  function Chosen(choice: string, csv: seq<string>): (s: set<string>)
    ensures forall f :: f in s ==> f in csv
    ensures s == {} <==> IsQuit(choice) || ChoiceIndex(choice, |csv|).None?
  {
    if IsQuit(choice) then {}
    else match ChoiceIndex(choice, |csv|)
      case None => {}
      case Some(i) => {csv[i]}
  }

  /** The files picked by the first `n` answers. */
  function Picked(inputs: seq<string>, n: nat, csv: seq<string>): (s: set<string>)
    requires n <= |inputs|
    ensures forall f :: f in s ==> f in csv
  {
    if n == 0 then {} else Picked(inputs, n - 1, csv) + Chosen(Strip(inputs[n - 1]), csv)
  }

  /** Every file an earlier answer picked is among the picked files. */
  lemma {:induction false} PickedAt(inputs: seq<string>, n: nat, csv: seq<string>, j: nat)
    requires j < n <= |inputs|
    ensures Chosen(Strip(inputs[j]), csv) <= Picked(inputs, n, csv)
  {
    var last := Chosen(Strip(inputs[n - 1]), csv);
    assert Picked(inputs, n, csv) == Picked(inputs, n - 1, csv) + last;
    if j < n - 1 {
      PickedAt(inputs, n - 1, csv, j);
    }
  }

  /**
   * What the resume prompt does with one stripped choice, given the folder
   * as it was before the prompt: `None` where it asks again.
   */
  function ChoiceOutcome(choice: string, csv: seq<string>, files: map<string, string>): Option<Resume>
  {
    if IsQuit(choice) then Some(Quit)
    else match ChoiceIndex(choice, |csv|)
      case None => None
      case Some(i) =>
        if csv[i] !in files then Some(Fatal)
        else match ResumeRead(Formatted(files[csv[i]]))
          case Score(n) => Some(Resumed(Session(csv[i], n)))
          case Crash => Some(Fatal)
          case _ => None
  }

  datatype Resume = Resumed(session: Session) | NoRecords | Quit | Fatal | Exhausted

  /**
   * An answer quits exactly when it is `q` or `Q`; any other answer that is
   * not the number of a listed file makes the prompt ask again; a resumed
   * session names a numbered file that exists.
   */
  lemma ChoiceOutcomeSpec(choice: string, csv: seq<string>, files: map<string, string>)
    ensures ChoiceOutcome(choice, csv, files) == Some(Quit) <==> IsQuit(choice)
    ensures !IsQuit(choice) && ChoiceIndex(choice, |csv|).None? ==> ChoiceOutcome(choice, csv, files).None?
    ensures ChoiceOutcome(choice, csv, files) != Some(NoRecords) && ChoiceOutcome(choice, csv, files) != Some(Exhausted)
    ensures var r := ChoiceOutcome(choice, csv, files);
            r.Some? && r.value.Resumed? ==> r.value.session.name in csv && r.value.session.name in files
  {
  }

  /**
   * Choosing, by its number, a file the logger wrote resumes with the score
   * of its last row once the format guard has run; a file holding only the
   * header makes the prompt ask again.
   */
  lemma ResumeWrittenFile(k: int, csv: seq<string>, files: map<string, string>, rs: seq<Record>)
    requires 1 <= k <= |csv| && csv[k - 1] in files && files[csv[k - 1]] == FileText(rs)
    ensures ChoiceOutcome(Str(k), csv, files) ==
      if rs == [] then None else Some(Resumed(Session(csv[k - 1], rs[|rs| - 1].score)))
  {
    ChoiceOfStr(k, |csv|);
    StrAvoids(k, 'q');
    StrAvoids(k, 'Q');
    assert !IsQuit(Str(k)) by {
      assert "q"[0] == 'q' && "Q"[0] == 'Q';
    }
    assert Formatted(FileText(rs)) == FileText(rs) by {
      FileLines(rs);
      FormattedTidy(FileText(rs));
    }
    ResumeAfterWrites(rs);
  }

  /** The number of no listed file, typed as decimal text, makes the prompt ask again. */
  lemma AskAgainOutOfRange(k: int, csv: seq<string>, files: map<string, string>)
    requires !(1 <= k <= |csv|)
    ensures ChoiceOutcome(Str(k), csv, files).None?
  {
    ChoiceOfStr(k, |csv|);
    StrAvoids(k, 'q');
    StrAvoids(k, 'Q');
    assert !IsQuit(Str(k)) by {
      assert "q"[0] == 'q' && "Q"[0] == 'Q';
    }
  }

  /** The outcome of each of the first `n` stripped answers at the resume prompt, given the folder before it. */
  function Answers(inputs: seq<string>, n: nat, csv: seq<string>, files: map<string, string>): (os: seq<Option<Resume>>)
    requires n <= |inputs|
    ensures |os| == n
  {
    if n == 0 then [] else Answers(inputs, n - 1, csv, files) + [ChoiceOutcome(Strip(inputs[n - 1]), csv, files)]
  }

  /** Entry `j` of `Answers` is the outcome of answer `j`. */
  lemma {:induction false} AnswerAt(inputs: seq<string>, n: nat, csv: seq<string>, files: map<string, string>, j: nat)
    requires j < n <= |inputs|
    ensures Answers(inputs, n, csv, files)[j] == ChoiceOutcome(Strip(inputs[j]), csv, files)
  {
    if j < n - 1 {
      AnswerAt(inputs, n - 1, csv, files, j);
    }
  }

  /** Every entry of `Answers` is the outcome of its answer. */
  lemma AnswersAt(inputs: seq<string>, n: nat, csv: seq<string>, files: map<string, string>)
    requires n <= |inputs|
    ensures forall j :: 0 <= j < n ==> Answers(inputs, n, csv, files)[j] == ChoiceOutcome(Strip(inputs[j]), csv, files)
  {
    forall j | 0 <= j < n
      ensures Answers(inputs, n, csv, files)[j] == ChoiceOutcome(Strip(inputs[j]), csv, files)
    {
      AnswerAt(inputs, n, csv, files, j);
    }
  }

  /**
   * The prompt loop from answer `from` on: the first outcome and the number
   * of answers read up to and including it, or no outcome when they run out.
   */
  function FirstOutcome(os: seq<Option<Resume>>, from: nat): (Option<Resume>, nat)
    requires from <= |os|
    decreases |os| - from
  {
    if from == |os| then (None, from)
    else if os[from].Some? then (os[from], from + 1)
    else FirstOutcome(os, from + 1)
  }

  /**
   * The prompt stops at the first answer with an outcome, every answer
   * before it having made the prompt ask again; with no such answer it
   * reads them all.
   */
  lemma {:induction false} FirstOutcomeSpec(os: seq<Option<Resume>>, from: nat)
    requires from <= |os|
    ensures var res := FirstOutcome(os, from);
      && from <= res.1 <= |os|
      && (forall j :: from <= j < res.1 - 1 ==> os[j].None?)
      && (res.0.None? ==> res.1 == |os| && (res.1 > from ==> os[res.1 - 1].None?))
      && (res.0.Some? ==> from < res.1 && os[res.1 - 1] == res.0)
    decreases |os| - from
  {
    if from < |os| && os[from].None? {
      FirstOutcomeSpec(os, from + 1);
    }
  }

  /**
   * One choice at the resume prompt: quit, ask again on a bad number,
   * otherwise run the format guard on the chosen file and read its last row.
   */
  method ResumeChoice(folder: Folder, choice: string, csv: seq<string>, ghost orig: map<string, string>, ghost picked: set<string>)
    returns (r: Option<Resume>)
    requires folder.files == FormatAll(orig, picked)
    modifies folder
    ensures folder.files == FormatAll(old(folder.files), Chosen(choice, csv))
    ensures folder.files == FormatAll(orig, picked + Chosen(choice, csv))
    ensures r == ChoiceOutcome(choice, csv, orig)
    ensures r.Some? && r.value.Resumed? ==>
      r.value.session.name in orig && folder.files[r.value.session.name] == Formatted(orig[r.value.session.name])
  {
    FormatOne(folder.files, if IsQuit(choice) || ChoiceIndex(choice, |csv|).None? then [] else csv[ChoiceIndex(choice, |csv|).value]);
    FormatAllTwice(orig, picked, Chosen(choice, csv));
    FormatAllGuarded(orig, picked);
    if IsQuit(choice) {
      return Some(Quit);
    }
    var i := ChoiceIndex(choice, |csv|);
    if i.None? {
      return None;
    }
    var name := csv[i.value];
    ghost var before := folder.files;
    var ok := folder.CheckFormat(name);
    if !ok {
      return Some(Fatal);
    }
    GuardedStep(before, orig, name);
    match ResumeRead(folder.files[name])
    case Score(n) =>
      r := Some(Resumed(Session(name, n)));
    case Crash =>
      r := Some(Fatal);
    case _ =>
      r := None;
  }

  /**
   * The `while True` loop of `select_existing_record`: read answers until one
   * has an outcome, passing every file an answer picks through the format guard.
   */
  method AskUntilOutcome(folder: Folder, csv: seq<string>, inputs: seq<string>) returns (o: Option<Resume>, used: nat)
    modifies folder
    ensures used <= |inputs|
    ensures (o, used) == FirstOutcome(Answers(inputs, |inputs|, csv, old(folder.files)), 0)
    ensures folder.files == FormatAll(old(folder.files), Picked(inputs, used, csv))
    ensures o.Some? && o.value.Resumed? ==>
      o.value.session.name in old(folder.files)
      && folder.files[o.value.session.name] == Formatted(old(folder.files)[o.value.session.name])
  {
    used := 0;
    ghost var orig := folder.files;
    ghost var os := Answers(inputs, |inputs|, csv, orig);
    AnswersAt(inputs, |inputs|, csv, orig);
    FormatOne(orig, []);
    while used < |inputs|
      invariant used <= |inputs|
      invariant orig == old(folder.files)
      invariant folder.files == FormatAll(orig, Picked(inputs, used, csv))
      invariant FirstOutcome(os, used) == FirstOutcome(os, 0)
    {
      var choice := Strip(inputs[used]);
      ghost var next := Picked(inputs, used + 1, csv);
      assert next == Picked(inputs, used, csv) + Chosen(choice, csv);
      o := ResumeChoice(folder, choice, csv, orig, Picked(inputs, used, csv));
      assert folder.files == FormatAll(orig, next);
      assert os[used] == o;
      used := used + 1;
      if o.Some? {
        return o, used;
      }
    }
    return None, used;
  }

  /**
   * `select_existing_record`: number the `.csv` files of the listing, then
   * read choices until one has an outcome; every chosen file is passed
   * through the format guard before its last row is read.
   */
  method SelectExistingRecord(folder: Folder, listing: seq<string>, inputs: seq<string>) returns (r: Resume, used: nat)
    modifies folder
    ensures used <= |inputs|
    ensures folder.files == FormatAll(old(folder.files), Picked(inputs, used, CsvFiles(listing)))
    ensures Guarded(folder.files, old(folder.files))
    ensures r == NoRecords <==> CsvFiles(listing) == []
    ensures r == NoRecords ==> used == 0
    ensures r != NoRecords ==>
      forall j :: 0 <= j < used - 1 ==> ChoiceOutcome(Strip(inputs[j]), CsvFiles(listing), old(folder.files)).None?
    ensures r == Exhausted ==>
      used == |inputs| && (used > 0 ==> ChoiceOutcome(Strip(inputs[used - 1]), CsvFiles(listing), old(folder.files)).None?)
    ensures r != NoRecords && r != Exhausted ==>
      && used >= 1
      && ChoiceOutcome(Strip(inputs[used - 1]), CsvFiles(listing), old(folder.files)).Some?
      && ChoiceOutcome(Strip(inputs[used - 1]), CsvFiles(listing), old(folder.files)).value == r
    ensures r.Resumed? ==>
      r.session.name in old(folder.files) && folder.files[r.session.name] == Formatted(old(folder.files)[r.session.name])
  {
    var csv := CsvFiles(listing);
    if csv == [] {
      FormatOne(folder.files, []);
      FormatAllGuarded(folder.files, {});
      return NoRecords, 0;
    }
    ghost var orig := folder.files;
    FirstOutcomeSpec(Answers(inputs, |inputs|, csv, orig), 0);
    AnswersAt(inputs, |inputs|, csv, orig);
    var o;
    o, used := AskUntilOutcome(folder, csv, inputs);
    FormatAllGuarded(orig, Picked(inputs, used, csv));
    if o.Some? {
      ChoiceOutcomeSpec(Strip(inputs[used - 1]), csv, orig);
      r := o.value;
    } else {
      r := Exhausted;
    }
  }

  /** What the append loop makes of one input line. */
  datatype Command = Leave | Change(delta: int) | Ignore

  /** `q` or `Q` leaves; an allowed change is taken; anything else is refused. */
  function Classify(text: string): Command
  {
    var choice := Strip(text);
    if IsQuit(choice) then Leave
    else match ValidateScoreChange(choice)
      case Some(c) => Change(c)
      case None => Ignore
  }

  /** A line quits exactly when it strips to `q` or `Q`; an accepted change is allowed and is what `int()` reads. */
  lemma ClassifySpec(text: string)
    ensures Classify(text) == Leave <==> IsQuit(Strip(text))
    ensures Classify(text).Change? ==>
      Classify(text).delta in AllowedChanges && ParseInt(Strip(text)) == Some(Classify(text).delta)
  {
  }

  /** One classified input line with the clock reading at which it is handled. */
  datatype Step = Step(cmd: Command, at: Timestamp)

  /** Every input line, classified. */
  function Steps(inputs: seq<Entry>): (steps: seq<Step>)
    ensures |steps| == |inputs|
  {
    if inputs == [] then [] else [Step(Classify(inputs[0].text), inputs[0].at)] + Steps(inputs[1..])
  }

  /** `Steps` classifies every line in place. */
  lemma {:induction false} StepAt(inputs: seq<Entry>, i: nat)
    requires i < |inputs|
    ensures Steps(inputs)[i] == Step(Classify(inputs[i].text), inputs[i].at)
  {
    if i > 0 {
      StepAt(inputs[1..], i - 1);
    } else if |inputs| > 1 {
      StepAt(inputs[1..], 0);
    }
  }

  /**
   * The rows the append loop writes for `steps`, starting from `score`: one
   * row per accepted change up to the first quit, stamped with the clock
   * reading of its input line and carrying the running score.
   */
  function Rows(score: int, steps: seq<Step>): seq<Record>
    decreases |steps|
  {
    if steps == [] then []
    else match steps[0].cmd
      case Leave => []
      case Ignore => Rows(score, steps[1..])
      case Change(c) => [Record(steps[0].at, score + c)] + Rows(score + c, steps[1..])
  }

  /** The rows the append loop writes for the input lines `inputs`. */
  function Appended(score: int, inputs: seq<Entry>): seq<Record>
  {
    Rows(score, Steps(inputs))
  }

  /**
   * The folder after the append loop has written `recs` to `name`: the file
   * is the formatted old file followed by one row per record.
   */
  function Written(orig: map<string, string>, name: string, recs: seq<Record>): map<string, string>
    requires recs != [] ==> name in orig
  {
    if recs == [] then orig else orig[name := Formatted(orig[name]) + Concat(RowLines(recs))]
  }

  /**
   * One more step of the append loop: with `done` already written and
   * `current` the running score, the next step ends the rows, skips, or
   * writes one more row.
   */
  lemma RowsStep(score: int, steps: seq<Step>, done: seq<Record>, current: int, used: nat)
    requires used < |steps|
    requires Rows(score, steps) == done + Rows(current, steps[used..])
    ensures match steps[used].cmd
      case Leave => Rows(score, steps) == done
      case Ignore => Rows(score, steps) == done + Rows(current, steps[used + 1..])
      case Change(c) =>
        Rows(score, steps) == (done + [Record(steps[used].at, current + c)]) + Rows(current + c, steps[used + 1..])
  {
    var rest := steps[used..];
    assert rest[0] == steps[used] && rest[1..] == steps[used + 1..];
    match steps[used].cmd
    case Leave =>
      assert done + [] == done;
    case Ignore =>
    case Change(c) =>
      var row := Record(steps[used].at, current + c);
      assert done + ([row] + Rows(current + c, steps[used + 1..])) == (done + [row]) + Rows(current + c, steps[used + 1..]);
  }

  /** An accepted change as the next step writes exactly one more row. */
  lemma RowsChange(score: int, steps: seq<Step>, done: seq<Record>, current: int, used: nat, row: Record)
    requires used < |steps| && steps[used].cmd == Change(row.score - current) && row.time == steps[used].at
    requires Rows(score, steps) == done + Rows(current, steps[used..])
    ensures Rows(score, steps) == (done + [row]) + Rows(row.score, steps[used + 1..])
  {
    var rest := steps[used..];
    assert rest[0] == steps[used] && rest[1..] == steps[used + 1..];
    assert Rows(current, rest) == [row] + Rows(row.score, steps[used + 1..]);
    assert done + ([row] + Rows(row.score, steps[used + 1..])) == (done + [row]) + Rows(row.score, steps[used + 1..]);
  }

  /** An accepted change as the next step means the rows are never empty. */
  lemma RowsGrow(score: int, steps: seq<Step>, done: seq<Record>, current: int, used: nat, row: Record)
    requires used < |steps| && steps[used].cmd == Change(row.score - current) && row.time == steps[used].at
    requires Rows(score, steps) == done + Rows(current, steps[used..])
    ensures Rows(score, steps) != []
  {
    RowsChange(score, steps, done, current, used, row);
    assert |Rows(score, steps)| >= |done + [row]| > 0;
  }

  /** The rows of a longer list are the rows of its parts. */
  lemma {:induction false} RowLinesSnoc(rs: seq<Record>, r: Record)
    ensures RowLines(rs + [r]) == RowLines(rs) + [RowText(r)]
  {
    if rs != [] {
      assert (rs + [r])[1..] == rs[1..] + [r];
      RowLinesSnoc(rs[1..], r);
    }
  }

  /** The rows written so far, plus one more, as text. */
  lemma RowTextSnoc(done: seq<Record>, row: Record)
    ensures Concat(RowLines(done + [row])) == Concat(RowLines(done)) + RowText(row)
  {
    RowLinesSnoc(done, row);
    ConcatAppend(RowLines(done), [RowText(row)]);
    assert Concat([RowText(row)]) == RowText(row) + Concat([]);
  }

  /** Guarding a file that holds the formatted original and the rows so far changes nothing. */
  lemma WrittenIsFormatted(content: string, done: seq<Record>)
    ensures var text := Formatted(content) + Concat(RowLines(done));
            Formatted(text) == text
  {
    RowLinesTidy(done);
    AppendToFormatted(content, RowLines(done));
  }

  /** Guarding the file and appending one more row extends what has been written by that row. */
  lemma WrittenStep(orig: map<string, string>, name: string, done: seq<Record>, row: Record)
    requires name in orig
    ensures var now := Written(orig, name, done);
            var guarded := now[name := Formatted(now[name])];
            Written(orig, name, done + [row]) == guarded[name := guarded[name] + RowText(row)]
  {
    var f := Formatted(orig[name]);
    var t := RowText(row);
    var c := Concat(RowLines(done));
    RowTextSnoc(done, row);
    var after := Concat(RowLines(done + [row]));
    assert Written(orig, name, done + [row]) == orig[name := f + after];
    if done == [] {
      assert Written(orig, name, done) == orig;
      assert after == t;
      ExtendFirst(orig, name, f, t);
    } else {
      WrittenIsFormatted(orig[name], done);
      assert Written(orig, name, done) == orig[name := f + c];
      Associative(f, c, t);
      ExtendByRow(orig, name, f + c, t);
    }
  }

  /** The map identity behind `WrittenStep` for the first row. */
  lemma ExtendFirst(orig: map<string, string>, name: string, f: string, t: string)
    ensures var guarded := orig[name := f];
            guarded[name := guarded[name] + t] == orig[name := f + t]
  {
  }

  /** The map identity behind `WrittenStep` for every later row. */
  lemma ExtendByRow(orig: map<string, string>, name: string, text: string, t: string)
    ensures var now := orig[name := text];
            var guarded := now[name := text];
            guarded[name := guarded[name] + t] == orig[name := text + t]
  {
  }

  lemma Associative(a: string, b: string, c: string)
    ensures (a + b) + c == a + (b + c)
  {
  }

  /**
   * The central invariant: after appending rows to a formatted, non-empty
   * file, the file reads back as its old lines followed by exactly those
   * rows, and the last row carries the last appended score.
   */
  lemma AppendKeepsLastScore(content: string, recs: seq<Record>)
    requires Formatted(content) != [] && recs != []
    ensures var after := Formatted(content) + Concat(RowLines(recs));
            && ReadLines(after) == ReadLines(Formatted(content)) + RowLines(recs)
            && ResumeRead(after) == Score(recs[|recs| - 1].score)
  {
    var after := Formatted(content) + Concat(RowLines(recs));
    RowLinesTidy(recs);
    AppendToFormatted(content, RowLines(recs));
    var lines := ReadLines(Formatted(content)) + RowLines(recs);
    assert ReadLines(Formatted(content)) != [];
    RowLinesAt(recs, |recs| - 1);
    assert lines[|lines| - 1] == RowText(recs[|recs| - 1]);
    ResumeReadsLastRow(after, recs[|recs| - 1]);
  }

  /**
   * Whatever the append loop has written so far, a file that resumed with
   * `score` resumes afterwards with the score of the last row written.
   */
  lemma WrittenResumes(orig: map<string, string>, name: string, score: int, recs: seq<Record>)
    requires name in orig && ResumeRead(orig[name]) == Score(score)
    ensures name in Written(orig, name, recs)
    ensures ResumeRead(Written(orig, name, recs)[name]) == Score(if recs == [] then score else recs[|recs| - 1].score)
  {
    if recs != [] {
      ScoredFileNotBlank(orig[name]);
      AppendKeepsLastScore(orig[name], recs);
    }
  }

  /**
   * The state of the append loop after `used` steps: `done` rows written,
   * `current` the running score, and the folder holding the formatted old
   * file followed by those rows.
   */
  predicate Progress(orig: map<string, string>, name: string, score: int, steps: seq<Step>,
                     used: nat, done: seq<Record>, current: int, files: map<string, string>)
  {
    && used <= |steps|
    && Rows(score, steps) == done + Rows(current, steps[used..])
    && current == (if done == [] then score else done[|done| - 1].score)
    && (done != [] ==> name in orig)
    && files == Written(orig, name, done)
  }

  /**
   * The append loop has written every row of `Appended` to `name`, which
   * must then exist, and the running score is the last row's.
   */
  predicate Logged(orig: map<string, string>, name: string, score: int, inputs: seq<Entry>,
                   current: int, files: map<string, string>)
  {
    var recs := Appended(score, inputs);
    && (recs != [] ==> name in orig)
    && current == (if recs == [] then score else recs[|recs| - 1].score)
    && files == Written(orig, name, recs)
  }

  /** The loop starts with nothing written. */
  lemma ProgressStart(orig: map<string, string>, name: string, score: int, steps: seq<Step>)
    ensures Progress(orig, name, score, steps, 0, [], score, orig)
  {
    assert steps[0..] == steps;
  }

  /** A refused line changes nothing but the position. */
  lemma ProgressSkip(orig: map<string, string>, name: string, score: int, steps: seq<Step>,
                     used: nat, done: seq<Record>, current: int, files: map<string, string>)
    requires Progress(orig, name, score, steps, used, done, current, files)
    requires used < |steps| && steps[used].cmd == Ignore
    ensures Progress(orig, name, score, steps, used + 1, done, current, files)
  {
    RowsStep(score, steps, done, current, used);
  }

  /** A quit ends the rows: everything written is all there is. */
  lemma ProgressLeave(orig: map<string, string>, name: string, score: int, steps: seq<Step>,
                      used: nat, done: seq<Record>, current: int, files: map<string, string>)
    requires Progress(orig, name, score, steps, used, done, current, files)
    requires used < |steps| && steps[used].cmd == Leave
    ensures Rows(score, steps) == done
  {
    RowsStep(score, steps, done, current, used);
  }

  /**
   * An accepted change, once its row is written, moves the loop on by one
   * step with that row's score as the running score.
   */
  lemma ProgressChange(orig: map<string, string>, name: string, score: int, steps: seq<Step>,
                       used: nat, done: seq<Record>, current: int, files: map<string, string>,
                       row: Record, after: map<string, string>)
    requires Progress(orig, name, score, steps, used, done, current, files)
    requires used < |steps| && steps[used].cmd == Change(row.score - current) && row.time == steps[used].at
    requires name in orig && after == Written(orig, name, done + [row])
    ensures Progress(orig, name, score, steps, used + 1, done + [row], row.score, after)
  {
    RowsChange(score, steps, done, current, used, row);
    var longer := done + [row];
    assert longer[|longer| - 1] == row;
  }

  /**
   * Once the rows written are all there is, the folder and the running score
   * are what `Appended` says.
   */
  lemma ProgressFinal(orig: map<string, string>, name: string, score: int, inputs: seq<Entry>,
                      used: nat, done: seq<Record>, current: int, files: map<string, string>)
    requires Progress(orig, name, score, Steps(inputs), used, done, current, files)
    requires Rows(score, Steps(inputs)) == done
    ensures Logged(orig, name, score, inputs, current, files)
  {
    assert Appended(score, inputs) == done;
  }

  /** With every step taken, the rows written are all there is. */
  lemma ProgressEnd(orig: map<string, string>, name: string, score: int, steps: seq<Step>,
                    done: seq<Record>, current: int, files: map<string, string>)
    requires Progress(orig, name, score, steps, |steps|, done, current, files)
    ensures Rows(score, steps) == done
  {
    assert steps[|steps|..] == [];
    assert done + [] == done;
  }

  /**
   * One accepted change: run the format guard on the record file, then
   * append the row. `ok` is false when the guard cannot open the file.
   */
  method LogRow(folder: Folder, name: string, row: Record, ghost orig: map<string, string>, ghost done: seq<Record>) returns (ok: bool)
    requires done != [] ==> name in orig
    requires folder.files == Written(orig, name, done)
    modifies folder
    ensures ok == (name in orig)
    ensures ok ==> folder.files == Written(orig, name, done + [row])
    ensures !ok ==> folder.files == old(folder.files)
  {
    ok := folder.CheckFormat(name);
    if ok {
      WrittenStep(orig, name, done, row);
      folder.AppendRow(name, row);
    }
  }

  /**
   * `LogRow` seen from the append loop: the row of an accepted change is
   * written and the loop moves on by one step, or the file is missing and
   * nothing changes.
   */
  method LogChange(folder: Folder, name: string, row: Record, ghost orig: map<string, string>, ghost score: int,
                   ghost steps: seq<Step>, ghost used: nat, ghost done: seq<Record>, ghost current: int) returns (ok: bool)
    requires Progress(orig, name, score, steps, used, done, current, folder.files)
    requires used < |steps| && steps[used].cmd == Change(row.score - current) && row.time == steps[used].at
    modifies folder
    ensures Rows(score, steps) != []
    ensures ok == (name in orig)
    ensures ok ==> Progress(orig, name, score, steps, used + 1, done + [row], row.score, folder.files)
    ensures !ok ==> folder.files == old(folder.files)
  {
    RowsGrow(score, steps, done, current, used, row);
    ghost var before := folder.files;
    ok := LogRow(folder, name, row, orig, done);
    if ok {
      ProgressChange(orig, name, score, steps, used, done, current, before, row, folder.files);
    }
  }

  /**
   * Reads the next input line and classifies it: `q` or `Q` after stripping
   * leaves, an integer from the allowed changes is that change, and anything
   * else is refused.
   */
  method ReadCommand(inputs: seq<Entry>, used: nat) returns (cmd: Command)
    requires used < |inputs|
    ensures Steps(inputs)[used] == Step(cmd, inputs[used].at)
    ensures cmd == Leave <==> IsQuit(Strip(inputs[used].text))
    ensures cmd.Change? <==>
      !IsQuit(Strip(inputs[used].text)) && ParseInt(Strip(inputs[used].text)).Some?
      && ParseInt(Strip(inputs[used].text)).value in AllowedChanges
    ensures cmd.Change? ==> Some(cmd.delta) == ParseInt(Strip(inputs[used].text))
  {
    cmd := Classify(inputs[used].text);
    StepAt(inputs, used);
  }

  datatype WorkEnd = Stopped | WriteFailed | OutOfInput

  /**
   * One pass of the `work_mode` loop on the input line `inputs[used]`: a quit
   * stops it, a refused line is skipped, and an accepted change is logged
   * and becomes the running score, or stops it when the file is missing.
   */
  method HandleLine(folder: Folder, name: string, inputs: seq<Entry>, used: nat, current: int,
                    ghost score: int, ghost orig: map<string, string>, ghost done: seq<Record>)
    returns (next: int, stop: Option<WorkEnd>, ghost longer: seq<Record>)
    requires used < |inputs|
    requires Progress(orig, name, score, Steps(inputs), used, done, current, folder.files)
    modifies folder
    ensures stop.None? ==> Progress(orig, name, score, Steps(inputs), used + 1, longer, next, folder.files)
    ensures stop.None? ==> Steps(inputs)[used].cmd != Leave
    ensures stop.Some? && stop.value == Stopped ==>
      Steps(inputs)[used].cmd == Leave && Rows(score, Steps(inputs)) == done && folder.files == old(folder.files)
    ensures stop.Some? && stop.value == WriteFailed ==>
      name !in orig && Rows(score, Steps(inputs)) != [] && folder.files == old(folder.files)
    ensures stop.Some? ==> stop.value != OutOfInput
  {
    ghost var steps := Steps(inputs);
    var entry := inputs[used];
    var cmd := ReadCommand(inputs, used);
    next, stop, longer := current, None, done;
    match cmd {
      case Leave =>
        ProgressLeave(orig, name, score, steps, used, done, current, folder.files);
        stop := Some(Stopped);
      case Ignore =>
        ProgressSkip(orig, name, score, steps, used, done, current, folder.files);
      case Change(c) =>
        var row := Record(entry.at, current + c);
        assert steps[used].cmd == Change(row.score - current);
        var ok := LogChange(folder, name, row, orig, score, steps, used, done, current);
        if ok {
          next, longer := row.score, done + [row];
        } else {
          stop := Some(WriteFailed);
        }
    }
  }

  /**
   * `work_mode`: until the user quits, every valid change appends exactly one
   * row `(time, current + change)` after the format guard has run and makes
   * that the current score; invalid input changes nothing.
   */
  method WorkMode(folder: Folder, name: string, score: int, inputs: seq<Entry>) returns (current: int, used: nat, end: WorkEnd)
    modifies folder
    ensures used <= |inputs|
    ensures end == Stopped ==> 1 <= used <= |inputs| && Steps(inputs)[used - 1].cmd == Leave
    ensures end == OutOfInput ==> used == |inputs|
    ensures forall j :: 0 <= j < |inputs| && (j < used - 1 || end == OutOfInput) ==> Steps(inputs)[j].cmd != Leave
    ensures end == WriteFailed <==> name !in old(folder.files) && Appended(score, inputs) != []
    ensures end == WriteFailed ==> folder.files == old(folder.files) && current == score
    ensures end != WriteFailed ==> Logged(old(folder.files), name, score, inputs, current, folder.files)
  {
    current, used := score, 0;
    ghost var done: seq<Record> := [];
    ghost var orig := folder.files;
    ProgressStart(orig, name, score, Steps(inputs));
    while used < |inputs|
      invariant orig == old(folder.files)
      invariant Progress(orig, name, score, Steps(inputs), used, done, current, folder.files)
      invariant forall j :: 0 <= j < used ==> Steps(inputs)[j].cmd != Leave
    {
      var next, stop, longer := HandleLine(folder, name, inputs, used, current, score, orig, done);
      if stop.Some? {
        if stop.value == Stopped {
          ProgressFinal(orig, name, score, inputs, used, done, current, folder.files);
        }
        return current, used + 1, stop.value;
      }
      used, current, done := used + 1, next, longer;
    }
    ProgressEnd(orig, name, score, Steps(inputs), done, current, folder.files);
    ProgressFinal(orig, name, score, inputs, used, done, current, folder.files);
    return current, used, OutOfInput;
  }

}
