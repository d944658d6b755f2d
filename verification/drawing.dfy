/**
 * The plotter's preprocessing: choosing a record file, reading its rows
 * into two parallel lists, and building the x-axis labels and hour ticks
 * that the charts are drawn with. The drawing itself is not modelled.
 */
module Drawing {
  import opened Wrappers
  import opened PyText
  import opened PyInt
  import opened Lines
  import opened Timestamps
  import opened Records
  import opened Prompts
  import opened Seqs

  /** How `select_csv_file` ends. */
  datatype Selection =
    | Chosen(file: string)   // the numbered file the user picked
    | NoFiles                // no `.csv` file at all: `sys.exit(1)`
    | Quit                   // `q` or `Q`: `sys.exit(0)`
    | Exhausted              // the input ran out while re-prompting

  /** What one stripped answer at the file prompt does: `None` where it asks again. */
  function Pick(choice: string, csv: seq<string>): (r: Option<Selection>)
    ensures r == Some(Quit) <==> IsQuit(choice)
    ensures r.Some? && r.value.Chosen? ==> r.value.file in csv
  {
    if IsQuit(choice) then Some(Quit)
    else match ChoiceIndex(choice, |csv|)
      case Some(i) => Some(Chosen(csv[i]))
      case None => None
  }

  /** Typing the number `k` picks file `k` of the list, counting from 1, and nothing else does. */
  lemma PickNumber(k: int, csv: seq<string>)
    ensures Pick(Str(k), csv) == if 1 <= k <= |csv| then Some(Chosen(csv[k - 1])) else None
  {
    StrAvoids(k, 'q');
    StrAvoids(k, 'Q');
    assert Str(k) != "q" && Str(k) != "Q" by {
      assert "q"[0] == 'q' && "Q"[0] == 'Q';
    }
    ChoiceOfStr(k, |csv|);
  }

  /**
   * `select_csv_file`: list the `.csv` files, then read answers until one
   * quits or picks a listed file. `used` counts the answers read.
   */
  method SelectCsvFile(listing: seq<string>, inputs: seq<string>) returns (r: Selection, used: nat)
    ensures used <= |inputs|
    ensures r == NoFiles <==> CsvFiles(listing) == []
    ensures r == NoFiles ==> used == 0
    ensures r == Exhausted ==> used == |inputs|
    ensures r == Exhausted ==> forall j :: 0 <= j < used ==> Pick(Strip(inputs[j]), CsvFiles(listing)).None?
    ensures r.Chosen? || r == Quit ==>
      && 1 <= used
      && (forall j :: 0 <= j < used - 1 ==> Pick(Strip(inputs[j]), CsvFiles(listing)).None?)
      && Pick(Strip(inputs[used - 1]), CsvFiles(listing)).Some?
      && Pick(Strip(inputs[used - 1]), CsvFiles(listing)).value == r
    ensures r.Chosen? ==> r.file in listing && EndsWith(r.file, ".csv")
  {
    var csv := CsvFiles(listing);
    used := 0;
    if csv == [] {
      return NoFiles, used;
    }
    while used < |inputs|
      invariant used <= |inputs|
      invariant forall j :: 0 <= j < used ==> Pick(Strip(inputs[j]), csv).None?
    {
      var choice := Strip(inputs[used]);
      var outcome := Pick(choice, csv);
      if outcome.Some? {
        r := outcome.value;
        if r.Chosen? {
          CsvFilesMembers(listing);
        }
        used := used + 1;
        assert Strip(inputs[used - 1]) == choice;
        return r, used;
      }
      used := used + 1;
    }
    return Exhausted, used;
  }

  /** How `load_csv` ends. */
  datatype Load =
    | Loaded(times: seq<Timestamp>, scores: seq<int>)
    | NotFound    // `FileNotFoundError`: `sys.exit(1)`
    | Malformed   // any other exception while reading: `sys.exit(1)`

  /** What each data row parses to, row by row. */
  function ParsedRows(rows: seq<string>): (parsed: seq<Option<Record>>)
    ensures |parsed| == |rows|
  {
    if rows == [] then [] else ParsedRows(rows[..|rows| - 1]) + [ParseRow(rows[|rows| - 1])]
  }

  /** Entry `i` of the parsed rows is what row `i` parses to. */
  lemma {:induction false} ParsedRowsAt(rows: seq<string>, i: nat)
    requires i < |rows|
    ensures ParsedRows(rows)[i] == ParseRow(rows[i])
  {
    if i < |rows| - 1 {
      ParsedRowsAt(rows[..|rows| - 1], i);
    }
  }

  /**
   * The parsed rows gathered as `load_csv` gathers them: each row's time
   * and score appended in turn, and `Malformed` from the first row that
   * does not parse.
   */
  function Collect(parsed: seq<Option<Record>>): Load
  {
    if parsed == [] then Loaded([], [])
    else
      match Collect(parsed[..|parsed| - 1])
      case Loaded(times, scores) =>
        (match parsed[|parsed| - 1]
         case Some(row) => Loaded(times + [row.time], scores + [row.score])
         case None => Malformed)
      case _ => Malformed
  }

  /**
   * Gathering never reports a missing file; it loads exactly when every
   * row parsed, and then time `i` and score `i` are those of row `i`.
   */
  lemma {:induction false} CollectSpec(parsed: seq<Option<Record>>)
    ensures Collect(parsed) != NotFound
    ensures Collect(parsed).Loaded? <==> forall i :: 0 <= i < |parsed| ==> parsed[i].Some?
    ensures Collect(parsed).Loaded? ==>
      && |Collect(parsed).times| == |Collect(parsed).scores| == |parsed|
      && forall i :: 0 <= i < |parsed| ==> parsed[i] == Some(Record(Collect(parsed).times[i], Collect(parsed).scores[i]))
  {
    if parsed != [] {
      var init := parsed[..|parsed| - 1];
      CollectSpec(init);
      assert forall i :: 0 <= i < |init| ==> parsed[i] == init[i];
    }
  }

  /** Once a prefix of the parsed rows fails to gather, the whole does too. */
  lemma {:induction false} MalformedSticks(parsed: seq<Option<Record>>, n: nat)
    requires n <= |parsed| && Collect(parsed[..n]) == Malformed
    ensures Collect(parsed) == Malformed
    decreases |parsed| - n
  {
    if n < |parsed| {
      assert parsed[..n + 1][..n] == parsed[..n];
      MalformedSticks(parsed, n + 1);
    } else {
      assert parsed[..n] == parsed;
    }
  }

  /**
   * The rows after the header load exactly when every one of them parses,
   * and then time `i` and score `i` are what row `i` parses to.
   */
  lemma LoadRowsSpec(rows: seq<string>)
    ensures Collect(ParsedRows(rows)) != NotFound
    ensures Collect(ParsedRows(rows)).Loaded? <==> forall i :: 0 <= i < |rows| ==> ParseRow(rows[i]).Some?
    ensures Collect(ParsedRows(rows)).Loaded? ==>
      && |Collect(ParsedRows(rows)).times| == |Collect(ParsedRows(rows)).scores| == |rows|
      && forall i :: 0 <= i < |rows| ==>
           ParseRow(rows[i]) == Some(Record(Collect(ParsedRows(rows)).times[i], Collect(ParsedRows(rows)).scores[i]))
  {
    var parsed := ParsedRows(rows);
    CollectSpec(parsed);
    forall i | 0 <= i < |rows|
      ensures parsed[i] == ParseRow(rows[i])
    {
      ParsedRowsAt(rows, i);
    }
  }

  /**
   * `load_csv(filename)`: skip the header row, then turn each row into a
   * time and a score. A missing header (an empty file) or any row that is
   * not exactly a valid time and an integer aborts the load.
   */
  method LoadCsv(files: map<string, string>, filename: string) returns (r: Load)
    ensures r == NotFound <==> filename !in files
    ensures filename in files ==>
      var lines := ReadLines(files[filename]);
      r == if lines == [] then Malformed else Collect(ParsedRows(lines[1..]))
  {
    if filename !in files {
      return NotFound;
    }
    var lines := ReadLines(files[filename]);
    if lines == [] {
      return Malformed;
    }
    var rows := lines[1..];
    var times: seq<Timestamp> := [];
    var scores: seq<int> := [];
    ghost var parsed := ParsedRows(rows);
    var n := 0;
    while n < |rows|
      invariant n <= |rows|
      invariant Collect(parsed[..n]) == Loaded(times, scores)
    {
      ParsedRowsAt(rows, n);
      var row := ParseRow(rows[n]);
      assert parsed[..n + 1][..n] == parsed[..n] && parsed[..n + 1][n] == row;
      if row.None? {
        MalformedSticks(parsed, n + 1);
        return Malformed;
      }
      times, scores := times + [row.value.time], scores + [row.value.score];
      n := n + 1;
    }
    assert parsed[..n] == parsed;
    return Loaded(times, scores);
  }

  /** The times of the records, in order. */
  function TimesOf(rs: seq<Record>): seq<Timestamp>
  {
    seq(|rs|, i requires 0 <= i < |rs| => rs[i].time)
  }

  /** The scores of the records, in order. */
  function ScoresOf(rs: seq<Record>): seq<int>
  {
    seq(|rs|, i requires 0 <= i < |rs| => rs[i].score)
  }

  /** The rows after the header of a file the logger wrote parse as its records. */
  lemma WrittenRowsParse(rs: seq<Record>)
    requires forall i :: 0 <= i < |rs| ==> Valid(rs[i].time)
    ensures var lines := ReadLines(FileText(rs));
            && |lines| == |rs| + 1
            && forall i :: 0 <= i < |rs| ==> ParsedRows(lines[1..])[i] == Some(rs[i])
  {
    FileRoundTrip(rs);
    var lines := ReadLines(FileText(rs));
    forall i | 0 <= i < |rs|
      ensures ParsedRows(lines[1..])[i] == Some(rs[i])
    {
      ParsedRowsAt(lines[1..], i);
      assert lines[1..][i] == lines[i + 1];
    }
  }

  /**
   * A file the logger wrote loads back as its records: the header is there
   * and the rows give back every time and every score, in order.
   */
  lemma WrittenFileLoads(rs: seq<Record>)
    requires forall i :: 0 <= i < |rs| ==> Valid(rs[i].time)
    ensures var lines := ReadLines(FileText(rs));
            lines != [] && Collect(ParsedRows(lines[1..])) == Loaded(TimesOf(rs), ScoresOf(rs))
  {
    WrittenRowsParse(rs);
    var parsed := ParsedRows(ReadLines(FileText(rs))[1..]);
    CollectSpec(parsed);
    var loaded := Collect(parsed);
    assert loaded.times == TimesOf(rs);
    assert loaded.scores == ScoresOf(rs);
  }

  /** An x-axis label: with the date on top, or the time of day alone. */
  datatype Label = DateAndTime(at: Timestamp) | TimeOnly(at: Timestamp)

  /** Label `i` shows the date when it is the first label or its date differs from the previous one. */
  predicate ShowsDate(times: seq<Timestamp>, i: nat)
    requires i < |times|
  {
    i == 0 || DateOf(times[i]) != DateOf(times[i - 1])
  }

  /** The label for time `i`. */
  function LabelAt(times: seq<Timestamp>, i: nat): (l: Label)
    requires i < |times|
    ensures l.at == times[i]
  {
    if ShowsDate(times, i) then DateAndTime(times[i]) else TimeOnly(times[i])
  }

  /**
   * The label loop of `plot_by_session` (and, over the hour ticks, of
   * `plot_by_time`): one label per time, carrying the date exactly where
   * the date changes.
   */
  method DateLabels(times: seq<Timestamp>) returns (labels: seq<Label>)
    ensures |labels| == |times|
    ensures forall i :: 0 <= i < |times| ==> labels[i] == LabelAt(times, i)
  {
    labels := [];
    var prev: Option<Date> := None;
    var i := 0;
    while i < |times|
      invariant i <= |times| && |labels| == i
      invariant i == 0 ==> prev.None?
      invariant i > 0 ==> prev.Some? && prev.value == DateOf(times[i - 1])
      invariant forall k :: 0 <= k < i ==> labels[k] == LabelAt(times, k)
    {
      var date := DateOf(times[i]);
      var shown: Label;
      if prev.None? || prev.value != date {
        shown := DateAndTime(times[i]);
        prev := Some(date);
      } else {
        shown := TimeOnly(times[i]);
      }
      assert shown == LabelAt(times, i);
      labels := labels + [shown];
      i := i + 1;
    }
  }

  /** Times in chronological order, as the logger appends them. */
  predicate Chronological(times: seq<Timestamp>)
  {
    forall i :: 0 < i < |times| ==> LessEq(times[i - 1], times[i])
  }

  lemma LessEqTrans(a: Timestamp, b: Timestamp, c: Timestamp)
    requires LessEq(a, b) && LessEq(b, c)
    ensures LessEq(a, c)
  {
  }

  /** In chronological order every earlier time is at most every later one. */
  lemma {:induction false} ChronologicalPairs(times: seq<Timestamp>, j: nat, k: nat)
    requires Chronological(times) && j <= k < |times|
    ensures LessEq(times[j], times[k])
    decreases k - j
  {
    if j < k {
      ChronologicalPairs(times, j, k - 1);
      LessEqTrans(times[j], times[k - 1], times[k]);
    }
  }

  /** A time between two times of the same day is on that day too. */
  lemma SameDayBetween(a: Timestamp, b: Timestamp, c: Timestamp)
    requires LessEq(a, b) && LessEq(b, c) && DateOf(a) == DateOf(c)
    ensures DateOf(b) == DateOf(a)
  {
  }

  /**
   * For chronological times, a label shows the date exactly at the first
   * time of each day: no earlier time falls on the same day.
   */
  lemma FirstOfDay(times: seq<Timestamp>, i: nat)
    requires Chronological(times) && i < |times|
    ensures ShowsDate(times, i) <==> forall k :: 0 <= k < i ==> DateOf(times[k]) != DateOf(times[i])
  {
    if ShowsDate(times, i) && i > 0 {
      forall k | 0 <= k < i
        ensures DateOf(times[k]) != DateOf(times[i])
      {
        if DateOf(times[k]) == DateOf(times[i]) {
          ChronologicalPairs(times, k, i - 1);
          SameDayBetween(times[k], times[i - 1], times[i]);
        }
      }
    }
  }

  /** No tick repeats the one before it. */
  predicate NoRepeats(ticks: seq<Timestamp>)
  {
    forall k :: 0 < k < |ticks| ==> ticks[k - 1] != ticks[k]
  }

  /** Every tick is later than the one before it. */
  predicate Increasing(ticks: seq<Timestamp>)
  {
    forall k :: 0 < k < |ticks| ==> Less(ticks[k - 1], ticks[k])
  }

  /** Adding a tick that differs from the last keeps the ticks free of repeats. */
  lemma ExtendTicks(ticks: seq<Timestamp>, hour: Timestamp)
    requires ticks != [] ==> ticks[|ticks| - 1] != hour
    requires NoRepeats(ticks)
    ensures NoRepeats(ticks + [hour])
  {
    var t := ticks + [hour];
    forall k | 0 < k < |t|
      ensures t[k - 1] != t[k]
    {
      if k < |ticks| {
        assert t[k - 1] == ticks[k - 1] && t[k] == ticks[k];
      }
    }
  }

  /**
   * The hour ticks of `times`, as a reference: the hour of each time in
   * turn, where a run of times within one hour gives a single tick.
   */
  function Ticks(times: seq<Timestamp>): seq<Timestamp>
  {
    if times == [] then []
    else
      var prior := Ticks(times[..|times| - 1]);
      var hour := HourOf(times[|times| - 1]);
      if prior != [] && prior[|prior| - 1] == hour then prior else prior + [hour]
  }

  /** There are no more ticks than times, some as soon as there is a time, and the last tick is the last time's hour. */
  lemma {:induction false} TicksShape(times: seq<Timestamp>)
    ensures |Ticks(times)| <= |times|
    ensures Ticks(times) == [] <==> times == []
    ensures times != [] ==> Ticks(times)[|Ticks(times)| - 1] == HourOf(times[|times| - 1])
  {
    if times != [] {
      TicksShape(times[..|times| - 1]);
    }
  }

  /** The hour of every time is a tick. */
  lemma {:induction false} TicksCover(times: seq<Timestamp>)
    ensures forall i :: 0 <= i < |times| ==> HourOf(times[i]) in Ticks(times)
  {
    if times != [] {
      var init := times[..|times| - 1];
      TicksCover(init);
      TicksShape(times);
      forall i | 0 <= i < |times|
        ensures HourOf(times[i]) in Ticks(times)
      {
        if i < |init| {
          assert times[i] == init[i];
        }
      }
    }
  }

  /** Every tick is the hour of some time. */
  lemma {:induction false} TicksFrom(times: seq<Timestamp>)
    ensures forall k :: 0 <= k < |Ticks(times)| ==> exists i :: 0 <= i < |times| && Ticks(times)[k] == HourOf(times[i])
  {
    if times != [] {
      var init := times[..|times| - 1];
      var prior := Ticks(init);
      TicksFrom(init);
      forall k | 0 <= k < |Ticks(times)|
        ensures exists i :: 0 <= i < |times| && Ticks(times)[k] == HourOf(times[i])
      {
        if k < |prior| {
          var i :| 0 <= i < |init| && prior[k] == HourOf(init[i]);
          assert init[i] == times[i] && Ticks(times)[k] == prior[k];
          assert Ticks(times)[k] == HourOf(times[i]);
        } else {
          assert Ticks(times)[k] == HourOf(times[|times| - 1]);
        }
      }
    } else {
      assert Ticks(times) == [];
    }
  }

  /** No tick repeats the one before it. */
  lemma {:induction false} TicksNoRepeats(times: seq<Timestamp>)
    ensures NoRepeats(Ticks(times))
  {
    if times != [] {
      var prior := Ticks(times[..|times| - 1]);
      var hour := HourOf(times[|times| - 1]);
      TicksNoRepeats(times[..|times| - 1]);
      if !(prior != [] && prior[|prior| - 1] == hour) {
        ExtendTicks(prior, hour);
      }
    }
  }

  /** For times in chronological order, the ticks are increasing. */
  lemma {:induction false} TicksIncreasing(times: seq<Timestamp>)
    requires Chronological(times)
    ensures Increasing(Ticks(times))
  {
    if times != [] {
      var init := times[..|times| - 1];
      var prior := Ticks(init);
      var hour := HourOf(times[|times| - 1]);
      assert Chronological(init) by {
        forall i | 0 < i < |init|
          ensures LessEq(init[i - 1], init[i])
        {
          assert init[i - 1] == times[i - 1] && init[i] == times[i];
        }
      }
      TicksIncreasing(init);
      if !(prior != [] && prior[|prior| - 1] == hour) && prior != [] {
        TicksShape(init);
        HourOfMonotone(times[|times| - 2], times[|times| - 1]);
        var t := prior + [hour];
        forall k | 0 < k < |t|
          ensures Less(t[k - 1], t[k])
        {
          if k < |prior| {
            assert t[k - 1] == prior[k - 1] && t[k] == prior[k];
          }
        }
      }
    }
  }

  /**
   * The hour-tick loop of `plot_by_time`: the hour of each time, skipping a
   * time whose hour is the tick just added (the date is part of the hour).
   */
  method HourTicks(times: seq<Timestamp>) returns (ticks: seq<Timestamp>)
    ensures ticks == Ticks(times)
  {
    ticks := [];
    var prevHour: Option<Timestamp> := None;
    var prevDate: Option<Date> := None;
    var i := 0;
    while i < |times|
      invariant i <= |times| && ticks == Ticks(times[..i])
      invariant i == 0 ==> prevHour.None? && prevDate.None?
      invariant i > 0 ==> prevHour.Some? && prevHour.value == HourOf(times[i - 1]) == ticks[|ticks| - 1]
      invariant i > 0 ==> prevDate.Some? && prevDate.value == DateOf(times[i - 1])
    {
      TicksShape(times[..i + 1]);
      assert times[..i + 1][..i] == times[..i];
      var date := DateOf(times[i]);
      var hour := HourOf(times[i]);
      if prevDate.None? || prevDate.value != date || prevHour.None? || prevHour.value != hour {
        ticks := ticks + [hour];
        prevHour, prevDate := Some(hour), Some(date);
      }
      i := i + 1;
    }
    assert times[..i] == times;
  }

  /** Ticks that increase step by step increase everywhere. */
  lemma {:induction false} IncreasingEverywhere(ticks: seq<Timestamp>, j: nat, k: nat)
    requires Increasing(ticks)
    requires j < k < |ticks|
    ensures Less(ticks[j], ticks[k])
    decreases k - j
  {
    if j < k - 1 {
      IncreasingEverywhere(ticks, j, k - 1);
      LessEqTrans(ticks[j], ticks[k - 1], ticks[k]);
    }
  }

  /**
   * The x axis of `plot_by_time`: the hour ticks, and one label per tick
   * that carries the date exactly where the tick's date changes.
   */
  method TimeAxis(times: seq<Timestamp>) returns (ticks: seq<Timestamp>, labels: seq<Label>)
    ensures forall i :: 0 <= i < |times| ==> HourOf(times[i]) in ticks
    ensures forall k :: 0 <= k < |ticks| ==> exists i :: 0 <= i < |times| && ticks[k] == HourOf(times[i])
    ensures NoRepeats(ticks)
    ensures Chronological(times) ==> forall j, k :: 0 <= j < k < |ticks| ==> Less(ticks[j], ticks[k])
    ensures |labels| == |ticks|
    ensures forall k :: 0 <= k < |ticks| ==> labels[k] == LabelAt(ticks, k)
  {
    ticks := HourTicks(times);
    TicksFrom(times);
    TicksCover(times);
    TicksNoRepeats(times);
    if Chronological(times) {
      TicksIncreasing(times);
      forall j, k | 0 <= j < k < |ticks|
        ensures Less(ticks[j], ticks[k])
      {
        IncreasingEverywhere(ticks, j, k);
      }
    }
    labels := DateLabels(ticks);
  }
}
