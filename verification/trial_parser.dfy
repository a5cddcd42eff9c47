/**
 * `process_text_files` (iso_leg_press.py:8-76) without its pandas and
 * Streamlit calls: every uploaded file becomes one row (name, date, trial,
 * resultant force), is skipped when its date cannot be read, or stops the
 * whole batch when its name has no `_`.
 */
module TrialParser {
  import opened Wrappers
  import opened Text
  import opened LineScan
  import opened FilenameDate

  /** One uploaded file: its name and its content, already decoded and split into lines. */
  datatype TrialFile = TrialFile(name: string, lines: seq<string>)

  /** One output row, with the columns Name, Date, Trial and Resultant_Force. */
  datatype Row = Row(name: string, date: string, trial: string, resultantForce: real)

  /** What one file contributes to the batch. */
  datatype FileOutcome =
    | Emitted(row: Row)          // a row is appended (iso_leg_press.py:63-68)
    | Skipped(fileName: string)  // the date could not be read: reported, and the loop continues (:58-60)
    | Aborted(fileName: string)  // no `_` in the name: the IndexError at :18 is not caught

  /** A name has a trial segment exactly when it holds a `_`. */
  lemma UnderscoreSegments(name: string)
    ensures '_' in name <==> |SplitOn(name, '_')| >= 2
  {
    var segments := SplitOn(name, '_');
    JoinSplitOn(name, '_');
    if |segments| >= 2 {
      assert name == JoinWith(segments, '_');
      assert name[|segments[0]|] == '_';
    }
  }

  /**
   * One file: the name is split on `_` (segment 0 is the name, segment 1 the
   * trial), the lines are scanned, and the content date is used when one was
   * captured, else the filename date.
   */
  function ProcessFile(f: TrialFile, num: Numerics): (out: FileOutcome)
    ensures out.Aborted? <==> '_' !in f.name
    ensures out.Skipped? <==> '_' in f.name && Scan(f.lines, num).date == "" && FileNameDate(f.name).None?
    ensures !out.Emitted? ==> out.fileName == f.name
    ensures out.Emitted? ==>
              && |SplitOn(f.name, '_')| >= 2
              && out.row.name == SplitOn(f.name, '_')[0]
              && out.row.trial == SplitOn(f.name, '_')[1]
              && out.row.resultantForce == Scan(f.lines, num).maxForce
              && out.row.resultantForce >= 0.0
              && out.row.date != ""
    ensures '_' in f.name && Scan(f.lines, num).date != "" ==>
              out.Emitted? && out.row.date == Scan(f.lines, num).date
    ensures '_' in f.name && Scan(f.lines, num).date == "" && FileNameDate(f.name).Some? ==>
              out.Emitted? && out.row.date == FileNameDate(f.name).value
  {
    var segments := SplitOn(f.name, '_');
    UnderscoreSegments(f.name);
    if |segments| < 2 then
      Aborted(f.name)
    else
      var st := Scan(f.lines, num);
      var date := if st.date != "" then Some(st.date) else FileNameDate(f.name);
      match date
      case None => Skipped(f.name)
      case Some(d) =>
        Emitted(Row(segments[0], d, segments[1], st.maxForce))
  }

  /**
   * Name and trial: for a filename "name_trial" or "name_trial_…", the row
   * carries exactly the name and the trial segment, kept as raw text.
   */
  lemma NameAndTrial(name: string, trial: string, rest: string, lines: seq<string>, num: Numerics)
    requires '_' !in name && '_' !in trial
    requires rest == "" || rest[0] == '_'
    ensures var out := ProcessFile(TrialFile(name + "_" + trial + rest, lines), num);
            && !out.Aborted?
            && (out.Emitted? ==> out.row.name == name && out.row.trial == trial)
  {
    var fileName := name + "_" + trial + rest;
    if rest == "" {
      assert fileName == name + ['_'] + trial;
      SplitOnConcat(name, trial, '_');
    } else {
      assert fileName == name + ['_'] + (trial + ['_'] + rest[1..]);
      SplitOnConcat(name, trial + ['_'] + rest[1..], '_');
      SplitOnConcat(trial, rest[1..], '_');
    }
    assert SplitOn(fileName, '_')[..2] == [name, trial];
  }

  /** The batch so far, extended by one more file's outcome. */
  function Extend(sofar: Result<seq<Row>, string>, out: FileOutcome): (res: Result<seq<Row>, string>)
  {
    match sofar
    case Failure(e) => Failure(e)
    case Success(rows) =>
      match out
      case Aborted(name) => Failure(name)
      case Skipped(_) => Success(rows)
      case Emitted(row) => Success(rows + [row])
  }

  /**
   * The whole batch, file by file in input order. A file without `_` in its
   * name stops the batch with that file's name; skipped files add nothing.
   */
  function ProcessFiles(files: seq<TrialFile>, num: Numerics): (res: Result<seq<Row>, string>)
    ensures res.Success? ==> |res.value| <= |files|
    decreases |files|
  {
    if |files| == 0 then Success([])
    else Extend(ProcessFiles(files[..|files| - 1], num), ProcessFile(files[|files| - 1], num))
  }

  /**
   * The batch fails exactly when some file lacks `_`, and then it reports the
   * first such file by name.
   */
  lemma {:induction false} ProcessFilesFailure(files: seq<TrialFile>, num: Numerics)
    ensures ProcessFiles(files, num).Failure? <==> exists i :: 0 <= i < |files| && '_' !in files[i].name
    ensures ProcessFiles(files, num).Failure? ==>
              exists i :: && 0 <= i < |files| && '_' !in files[i].name
                          && ProcessFiles(files, num).error == files[i].name
                          && forall j :: 0 <= j < i ==> '_' in files[j].name
    decreases |files|
  {
    if |files| > 0 {
      var init := files[..|files| - 1];
      var last := files[|files| - 1];
      ProcessFilesFailure(init, num);
      assert forall i :: 0 <= i < |init| ==> init[i] == files[i];
      if ProcessFiles(init, num).Failure? {
        var i :| && 0 <= i < |init| && '_' !in init[i].name
                 && ProcessFiles(init, num).error == init[i].name
                 && forall j :: 0 <= j < i ==> '_' in init[j].name;
        assert files[i] == init[i];
      } else if '_' !in last.name {
        var i := |files| - 1;
        assert forall j :: 0 <= j < i ==> '_' in files[j].name by {
          forall j | 0 <= j < i ensures '_' in files[j].name {
            assert files[j] == init[j];
          }
        }
      }
    }
  }

  /** The rows of the files that emit one, in file order: the batch as a filter-map. */
  function EmittedRows(files: seq<TrialFile>, num: Numerics): (rows: seq<Row>)
    ensures |rows| <= |files|
    decreases |files|
  {
    if |files| == 0 then []
    else
      var first := ProcessFile(files[0], num);
      (if first.Emitted? then [first.row] else []) + EmittedRows(files[1..], num)
  }

  /** Every row of the filter-map is the row that some file emits. */
  lemma {:induction false} EmittedRowsFrom(files: seq<TrialFile>, num: Numerics)
    ensures forall r :: r in EmittedRows(files, num) ==>
              exists i :: 0 <= i < |files| && ProcessFile(files[i], num) == Emitted(r)
    decreases |files|
  {
    if |files| > 0 {
      EmittedRowsFrom(files[1..], num);
      assert forall i :: 0 < i < |files| ==> files[1..][i - 1] == files[i];
    }
  }

  /** EmittedRows of files followed by one more file. */
  lemma {:induction false} EmittedRowsSnoc(files: seq<TrialFile>, f: TrialFile, num: Numerics)
    ensures var out := ProcessFile(f, num);
            EmittedRows(files + [f], num) == EmittedRows(files, num) + (if out.Emitted? then [out.row] else [])
    decreases |files|
  {
    var out := ProcessFile(f, num);
    var tail := if out.Emitted? then [out.row] else [];
    if |files| == 0 {
      assert [f][1..] == [];
      assert EmittedRows([f], num) == tail + EmittedRows([], num);
    } else {
      var first := ProcessFile(files[0], num);
      var head := if first.Emitted? then [first.row] else [];
      assert (files + [f])[0] == files[0];
      assert (files + [f])[1..] == files[1..] + [f];
      EmittedRowsSnoc(files[1..], f, num);
      calc {
        EmittedRows(files + [f], num);
        head + EmittedRows(files[1..] + [f], num);
        head + (EmittedRows(files[1..], num) + tail);
        (head + EmittedRows(files[1..], num)) + tail;
        EmittedRows(files, num) + tail;
      }
    }
  }

  /**
   * Row output: when every filename holds `_`, the batch succeeds with exactly
   * one row per emitting file, in the order of the files; skipped files add none.
   */
  lemma {:induction false} ProcessFilesRows(files: seq<TrialFile>, num: Numerics)
    requires forall i :: 0 <= i < |files| ==> '_' in files[i].name
    ensures ProcessFiles(files, num) == Success(EmittedRows(files, num))
    decreases |files|
  {
    if |files| > 0 {
      var init := files[..|files| - 1];
      var last := files[|files| - 1];
      assert ProcessFiles(init, num) == Success(EmittedRows(init, num)) by {
        assert forall i :: 0 <= i < |init| ==> init[i] == files[i];
        ProcessFilesRows(init, num);
      }
      var out := ProcessFile(last, num);
      assert !out.Aborted? by {
        assert '_' in files[|files| - 1].name;
      }
      assert ProcessFiles(files, num) == Extend(Success(EmittedRows(init, num)), out);
      assert EmittedRows(files, num) == EmittedRows(init, num) + (if out.Emitted? then [out.row] else []) by {
        assert init + [last] == files;
        EmittedRowsSnoc(init, last, num);
      }
      if out.Skipped? {
        assert EmittedRows(init, num) + [] == EmittedRows(init, num);
      }
    }
  }

  /** The outcome of a batch followed by more files: a failure wins, otherwise the rows are concatenated. */
  function Then(first: Result<seq<Row>, string>, second: Result<seq<Row>, string>): Result<seq<Row>, string>
  {
    match first
    case Failure(e) => Failure(e)
    case Success(rows) =>
      match second
      case Failure(e) => Failure(e)
      case Success(more) => Success(rows + more)
  }

  /**
   * Rows keep the relative order of their files: the batch of `a + b` is the
   * rows of `a` followed by the rows of `b`, unless one of them stops the batch.
   */
  lemma {:induction false} ProcessFilesAppend(a: seq<TrialFile>, b: seq<TrialFile>, num: Numerics)
    ensures ProcessFiles(a + b, num) == Then(ProcessFiles(a, num), ProcessFiles(b, num))
    decreases |b|
  {
    if |b| == 0 {
      assert a + b == a;
      if ProcessFiles(a, num).Success? {
        assert ProcessFiles(a, num).value + [] == ProcessFiles(a, num).value;
      }
    } else {
      var init := b[..|b| - 1];
      var last := b[|b| - 1];
      assert (a + b)[..|a + b| - 1] == a + init;
      assert (a + b)[|a + b| - 1] == last;
      ProcessFilesAppend(a, init, num);
      match ProcessFiles(a, num)
      case Failure(_) =>
      case Success(rows) =>
        match ProcessFiles(init, num)
        case Failure(_) =>
        case Success(more) =>
          match ProcessFile(last, num)
          case Aborted(_) =>
          case Skipped(_) =>
          case Emitted(row) =>
            assert rows + more + [row] == rows + (more + [row]);
    }
  }

  /**
   * A file "name_trial_day.month.year.txt" whose content captures nothing
   * gives one row: name and trial from the name, the date from the name,
   * and no force.
   */
  lemma DatedByName(name: string, trial: string, day: string, month: string, year: string, num: Numerics)
    requires '_' !in name && '_' !in trial
    requires IsDigits(day) && IsDigits(month) && IsDigits(year)
    ensures ProcessFile(TrialFile(name + "_" + trial + "_" + day + "." + month + "." + year + Extension, []), num)
            == Emitted(Row(name, day + " " + month + " " + FullYear(year), trial, 0.0))
  {
    var lines: seq<string> := [];
    var rest := "_" + day + "." + month + "." + year + Extension;
    var fileName := name + "_" + trial + "_" + day + "." + month + "." + year + Extension;
    assert fileName == name + "_" + trial + rest;
    assert fileName == (name + "_" + trial) + "_" + day + "." + month + "." + year + Extension;
    assert Scan(lines, num) == Start;
    assert FileNameDate(fileName) == Some(day + " " + month + " " + FullYear(year)) by {
      FileNameDateOf(name + "_" + trial, day, month, year);
    }
    NameAndTrial(name, trial, rest, lines, num);
  }

  /** A file whose content captures nothing and whose name holds no day.month.year is skipped. */
  lemma UndatedSkipped(prefix: string, segment: string, num: Numerics)
    requires '_' !in segment && '.' !in segment
    ensures var fileName := prefix + "_" + segment + Extension;
            ProcessFile(TrialFile(fileName, []), num) == Skipped(fileName)
  {
    var lines: seq<string> := [];
    var fileName := prefix + "_" + segment + Extension;
    assert fileName[|prefix|] == '_';
    assert Scan(lines, num) == Start;
    FileNameDateNoDots(prefix, segment);
  }

  /**
   * A batch of a file dated by its name, an undated file and a file without
   * `_`: the first two give the first file's row alone, the skipped file
   * adding nothing; with the third appended the batch stops with its name.
   */
  lemma BatchOfThree(name: string, trial: string, day: string, month: string, year: string,
                     undated: string, bad: string, num: Numerics)
    requires '_' !in name && '_' !in trial
    requires IsDigits(day) && IsDigits(month) && IsDigits(year)
    requires '_' !in undated && '.' !in undated
    requires '_' !in bad
    ensures var a := TrialFile(name + "_" + trial + "_" + day + "." + month + "." + year + Extension, []);
            var b := TrialFile(name + "_" + undated + Extension, []);
            && ProcessFiles([a, b], num) == Success([Row(name, day + " " + month + " " + FullYear(year), trial, 0.0)])
            && ProcessFiles([a, b, TrialFile(bad, [])], num) == Failure(bad)
  {
    var a := TrialFile(name + "_" + trial + "_" + day + "." + month + "." + year + Extension, []);
    var b := TrialFile(name + "_" + undated + Extension, []);
    var c := TrialFile(bad, []);
    var row := Row(name, day + " " + month + " " + FullYear(year), trial, 0.0);
    assert ProcessFiles([a], num) == Success([row]) by {
      DatedByName(name, trial, day, month, year, num);
      assert ProcessFile(a, num) == Emitted(row);
      assert [a][..0] == [];
      assert ProcessFiles([], num) == Success([]);
      assert [] + [row] == [row];
      assert ProcessFiles([a], num) == Extend(ProcessFiles([], num), ProcessFile(a, num));
    }
    assert ProcessFiles([a, b], num) == Success([row]) by {
      UndatedSkipped(name, undated, num);
      assert [a, b][..1] == [a];
      assert ProcessFiles([a, b], num) == Extend(ProcessFiles([a], num), ProcessFile(b, num));
    }
    assert ProcessFile(c, num) == Aborted(bad);
    assert [a, b, c][..2] == [a, b];
    assert ProcessFiles([a, b, c], num) == Extend(ProcessFiles([a, b], num), ProcessFile(c, num));
  }

  /** The same batch with concrete names. */
  lemma ExampleBatch(num: Numerics)
    ensures ProcessFiles([TrialFile("Alice_3_25.09.24.txt", []), TrialFile("Alice_2.txt", [])], num)
            == Success([Row("Alice", "25 09 2024", "3", 0.0)])
  {
    assert "Alice_3_25.09.24.txt" == "Alice" + "_" + "3" + "_" + "25" + "." + "09" + "." + "24" + Extension;
    assert "Alice_2.txt" == "Alice" + "_" + "2" + Extension;
    assert FullYear("24") == "2024";
    assert "25" + " " + "09" + " " + "2024" == "25 09 2024";
    BatchOfThree("Alice", "3", "25", "09", "24", "2", "Carol.txt", num);
  }

  /** The batch of the first `i + 1` files extends the batch of the first `i` by file `i`. */
  lemma PrefixStep(files: seq<TrialFile>, i: nat, num: Numerics)
    requires i < |files|
    ensures ProcessFiles(files[..i + 1], num) == Extend(ProcessFiles(files[..i], num), ProcessFile(files[i], num))
  {
    assert files[..i + 1][..i] == files[..i];
  }

  /** Once a prefix of the batch has failed, the whole batch fails the same way. */
  lemma FailureStops(files: seq<TrialFile>, k: nat, num: Numerics)
    requires k <= |files| && ProcessFiles(files[..k], num).Failure?
    ensures ProcessFiles(files, num) == ProcessFiles(files[..k], num)
  {
    ProcessFilesAppend(files[..k], files[k..], num);
    assert files[..k] + files[k..] == files;
  }

  /**
   * The loop of the source over the files, with `continue` for a skipped file
   * and an early exit for the uncaught error; it computes the same as the fold.
   */
  method ProcessAll(files: seq<TrialFile>, num: Numerics) returns (res: Result<seq<Row>, string>)
    ensures res == ProcessFiles(files, num)
  {
    var rows: seq<Row> := [];
    for i := 0 to |files|
      invariant ProcessFiles(files[..i], num) == Success(rows)
    {
      var out := ProcessFile(files[i], num);
      PrefixStep(files, i, num);
      match out {
        case Aborted(name) =>
          FailureStops(files, i + 1, num);
          return Failure(name);
        case Skipped(_) =>
        case Emitted(row) =>
          rows := rows + [row];
      }
    }
    assert files[..|files|] == files;
    res := Success(rows);
  }
}
