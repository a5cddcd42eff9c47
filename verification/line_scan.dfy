/**
 * The single pass over a file's lines in `process_text_files`
 * (iso_leg_press.py:20-47): a fold of an immutable state record over the
 * lines, which captures the content date, switches on the data region at the
 * "abs time" header, and keeps the largest resultant force seen after it.
 */
module LineScan {
  import opened Wrappers
  import opened Text

  /** A real number that is never negative, as the magnitude of a vector is. */
  type NonNegReal = r: real | r >= 0.0

  /**
   * The floating-point collaborators of the scan, taken as parameters:
   * `parse` stands for Python's `float(token)` (None where it raises
   * ValueError) and `resultant` for `round(math.sqrt(fx ** 2 + fz ** 2), 1)`,
   * which is never negative.
   */
  datatype Numerics = Numerics(parse: string -> Option<real>, resultant: (real, real) -> NonNegReal)

  /** The marker of the line that carries the recording date. */
  const DateMarker: string := "Date"

  /** The marker of the column-header line after which the samples start. */
  const HeaderMarker: string := "abs time"

  /**
   * What the scan carries from one line to the next: the date captured from the
   * content ("" while none is), whether the header has been seen, and the
   * largest resultant force so far.
   */
  datatype ScanState = ScanState(date: string, inData: bool, maxForce: real)

  /** The state before the first line (iso_leg_press.py:20-22). */
  const Start := ScanState("", false, 0.0)

  /** Python's `xs[lo:hi]` for non-negative bounds: both ends are clamped to the length. */
  function Slice<T>(xs: seq<T>, lo: nat, hi: nat): (r: seq<T>)
    ensures |r| == (if lo < hi && lo < |xs| then (if hi <= |xs| then hi else |xs|) - lo else 0)
    ensures forall k :: 0 <= k < |r| ==> r[k] == xs[lo + k]
  {
    var h := if hi <= |xs| then hi else |xs|;
    if lo < h then xs[lo..h] else []
  }

  /**
   * The date text of a date line: its whitespace-separated words 1 to 3 joined
   * with single spaces (`" ".join(line.split()[1:4])`). It is empty exactly when
   * the line has fewer than two words, which leaves the capture open.
   */
  function DateText(line: string): (d: string)
    ensures d != "" <==> |SplitWhitespace(line)| >= 2
  {
    var picked := Slice(SplitWhitespace(line), 1, 4);
    if |picked| == 0 then ""
    else JoinWithFirst(picked, ' '); JoinWith(picked, ' ')
  }

  /** A line fixes the content date: it holds "Date" and at least two words. */
  predicate CapturesDate(line: string)
  {
    Contains(line, DateMarker) && DateText(line) != ""
  }

  /**
   * The two force components of a data line: the line is stripped and split on
   * runs of tabs, and fields 1 and 3 are parsed as fx and fz. None when there
   * are fewer than four fields or either field does not parse; such a line is
   * skipped without ending the scan.
   */
  function Sample(line: string, num: Numerics): (r: Option<(real, real)>)
    ensures var fields := SplitTabRuns(Strip(line));
            r.None? <==> |fields| < 4 || num.parse(fields[1]).None? || num.parse(fields[3]).None?
  {
    var fields := SplitTabRuns(Strip(line));
    if |fields| < 4 then None
    else match (num.parse(fields[1]), num.parse(fields[3]))
      case (Some(fx), Some(fz)) => Some((fx, fz))
      case _ => None
  }

  /**
   * A line of four or more whitespace-free fields separated by single tabs
   * yields fields 1 and 3 as its sample, when both parse.
   */
  lemma SampleOfTabbedLine(fields: seq<string>, num: Numerics)
    requires |fields| >= 4
    requires forall k :: 0 <= k < |fields| ==> IsWord(fields[k])
    ensures Sample(JoinWith(fields, '\t'), num)
            == if num.parse(fields[1]).Some? && num.parse(fields[3]).Some?
               then Some((num.parse(fields[1]).value, num.parse(fields[3]).value))
               else None
  {
    var line := JoinWith(fields, '\t');
    var first := fields[0];
    var last := fields[|fields| - 1];
    JoinWithFirst(fields, '\t');
    JoinWithLast(fields, '\t');
    assert line[0] == first[0];
    assert line[|line| - 1] == last[|last| - 1];
    StripUnchanged(line);
    forall k | 0 <= k < |fields|
      ensures '\t' !in fields[k]
    {
      assert IsSpace('\t');
    }
    SplitTabRunsJoin(fields);
  }

  /**
   * The resultant force of a line that holds a sample: the resultant of its
   * stripped, tab-run-split fields 1 and 3, both parsed.
   */
  function Force(line: string, num: Numerics): (f: NonNegReal)
    requires Sample(line, num).Some?
    ensures var fields := SplitTabRuns(Strip(line));
            && |fields| >= 4
            && f == num.resultant(num.parse(fields[1]).value, num.parse(fields[3]).value)
  {
    var (fx, fz) := Sample(line, num).value;
    num.resultant(fx, fz)
  }

  /**
   * One line of the scan. The three checks of the source run in order and
   * independently: date capture, then (on the state before this line) the data
   * check, then header detection. A header line therefore never contributes a
   * sample itself, while a later header line inside the data region is an
   * ordinary candidate data line.
   */
  function Step(st: ScanState, line: string, num: Numerics): (next: ScanState)
    ensures st.date != "" ==> next.date == st.date
    ensures st.date == "" ==> (next.date != "" <==> CapturesDate(line))
    ensures next.date != st.date ==> next.date == DateText(line)
    ensures next.inData <==> st.inData || Contains(line, HeaderMarker)
    ensures next.maxForce >= st.maxForce
    ensures !st.inData || Sample(line, num).None? ==> next.maxForce == st.maxForce
    ensures st.inData && Sample(line, num).Some? ==>
              next.maxForce >= Force(line, num)
              && (next.maxForce == st.maxForce || next.maxForce == Force(line, num))
  {
    var date := if Contains(line, DateMarker) && st.date == "" then DateText(line) else st.date;
    var maxForce :=
      if st.inData && Sample(line, num).Some? && Force(line, num) > st.maxForce
      then Force(line, num) else st.maxForce;
    var inData := st.inData || Contains(line, HeaderMarker);
    ScanState(date, inData, maxForce)
  }

  /** The state after the whole of `lines`, folded from the first line to the last. */
  function Scan(lines: seq<string>, num: Numerics): (st: ScanState)
    ensures st.maxForce >= 0.0
    decreases |lines|
  {
    if |lines| == 0 then Start
    else Step(Scan(lines[..|lines| - 1], num), lines[|lines| - 1], num)
  }

  // ---------------------------------------------------------------------------
  // Reference definitions stated over line positions, and the scan against them
  // ---------------------------------------------------------------------------

  /** Some line before position `i` is a header line. */
  ghost predicate AfterHeader(lines: seq<string>, i: int)
  {
    exists h :: 0 <= h < i && h < |lines| && Contains(lines[h], HeaderMarker)
  }

  /** Line `i` lies in the data region and holds a sample, so its force competes for the maximum. */
  ghost predicate Contributes(lines: seq<string>, i: int, num: Numerics)
  {
    0 <= i < |lines| && AfterHeader(lines, i) && Sample(lines[i], num).Some?
  }

  /** Dropping the last line changes nothing about the positions before it. */
  lemma PrefixPositions(lines: seq<string>, num: Numerics)
    requires |lines| > 0
    ensures var init := lines[..|lines| - 1];
            && (forall i :: 0 <= i <= |init| ==> (AfterHeader(lines, i) <==> AfterHeader(init, i)))
            && (forall i :: 0 <= i < |init| ==> (Contributes(lines, i, num) <==> Contributes(init, i, num)))
  {
    var init := lines[..|lines| - 1];
    forall i | 0 <= i <= |init|
      ensures AfterHeader(lines, i) <==> AfterHeader(init, i)
    {
      if AfterHeader(lines, i) {
        var h :| 0 <= h < i && h < |lines| && Contains(lines[h], HeaderMarker);
        assert init[h] == lines[h];
      }
      if AfterHeader(init, i) {
        var h :| 0 <= h < i && h < |init| && Contains(init[h], HeaderMarker);
        assert init[h] == lines[h];
      }
    }
  }

  /** The data region is active after the scan exactly when some line is a header line. */
  lemma {:induction false} ScanInData(lines: seq<string>, num: Numerics)
    ensures Scan(lines, num).inData <==> AfterHeader(lines, |lines|)
    decreases |lines|
  {
    if |lines| > 0 {
      var init := lines[..|lines| - 1];
      ScanInData(init, num);
      PrefixPositions(lines, num);
      if Contains(lines[|lines| - 1], HeaderMarker) {
        assert AfterHeader(lines, |lines|);
      }
    }
  }

  /**
   * The maximum accumulator: the final force is at least every contributing
   * line's force, and it is either the starting 0 or one of those forces.
   */
  lemma {:induction false} ScanMaxForce(lines: seq<string>, num: Numerics)
    ensures forall i :: Contributes(lines, i, num) ==> Force(lines[i], num) <= Scan(lines, num).maxForce
    ensures Scan(lines, num).maxForce == 0.0
            || exists i :: Contributes(lines, i, num) && Scan(lines, num).maxForce == Force(lines[i], num)
    decreases |lines|
  {
    if |lines| > 0 {
      var n := |lines| - 1;
      var init := lines[..n];
      var line := lines[n];
      ScanMaxForce(init, num);
      ScanInData(init, num);
      PrefixPositions(lines, num);
      var before := Scan(init, num);
      var after := Scan(lines, num);
      assert after == Step(before, line, num);
      assert Contributes(lines, n, num) <==> before.inData && Sample(line, num).Some?;
      forall i | Contributes(lines, i, num)
        ensures Force(lines[i], num) <= after.maxForce
      {
        if i < n {
          assert Contributes(init, i, num) && init[i] == lines[i];
        }
      }
      if after.maxForce != 0.0 {
        if after.maxForce == before.maxForce {
          var i :| Contributes(init, i, num) && before.maxForce == Force(init[i], num);
          assert Contributes(lines, i, num) && init[i] == lines[i];
        } else {
          assert Contributes(lines, n, num);
        }
      }
    }
  }

  /** A file without an "abs time" line reports a force of 0, whatever else it holds. */
  lemma NoHeaderNoForce(lines: seq<string>, num: Numerics)
    requires forall i :: 0 <= i < |lines| ==> !Contains(lines[i], HeaderMarker)
    ensures Scan(lines, num).maxForce == 0.0
  {
    ScanMaxForce(lines, num);
  }

  /**
   * The data region starts after the first header line: no line up to and
   * including it has contributed to the force.
   */
  lemma NothingBeforeData(lines: seq<string>, k: nat, num: Numerics)
    requires k < |lines| && Contains(lines[k], HeaderMarker)
    requires forall j :: 0 <= j < k ==> !Contains(lines[j], HeaderMarker)
    ensures Scan(lines[..k + 1], num).maxForce == 0.0
  {
    var pre := lines[..k + 1];
    forall j | 0 <= j < k
      ensures !Contains(pre[j], HeaderMarker)
    {
      assert pre[j] == lines[j];
    }
    ScanMaxForce(pre, num);
  }

  /** The force never decreases as the scan proceeds. */
  lemma {:induction false} ScanMonotone(lines: seq<string>, i: nat, j: nat, num: Numerics)
    requires i <= j <= |lines|
    ensures Scan(lines[..i], num).maxForce <= Scan(lines[..j], num).maxForce
    decreases j
  {
    if i < j {
      ScanMonotone(lines, i, j - 1, num);
      assert lines[..j][..j - 1] == lines[..j - 1];
    }
  }

  /**
   * The content date is the date text of the first line that captures one; it
   * stays empty exactly when no line does. Later date lines never overwrite it.
   */
  lemma {:induction false} ScanDate(lines: seq<string>, num: Numerics)
    ensures Scan(lines, num).date == "" <==> forall i :: 0 <= i < |lines| ==> !CapturesDate(lines[i])
    ensures Scan(lines, num).date != "" ==>
              exists i :: 0 <= i < |lines| && CapturesDate(lines[i])
                          && Scan(lines, num).date == DateText(lines[i])
                          && forall j :: 0 <= j < i ==> !CapturesDate(lines[j])
    decreases |lines|
  {
    if |lines| > 0 {
      var n := |lines| - 1;
      var init := lines[..n];
      ScanDate(init, num);
      var before := Scan(init, num);
      var after := Scan(lines, num);
      assert after == Step(before, lines[n], num);
      assert forall i :: 0 <= i < n ==> init[i] == lines[i];
      if before.date != "" {
        var i :| 0 <= i < n && CapturesDate(init[i]) && before.date == DateText(init[i])
                 && forall j :: 0 <= j < i ==> !CapturesDate(init[j]);
        assert CapturesDate(lines[i]);
      }
    }
  }

  /** A header line followed by the sample 0.0, 30.0, 0.0, 40.0 reports the resultant of (30, 40). */
  lemma HeaderThenSample(num: Numerics)
    requires num.parse("30.0") == Some(30.0) && num.parse("40.0") == Some(40.0)
    requires num.resultant(30.0, 40.0) == 50.0
    ensures Scan(["abs time\tFx\tFy\tFz", "0.0\t30.0\t0.0\t40.0"], num).maxForce == 50.0
  {
    var header := "abs time\tFx\tFy\tFz";
    var data := "0.0\t30.0\t0.0\t40.0";
    var lines := [header, data];
    ExampleSample(num);
    ExampleHeader();
    var afterHeader := Step(Start, header, num);
    assert lines[..1] == [header] && [header][..0] == [];
    assert Scan(lines[..1], num) == afterHeader;
    assert Scan(lines, num) == Step(afterHeader, data, num);
  }

  /** The data line of the example holds the sample (30, 40). */
  lemma ExampleSample(num: Numerics)
    requires num.parse("30.0") == Some(30.0) && num.parse("40.0") == Some(40.0)
    requires num.resultant(30.0, 40.0) == 50.0
    ensures Sample("0.0\t30.0\t0.0\t40.0", num) == Some((30.0, 40.0))
    ensures Force("0.0\t30.0\t0.0\t40.0", num) == 50.0
  {
    var fields := ["0.0", "30.0", "0.0", "40.0"];
    assert JoinWith(fields, '\t') == "0.0\t30.0\t0.0\t40.0";
    SampleOfTabbedLine(fields, num);
  }

  /** The header line of the example holds "abs time". */
  lemma ExampleHeader()
    ensures Contains("abs time\tFx\tFy\tFz", HeaderMarker)
  {
    assert "abs time\tFx\tFy\tFz"[..|HeaderMarker|] == HeaderMarker;
  }

  /** The date line "Date Sep 25, 2024 17:29:18" captures "Sep 25, 2024". */
  lemma DateLineExample(num: Numerics)
    ensures Scan(["Date Sep 25, 2024 17:29:18"], num).date == "Sep 25, 2024"
  {
    var line := "Date Sep 25, 2024 17:29:18";
    ExampleDateText();
    assert Contains(line, DateMarker) by {
      assert line[..|DateMarker|] == DateMarker;
    }
    var lines: seq<string> := [line];
    assert lines[..0] == [];
    assert Scan(lines, num) == Step(Start, line, num);
  }

  /** Words 1 to 3 of the example date line. */
  lemma ExampleDateText()
    ensures DateText("Date Sep 25, 2024 17:29:18") == "Sep 25, 2024"
  {
    var words := ["Date", "Sep", "25,", "2024", "17:29:18"];
    assert Slice(words, 1, 4) == ["Sep", "25,", "2024"];
    assert JoinWith(["Sep", "25,", "2024"], ' ') == "Sep 25, 2024";
    ExampleWords();
  }

  /** The example date line splits into its five words. */
  lemma ExampleWords()
    ensures SplitWhitespace("Date Sep 25, 2024 17:29:18") == ["Date", "Sep", "25,", "2024", "17:29:18"]
  {
    var words := ["Date", "Sep", "25,", "2024", "17:29:18"];
    assert JoinWith(words, ' ') == "Date Sep 25, 2024 17:29:18";
    forall k | 0 <= k < |words|
      ensures IsWord(words[k])
    {
      var w := words[k];
      forall c | c in w
        ensures !IsSpace(c)
      {
      }
    }
    SplitWhitespaceJoin(words);
  }

  /**
   * The loop of the source, statement by statement, over mutable locals; it
   * computes the same state as the fold.
   */
  method ScanLines(lines: seq<string>, num: Numerics) returns (st: ScanState)
    ensures st == Scan(lines, num)
  {
    var date := "";
    var inData := false;
    var maxForce := 0.0;
    for i := 0 to |lines|
      invariant ScanState(date, inData, maxForce) == Scan(lines[..i], num)
    {
      var line := lines[i];
      assert lines[..i + 1][..i] == lines[..i];
      if Contains(line, DateMarker) && date == "" {
        date := DateText(line);
      }
      if inData {
        var sample := Sample(line, num);
        if sample.Some? {
          var force := num.resultant(sample.value.0, sample.value.1);
          if force > maxForce {
            maxForce := force;
          }
        }
      }
      if Contains(line, HeaderMarker) {
        inData := true;
      }
    }
    assert lines[..|lines|] == lines;
    st := ScanState(date, inData, maxForce);
  }
}
