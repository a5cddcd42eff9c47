/**
 * The date fallback of `process_text_files` (iso_leg_press.py:49-60): when the
 * content holds no date, the date is read from the last `_`-separated segment
 * of the filename, written as day.month.year with an optional `.txt`.
 */
module FilenameDate {
  import opened Wrappers
  import opened Text

  /** The extension removed from the date segment, wherever it occurs. */
  const Extension: string := ".txt"

  /** A two-character year is a year of this century: "24" becomes "2024". */
  function FullYear(year: string): (y: string)
    ensures |year| == 2 ==> |y| == 4 && y[2..] == year && y[..2] == "20"
    ensures |year| != 2 ==> y == year
  {
    if |year| == 2 then "20" + year else year
  }

  /** The last `_`-separated segment of a filename (`file_name.split("_")[-1]`). */
  function LastSegment(fileName: string): (seg: string)
    ensures '_' !in seg
  {
    var segs := SplitOn(fileName, '_');
    segs[|segs| - 1]
  }

  /** The date segment with every ".txt" removed (`.replace(".txt", "")`). */
  function DateStem(fileName: string): (stem: string)
    ensures |stem| <= |LastSegment(fileName)|
  {
    RemoveAll(LastSegment(fileName), Extension)
  }

  /** A last segment without ".txt" is its own date stem. */
  lemma DateStemPlain(fileName: string)
    requires !Contains(LastSegment(fileName), Extension)
    ensures DateStem(fileName) == LastSegment(fileName)
  {
    RemoveAllAbsent(LastSegment(fileName), Extension);
  }

  /**
   * The date read from the filename, as "day month year"; None when the date
   * stem does not split into exactly three dot-separated parts, which is the
   * ValueError the source catches before skipping the file. The parts are not
   * checked to be numbers.
   */
  function FileNameDate(fileName: string): (date: Option<string>)
    ensures date.Some? ==> date.value != ""
  {
    var parts := SplitOn(DateStem(fileName), '.');
    if |parts| == 3 then Some(parts[0] + " " + parts[1] + " " + FullYear(parts[2]))
    else None
  }

  /** A stem of three dot-free parts joined by dots is read as those three parts. */
  lemma FileNameDateFromStem(fileName: string, day: string, month: string, year: string)
    requires '.' !in day && '.' !in month && '.' !in year
    requires DateStem(fileName) == day + "." + month + "." + year
    ensures FileNameDate(fileName) == Some(day + " " + month + " " + FullYear(year))
  {
    assert DateStem(fileName) == JoinWith([day, month, year], '.') by {
      JoinThree(day, month, year, '.');
    }
    SplitOnJoin([day, month, year], '.');
  }

  /** A date read from the filename comes from a stem of exactly three dot-free parts. */
  lemma FileNameDateToStem(fileName: string)
    requires FileNameDate(fileName).Some?
    ensures exists day, month, year ::
              && '.' !in day && '.' !in month && '.' !in year
              && DateStem(fileName) == day + "." + month + "." + year
              && FileNameDate(fileName).value == day + " " + month + " " + FullYear(year)
  {
    var parts := SplitOn(DateStem(fileName), '.');
    var day, month, year := parts[0], parts[1], parts[2];
    assert parts == [day, month, year];
    JoinSplitOn(DateStem(fileName), '.');
    JoinThree(day, month, year, '.');
    assert DateStem(fileName) == day + "." + month + "." + year;
  }

  /** Every character is a decimal digit. */
  predicate IsDigits(s: string)
  {
    forall k :: 0 <= k < |s| ==> '0' <= s[k] <= '9'
  }

  /** A dot followed by digits and then a dot is not the start of ".txt". */
  lemma RemoveExtensionSkipsDot(x: string, rest: string)
    requires IsDigits(x)
    requires rest != "" && rest[0] == '.'
    ensures RemoveAll(['.'] + (x + rest), Extension) == ['.'] + (x + RemoveAll(rest, Extension))
  {
    var s := ['.'] + (x + rest);
    assert RemoveAll(s, Extension) == [s[0]] + RemoveAll(s[1..], Extension) by {
      assert s[1] != 't' by {
        if |x| > 0 { assert s[1] == x[0]; } else { assert s[1] == rest[0]; }
      }
      assert !OccursAt(s, Extension, 0) by {
        if |s| >= |Extension| {
          assert s[..|Extension|][1] != Extension[1];
        }
      }
      RemoveAllNoMatch(s, Extension);
    }
    assert s[0] == '.' && s[1..] == x + rest;
    assert RemoveAll(x + rest, Extension) == x + RemoveAll(rest, Extension) by {
      NoDotInDigits(x);
      RemoveAllKeepsPrefix(x, rest, Extension);
    }
    calc {
      RemoveAll(s, Extension);
      [s[0]] + RemoveAll(s[1..], Extension);
      ['.'] + RemoveAll(x + rest, Extension);
      ['.'] + (x + RemoveAll(rest, Extension));
    }
  }

  /** "d.m.y.txt" with numeric parts loses exactly its extension. */
  lemma RemoveExtensionOfDate(day: string, month: string, year: string)
    requires IsDigits(day) && IsDigits(month) && IsDigits(year)
    ensures RemoveAll(day + (['.'] + (month + (['.'] + (year + Extension)))), Extension)
            == day + (['.'] + (month + (['.'] + year)))
  {
    var yearPart := ['.'] + (year + Extension);
    var monthPart := ['.'] + (month + yearPart);
    assert RemoveAll(yearPart, Extension) == ['.'] + year by {
      assert RemoveAll(Extension, Extension) == "" by {
        assert Extension[|Extension|..] == "";
      }
      RemoveExtensionSkipsDot(year, Extension);
      assert year + "" == year;
    }
    assert RemoveAll(monthPart, Extension) == ['.'] + (month + (['.'] + year)) by {
      RemoveExtensionSkipsDot(month, yearPart);
    }
    NoDotInDigits(day);
    RemoveAllKeepsPrefix(day, monthPart, Extension);
  }

  /**
   * Reading back a composed filename: a filename that ends in
   * "_day.month.year.txt" with numeric parts gives "day month year", the year
   * widened to four characters when it has two.
   */
  lemma FileNameDateOf(prefix: string, day: string, month: string, year: string)
    requires IsDigits(day) && IsDigits(month) && IsDigits(year)
    ensures FileNameDate(prefix + "_" + day + "." + month + "." + year + Extension)
            == Some(day + " " + month + " " + FullYear(year))
  {
    var segment := day + (['.'] + (month + (['.'] + (year + Extension))));
    var stem := day + (['.'] + (month + (['.'] + year)));
    var fileName := prefix + "_" + day + "." + month + "." + year + Extension;
    assert fileName == prefix + ['_'] + segment;
    assert LastSegment(fileName) == segment by {
      NoUnderscoreInDigits(day);
      NoUnderscoreInDigits(month);
      NoUnderscoreInDigits(year);
      assert '_' !in segment;
      SplitOnConcat(prefix, segment, '_');
    }
    assert RemoveAll(segment, Extension) == stem by {
      RemoveExtensionOfDate(day, month, year);
    }
    assert SplitOn(stem, '.') == [day, month, year] by {
      JoinThree(day, month, year, '.');
      NoDotInDigits(day);
      NoDotInDigits(month);
      NoDotInDigits(year);
      SplitOnJoin([day, month, year], '.');
    }
    assert SplitOn(DateStem(fileName), '.') == [day, month, year];
  }

  /** Three pieces joined with a separator. */
  lemma JoinThree(a: string, b: string, c: string, sep: char)
    ensures JoinWith([a, b, c], sep) == a + ([sep] + (b + ([sep] + c)))
  {
    assert [a, b, c][1..] == [b, c];
    assert [b, c][1..] == [c];
    assert JoinWith([c], sep) == c;
    assert JoinWith([b, c], sep) == b + [sep] + c;
  }

  /** Digits hold no dot. */
  lemma NoDotInDigits(s: string)
    requires IsDigits(s)
    ensures '.' !in s
  {
  }

  /** Digits hold no underscore. */
  lemma NoUnderscoreInDigits(s: string)
    requires IsDigits(s)
    ensures '_' !in s
  {
  }

  /** The filename "Alice_3_25.09.24.txt" gives the date "25 09 2024". */
  lemma FileNameDateExample()
    ensures FileNameDate("Alice_3_25.09.24.txt") == Some("25 09 2024")
  {
    assert IsDigits("25") && IsDigits("09") && IsDigits("24");
    assert "Alice_3" + "_" + "25" + "." + "09" + "." + "24" + Extension == "Alice_3_25.09.24.txt";
    assert FullYear("24") == "2024";
    assert "25" + " " + "09" + " " + "2024" == "25 09 2024";
    FileNameDateOf("Alice_3", "25", "09", "24");
  }

  /** A date segment without any dot, followed by ".txt", gives no date. */
  lemma FileNameDateNoDots(prefix: string, segment: string)
    requires '_' !in segment && '.' !in segment
    ensures FileNameDate(prefix + "_" + segment + Extension) == None
  {
    var tail := segment + Extension;
    assert '_' !in tail;
    assert prefix + "_" + segment + Extension == prefix + ['_'] + tail;
    SplitOnConcat(prefix, tail, '_');
    assert RemoveAll(Extension, Extension) == "" by {
      assert Extension[|Extension|..] == "";
    }
    RemoveAllKeepsPrefix(segment, Extension, Extension);
    assert segment + "" == segment;
  }
}
