/**
 * The Python string operations the trial parser relies on, written out over
 * `string` (a sequence of Unicode scalar values):
 * `pat in s`, `s.split(sep)`, `s.split()`, `s.strip()`,
 * `re.split(r'\t+', s)` and `s.replace(pat, "")`.
 */
module Text {

  /** Python's `str.isspace` for one character: the separators of `split()` and `strip()`. */
  predicate IsSpace(c: char)
  {
    || c == ' '
    || ('\t' <= c <= '\r')
    || ('\U{1C}' <= c <= '\U{1F}')
    || c == '\U{85}' || c == '\U{A0}' || c == '\U{1680}'
    || ('\U{2000}' <= c <= '\U{200A}')
    || c == '\U{2028}' || c == '\U{2029}' || c == '\U{202F}' || c == '\U{205F}' || c == '\U{3000}'
  }

  predicate NoSpace(s: string)
  {
    forall k :: 0 <= k < |s| ==> !IsSpace(s[k])
  }

  /** A non-empty run of non-whitespace characters: what `split()` returns pieces of. */
  predicate IsWord(w: string)
  {
    w != "" && NoSpace(w)
  }

  // ---------------------------------------------------------------------------
  // Substring search: `pat in s`
  // ---------------------------------------------------------------------------

  /** `pat` occurs in `s` starting at position `i`. */
  ghost predicate OccursAt(s: string, pat: string, i: int)
  {
    0 <= i && i + |pat| <= |s| && s[i..i + |pat|] == pat
  }

  /** An occurrence past the first position of `s` is an occurrence in `s[1..]`. */
  lemma OccursShift(s: string, pat: string)
    requires |s| >= 1 && !OccursAt(s, pat, 0)
    ensures (exists i :: OccursAt(s, pat, i)) <==> (exists i :: OccursAt(s[1..], pat, i))
  {
    forall i | OccursAt(s, pat, i)
      ensures OccursAt(s[1..], pat, i - 1)
    {
      assert s[1..][i - 1..i - 1 + |pat|] == s[i..i + |pat|];
    }
    forall i | OccursAt(s[1..], pat, i)
      ensures OccursAt(s, pat, i + 1)
    {
      assert s[1..][i..i + |pat|] == s[i + 1..i + 1 + |pat|];
    }
  }

  /** Python's case-sensitive `pat in s`. */
  function Contains(s: string, pat: string): (b: bool)
    ensures b <==> exists i :: OccursAt(s, pat, i)
    decreases |s|
  {
    if |s| < |pat| then false
    else if s[..|pat|] == pat then assert OccursAt(s, pat, 0); true
    else OccursShift(s, pat); Contains(s[1..], pat)
  }

  // ---------------------------------------------------------------------------
  // Splitting on one separator character: `s.split(sep)`
  // ---------------------------------------------------------------------------

  /** The pieces put back together with one separator between neighbours: `sep.join(parts)`. */
  function JoinWith(parts: seq<string>, sep: char): string
    decreases |parts|
  {
    if |parts| == 0 then ""
    else if |parts| == 1 then parts[0]
    else parts[0] + [sep] + JoinWith(parts[1..], sep)
  }

  /** A join of pieces starts with the first piece. */
  lemma JoinWithFirst(parts: seq<string>, sep: char)
    requires |parts| >= 1
    ensures |JoinWith(parts, sep)| >= |parts[0]|
    ensures JoinWith(parts, sep)[..|parts[0]|] == parts[0]
  {
  }

  /** A join of pieces ends with the last piece. */
  lemma {:induction false} JoinWithLast(parts: seq<string>, sep: char)
    requires |parts| >= 1
    ensures var s := JoinWith(parts, sep); var last := parts[|parts| - 1];
            |s| >= |last| && s[|s| - |last|..] == last
    decreases |parts|
  {
    if |parts| > 1 {
      JoinWithLast(parts[1..], sep);
      assert parts[1..][|parts[1..]| - 1] == parts[|parts| - 1];
    }
  }

  /** Python's `s.split(sep)` for a one-character separator: never empty, and no piece holds `sep`. */
  function SplitOn(s: string, sep: char): (parts: seq<string>)
    ensures |parts| >= 1
    ensures forall k :: 0 <= k < |parts| ==> sep !in parts[k]
    ensures sep !in s ==> parts == [s]
    decreases |s|
  {
    if |s| == 0 then [""]
    else
      var rest := SplitOn(s[1..], sep);
      if s[0] == sep then [""] + rest
      else
        assert sep !in s ==> sep !in s[1..] && [s[0]] + s[1..] == s;
        [[s[0]] + rest[0]] + rest[1..]
  }

  /** Splitting loses nothing: joining the pieces gives the string back. */
  lemma {:induction false} JoinSplitOn(s: string, sep: char)
    ensures JoinWith(SplitOn(s, sep), sep) == s
    decreases |s|
  {
    if |s| > 0 {
      var rest := SplitOn(s[1..], sep);
      JoinSplitOn(s[1..], sep);
      if s[0] == sep {
        assert ([""] + rest)[1..] == rest;
      } else {
        var parts := [[s[0]] + rest[0]] + rest[1..];
        assert parts[1..] == rest[1..];
        if |rest| == 1 {
          assert JoinWith(parts, sep) == [s[0]] + rest[0];
        } else {
          assert JoinWith(parts, sep) == [s[0]] + rest[0] + [sep] + JoinWith(rest[1..], sep);
        }
        assert [s[0]] + s[1..] == s;
      }
    }
  }

  /** A separator in the middle splits the string into the pieces of either side. */
  lemma {:induction false} SplitOnConcat(a: string, b: string, sep: char)
    ensures SplitOn(a + [sep] + b, sep) == SplitOn(a, sep) + SplitOn(b, sep)
    decreases |a|
  {
    var s := a + [sep] + b;
    if |a| == 0 {
      assert s[0] == sep && s[1..] == b;
    } else {
      assert s[0] == a[0] && s[1..] == a[1..] + [sep] + b;
      SplitOnConcat(a[1..], b, sep);
      var ra := SplitOn(a[1..], sep);
      var rb := SplitOn(b, sep);
      assert SplitOn(s[1..], sep) == ra + rb;
      if a[0] == sep {
        assert SplitOn(s, sep) == [""] + (ra + rb);
      } else {
        assert (ra + rb)[0] == ra[0] && (ra + rb)[1..] == ra[1..] + rb;
        assert SplitOn(s, sep) == [[a[0]] + ra[0]] + (ra[1..] + rb);
      }
    }
  }

  /** Splitting undoes joining when no piece holds the separator. */
  lemma {:induction false} SplitOnJoin(parts: seq<string>, sep: char)
    requires |parts| >= 1
    requires forall k :: 0 <= k < |parts| ==> sep !in parts[k]
    ensures SplitOn(JoinWith(parts, sep), sep) == parts
    decreases |parts|
  {
    if |parts| > 1 {
      SplitOnJoin(parts[1..], sep);
      SplitOnConcat(parts[0], JoinWith(parts[1..], sep), sep);
      assert [parts[0]] + parts[1..] == parts;
    }
  }

  // ---------------------------------------------------------------------------
  // Whitespace: `s.split()` and `s.strip()`
  // ---------------------------------------------------------------------------

  /** `s` without its leading whitespace. */
  function TrimLeft(s: string): (r: string)
    ensures |r| <= |s|
    ensures r == "" || !IsSpace(r[0])
    decreases |s|
  {
    if |s| > 0 && IsSpace(s[0]) then TrimLeft(s[1..]) else s
  }

  /** `s` without its trailing whitespace. */
  function TrimRight(s: string): (r: string)
    ensures |r| <= |s|
    ensures r == "" || !IsSpace(r[|r| - 1])
    decreases |s|
  {
    if |s| > 0 && IsSpace(s[|s| - 1]) then TrimRight(s[..|s| - 1]) else s
  }

  /** TrimLeft keeps a suffix and cuts off only whitespace. */
  lemma {:induction false} TrimLeftCut(s: string)
    ensures var r := TrimLeft(s);
            && r == s[|s| - |r|..]
            && forall k :: 0 <= k < |s| - |r| ==> IsSpace(s[k])
    decreases |s|
  {
    if |s| > 0 && IsSpace(s[0]) {
      TrimLeftCut(s[1..]);
    }
  }

  /** TrimRight keeps a prefix and cuts off only whitespace. */
  lemma {:induction false} TrimRightCut(s: string)
    ensures var r := TrimRight(s);
            && r == s[..|r|]
            && forall k :: |r| <= k < |s| ==> IsSpace(s[k])
    decreases |s|
  {
    if |s| > 0 && IsSpace(s[|s| - 1]) {
      var p := s[..|s| - 1];
      TrimRightCut(p);
      var r := TrimRight(p);
      assert r == s[..|r|];
      forall k | |r| <= k < |s|
        ensures IsSpace(s[k])
      {
        if k < |s| - 1 {
          assert s[k] == p[k];
        }
      }
    }
  }

  /** Python's `s.strip()`: `s` with the whitespace at both ends cut off. */
  function Strip(s: string): (r: string)
    ensures |r| <= |s|
    ensures r == "" || (!IsSpace(r[0]) && !IsSpace(r[|r| - 1]))
  {
    TrimRightCut(TrimLeft(s));
    TrimRight(TrimLeft(s))
  }

  /** What `strip()` keeps is a middle slice of `s`, and everything it cuts off is whitespace. */
  lemma StripIsMiddle(s: string)
    ensures exists i, j :: 0 <= i <= j <= |s| && Strip(s) == s[i..j]
                           && (forall k :: 0 <= k < i ==> IsSpace(s[k]))
                           && (forall k :: j <= k < |s| ==> IsSpace(s[k]))
  {
    var t := TrimLeft(s);
    var r := TrimRight(t);
    TrimLeftCut(s);
    TrimRightCut(t);
    var i := |s| - |t|;
    var j := i + |r|;
    assert r == s[i..j];
    forall k | j <= k < |s|
      ensures IsSpace(s[k])
    {
      assert s[k] == t[k - i];
    }
  }

  /** Text with no whitespace at either end is left alone by `strip()`. */
  lemma StripUnchanged(s: string)
    requires s == "" || (!IsSpace(s[0]) && !IsSpace(s[|s| - 1]))
    ensures Strip(s) == s
  {
  }

  /** The length of the run of non-whitespace characters that `s` starts with. */
  function WordEnd(s: string): (n: nat)
    ensures n <= |s|
    ensures forall k :: 0 <= k < n ==> !IsSpace(s[k])
    ensures n == |s| || IsSpace(s[n])
    decreases |s|
  {
    if |s| == 0 || IsSpace(s[0]) then 0 else 1 + WordEnd(s[1..])
  }

  /** Python's `s.split()`: the maximal runs of non-whitespace characters, in order. */
  function SplitWhitespace(s: string): (words: seq<string>)
    ensures forall k :: 0 <= k < |words| ==> IsWord(words[k])
    decreases |s|
  {
    var t := TrimLeft(s);
    if |t| == 0 then []
    else
      var n := WordEnd(t);
      [t[..n]] + SplitWhitespace(t[n..])
  }

  /** A word followed by whitespace (or nothing) is the first thing `split()` returns. */
  lemma SplitWhitespaceStep(w: string, rest: string)
    requires IsWord(w)
    requires rest == "" || IsSpace(rest[0])
    ensures SplitWhitespace(w + rest) == [w] + SplitWhitespace(rest)
  {
    var s := w + rest;
    assert TrimLeft(s) == s;
    WordEndOf(w, rest);
    assert s[..|w|] == w;
    assert s[|w|..] == rest;
  }

  lemma SplitWhitespaceEmpty()
    ensures SplitWhitespace("") == []
  {
    assert TrimLeft("") == "";
  }

  /** A single word splits into itself. */
  lemma SplitWhitespaceWord(w: string)
    requires IsWord(w)
    ensures SplitWhitespace(w) == [w]
  {
    WordEndWhole(w);
    assert w[..|w|] == w && w[|w|..] == "";
    SplitWhitespaceEmpty();
  }

  /** Leading whitespace does not change what `split()` returns. */
  lemma SplitWhitespaceSkipsSpace(c: char, rest: string)
    requires IsSpace(c)
    ensures SplitWhitespace([c] + rest) == SplitWhitespace(rest)
  {
    assert ([c] + rest)[1..] == rest;
    assert TrimLeft([c] + rest) == TrimLeft(rest);
  }

  /** Whitespace-separated words come back out of `split()` unchanged. */
  lemma {:induction false} SplitWhitespaceJoin(words: seq<string>)
    requires forall k :: 0 <= k < |words| ==> IsWord(words[k])
    ensures SplitWhitespace(JoinWith(words, ' ')) == words
    decreases |words|
  {
    if |words| == 0 {
      SplitWhitespaceEmpty();
    } else if |words| == 1 {
      SplitWhitespaceWord(words[0]);
    } else {
      var w := words[0];
      var rest := JoinWith(words[1..], ' ');
      assert words == [w] + words[1..];
      assert JoinWith(words, ' ') == w + ([' '] + rest);
      SplitWhitespaceStep(w, [' '] + rest);
      SplitWhitespaceSkipsSpace(' ', rest);
      SplitWhitespaceJoin(words[1..]);
    }
  }

  /** A word with nothing after it ends at its end. */
  lemma {:induction false} WordEndWhole(w: string)
    requires NoSpace(w)
    ensures WordEnd(w) == |w|
    decreases |w|
  {
    if |w| > 0 {
      WordEndWhole(w[1..]);
    }
  }

  /** A word followed by whitespace (or nothing) ends where the whitespace starts. */
  lemma {:induction false} WordEndOf(w: string, rest: string)
    requires NoSpace(w)
    requires rest == "" || IsSpace(rest[0])
    ensures WordEnd(w + rest) == |w|
    decreases |w|
  {
    if |w| > 0 {
      assert (w + rest)[1..] == w[1..] + rest;
      WordEndOf(w[1..], rest);
    }
  }

  // ---------------------------------------------------------------------------
  // Splitting on runs of tabs: `re.split(r'\t+', s)`
  // ---------------------------------------------------------------------------

  /**
   * Python's `re.split(r'\t+', s)`: the text between maximal runs of tabs.
   * A run of tabs separates two fields however long it is.
   */
  function SplitTabRuns(s: string): (fields: seq<string>)
    ensures |fields| >= 1
    ensures forall k :: 0 <= k < |fields| ==> '\t' !in fields[k]
    ensures s == "" ==> fields == [""]
    ensures s != "" && s[0] != '\t' ==> fields[0] != ""
    decreases |s|
  {
    if |s| == 0 then [""]
    else
      var rest := SplitTabRuns(s[1..]);
      if s[0] == '\t' then
        if |s| > 1 && s[1] == '\t' then rest else [""] + rest
      else
        [[s[0]] + rest[0]] + rest[1..]
  }

  /** Only the first and the last field of a tab-run split can be empty. */
  lemma {:induction false} SplitTabRunsInnerFields(s: string)
    ensures forall k :: 0 < k < |SplitTabRuns(s)| - 1 ==> SplitTabRuns(s)[k] != ""
    decreases |s|
  {
    if |s| > 0 {
      SplitTabRunsInnerFields(s[1..]);
    }
  }

  /** A non-empty run of tabs: one separator of `re.split(r'\t+', …)`. */
  predicate IsTabRun(t: string)
  {
    |t| >= 1 && forall k :: 0 <= k < |t| ==> t[k] == '\t'
  }

  /**
   * A tab-free field, a run of one or more tabs, then text that does not start
   * with a tab: the field comes first, and the whole run separates it from the rest.
   */
  lemma {:induction false} SplitTabRunsStep(f: string, t: string, rest: string)
    requires '\t' !in f
    requires IsTabRun(t)
    requires rest == "" || rest[0] != '\t'
    ensures SplitTabRuns(f + t + rest) == [f] + SplitTabRuns(rest)
    decreases |f| + |t|
  {
    var s := f + t + rest;
    if |f| == 0 {
      assert s == t + rest;
      assert s[0] == '\t';
      if |t| == 1 {
        assert s[1..] == rest;
      } else {
        assert s[1] == t[1];
        assert s[1..] == f + t[1..] + rest;
        SplitTabRunsStep(f, t[1..], rest);
      }
    } else {
      assert s[0] == f[0] && f[0] != '\t';
      assert s[1..] == f[1..] + t + rest;
      SplitTabRunsStep(f[1..], t, rest);
      assert [f[0]] + f[1..] == f;
    }
  }

  /** The line "a", two tabs, "b" splits into the two fields "a" and "b". */
  lemma TabRunExample()
    ensures SplitTabRuns("a\t\tb") == ["a", "b"]
  {
    assert "a\t\tb" == "a" + "\t\t" + "b";
    SplitTabRunsStep("a", "\t\t", "b");
    SplitTabRunsTabFree("b");
  }

  /** Tab-joined fields come back out of the tab-run split, as long as no inner field is empty. */
  lemma {:induction false} SplitTabRunsJoin(fields: seq<string>)
    requires |fields| >= 1
    requires forall k :: 0 <= k < |fields| ==> '\t' !in fields[k]
    requires forall k :: 0 < k < |fields| - 1 ==> fields[k] != ""
    ensures SplitTabRuns(JoinWith(fields, '\t')) == fields
    decreases |fields|
  {
    if |fields| == 1 {
      SplitTabRunsTabFree(fields[0]);
    } else {
      var f := fields[0];
      var rest := JoinWith(fields[1..], '\t');
      assert fields == [f] + fields[1..];
      assert rest == "" || rest[0] != '\t' by {
        if |fields| > 2 {
          assert fields[1] != "";
          JoinWithFirst(fields[1..], '\t');
        }
      }
      SplitTabRunsStep(f, ['\t'], rest);
      SplitTabRunsJoin(fields[1..]);
    }
  }

  /** Text without tabs is a single field. */
  lemma {:induction false} SplitTabRunsTabFree(f: string)
    requires '\t' !in f
    ensures SplitTabRuns(f) == [f]
    decreases |f|
  {
    if |f| > 0 {
      SplitTabRunsTabFree(f[1..]);
      assert [f[0]] + f[1..] == f;
    }
  }

  // ---------------------------------------------------------------------------
  // Deleting a pattern: `s.replace(pat, "")`
  // ---------------------------------------------------------------------------

  /**
   * Python's `s.replace(pat, "")` for a non-empty pattern: occurrences are
   * found left to right, without overlap, and each is deleted.
   */
  function RemoveAll(s: string, pat: string): (r: string)
    requires pat != ""
    ensures |r| <= |s|
    decreases |s|
  {
    if |s| < |pat| then s
    else if s[..|pat|] == pat then RemoveAll(s[|pat|..], pat)
    else [s[0]] + RemoveAll(s[1..], pat)
  }

  /** Text in which `pat` does not occur is left as it is. */
  lemma {:induction false} RemoveAllAbsent(s: string, pat: string)
    requires pat != "" && !Contains(s, pat)
    ensures RemoveAll(s, pat) == s
    decreases |s|
  {
    if |s| >= |pat| {
      assert !OccursAt(s, pat, 0);
      OccursShift(s, pat);
      RemoveAllAbsent(s[1..], pat);
      assert [s[0]] + s[1..] == s;
    }
  }

  /** Where `pat` does not start, the first character is kept and the search moves on by one. */
  lemma RemoveAllNoMatch(s: string, pat: string)
    requires pat != "" && |s| >= 1
    requires !OccursAt(s, pat, 0)
    ensures RemoveAll(s, pat) == [s[0]] + RemoveAll(s[1..], pat)
  {
    if |s| < |pat| {
      assert |s[1..]| < |pat|;
      assert [s[0]] + s[1..] == s;
    }
  }

  /**
   * The first occurrence is deleted: text before it in which no occurrence
   * starts (not even one reaching into `pat`) is kept, `pat` itself goes, and
   * the search resumes right after it.
   */
  lemma {:induction false} RemoveAllFirst(a: string, b: string, pat: string)
    requires pat != ""
    requires !Contains(a + pat[..|pat| - 1], pat)
    ensures RemoveAll(a + pat + b, pat) == a + RemoveAll(b, pat)
    decreases |a|
  {
    var s := a + pat + b;
    var lead := a + pat[..|pat| - 1];
    if |a| == 0 {
      assert s[..|pat|] == pat;
      assert s[|pat|..] == b;
    } else {
      assert !OccursAt(s, pat, 0) by {
        assert s[..|pat|] == lead[..|pat|];
        assert !OccursAt(lead, pat, 0);
      }
      RemoveAllNoMatch(s, pat);
      assert s[0] == a[0];
      assert s[1..] == a[1..] + pat + b;
      assert !Contains(a[1..] + pat[..|pat| - 1], pat) by {
        assert lead[1..] == a[1..] + pat[..|pat| - 1];
        OccursShift(lead, pat);
      }
      RemoveAllFirst(a[1..], b, pat);
      assert [a[0]] + a[1..] == a;
    }
  }

  /** Text that cannot begin an occurrence of `pat` passes through unchanged. */
  lemma {:induction false} RemoveAllKeepsPrefix(a: string, b: string, pat: string)
    requires pat != ""
    requires pat[0] !in a
    ensures RemoveAll(a + b, pat) == a + RemoveAll(b, pat)
    decreases |a|
  {
    var s := a + b;
    if |a| == 0 {
      assert s == b;
    } else {
      assert s[0] == a[0];
      assert s[1..] == a[1..] + b;
      assert !OccursAt(s, pat, 0) by {
        if |s| >= |pat| {
          assert s[..|pat|][0] != pat[0];
        }
      }
      RemoveAllNoMatch(s, pat);
      RemoveAllKeepsPrefix(a[1..], b, pat);
      calc {
        RemoveAll(s, pat);
        [a[0]] + RemoveAll(a[1..] + b, pat);
        [a[0]] + (a[1..] + RemoveAll(b, pat));
        ([a[0]] + a[1..]) + RemoveAll(b, pat);
        { assert [a[0]] + a[1..] == a; }
        a + RemoveAll(b, pat);
      }
    }
  }
}
