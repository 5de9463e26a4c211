/**
 * The progress heuristic of SetupGitRepoTask: `git clone --progress` writes one stderr line per update,
 * and the task turns a line that starts with one of four phase names into an overall fraction, each
 * phase being a quarter of the clone and the first "NN%" in the line the position inside it.
 */
module GitClone {
  import opened Outcomes
  import opened Text

  /** The phases in the order git reports them; phase k covers [k/4, (k+1)/4]. */
  const Phases: seq<string> := ["remote", "Receiving objects", "Resolving deltas", "Updating files"]

  /** A match of the regular expression (\d+)% spanning s[i..j+1]. */
  predicate PercentAt(s: string, i: nat, j: nat) {
    i < j < |s| && AllDigits(s[i..j]) && s[j] == '%'
  }

  /** The end of the run of digits that starts at i. */
  function DigitRunEnd(s: string, i: nat): (j: nat)
    requires i <= |s|
    ensures i <= j <= |s| && AllDigits(s[i..j])
    ensures j < |s| ==> !IsDigit(s[j])
    decreases |s| - i
  {
    if i < |s| && IsDigit(s[i]) then
      var j := DigitRunEnd(s, i + 1);
      assert s[i..j] == [s[i]] + s[i + 1..j];
      j
    else i
  }

  /** The only match of (\d+)% that can start at i ends where the digits starting at i end. */
  lemma PercentAtRunEnd(s: string, i: nat, j: nat)
    requires i <= |s| && PercentAt(s, i, j)
    ensures j == DigitRunEnd(s, i)
  {
    var e := DigitRunEnd(s, i);
    assert forall m :: i <= m < e ==> IsDigit(s[m]) by {
      forall m | i <= m < e ensures IsDigit(s[m]) { assert s[m] == s[i..e][m - i]; }
    }
    assert forall m :: i <= m < j ==> IsDigit(s[m]) by {
      forall m | i <= m < j ensures IsDigit(s[m]) { assert s[m] == s[i..j][m - i]; }
    }
  }

  /**
   * The start of the leftmost match of (\d+)% at or after i, as re.search finds it. Backtracking
   * cannot help: a match must take the whole run of digits, so each start has at most one match.
   */
  function PercentFrom(s: string, i: nat): (r: Option<nat>)
    requires i <= |s|
    ensures r.Some? ==> i <= r.value < |s| && PercentAt(s, r.value, DigitRunEnd(s, r.value))
    ensures r.Some? ==> forall k, j :: i <= k < r.value ==> !PercentAt(s, k, j)
    ensures r.None? ==> forall k, j :: i <= k ==> !PercentAt(s, k, j)
    decreases |s| - i
  {
    if i == |s| then None
    else
      var j := DigitRunEnd(s, i);
      if PercentAt(s, i, j) then Some(i)
      else
        var r := PercentFrom(s, i + 1);
        assert forall j' :: !PercentAt(s, i, j') by {
          forall j' | PercentAt(s, i, j') ensures false {
            PercentAtRunEnd(s, i, j');
          }
        }
        r
  }

  /** The number in the first "NN%" of a line, or 0 when there is none. */
  function Percent(t: string): (p: nat)
    ensures (forall i, j :: !PercentAt(t, i, j)) ==> p == 0
  {
    match PercentFrom(t, 0)
    case None => 0
    case Some(i) => DigitsValue(t[i..DigitRunEnd(t, i)])
  }

  /** The index of the first phase whose name starts the line. */
  function Phase(t: string): (r: Option<nat>)
    ensures r.Some? ==> r.value < |Phases| && StartsWith(t, Phases[r.value])
    ensures r.Some? ==> forall k :: 0 <= k < r.value ==> !StartsWith(t, Phases[k])
    ensures r.None? <==> forall k :: 0 <= k < |Phases| ==> !StartsWith(t, Phases[k])
  {
    if StartsWith(t, Phases[0]) then Some(0)
    else if StartsWith(t, Phases[1]) then Some(1)
    else if StartsWith(t, Phases[2]) then Some(2)
    else if StartsWith(t, Phases[3]) then Some(3)
    else None
  }

  /**
   * The loop over the phase names: `acc` gains 25 for each phase passed, and the first phase the line
   * starts with reports (acc + 0.25 p) / 100.
   */
  function PhaseProgress(t: string, k: nat, acc: real): (r: Option<real>)
    requires k <= |Phases| && acc >= 0.0
    ensures r.Some? ==> r.value >= acc / 100.0
    ensures r.None? <==> forall m :: k <= m < |Phases| ==> !StartsWith(t, Phases[m])
    decreases |Phases| - k
  {
    if k == |Phases| then None
    else if StartsWith(t, Phases[k]) then Some((acc + 0.25 * Percent(t) as real) / 100.0)
    else PhaseProgress(t, k + 1, acc + 25.0)
  }

  /**
   * The progress a line of git's output reports, if any; the line ending is stripped first. A line
   * reports exactly when it starts with a phase name, and then phase k with first percentage p gives
   * (25k + p/4) / 100.
   */
  function CloneProgress(line: string): (r: Option<real>)
    ensures r.Some? ==> r.value >= 0.0
    ensures var t := TrimLineEnding(line);
      && (r.None? <==> Phase(t).None?)
      && (r.Some? ==> r.value == (25.0 * Phase(t).value as real + 0.25 * Percent(t) as real) / 100.0)
  {
    ProgressClosedForm(TrimLineEnding(line));
    PhaseProgress(TrimLineEnding(line), 0, 0.0)
  }

  /**
   * The reports made for lines i.. of the output. Cancellation is checked after a line has been read
   * and before its progress is computed, and ends the loop.
   */
  function LineReports(lines: seq<string>, i: nat, cancelAt: Option<nat>): (r: seq<real>)
    requires i <= |lines|
    ensures |r| <= |lines| - i
    ensures forall k :: 0 <= k < |r| ==> r[k] >= 0.0
    decreases |lines| - i
  {
    if i == |lines| || cancelAt == Some(i) then []
    else LineReport(lines[i]) + LineReports(lines, i + 1, cancelAt)
  }

  /** The report one line makes: its progress, or nothing. */
  function LineReport(line: string): (r: seq<real>)
    ensures |r| <= 1 && (r == [] <==> CloneProgress(line).None?)
    ensures forall k :: 0 <= k < |r| ==> r[k] >= 0.0
  {
    match CloneProgress(line)
    case Some(v) => [v]
    case None => []
  }

  // ---------------------------------------------------------------- properties

  lemma {:induction false} PhaseProgressFrom(t: string, k: nat)
    requires k <= |Phases|
    requires forall m :: 0 <= m < k ==> !StartsWith(t, Phases[m])
    ensures PhaseProgress(t, k, 25.0 * k as real)
         == (if Phase(t).None? then None
             else Some((25.0 * Phase(t).value as real + 0.25 * Percent(t) as real) / 100.0))
    decreases |Phases| - k
  {
    if k < |Phases| && !StartsWith(t, Phases[k]) {
      PhaseProgressFrom(t, k + 1);
    }
  }

  /** The closed form: phase k and first percentage p give (25k + p/4) / 100; other lines give nothing. */
  lemma ProgressClosedForm(t: string)
    ensures PhaseProgress(t, 0, 0.0)
         == (if Phase(t).None? then None
             else Some((25.0 * Phase(t).value as real + 0.25 * Percent(t) as real) / 100.0))
  {
    PhaseProgressFrom(t, 0);
  }

  /** A line that starts with no phase name reports nothing. */
  lemma NonMatchingSilent(line: string)
    requires forall k :: 0 <= k < |Phases| ==> !StartsWith(TrimLineEnding(line), Phases[k])
    ensures CloneProgress(line).None?
  {
    ProgressClosedForm(TrimLineEnding(line));
  }

  /** With a percentage of at most 100, phase k reports a value in [k/4, (k+1)/4]. */
  lemma ProgressWithinPhase(line: string)
    requires Phase(TrimLineEnding(line)).Some? && Percent(TrimLineEnding(line)) <= 100
    ensures var k := Phase(TrimLineEnding(line)).value as real;
      CloneProgress(line).Some? && k / 4.0 <= CloneProgress(line).value <= (k + 1.0) / 4.0
  {
    ProgressClosedForm(TrimLineEnding(line));
  }

  /** Cancellation before line i leaves exactly the reports of the lines before it. */
  lemma {:induction false} CancelledPrefix(lines: seq<string>, j: nat, i: nat)
    requires j <= i <= |lines|
    ensures LineReports(lines, j, Some(i)) == LineReports(lines[..i], j, None)
    decreases i - j
  {
    if j < i {
      var h := LineReport(lines[j]);
      var t := LineReports(lines, j + 1, Some(i));
      assert LineReports(lines, j, Some(i)) == h + t;
      assert LineReports(lines[..i], j, None) == h + t by {
        assert lines[..i][j] == lines[j];
        CancelledPrefix(lines, j + 1, i);
      }
    }
  }
}
