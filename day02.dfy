/** Red-Nosed reactor reports: each line lists the levels of one report. A
    report is safe when its levels only rise or only fall, by 1 to 3 at each
    step; the Problem Dampener also accepts a report that becomes safe once
    a single level is removed. The answers count the accepted reports. */
module Reports {
  import opened Wrappers
  import Text

  /** `Report`: the levels of one line (`i32`). */
  datatype Report = Report(levels: seq<int>)

  // ---------------------------------------------------------------------------
  // Parsing
  // ---------------------------------------------------------------------------

  /** `map(str::parse::<i32>).collect::<Result<_, _>>()`. */
  function ParseLevels(tokens: seq<string>): (r: Option<seq<int>>)
    ensures r.Some? <==> forall k :: 0 <= k < |tokens| ==> Text.ParseSigned(tokens[k], Text.I32_MIN, Text.I32_MAX).Some?
    ensures r.Some? ==> |r.value| == |tokens|
    ensures r.Some? ==> forall k :: 0 <= k < |tokens| ==> Text.ParseSigned(tokens[k], Text.I32_MIN, Text.I32_MAX) == Some(r.value[k])
  {
    if |tokens| == 0 then Some([])
    else
      match Text.ParseSigned(tokens[0], Text.I32_MIN, Text.I32_MAX)
      case None => None
      case Some(level) =>
        match ParseLevels(tokens[1..])
        case None => None
        case Some(rest) => Some([level] + rest)
  }

  /** Every token is the decimal notation of an `i32`. */
  predicate AllLevels(tokens: seq<string>)
  {
    forall k :: 0 <= k < |tokens| ==> Text.ParseSigned(tokens[k], Text.I32_MIN, Text.I32_MAX).Some?
  }

  /** `Report::from_str`: the white-space separated tokens, each an `i32`;
      the error of the first bad token is `None` here. */
  function FromStr(input: string): (r: Option<Report>)
    ensures r.Some? <==> AllLevels(Text.SplitWhitespace(input))
    ensures r.Some? ==> |r.value.levels| == |Text.SplitWhitespace(input)|
    ensures r.Some? ==> forall k :: 0 <= k < |r.value.levels| ==> Text.I32_MIN <= r.value.levels[k] <= Text.I32_MAX
  {
    match ParseLevels(Text.SplitWhitespace(input))
    case None => None
    case Some(levels) => Some(Report(levels))
  }

  /** The levels written out in decimal, separated by single spaces. */
  function Render(report: Report): string
    requires |report.levels| > 0
  {
    Text.Join(Strings(report.levels), " ")
  }

  function Strings(levels: seq<int>): (r: seq<string>)
    ensures |r| == |levels|
    ensures forall k :: 0 <= k < |r| ==> r[k] == Text.IntToString(levels[k])
  {
    if |levels| == 0 then [] else [Text.IntToString(levels[0])] + Strings(levels[1..])
  }

  /** Every report of `i32` levels reads back from its rendering. */
  lemma FromStrRoundTrip(report: Report)
    requires |report.levels| > 0
    requires forall k :: 0 <= k < |report.levels| ==> Text.I32_MIN <= report.levels[k] <= Text.I32_MAX
    ensures FromStr(Render(report)) == Some(report)
  {
    var tokens := Strings(report.levels);
    forall k, i | 0 <= k < |tokens| && 0 <= i < |tokens[k]|
      ensures !Text.IsWhitespace(tokens[k][i])
    {
      assert tokens[k][i] == '-' || Text.IsDigit(tokens[k][i]);
    }
    Text.SplitWhitespaceJoin(tokens);
    forall k | 0 <= k < |tokens|
      ensures Text.ParseSigned(tokens[k], Text.I32_MIN, Text.I32_MAX) == Some(report.levels[k])
    {
      Text.ParseSignedRoundTrip(report.levels[k], Text.I32_MIN, Text.I32_MAX);
    }
    var parsed := ParseLevels(tokens);
    assert parsed.Some?;
    assert parsed.value == report.levels;
  }

  // ---------------------------------------------------------------------------
  // Safety
  // ---------------------------------------------------------------------------

  /** `tuple_windows().map(|(prev, next)| next - prev)`: the differences of
      consecutive levels. */
  function Diffs(levels: seq<int>): (r: seq<int>)
    ensures |levels| == 0 ==> |r| == 0
    ensures |levels| > 0 ==> |r| == |levels| - 1
    ensures forall k :: 0 <= k < |r| ==> r[k] == levels[k + 1] - levels[k]
  {
    if |levels| < 2 then [] else [levels[1] - levels[0]] + Diffs(levels[1..])
  }

  /** Every difference lies in `low..=high`. */
  predicate AllWithin(diffs: seq<int>, low: int, high: int)
  {
    forall k :: 0 <= k < |diffs| ==> low <= diffs[k] <= high
  }

  /** Safety of a sequence of levels, as both `is_safe` and `is_safe_skip`
      compute it: all steps in `1..=3` or all in `-3..=-1`. */
  predicate SafeLevels(levels: seq<int>)
  {
    var diffs := Diffs(levels);
    AllWithin(diffs, 1, 3) || AllWithin(diffs, -3, -1)
  }

  /** `Report::is_safe`. */
  predicate IsSafe(report: Report)
  {
    SafeLevels(report.levels)
  }

  /** Every step from one level to the next changes it by `low..=high`. */
  predicate Steps(levels: seq<int>, low: int, high: int)
  {
    forall i :: 0 <= i < |levels| - 1 ==> levels[i] + low <= levels[i + 1] <= levels[i] + high
  }

  /** Safety in terms of the levels themselves: they rise throughout or
      fall throughout, by 1 to 3 per step. */
  lemma SafeSteps(report: Report)
    ensures IsSafe(report) <==> Steps(report.levels, 1, 3) || Steps(report.levels, -3, -1)
  {
    StepsWithin(report.levels, 1, 3);
    StepsWithin(report.levels, -3, -1);
  }

  lemma StepsWithin(levels: seq<int>, low: int, high: int)
    ensures AllWithin(Diffs(levels), low, high) <==> Steps(levels, low, high)
  {
    var diffs := Diffs(levels);
    if AllWithin(diffs, low, high) {
      forall i | 0 <= i < |levels| - 1 ensures levels[i] + low <= levels[i + 1] <= levels[i] + high {
        assert low <= diffs[i] <= high;
      }
    }
    if Steps(levels, low, high) {
      forall k | 0 <= k < |diffs| ensures low <= diffs[k] <= high {
        assert levels[k] + low <= levels[k + 1] <= levels[k] + high;
      }
    }
  }

  /** A report of at most one level has no step and is safe. */
  lemma ShortIsSafe(report: Report)
    requires |report.levels| <= 1
    ensures IsSafe(report)
  {
  }

  /** The levels of a safe increasing report grow by 1 to 3 per position,
      and those of a decreasing one shrink likewise: they are strictly
      monotone. */
  lemma {:induction false} SafeMonotone(levels: seq<int>, i: nat, j: nat)
    requires SafeLevels(levels)
    requires i < j < |levels|
    ensures AllWithin(Diffs(levels), 1, 3) ==> levels[i] + (j - i) <= levels[j] <= levels[i] + 3 * (j - i)
    ensures AllWithin(Diffs(levels), -3, -1) ==> levels[i] - 3 * (j - i) <= levels[j] <= levels[i] - (j - i)
    decreases j - i
  {
    var diffs := Diffs(levels);
    assert diffs[j - 1] == levels[j] - levels[j - 1];
    if i < j - 1 {
      SafeMonotone(levels, i, j - 1);
    }
  }

  /** Every report whose levels repeat is unsafe (a step of 0). */
  lemma RepeatIsUnsafe(report: Report, i: nat)
    requires i + 1 < |report.levels| && report.levels[i] == report.levels[i + 1]
    ensures !IsSafe(report)
  {
    assert Diffs(report.levels)[i] == 0;
  }

  // ---------------------------------------------------------------------------
  // The Problem Dampener
  // ---------------------------------------------------------------------------

  /** `enumerate().filter_map(|(pos, level)| (pos != nth).then_some(level))`
      over the levels from position `pos` on. */
  function Kept(levels: seq<int>, nth: nat, pos: nat): seq<int>
  {
    if |levels| == 0 then []
    else (if pos != nth then [levels[0]] else []) + Kept(levels[1..], nth, pos + 1)
  }

  /** The report with the level at index `nth` removed; with no such index,
      the report unchanged. */
  function Without(levels: seq<int>, nth: nat): (r: seq<int>)
    ensures nth < |levels| ==> |r| == |levels| - 1
    ensures nth >= |levels| ==> r == levels
  {
    if nth < |levels| then levels[..nth] + levels[nth + 1..] else levels
  }

  /** The filter keeps every level but the one at index `nth`. */
  lemma {:induction false} KeptWithout(levels: seq<int>, nth: nat, pos: nat)
    ensures pos <= nth ==> Kept(levels, nth, pos) == Without(levels, nth - pos)
    ensures pos > nth ==> Kept(levels, nth, pos) == levels
    decreases |levels|
  {
    if |levels| > 0 {
      KeptWithout(levels[1..], nth, pos + 1);
      if pos == nth {
        assert Without(levels, 0) == levels[1..];
      } else if pos < nth && nth - pos < |levels| {
        WithoutCons(levels, nth - pos);
      } else {
        assert [levels[0]] + levels[1..] == levels;
      }
    }
  }

  /** Removing a level after the first keeps the first in front. */
  lemma WithoutCons(levels: seq<int>, k: nat)
    requires 0 < k < |levels|
    ensures Without(levels, k) == [levels[0]] + Without(levels[1..], k - 1)
  {
    assert [levels[0]] + levels[1..][..k - 1] == levels[..k];
    assert levels[1..][k..] == levels[k + 1..];
  }

  /** `Report::is_safe_skip`. */
  predicate IsSafeSkip(report: Report, nth: nat)
  {
    SafeLevels(Kept(report.levels, nth, 0))
  }

  /** `is_safe_skip(nth)` is `is_safe` of the report with level `nth`
      removed. */
  lemma SafeSkipIsSafeWithout(report: Report, nth: nat)
    ensures IsSafeSkip(report, nth) == IsSafe(Report(Without(report.levels, nth)))
  {
    KeptWithout(report.levels, nth, 0);
  }

  /** Removing the first or the last level keeps a safe report safe. */
  lemma SafeWithoutEnd(report: Report)
    requires IsSafe(report) && |report.levels| > 0
    ensures IsSafeSkip(report, 0)
    ensures IsSafeSkip(report, |report.levels| - 1)
  {
    var levels := report.levels;
    var n := |levels|;
    SafeSkipIsSafeWithout(report, 0);
    SafeSkipIsSafeWithout(report, n - 1);
    assert Without(levels, 0) == levels[1..];
    assert Without(levels, n - 1) == levels[..n - 1];
    SafeSlice(levels, 1, n);
    SafeSlice(levels, 0, n - 1);
    assert levels[1..n] == levels[1..] && levels[0..n - 1] == levels[..n - 1];
  }

  /** Every run of consecutive levels of a safe report is safe. */
  lemma SafeSlice(levels: seq<int>, from: nat, to: nat)
    requires SafeLevels(levels) && from <= to <= |levels|
    ensures SafeLevels(levels[from..to])
  {
    var d := Diffs(levels);
    var slice := levels[from..to];
    var e := Diffs(slice);
    forall k | 0 <= k < |e|
      ensures e[k] == d[from + k]
    {
      assert e[k] == slice[k + 1] - slice[k];
      assert slice[k + 1] == levels[from + k + 1] && slice[k] == levels[from + k];
    }
  }

  /** The `for nth in 0..len` search of `is_safe_dampened` from `nth` on:
      the first index whose removal makes the report safe. */
  function FirstSafeSkip(report: Report, nth: nat): (r: Option<nat>)
    requires nth <= |report.levels|
    ensures r.Some? ==> nth <= r.value < |report.levels| && IsSafeSkip(report, r.value)
    ensures r.Some? ==> forall m :: nth <= m < r.value ==> !IsSafeSkip(report, m)
    ensures r.None? ==> forall m :: nth <= m < |report.levels| ==> !IsSafeSkip(report, m)
    decreases |report.levels| - nth
  {
    if nth == |report.levels| then None
    else if IsSafeSkip(report, nth) then Some(nth)
    else
      var r := FirstSafeSkip(report, nth + 1);
      assert forall m :: nth < m < |report.levels| && (r.None? || m < r.value) ==> !IsSafeSkip(report, m);
      r
  }

  /** `Report::is_safe_dampened`: `Ok(None)` for a safe report, else
      `Ok(Some(nth))` for the first removable level, else `Err(())`. */
  function IsSafeDampened(report: Report): (r: Result<Option<nat>, ()>)
    ensures r == Ok(None) <==> IsSafe(report)
    ensures r.Ok? && r.value.Some? ==>
      var nth := r.value.value;
      nth < |report.levels| && IsSafe(Report(Without(report.levels, nth))) &&
      forall m :: 0 <= m < nth ==> !IsSafe(Report(Without(report.levels, m)))
    ensures r.Err? <==> !IsSafe(report) && forall m :: 0 <= m < |report.levels| ==> !IsSafe(Report(Without(report.levels, m)))
  {
    if IsSafe(report) then Ok(None)
    else
      var found := FirstSafeSkip(report, 0);
      SkipsAreRemovals(report);
      match found
      case Some(nth) => Ok(Some(nth))
      case None => Err(())
  }

  /** The dampener names the smallest removable level of an unsafe report. */
  lemma DampenedAt(report: Report, nth: nat)
    requires !IsSafe(report) && nth < |report.levels|
    requires IsSafe(Report(Without(report.levels, nth)))
    requires forall m :: 0 <= m < nth ==> !IsSafe(Report(Without(report.levels, m)))
    ensures IsSafeDampened(report) == Ok(Some(nth))
  {
    var r := IsSafeDampened(report);
    assert r.Ok?;
    assert r.value.Some?;
  }

  lemma SkipsAreRemovals(report: Report)
    ensures forall m: nat :: IsSafeSkip(report, m) == IsSafe(Report(Without(report.levels, m)))
  {
    forall m: nat
      ensures IsSafeSkip(report, m) == IsSafe(Report(Without(report.levels, m)))
    {
      SafeSkipIsSafeWithout(report, m);
    }
  }

  /** The dampener accepts exactly the reports that are safe or become safe
      with one level removed. */
  lemma DampenedAccepts(report: Report)
    ensures IsSafeDampened(report).Ok? <==>
      IsSafe(report) || exists m :: 0 <= m < |report.levels| && IsSafe(Report(Without(report.levels, m)))
  {
  }

  // ---------------------------------------------------------------------------
  // Answers
  // ---------------------------------------------------------------------------

  /** Every line a report; `None` where `unwrap` panics. */
  function ParseReports(lines: seq<string>): (r: Option<seq<Report>>)
    ensures r.Some? <==> forall k :: 0 <= k < |lines| ==> FromStr(lines[k]).Some?
    ensures r.Some? ==> |r.value| == |lines|
    ensures r.Some? ==> forall k :: 0 <= k < |lines| ==> FromStr(lines[k]) == Some(r.value[k])
  {
    if |lines| == 0 then Some([])
    else
      match FromStr(lines[0])
      case None => None
      case Some(report) =>
        match ParseReports(lines[1..])
        case None => None
        case Some(rest) => Some([report] + rest)
  }

  /** `filter(Report::is_safe).count()`. */
  function CountSafe(reports: seq<Report>): (r: nat)
    ensures r <= |reports|
  {
    if |reports| == 0 then 0
    else (if IsSafe(reports[0]) then 1 else 0) + CountSafe(reports[1..])
  }

  /** `filter(|report| report.is_safe_dampened().is_ok()).count()`. */
  function CountDampened(reports: seq<Report>): (r: nat)
    ensures r <= |reports|
  {
    if |reports| == 0 then 0
    else (if IsSafeDampened(reports[0]).Ok? then 1 else 0) + CountDampened(reports[1..])
  }

  /** The dampener only adds reports: every safe report is also accepted,
      so part two counts at least as many as part one and at most all. */
  lemma {:induction false} CountsOrdered(reports: seq<Report>)
    ensures CountSafe(reports) <= CountDampened(reports) <= |reports|
  {
    if |reports| > 0 {
      CountsOrdered(reports[1..]);
    }
  }

  /** Part one counts the safe reports and no others: each count grows by
      one exactly with a safe report. */
  lemma {:induction false} CountSafeAppend(reports: seq<Report>, report: Report)
    ensures CountSafe(reports + [report]) == CountSafe(reports) + (if IsSafe(report) then 1 else 0)
    decreases |reports|
  {
    if |reports| == 0 {
      assert reports + [report] == [report];
    } else {
      assert (reports + [report])[1..] == reports[1..] + [report];
      CountSafeAppend(reports[1..], report);
    }
  }

  /** Part two counts the reports that are safe once the dampener removes
      at most one level, and no others: each count grows by one exactly
      with an accepted report. */
  lemma {:induction false} CountDampenedAppend(reports: seq<Report>, report: Report)
    ensures CountDampened(reports + [report]) == CountDampened(reports) + (if IsSafeDampened(report).Ok? then 1 else 0)
    decreases |reports|
  {
    if |reports| == 0 {
      assert reports + [report] == [report];
    } else {
      assert (reports + [report])[1..] == reports[1..] + [report];
      CountDampenedAppend(reports[1..], report);
    }
  }

  /** `part_one::compute_answer`. */
  function PartOne(input: string): (r: Option<nat>)
    ensures r.Some? <==> ParseReports(Text.Lines(input)).Some?
    ensures r.Some? ==> r.value == CountSafe(ParseReports(Text.Lines(input)).value)
    ensures r.Some? ==> r.value <= |Text.Lines(input)|
  {
    match ParseReports(Text.Lines(input))
    case None => None
    case Some(reports) =>
      CountsOrdered(reports);
      Some(CountSafe(reports))
  }

  /** `part_two::compute_answer`. */
  function PartTwo(input: string): (r: Option<nat>)
    ensures r.Some? <==> ParseReports(Text.Lines(input)).Some?
    ensures r.Some? ==> r.value == CountDampened(ParseReports(Text.Lines(input)).value)
    ensures r.Some? ==> PartOne(input).value <= r.value <= |Text.Lines(input)|
  {
    match ParseReports(Text.Lines(input))
    case None => None
    case Some(reports) =>
      CountsOrdered(reports);
      Some(CountDampened(reports))
  }

  // ---------------------------------------------------------------------------
  // The sample reports
  // ---------------------------------------------------------------------------

  /** 7 6 4 2 1 is safe, falling by 1 or 2. */
  lemma SampleSafe()
    ensures IsSafe(Report([7, 6, 4, 2, 1]))
    ensures IsSafeDampened(Report([7, 6, 4, 2, 1])) == Ok(None)
  {
    var levels := [7, 6, 4, 2, 1];
    assert Diffs(levels) == [-1, -2, -2, -1];
  }

  /** 1 3 2 4 5 is unsafe, and becomes safe without its second level. */
  lemma SampleDampened()
    ensures !IsSafe(Report([1, 3, 2, 4, 5]))
    ensures IsSafeDampened(Report([1, 3, 2, 4, 5])) == Ok(Some(1))
  {
    var report := Report([1, 3, 2, 4, 5]);
    SampleRemovals();
    DampenedAt(report, 1);
  }

  lemma SampleRemovals()
    ensures !IsSafe(Report([1, 3, 2, 4, 5]))
    ensures !IsSafe(Report(Without([1, 3, 2, 4, 5], 0)))
    ensures IsSafe(Report(Without([1, 3, 2, 4, 5], 1)))
  {
    var levels := [1, 3, 2, 4, 5];
    TurnIsUnsafe(levels);
    assert Without(levels, 0) == [3, 2, 4, 5];
    TurnIsUnsafe([3, 2, 4, 5]);
    assert Without(levels, 1) == [1, 2, 4, 5];
    RisingIsSafe([1, 2, 4, 5]);
  }

  /** Levels that first rise and then do not, or first fall and then do
      not, are unsafe. */
  lemma TurnIsUnsafe(levels: seq<int>)
    requires |levels| >= 3
    requires !(levels[0] < levels[1] < levels[2]) && !(levels[0] > levels[1] > levels[2])
    ensures !SafeLevels(levels)
  {
    var diffs := Diffs(levels);
    assert diffs[0] == levels[1] - levels[0] && diffs[1] == levels[2] - levels[1];
  }

  lemma RisingIsSafe(levels: seq<int>)
    requires levels == [1, 2, 4, 5]
    ensures SafeLevels(levels)
  {
    StepsWithin(levels, 1, 3);
  }
}
