/** Historian Hysteria (day 1): two columns of location IDs. Part one pairs
    the smallest with the smallest, the second smallest with the second
    smallest and so on, and sums the distances of the pairs; part two sums
    each left ID times the number of its occurrences in the right column. */
module Locations {
  import opened Wrappers
  import Text

  // ---------------------------------------------------------------------------
  // Parsing
  // ---------------------------------------------------------------------------

  /** One line of `parse_input`: the first two white-space separated tokens
      as `usize`; `None` where an `unwrap` panics. Further tokens are
      ignored. */
  function ParseLine(line: string): (r: Option<(nat, nat)>)
    ensures r.Some? <==>
      |Text.SplitWhitespace(line)| >= 2 &&
      Text.ParseUnsigned(Text.SplitWhitespace(line)[0], Text.USIZE_MAX).Some? &&
      Text.ParseUnsigned(Text.SplitWhitespace(line)[1], Text.USIZE_MAX).Some?
    ensures r.Some? ==> r.value.0 <= Text.USIZE_MAX && r.value.1 <= Text.USIZE_MAX
  {
    var tokens := Text.SplitWhitespace(line);
    if |tokens| < 2 then None
    else
      match (Text.ParseUnsigned(tokens[0], Text.USIZE_MAX), Text.ParseUnsigned(tokens[1], Text.USIZE_MAX))
      case (Some(left), Some(right)) => Some((left, right))
      case _ => None
  }

  /** The two IDs written out with a space between them read back. */
  lemma ParseLineRoundTrip(left: nat, right: nat)
    requires left <= Text.USIZE_MAX && right <= Text.USIZE_MAX
    ensures ParseLine(Text.Join([Text.NatToString(left), Text.NatToString(right)], " ")) == Some((left, right))
  {
    var tokens := [Text.NatToString(left), Text.NatToString(right)];
    Text.ParseUnsignedRoundTrip(left, Text.USIZE_MAX);
    Text.ParseUnsignedRoundTrip(right, Text.USIZE_MAX);
    NoSpaceInDecimal(left);
    NoSpaceInDecimal(right);
    Text.SplitWhitespaceJoin(tokens);
  }

  lemma NoSpaceInDecimal(n: nat)
    ensures |Text.NatToString(n)| > 0
    ensures forall i :: 0 <= i < |Text.NatToString(n)| ==> !Text.IsWhitespace(Text.NatToString(n)[i])
  {
    var s := Text.IntToString(n);
    assert forall i :: 0 <= i < |s| ==> s[i] == '-' || Text.IsDigit(s[i]);
  }

  /** `map(parse).unwrap()` over the lines: the pairs, or `None`. */
  function ParseLines(lines: seq<string>): (r: Option<seq<(nat, nat)>>)
    ensures r.Some? <==> forall k :: 0 <= k < |lines| ==> ParseLine(lines[k]).Some?
    ensures r.Some? ==> |r.value| == |lines|
    ensures r.Some? ==> forall k :: 0 <= k < |lines| ==> ParseLine(lines[k]) == Some(r.value[k])
  {
    if |lines| == 0 then Some([])
    else
      match ParseLine(lines[0])
      case None => None
      case Some(pair) =>
        match ParseLines(lines[1..])
        case None => None
        case Some(rest) => Some([pair] + rest)
  }

  /** `unzip`: the first and the second IDs, each in line order. */
  function Unzip(pairs: seq<(nat, nat)>): (r: (seq<nat>, seq<nat>))
    ensures |r.0| == |pairs| && |r.1| == |pairs|
    ensures forall k :: 0 <= k < |pairs| ==> pairs[k] == (r.0[k], r.1[k])
  {
    if |pairs| == 0 then ([], [])
    else
      var (lefts, rights) := Unzip(pairs[1..]);
      ([pairs[0].0] + lefts, [pairs[0].1] + rights)
  }

  /** `parse_input`: the left and the right column, of equal length. */
  function ParseInput(input: string): (r: Option<(seq<nat>, seq<nat>)>)
    ensures r.Some? <==> ParseLines(Text.Lines(input)).Some?
    ensures r.Some? ==> |r.value.0| == |Text.Lines(input)| && |r.value.1| == |Text.Lines(input)|
    ensures r.Some? ==> forall k :: 0 <= k < |Text.Lines(input)| ==>
      ParseLine(Text.Lines(input)[k]) == Some((r.value.0[k], r.value.1[k]))
  {
    match ParseLines(Text.Lines(input))
    case None => None
    case Some(pairs) => Some(Unzip(pairs))
  }

  // ---------------------------------------------------------------------------
  // Sorting
  // ---------------------------------------------------------------------------

  predicate Sorted(s: seq<nat>)
  {
    forall i, j :: 0 <= i < j < |s| ==> s[i] <= s[j]
  }

  /** The sorted arrangement of a list, by insertion. */
  function SortSeq(s: seq<nat>): (r: seq<nat>)
    ensures Sorted(r) && multiset(r) == multiset(s)
  {
    if |s| == 0 then []
    else
      assert s == [s[0]] + s[1..];
      InsertSorted(s[0], SortSeq(s[1..]))
  }

  function InsertSorted(x: nat, s: seq<nat>): (r: seq<nat>)
    requires Sorted(s)
    ensures Sorted(r) && multiset(r) == multiset(s) + multiset{x}
  {
    if |s| == 0 || x <= s[0] then [x] + s
    else
      var rest := InsertSorted(x, s[1..]);
      assert s == [s[0]] + s[1..];
      assert multiset(s) == multiset{s[0]} + multiset(s[1..]);
      BoundKept(s[0], x, s[1..], rest);
      [s[0]] + rest
  }

  /** A lower bound of `x` and of every element of `tail` bounds any
      arrangement of them. */
  lemma BoundKept(h: nat, x: nat, tail: seq<nat>, rest: seq<nat>)
    requires h <= x && forall i :: 0 <= i < |tail| ==> h <= tail[i]
    requires multiset(rest) == multiset(tail) + multiset{x}
    ensures forall k :: 0 <= k < |rest| ==> h <= rest[k]
  {
    forall k | 0 <= k < |rest|
      ensures h <= rest[k]
    {
      assert rest[k] in multiset(rest);
      if rest[k] != x {
        assert rest[k] in multiset(tail);
      }
    }
  }

  /** A list has one sorted arrangement: sorted lists with the same elements
      are equal. */
  lemma {:induction false} SortedUnique(a: seq<nat>, b: seq<nat>)
    requires Sorted(a) && Sorted(b) && multiset(a) == multiset(b)
    ensures a == b
    decreases |a|
  {
    if |a| > 0 {
      assert |b| == |multiset(b)| == |multiset(a)| == |a|;
      SortedHeads(a, b);
      TailMultiset(a);
      TailMultiset(b);
      SortedUnique(a[1..], b[1..]);
      assert a == [a[0]] + a[1..] && b == [b[0]] + b[1..];
    } else {
      assert |b| == |multiset(b)| == 0;
    }
  }

  /** Sorted lists with the same elements start with the same (least) one. */
  lemma SortedHeads(a: seq<nat>, b: seq<nat>)
    requires Sorted(a) && Sorted(b) && multiset(a) == multiset(b) && |a| > 0 && |b| > 0
    ensures a[0] == b[0]
  {
    assert a[0] in multiset(b) && b[0] in multiset(a);
    var i :| 0 <= i < |b| && b[i] == a[0];
    var j :| 0 <= j < |a| && a[j] == b[0];
    assert b[0] <= b[i] && a[0] <= a[j];
  }

  lemma TailMultiset(s: seq<nat>)
    requires |s| > 0
    ensures multiset(s[1..]) == multiset(s) - multiset{s[0]}
  {
    assert s == [s[0]] + s[1..];
  }

  /** `sort_unstable` on one column, as an insertion sort in place. */
  method SortIds(a: array<nat>)
    modifies a
    ensures Sorted(a[..])
    ensures multiset(a[..]) == multiset(old(a[..]))
  {
    for i := 0 to a.Length
      invariant multiset(a[..]) == multiset(old(a[..]))
      invariant forall k :: 0 <= k < i - 1 ==> a[k] <= a[k + 1]
    {
      InsertId(a, i);
    }
    AdjacentSorted(a[..]);
  }

  /** One pass of the insertion sort: `a[i]` moves left into the sorted `a[..i]`. */
  method InsertId(a: array<nat>, i: nat)
    requires i < a.Length
    requires forall k :: 0 <= k < i - 1 ==> a[k] <= a[k + 1]
    modifies a
    ensures multiset(a[..]) == multiset(old(a[..]))
    ensures forall k :: 0 <= k < i ==> a[k] <= a[k + 1]
  {
    var j := i;
    while j > 0 && a[j - 1] > a[j]
      invariant 0 <= j <= i
      invariant multiset(a[..]) == multiset(old(a[..]))
      invariant forall k :: 0 <= k < j - 1 ==> a[k] <= a[k + 1]
      invariant forall k :: j <= k < i ==> a[k] <= a[k + 1]
      invariant 0 < j < i ==> a[j - 1] <= a[j + 1]
    {
      SwapDown(a, i, j);
      j := j - 1;
    }
  }

  /** One step of `InsertId`: `a[j]` trades places with the larger `a[j - 1]`. */
  method SwapDown(a: array<nat>, i: nat, j: nat)
    requires 0 < j <= i < a.Length
    requires a[j - 1] > a[j]
    requires forall k :: 0 <= k < j - 1 ==> a[k] <= a[k + 1]
    requires forall k :: j <= k < i ==> a[k] <= a[k + 1]
    requires j < i ==> a[j - 1] <= a[j + 1]
    modifies a
    ensures multiset(a[..]) == multiset(old(a[..]))
    ensures forall k :: 0 <= k < j - 2 ==> a[k] <= a[k + 1]
    ensures forall k :: j - 1 <= k < i ==> a[k] <= a[k + 1]
    ensures 1 < j ==> a[j - 2] <= a[j]
  {
    a[j - 1], a[j] := a[j], a[j - 1];
  }

  /** Ordered neighbours make an ordered list. */
  lemma AdjacentSorted(s: seq<nat>)
    requires forall k :: 0 <= k < |s| - 1 ==> s[k] <= s[k + 1]
    ensures Sorted(s)
  {
    forall i, j | 0 <= i < j < |s|
      ensures s[i] <= s[j]
    {
      AdjacentSortedFrom(s, i, j);
    }
  }

  lemma {:induction false} AdjacentSortedFrom(s: seq<nat>, i: nat, j: nat)
    requires forall k :: 0 <= k < |s| - 1 ==> s[k] <= s[k + 1]
    requires i <= j < |s|
    ensures s[i] <= s[j]
    decreases j - i
  {
    if i < j {
      AdjacentSortedFrom(s, i, j - 1);
    }
  }

  /** `get_sorted_data`: both columns, each sorted in place. */
  method GetSortedData(input: string) returns (data: Option<(seq<nat>, seq<nat>)>)
    ensures data.None? <==> ParseInput(input).None?
    ensures data.Some? ==> data.value == (SortSeq(ParseInput(input).value.0), SortSeq(ParseInput(input).value.1))
  {
    var parsed := ParseInput(input);
    if parsed.None? {
      return None;
    }
    var (lefts, rights) := parsed.value;
    var left := SortColumn(lefts);
    var right := SortColumn(rights);
    data := Some((left, right));
  }

  /** One column copied into a `Vec` and sorted there. */
  method SortColumn(column: seq<nat>) returns (sorted: seq<nat>)
    ensures sorted == SortSeq(column)
  {
    var a := new nat[|column|](k requires 0 <= k < |column| => column[k]);
    assert a[..] == column;
    SortIds(a);
    SortedUnique(a[..], SortSeq(column));
    sorted := a[..];
  }

  // ---------------------------------------------------------------------------
  // Part one: total distance
  // ---------------------------------------------------------------------------

  /** `abs_diff`. */
  function Distance(a: nat, b: nat): nat
  {
    if a <= b then b - a else a - b
  }

  /** `zip(left, right).map(abs_diff).sum()`: pairs up to the shorter list. */
  function TotalDistance(left: seq<nat>, right: seq<nat>): nat
  {
    if |left| == 0 || |right| == 0 then 0
    else Distance(left[0], right[0]) + TotalDistance(left[1..], right[1..])
  }

  /** The distance does not depend on which column is which. */
  lemma {:induction false} TotalDistanceSymmetric(left: seq<nat>, right: seq<nat>)
    ensures TotalDistance(left, right) == TotalDistance(right, left)
    decreases |left|
  {
    if |left| > 0 && |right| > 0 {
      TotalDistanceSymmetric(left[1..], right[1..]);
    }
  }

  /** Two columns of one length are at distance zero exactly when equal. */
  lemma {:induction false} TotalDistanceZero(left: seq<nat>, right: seq<nat>)
    requires |left| == |right|
    ensures TotalDistance(left, right) == 0 <==> left == right
    decreases |left|
  {
    if |left| > 0 {
      TotalDistanceZero(left[1..], right[1..]);
      assert left == [left[0]] + left[1..] && right == [right[0]] + right[1..];
    }
  }

  /** Part one as a value: the distance of the sorted columns. */
  function PartOneValue(input: string): (r: Option<nat>)
    ensures r.Some? <==> ParseInput(input).Some?
    ensures r == DistanceOfLines(Text.Lines(input))
  {
    match ParseInput(input)
    case None => None
    case Some((lefts, rights)) => Some(TotalDistance(SortSeq(lefts), SortSeq(rights)))
  }

  /** `part_one::compute_answer`: sort both columns, then sum the distances. */
  method PartOne(input: string) returns (answer: Option<nat>)
    ensures answer == PartOneValue(input)
  {
    var data := GetSortedData(input);
    match data
    case None => answer := None;
    case Some((left, right)) => answer := Some(TotalDistance(left, right));
  }

  /** `f` applied to every element, in order. */
  function Apply<A, B>(f: A -> B, s: seq<A>): (r: seq<B>)
    ensures |r| == |s| && forall k :: 0 <= k < |s| ==> r[k] == f(s[k])
  {
    if |s| == 0 then [] else [f(s[0])] + Apply(f, s[1..])
  }

  /** Mapping a rearranged list rearranges the mapped list. */
  lemma {:induction false} ApplyPermutation<A, B>(f: A -> B, s: seq<A>, t: seq<A>)
    requires multiset(s) == multiset(t)
    ensures multiset(Apply(f, s)) == multiset(Apply(f, t))
    decreases |s|
  {
    if |s| == 0 {
      assert |t| == |multiset(t)| == 0;
    } else {
      assert s[0] in multiset(t);
      var k :| 0 <= k < |t| && t[k] == s[0];
      var rest := t[..k] + t[k + 1..];
      assert t == t[..k] + [t[k]] + t[k + 1..];
      assert s == [s[0]] + s[1..];
      assert multiset(s[1..]) == multiset(s) - multiset{s[0]};
      assert multiset(t) == multiset(t[..k]) + multiset{t[k]} + multiset(t[k + 1..]);
      assert multiset(rest) == multiset(t[..k]) + multiset(t[k + 1..]);
      ApplyPermutation(f, s[1..], rest);
      ApplyRemove(f, t, k);
      assert Apply(f, s) == [f(s[0])] + Apply(f, s[1..]);
      assert multiset(Apply(f, s)) == multiset{f(s[0])} + multiset(Apply(f, s[1..]));
    }
  }

  /** Mapping a list is mapping one element and the rest. */
  lemma ApplyRemove<A, B>(f: A -> B, t: seq<A>, k: nat)
    requires k < |t|
    ensures multiset(Apply(f, t)) == multiset{f(t[k])} + multiset(Apply(f, t[..k] + t[k + 1..]))
  {
    ApplySplit(f, t, k);
    ApplyConcat(f, t[..k], t[k + 1..]);
  }

  lemma ApplySplit<A, B>(f: A -> B, t: seq<A>, k: nat)
    requires k < |t|
    ensures Apply(f, t) == Apply(f, t[..k]) + [f(t[k])] + Apply(f, t[k + 1..])
  {
    var before, after := Apply(f, t[..k]), Apply(f, t[k + 1..]);
    var joined := before + [f(t[k])] + after;
    forall i | 0 <= i < |t|
      ensures joined[i] == f(t[i])
    {
      if i < k {
        assert joined[i] == before[i] == f(t[..k][i]);
      } else if i > k {
        assert joined[i] == after[i - k - 1] == f(t[k + 1..][i - k - 1]);
      }
    }
  }

  lemma ApplyConcat<A, B>(f: A -> B, s: seq<A>, t: seq<A>)
    ensures Apply(f, s + t) == Apply(f, s) + Apply(f, t)
  {
    var joined, parts := Apply(f, s + t), Apply(f, s) + Apply(f, t);
    forall k | 0 <= k < |s| + |t| ensures joined[k] == parts[k] {
      if k < |s| {
        assert joined[k] == f((s + t)[k]) == f(s[k]) == Apply(f, s)[k];
      } else {
        assert joined[k] == f((s + t)[k]) == f(t[k - |s|]) == Apply(f, t)[k - |s|];
      }
    }
  }

  /** The first ID of a line (zero for a line that does not parse). */
  function LeftOf(line: string): nat
  {
    match ParseLine(line)
    case Some((left, _)) => left
    case None => 0
  }

  /** The second ID of a line (zero for a line that does not parse). */
  function RightOf(line: string): nat
  {
    match ParseLine(line)
    case Some((_, right)) => right
    case None => 0
  }

  /** Part one of a list of lines. */
  function DistanceOfLines(lines: seq<string>): (r: Option<nat>)
  {
    match ParseLines(lines)
    case None => None
    case Some(pairs) =>
      var (lefts, rights) := Unzip(pairs);
      Some(TotalDistance(SortSeq(lefts), SortSeq(rights)))
  }

  /** Part one does not depend on the order of the lines: both columns are
      sorted before they are paired. */
  lemma ReorderedLines(lines: seq<string>, reordered: seq<string>)
    requires multiset(lines) == multiset(reordered)
    ensures DistanceOfLines(lines) == DistanceOfLines(reordered)
  {
    if ParseLines(lines).Some? {
      forall k | 0 <= k < |reordered|
        ensures ParseLine(reordered[k]).Some?
      {
        assert reordered[k] in multiset(lines);
      }
      ColumnsOf(lines);
      ColumnsOf(reordered);
      ApplyPermutation(LeftOf, lines, reordered);
      ApplyPermutation(RightOf, lines, reordered);
      var (l1, r1) := Unzip(ParseLines(lines).value);
      var (l2, r2) := Unzip(ParseLines(reordered).value);
      SortedUnique(SortSeq(l1), SortSeq(l2));
      SortedUnique(SortSeq(r1), SortSeq(r2));
    } else {
      var k :| 0 <= k < |lines| && ParseLine(lines[k]).None?;
      assert lines[k] in multiset(reordered);
    }
  }

  lemma ColumnsOf(lines: seq<string>)
    requires ParseLines(lines).Some?
    ensures Unzip(ParseLines(lines).value) == (Apply(LeftOf, lines), Apply(RightOf, lines))
  {
    var (lefts, rights) := Unzip(ParseLines(lines).value);
    assert lefts == Apply(LeftOf, lines);
    assert rights == Apply(RightOf, lines);
  }

  // ---------------------------------------------------------------------------
  // Part two: similarity score
  // ---------------------------------------------------------------------------

  /** The `count` closure: how often `id` occurs in `right`. */
  function Count(right: seq<nat>, id: nat): (r: nat)
    ensures r == multiset(right)[id]
  {
    if |right| == 0 then 0
    else
      assert right == [right[0]] + right[1..];
      (if right[0] == id then 1 else 0) + Count(right[1..], id)
  }

  /** `left.iter().map(|id| id * count(id)).sum()`. */
  function Similarity(left: seq<nat>, right: seq<nat>): nat
  {
    if |left| == 0 then 0 else left[0] * Count(right, left[0]) + Similarity(left[1..], right)
  }

  /** The score depends on the right column only through how often each ID
      occurs in it. */
  lemma {:induction false} SimilarityRightOrder(left: seq<nat>, right: seq<nat>, reordered: seq<nat>)
    requires multiset(right) == multiset(reordered)
    ensures Similarity(left, right) == Similarity(left, reordered)
    decreases |left|
  {
    if |left| > 0 {
      SimilarityRightOrder(left[1..], right, reordered);
    }
  }

  /** An ID missing from the right column adds nothing; one in both adds
      itself once per occurrence on the right. */
  lemma {:induction false} SimilarityCons(id: nat, left: seq<nat>, right: seq<nat>)
    ensures Similarity([id] + left, right) == id * multiset(right)[id] + Similarity(left, right)
  {
    assert ([id] + left)[1..] == left;
  }

  /** `part_two::compute_answer`. */
  function PartTwo(input: string): (r: Option<nat>)
    ensures r.Some? <==> ParseInput(input).Some?
    ensures r.Some? ==> r.value == Similarity(ParseInput(input).value.0, ParseInput(input).value.1)
  {
    match ParseInput(input)
    case None => None
    case Some((lefts, rights)) => Some(Similarity(lefts, rights))
  }

  // ---------------------------------------------------------------------------
  // The sample columns
  // ---------------------------------------------------------------------------

  /** The sample's columns 3 4 2 1 3 3 and 4 3 5 3 9 3: sorted they are at
      distance 11. */
  lemma SampleDistance(left: seq<nat>, right: seq<nat>)
    requires left == [3, 4, 2, 1, 3, 3] && right == [4, 3, 5, 3, 9, 3]
    ensures TotalDistance(SortSeq(left), SortSeq(right)) == 11
  {
    SampleLeftSorted(left);
    SampleRightSorted(right);
    SampleSortedDistance();
  }

  lemma SampleSortedDistance()
    ensures TotalDistance([1, 2, 3, 3, 3, 4], [3, 3, 3, 4, 5, 9]) == 11
  {
  }

  lemma SampleLeftSorted(left: seq<nat>)
    requires left == [3, 4, 2, 1, 3, 3]
    ensures SortSeq(left) == [1, 2, 3, 3, 3, 4]
  {
    SampleLeftMultiset(left);
    SortSeqIs(left, [1, 2, 3, 3, 3, 4]);
  }

  lemma SampleRightSorted(right: seq<nat>)
    requires right == [4, 3, 5, 3, 9, 3]
    ensures SortSeq(right) == [3, 3, 3, 4, 5, 9]
  {
    SampleRightMultiset(right);
    SortSeqIs(right, [3, 3, 3, 4, 5, 9]);
  }

  lemma SampleLeftMultiset(left: seq<nat>)
    requires left == [3, 4, 2, 1, 3, 3]
    ensures multiset(left) == multiset([1, 2, 3, 3, 3, 4])
  {
    calc {
      multiset(left);
      multiset{3, 4, 2, 1, 3, 3};
      multiset{1, 2, 3, 3, 3, 4};
      multiset([1, 2, 3, 3, 3, 4]);
    }
  }

  lemma SampleRightMultiset(right: seq<nat>)
    requires right == [4, 3, 5, 3, 9, 3]
    ensures multiset(right) == multiset([3, 3, 3, 4, 5, 9])
  {
    calc {
      multiset(right);
      multiset{4, 3, 5, 3, 9, 3};
      multiset{3, 3, 3, 4, 5, 9};
      multiset([3, 3, 3, 4, 5, 9]);
    }
  }

  lemma SortSeqIs(s: seq<nat>, sorted: seq<nat>)
    requires Sorted(sorted) && multiset(s) == multiset(sorted)
    ensures SortSeq(s) == sorted
  {
    SortedUnique(SortSeq(s), sorted);
  }

  /** The sample's similarity score is 31, whatever the order of the right
      column. */
  lemma SampleSimilarity(left: seq<nat>, right: seq<nat>)
    requires left == [3, 4, 2, 1, 3, 3] && multiset(right) == multiset{4, 3, 5, 3, 9, 3}
    ensures Similarity(left, right) == 31
  {
    assert left == [3] + ([4] + ([2] + ([1] + ([3] + ([3] + [])))));
    assert multiset(right)[1] == 0 && multiset(right)[2] == 0;
    assert multiset(right)[3] == 3 && multiset(right)[4] == 1;
    SimilarityCons(3, [], right);
    SimilarityCons(3, [3], right);
    SimilarityCons(1, [3, 3], right);
    SimilarityCons(2, [1, 3, 3], right);
    SimilarityCons(4, [2, 1, 3, 3], right);
    SimilarityCons(3, [4, 2, 1, 3, 3], right);
  }
}
