/** Stones that change on every blink: a 0 becomes 1, a number with an even
    count of decimal digits splits into its two halves, and any other number
    is multiplied by 2024. Part one applies the rule 25 times to the whole
    row; part two counts the stones after 75 blinks one stone at a time,
    remembering the count for every (stone, remaining blinks) pair. */
module Stones {
  import opened Wrappers
  import Text
  import opened Decimal

  /** `blink` (both parts share the rule): the stones one stone turns into. */
  function Blink(stone: nat): (r: seq<nat>)
    ensures 1 <= |r| <= 2
    ensures stone == 0 ==> r == [1]
  {
    if stone == 0 then [1]
    else
      var numDigits := NumDigits(stone);
      if numDigits % 2 == 0 then
        var splitAt := Pow10(numDigits / 2);
        var left := stone / splitAt;
        DivSplit(stone, splitAt);
        var right := stone - left * splitAt;
        [left, right]
      else [stone * 2024]
  }

  /** The three cases of the rule: 0 becomes 1; a stone with an odd number
      of digits is multiplied by 2024; one with an even number splits into a
      high and a low half that give the stone back. */
  lemma BlinkRule(stone: nat)
    ensures stone == 0 ==> Blink(stone) == [1]
    ensures stone > 0 && NumDigits(stone) % 2 == 1 ==> Blink(stone) == [stone * 2024]
    ensures stone > 0 && NumDigits(stone) % 2 == 0 ==>
              |Blink(stone)| == 2 && Blink(stone)[0] * Pow10(NumDigits(stone) / 2) + Blink(stone)[1] == stone
              && Blink(stone)[1] < Pow10(NumDigits(stone) / 2)
  {
    if stone > 0 {
      DivSplit(stone, Pow10(NumDigits(stone) / 2));
    }
  }

  /** A split keeps the high half with exactly half the digits, so the two
      halves written side by side, the low one padded with zeros to half the
      width, spell the old stone. */
  lemma BlinkSplitHalves(stone: nat)
    requires stone > 0 && NumDigits(stone) % 2 == 0
    ensures var half := NumDigits(stone) / 2;
            Blink(stone)[0] > 0 && NumDigits(Blink(stone)[0]) == half
  {
    BlinkRule(stone);
    var half := NumDigits(stone) / 2;
    var left := Blink(stone)[0];
    var splitAt := Pow10(half);
    Pow10Add(half - 1, half);
    Pow10Add(half, half);
    assert Pow10(half - 1) * splitAt <= stone < splitAt * splitAt;
    assert left == stone / splitAt;
    LowerBound(stone, splitAt, Pow10(half - 1));
    UpperBound(stone, splitAt, splitAt);
    NumDigitsUnique(left, half);
  }

  /** The rule on the stones the test starts from. */
  lemma BlinkSamples()
    ensures Blink(0) == [1]
    ensures Blink(1) == [2024]
    ensures Blink(17) == [1, 7]
    ensures Blink(125) == [253000]
    ensures Blink(253000) == [253, 0]
  {
    NumDigitsUnique(17, 2);
    NumDigitsUnique(125, 3);
    NumDigitsUnique(253000, 6);
  }

  /** `flat_map(blink)` over a row. */
  function BlinkAll(stones: seq<nat>): (r: seq<nat>)
    ensures |stones| <= |r| <= 2 * |stones|
  {
    if |stones| == 0 then [] else Blink(stones[0]) + BlinkAll(stones[1..])
  }

  /** Blinking is done stone by stone, so it distributes over concatenation. */
  lemma {:induction false} BlinkAllAppend(a: seq<nat>, b: seq<nat>)
    ensures BlinkAll(a + b) == BlinkAll(a) + BlinkAll(b)
  {
    if |a| > 0 {
      assert (a + b)[1..] == a[1..] + b;
      BlinkAllAppend(a[1..], b);
    } else {
      assert a + b == b;
    }
  }

  /** The row after `k` blinks. */
  function Blinks(stones: seq<nat>, k: nat): (r: seq<nat>)
    ensures |stones| <= |r|
    decreases k
  {
    if k == 0 then stones else Blinks(BlinkAll(stones), k - 1)
  }

  lemma {:induction false} BlinksAppend(a: seq<nat>, b: seq<nat>, k: nat)
    ensures Blinks(a + b, k) == Blinks(a, k) + Blinks(b, k)
    decreases k
  {
    if k > 0 {
      BlinkAllAppend(a, b);
      BlinksAppend(BlinkAll(a), BlinkAll(b), k - 1);
    }
  }

  /** `parse_input`: whitespace-separated `usize` numbers; `None` where the
      source unwraps a parse error. */
  function ParseInput(input: string): (r: Option<seq<nat>>)
    ensures r.Some? ==> |r.value| == |Text.SplitWhitespace(input)|
    ensures r.Some? ==> forall i :: 0 <= i < |r.value| ==>
              Text.ParseUnsigned(Text.SplitWhitespace(input)[i], Text.USIZE_MAX) == Some(r.value[i])
  {
    ParseAll(Text.SplitWhitespace(input))
  }

  function ParseAll(tokens: seq<string>): (r: Option<seq<nat>>)
    ensures r.Some? <==> forall i :: 0 <= i < |tokens| ==> Text.ParseUnsigned(tokens[i], Text.USIZE_MAX).Some?
    ensures r.Some? ==> |r.value| == |tokens|
    ensures r.Some? ==> forall i :: 0 <= i < |tokens| ==> Text.ParseUnsigned(tokens[i], Text.USIZE_MAX) == Some(r.value[i])
  {
    if |tokens| == 0 then Some([])
    else
      match Text.ParseUnsigned(tokens[0], Text.USIZE_MAX)
      case None => None
      case Some(stone) =>
        match ParseAll(tokens[1..])
        case None => None
        case Some(rest) => Some([stone] + rest)
  }

  /** `part_one::compute_answer`: the length of the row after 25 blinks. */
  method PartOne(input: string) returns (answer: Option<nat>)
    ensures answer.Some? <==> ParseInput(input).Some?
    ensures answer.Some? ==> answer.value == |Blinks(ParseInput(input).value, 25)|
  {
    var parsed := ParseInput(input);
    if parsed.None? {
      return None;
    }
    var stones := parsed.value;
    for i := 0 to 25
      invariant Blinks(parsed.value, 25) == Blinks(stones, 25 - i)
    {
      stones := BlinkAll(stones);
    }
    return Some(|stones|);
  }

  // ---------------------------------------------------------------------------
  // Part two

  /** `MAX_DEPTH`. */
  const MaxDepth: nat := 75

  /** The number of stones one stone becomes after `k` blinks, by the
      recursion of `inner` without its cache. */
  function StoneCount(stone: nat, k: nat): (r: nat)
    ensures r >= 1
    decreases k
  {
    if k == 0 then 1
    else
      var next := Blink(stone);
      if |next| == 1 then StoneCount(next[0], k - 1)
      else StoneCount(next[0], k - 1) + StoneCount(next[1], k - 1)
  }

  /** The count per stone agrees with the length of the row part one builds. */
  lemma {:induction false} StoneCountIsLength(stone: nat, k: nat)
    ensures StoneCount(stone, k) == |Blinks([stone], k)|
    decreases k
  {
    if k > 0 {
      var next := Blink(stone);
      BlinksOne(stone, k);
      StoneCountIsLength(next[0], k - 1);
      if |next| == 2 {
        StoneCountIsLength(next[1], k - 1);
        BlinksPair(next, k - 1);
      }
    }
  }

  /** Blinking a row of one stone starts from that stone's blink. */
  lemma BlinksOne(stone: nat, k: nat)
    requires k > 0
    ensures Blinks([stone], k) == Blinks(Blink(stone), k - 1)
  {
    var next := Blink(stone);
    assert BlinkAll([stone]) == next by {
      assert [stone][1..] == [];
      assert next + [] == next;
    }
  }

  /** Two stones blink into the rows of each, one after the other. */
  lemma BlinksPair(next: seq<nat>, k: nat)
    requires |next| == 2
    ensures |Blinks(next, k)| == |Blinks([next[0]], k)| + |Blinks([next[1]], k)|
  {
    assert next == [next[0]] + [next[1]];
    BlinksAppend([next[0]], [next[1]], k);
  }

  /** The sum of the counts of a row, `map(inner).sum()`. */
  function RowCount(stones: seq<nat>, k: nat): (r: nat)
    ensures r >= |stones|
  {
    if |stones| == 0 then 0 else StoneCount(stones[0], k) + RowCount(stones[1..], k)
  }

  /** Counting stone by stone gives the length of the blinked row. */
  lemma {:induction false} RowCountIsLength(stones: seq<nat>, k: nat)
    ensures RowCount(stones, k) == |Blinks(stones, k)|
  {
    if |stones| > 0 {
      assert stones == [stones[0]] + stones[1..];
      BlinksAppend([stones[0]], stones[1..], k);
      StoneCountIsLength(stones[0], k);
      RowCountIsLength(stones[1..], k);
    } else {
      BlinksEmpty(k);
    }
  }

  lemma {:induction false} BlinksEmpty(k: nat)
    ensures Blinks([], k) == []
  {
    if k > 0 {
      BlinksEmpty(k - 1);
    }
  }

  /** The `HashMap<(usize, usize), usize>` cache, keyed by (stone, blinks left). */
  class Cache {
    var entries: map<(nat, nat), nat>

    constructor()
      ensures entries == map[]
    {
      entries := map[];
    }

    /** Every remembered count is the true count. */
    ghost predicate Valid()
      reads this
    {
      forall key :: key in entries ==> entries[key] == StoneCount(key.0, key.1)
    }
  }

  /** `part_two::compute_answer::inner`: the count of `stone` at `depth`,
      through the cache, which only gains correct entries. */
  method Inner(stone: nat, depth: nat, cache: Cache) returns (count: nat)
    requires depth <= MaxDepth && cache.Valid()
    modifies cache
    ensures cache.Valid()
    ensures count == StoneCount(stone, MaxDepth - depth)
    ensures forall key :: key in old(cache.entries) ==> key in cache.entries
    decreases MaxDepth - depth
  {
    if depth == MaxDepth {
      return 1;
    }
    var key := (stone, MaxDepth - depth);
    if key in cache.entries {
      return cache.entries[key];
    }
    var next := Blink(stone);
    var left := Inner(next[0], depth + 1, cache);
    var right := 0;
    if |next| == 2 {
      right := Inner(next[1], depth + 1, cache);
    }
    count := left + right;
    CountStep(stone, key.1, next, left, right);
    cache.entries := cache.entries[key := count];
  }

  /** One blink of the count: the counts of the one or two stones it becomes. */
  lemma CountStep(stone: nat, k: nat, next: seq<nat>, left: nat, right: nat)
    requires k > 0 && next == Blink(stone)
    requires left == StoneCount(next[0], k - 1)
    requires right == if |next| == 2 then StoneCount(next[1], k - 1) else 0
    ensures StoneCount(stone, k) == left + right
  {
  }

  /** `part_two::compute_answer`: the number of stones after 75 blinks. */
  method PartTwo(input: string) returns (answer: Option<nat>)
    ensures answer.Some? <==> ParseInput(input).Some?
    ensures answer.Some? ==> answer.value == RowCount(ParseInput(input).value, MaxDepth)
  {
    var parsed := ParseInput(input);
    if parsed.None? {
      return None;
    }
    var stones := parsed.value;
    var cache := new Cache();
    var count := 0;
    for i := 0 to |stones|
      invariant cache.Valid()
      invariant count + RowCount(stones[i..], MaxDepth) == RowCount(stones, MaxDepth)
    {
      assert stones[i..][1..] == stones[i + 1..];
      var n := Inner(stones[i], 0, cache);
      count := count + n;
    }
    return Some(count);
  }

  /** Part two counts what part one would build, 75 blinks deep. */
  lemma PartTwoIsRowLength(stones: seq<nat>)
    ensures RowCount(stones, MaxDepth) == |Blinks(stones, MaxDepth)|
  {
    RowCountIsLength(stones, MaxDepth);
  }

  /** The test input "125 17". */
  lemma SampleInput()
    ensures ParseInput("125 17") == Some([125, 17])
  {
    SampleTokens();
    SampleNumbers();
    var tokens := ["125", "17"];
    assert ParseAll(["17"]) == Some([17]) by {
      var t := ["17"];
      assert t[0] == "17" && t[1..] == [];
      assert ParseAll(t[1..]) == Some([]);
      assert [17] + [] == [17];
    }
    assert tokens[0] == "125" && tokens[1..] == ["17"];
    assert ParseAll(tokens) == Some([125] + [17]);
    assert [125] + [17] == [125, 17];
  }

  /** The test input splits into its two numbers. */
  lemma SampleTokens()
    ensures Text.SplitWhitespace("125 17") == ["125", "17"]
  {
    var s := "125 17";
    assert Text.IsWhitespace(s[3]) && !Text.IsWhitespace(s[0]) && !Text.IsWhitespace(s[1]) && !Text.IsWhitespace(s[2]);
    assert Text.TokenLength(s) == 3;
    assert s[..3] == "125" && s[3..] == " 17" && " 17"[1..] == "17";
    assert !Text.IsWhitespace("17"[0]) && !Text.IsWhitespace("17"[1]);
    assert Text.TokenLength("17") == 2;
    assert "17"[..2] == "17" && "17"[2..] == [];
  }

  /** The two numbers of the test input read as `usize`. */
  lemma SampleNumbers()
    ensures Text.ParseUnsigned("125", Text.USIZE_MAX) == Some(125)
    ensures Text.ParseUnsigned("17", Text.USIZE_MAX) == Some(17)
  {
    assert Text.AllDigits("125") && Text.AllDigits("17");
    assert Text.DigitsValue("125") == 125 by {
      assert "125"[..2] == "12" && "12"[..1] == "1";
    }
    assert Text.DigitsValue("17") == 17 by {
      assert "17"[..1] == "1";
    }
  }

  /** The first three rows of the test, blink after blink. */
  lemma SampleFirstBlink()
    ensures BlinkAll([125, 17]) == [253000, 1, 7]
  {
    BlinkSamples();
    assert BlinkAll([17]) == Blink(17) + BlinkAll([]);
  }

  lemma SampleSecondBlink()
    ensures BlinkAll([253000, 1, 7]) == [253, 0, 2024, 14168]
  {
    BlinkSamples();
    NumDigitsUnique(7, 1);
    BlinkRule(7);
    assert BlinkAll([7]) == Blink(7) + BlinkAll([]);
    assert BlinkAll([1, 7]) == Blink(1) + BlinkAll([7]);
  }

  lemma SampleThirdBlink()
    ensures BlinkAll([253, 0, 2024, 14168]) == [512072, 1, 20, 24, 28676032]
  {
    NumDigitsUnique(253, 3);
    NumDigitsUnique(2024, 4);
    NumDigitsUnique(14168, 5);
    BlinkRule(253);
    BlinkRule(14168);
    assert Blink(2024) == [20, 24];
    assert BlinkAll([14168]) == Blink(14168) + BlinkAll([]);
    assert BlinkAll([2024, 14168]) == Blink(2024) + BlinkAll([14168]);
    assert BlinkAll([0, 2024, 14168]) == Blink(0) + BlinkAll([2024, 14168]);
  }
}
