/** Print queue: rules "a|b" say page `a` must be printed before page `b`.
    An update (a list of pages) is in order when no later page must come
    before an earlier one. Part one sums the middle pages of the updates in
    order; part two sorts the others with the rules and sums their middle
    pages. */
module PageOrder {
  import opened Wrappers
  import Text

  /** `std::cmp::Ordering`. */
  datatype Ordering = Less | Equal | Greater

  /** `RuleSet.rules`: for each page, the pages that must come after it,
      in the order of their rules. */
  type Rules = map<nat, seq<nat>>

  // ---------------------------------------------------------------------------
  // Parsing

  /** One rule line "left|right": the text before the first `|` and the text
      up to the second, both `usize`. `None` where `from_iter` panics. */
  function ParseRule(line: string): (r: Option<(nat, nat)>)
    ensures r.Some? ==> '|' in line
  {
    Text.SplitAtChar(line, '|');
    var split := Text.Split(line, "|");
    if |split| < 2 then None
    else
      match (Text.ParseUnsigned(split[0], Text.USIZE_MAX), Text.ParseUnsigned(split[1], Text.USIZE_MAX))
      case (Some(left), Some(right)) => Some((left, right))
      case _ => None
  }

  /** A rule written as "left|right" reads back as itself. */
  lemma ParseRuleRoundTrip(left: nat, right: nat)
    requires left <= Text.USIZE_MAX && right <= Text.USIZE_MAX
    ensures ParseRule(Text.NatToString(left) + "|" + Text.NatToString(right)) == Some((left, right))
  {
    var l := Text.NatToString(left);
    var r := Text.NatToString(right);
    assert '|' !in l && '|' !in r by {
      assert forall k :: 0 <= k < |l| ==> Text.IsDigit(l[k]);
      assert forall k :: 0 <= k < |r| ==> Text.IsDigit(r[k]);
    }
    Text.SplitAfter(l, r, '|');
    Text.SplitWithout(r, '|');
    assert l + "|" + r == l + ['|'] + r;
    Text.ParseUnsignedRoundTrip(left, Text.USIZE_MAX);
    Text.ParseUnsignedRoundTrip(right, Text.USIZE_MAX);
  }

  /** `rules.entry(left).and_modify(push).or_insert_with(vec![right])`. */
  function Insert(rules: Rules, left: nat, right: nat): (r: Rules)
  {
    rules[left := (if left in rules then rules[left] else []) + [right]]
  }

  /** The rules of the given lines, in order; `None` where a line is malformed. */
  function ParseRules(lines: seq<string>): (r: Option<seq<(nat, nat)>>)
    ensures r.Some? <==> forall k :: 0 <= k < |lines| ==> ParseRule(lines[k]).Some?
    ensures r.Some? ==> |r.value| == |lines|
    ensures r.Some? ==> forall k :: 0 <= k < |lines| ==> ParseRule(lines[k]) == Some(r.value[k])
  {
    Text.ParseEach(ParseRule, lines)
  }

  /** The map the loop of `from_iter` builds from the given rules. */
  function Build(pairs: seq<(nat, nat)>): (r: Rules)
  {
    if |pairs| == 0 then map[]
    else
      var (left, right) := pairs[|pairs| - 1];
      Insert(Build(pairs[..|pairs| - 1]), left, right)
  }

  /** `RuleSet::from_iter` as a value. */
  function RulesOf(lines: seq<string>): (r: Option<Rules>)
    ensures r.Some? <==> forall k :: 0 <= k < |lines| ==> ParseRule(lines[k]).Some?
  {
    match ParseRules(lines)
    case None => None
    case Some(pairs) => Some(Build(pairs))
  }

  /** `RuleSet::from_iter`: a loop that adds one rule per line to a map. */
  method FromLines(lines: seq<string>) returns (rules: Option<Rules>)
    ensures rules == RulesOf(lines)
  {
    var built: Rules := map[];
    ghost var pairs: seq<(nat, nat)> := [];
    for i := 0 to |lines|
      invariant ParseRules(lines[..i]) == Some(pairs) && built == Build(pairs)
    {
      var rule := ParseRule(lines[i]);
      if rule.None? {
        RulesOfMalformed(lines, i);
        return None;
      }
      var (left, right) := rule.value;
      Text.ParseEachPrefix(ParseRule, lines, i, pairs, (left, right));
      BuildAppend(pairs, left, right);
      built := Insert(built, left, right);
      pairs := pairs + [(left, right)];
    }
    assert lines[..|lines|] == lines;
    return Some(built);
  }

  /** A malformed line makes the whole rule list malformed. */
  lemma RulesOfMalformed(lines: seq<string>, i: nat)
    requires i < |lines| && ParseRule(lines[i]).None?
    ensures RulesOf(lines).None?
  {
  }

  /** One more rule is one more insertion into the map. */
  lemma BuildAppend(pairs: seq<(nat, nat)>, left: nat, right: nat)
    ensures Build(pairs + [(left, right)]) == Insert(Build(pairs), left, right)
  {
    assert (pairs + [(left, right)])[..|pairs|] == pairs;
  }

  /** `right` must come after `left`. */
  predicate Follows(rules: Rules, left: nat, right: nat)
  {
    left in rules && right in rules[left]
  }

  /** Adding a rule adds exactly that rule. */
  lemma InsertFollows(rules: Rules, left: nat, right: nat, a: nat, b: nat)
    ensures Follows(Insert(rules, left, right), a, b) <==> Follows(rules, a, b) || (a == left && b == right)
  {
    var after := if left in rules then rules[left] else [];
    assert Insert(rules, left, right)[left] == after + [right];
    if a == left && b in after + [right] && b != right {
      assert b in after;
    }
  }

  /** The map holds exactly the given rules. */
  lemma {:induction false} BuildFollows(pairs: seq<(nat, nat)>, left: nat, right: nat)
    ensures Follows(Build(pairs), left, right) <==> (left, right) in pairs
  {
    if |pairs| > 0 {
      var n := |pairs| - 1;
      BuildFollows(pairs[..n], left, right);
      InsertFollows(Build(pairs[..n]), pairs[n].0, pairs[n].1, left, right);
      assert pairs == pairs[..n] + [pairs[n]];
    }
  }

  /** For each page, the map lists its followers in the order of their rules. */
  lemma {:induction false} BuildOrder(pairs: seq<(nat, nat)>, left: nat)
    ensures left in Build(pairs) <==> exists k :: 0 <= k < |pairs| && pairs[k].0 == left
    ensures left in Build(pairs) ==> Build(pairs)[left] == Followers(pairs, left)
    ensures left !in Build(pairs) ==> Followers(pairs, left) == []
  {
    if |pairs| > 0 {
      var n := |pairs| - 1;
      BuildOrder(pairs[..n], left);
      if exists k :: 0 <= k < n && pairs[..n][k].0 == left {
        var k :| 0 <= k < n && pairs[..n][k].0 == left;
        assert pairs[k].0 == left;
      }
      if exists k :: 0 <= k < |pairs| && pairs[k].0 == left {
        var k :| 0 <= k < |pairs| && pairs[k].0 == left;
        if k < n {
          assert pairs[..n][k].0 == left;
        }
      }
    }
  }

  /** The right pages of the rules whose left page is `left`, in order. */
  function Followers(pairs: seq<(nat, nat)>, left: nat): seq<nat>
  {
    if |pairs| == 0 then []
    else Followers(pairs[..|pairs| - 1], left) + if pairs[|pairs| - 1].0 == left then [pairs[|pairs| - 1].1] else []
  }

  /** The rule set holds exactly the rules of its lines. */
  lemma RulesOfFollows(lines: seq<string>, left: nat, right: nat)
    requires RulesOf(lines).Some?
    ensures Follows(RulesOf(lines).value, left, right) <==>
              exists k :: 0 <= k < |lines| && ParseRule(lines[k]) == Some((left, right))
  {
    var pairs := ParseRules(lines).value;
    BuildFollows(pairs, left, right);
    if (left, right) in pairs {
      var k :| 0 <= k < |pairs| && pairs[k] == (left, right);
      assert ParseRule(lines[k]) == Some((left, right));
    }
  }

  /** One update line: pages separated by `,`, each a `usize`. */
  function ParseUpdate(line: string): (r: Option<seq<nat>>)
    ensures r.Some? ==> |r.value| == |Text.Split(line, ",")| > 0
  {
    ParsePages(Text.Split(line, ","))
  }

  function ParsePages(pieces: seq<string>): (r: Option<seq<nat>>)
    ensures r.Some? <==> forall k :: 0 <= k < |pieces| ==> Text.ParseUnsigned(pieces[k], Text.USIZE_MAX).Some?
    ensures r.Some? ==> |r.value| == |pieces|
    ensures r.Some? ==> forall k :: 0 <= k < |pieces| ==> Text.ParseUnsigned(pieces[k], Text.USIZE_MAX) == Some(r.value[k])
  {
    if |pieces| == 0 then Some([])
    else
      match (Text.ParseUnsigned(pieces[0], Text.USIZE_MAX), ParsePages(pieces[1..]))
      case (Some(page), Some(rest)) => Some([page] + rest)
      case _ => None
  }

  function ParseUpdates(lines: seq<string>): (r: Option<seq<seq<nat>>>)
    ensures r.Some? <==> forall k :: 0 <= k < |lines| ==> ParseUpdate(lines[k]).Some?
    ensures r.Some? ==> |r.value| == |lines|
    ensures r.Some? ==> forall k :: 0 <= k < |lines| ==> ParseUpdate(lines[k]) == Some(r.value[k])
  {
    Text.ParseEach(ParseUpdate, lines)
  }

  /** Every update has a page, so its middle page exists. */
  predicate NonEmpty(updates: seq<seq<nat>>)
  {
    forall k :: 0 <= k < |updates| ==> |updates[k]| > 0
  }

  /** `parse_input`: the rules before the first blank line, the updates
      after it (up to a second blank line, if any). `None` where it panics. */
  function ParseInput(input: string): (r: Option<(Rules, seq<seq<nat>>)>)
    ensures !Text.Contains(input, "\n\n") ==> r.None?
    ensures r.Some? ==> NonEmpty(r.value.1)
  {
    NoBlankLine(input);
    var split := Text.Split(input, "\n\n");
    if |split| < 2 then None
    else
      match (RulesOf(Text.Lines(split[0])), ParseUpdates(Text.Lines(split[1])))
      case (Some(rules), Some(updates)) => Some((rules, updates))
      case _ => None
  }

  lemma NoBlankLine(input: string)
    ensures !Text.Contains(input, "\n\n") ==> |Text.Split(input, "\n\n")| == 1
  {
    if !Text.Contains(input, "\n\n") {
      Text.SplitAbsent(input, "\n\n");
    }
  }

  // ---------------------------------------------------------------------------
  // Ordering

  /** `RuleSet::ordering`: `left` first if a rule says so, else `right` first
      if a rule says so, else no preference. */
  function Compare(rules: Rules, left: nat, right: nat): (r: Ordering)
  {
    if Follows(rules, left, right) then Less
    else if Follows(rules, right, left) then Greater
    else Equal
  }

  /** Swapping the arguments: a page that must not go first must go second,
      and no preference stays no preference. A page never goes after itself. */
  lemma CompareSwap(rules: Rules, a: nat, b: nat)
    ensures Compare(rules, a, b) == Greater ==> Compare(rules, b, a) == Less
    ensures Compare(rules, a, b) == Less && !Follows(rules, b, a) ==> Compare(rules, b, a) == Greater
    ensures Compare(rules, a, b) == Equal <==> Compare(rules, b, a) == Equal
    ensures Compare(rules, a, a) != Greater
  {
  }

  /** An update is in order when no page must come before an earlier one. */
  predicate InOrder(rules: Rules, update: seq<nat>)
  {
    forall i, j :: 0 <= i < j < |update| ==> Compare(rules, update[i], update[j]) != Greater
  }

  /** The `check_update` closure: each page against every later page. */
  method CheckUpdate(rules: Rules, update: seq<nat>) returns (ok: bool)
    ensures ok <==> InOrder(rules, update)
  {
    var rest := update;
    ghost var start := 0;
    while |rest| > 0
      invariant start <= |update| && rest == update[start..]
      invariant forall i, j :: 0 <= i < start && i < j < |update| ==> Compare(rules, update[i], update[j]) != Greater
      decreases |rest|
    {
      var left, tail := rest[0], rest[1..];
      for t := 0 to |tail|
        invariant forall j :: start < j <= start + t ==> Compare(rules, update[start], update[j]) != Greater
      {
        if Compare(rules, left, tail[t]) == Greater {
          assert update[start + 1 + t] == tail[t];
          return false;
        }
      }
      rest := tail;
      start := start + 1;
    }
    return true;
  }

  // ---------------------------------------------------------------------------
  // Part one

  /** `update[update.len() / 2]`. */
  function Middle(update: seq<nat>): nat
    requires |update| > 0
  {
    update[|update| / 2]
  }

  /** The sum of the middle pages of the updates that are in order. */
  function OrderedMiddles(rules: Rules, updates: seq<seq<nat>>): (r: nat)
    requires NonEmpty(updates)
  {
    if |updates| == 0 then 0
    else (if InOrder(rules, updates[0]) then Middle(updates[0]) else 0) + OrderedMiddles(rules, updates[1..])
  }

  /** The sum over two lists of updates is the sum of the two sums. */
  lemma {:induction false} OrderedMiddlesAppend(rules: Rules, xs: seq<seq<nat>>, ys: seq<seq<nat>>)
    requires NonEmpty(xs) && NonEmpty(ys)
    ensures NonEmpty(xs + ys)
    ensures OrderedMiddles(rules, xs + ys) == OrderedMiddles(rules, xs) + OrderedMiddles(rules, ys)
  {
    if |xs| > 0 {
      assert (xs + ys)[1..] == xs[1..] + ys;
      OrderedMiddlesAppend(rules, xs[1..], ys);
    } else {
      assert xs + ys == ys;
    }
  }

  /** `part_one::compute_answer`. */
  function PartOne(input: string): (r: Option<nat>)
    ensures r.Some? <==> ParseInput(input).Some?
    ensures r.Some? ==> r.value == OrderedMiddles(ParseInput(input).value.0, ParseInput(input).value.1)
  {
    match ParseInput(input)
    case None => None
    case Some((rules, updates)) => Some(OrderedMiddles(rules, updates))
  }

  // ---------------------------------------------------------------------------
  // Part two

  /** No page must come before its neighbour on the left. */
  predicate LocallySorted(rules: Rules, update: seq<nat>)
  {
    forall k :: 0 <= k < |update| - 1 ==> Compare(rules, update[k], update[k + 1]) != Greater
  }

  /** `update.sort_by(rule_set.ordering())`, as an insertion sort: each page
      moves left past the pages it must come before. */
  method SortUpdate(rules: Rules, a: array<nat>)
    modifies a
    ensures multiset(a[..]) == multiset(old(a[..]))
    ensures LocallySorted(rules, a[..])
  {
    for i := 0 to a.Length
      invariant multiset(a[..]) == multiset(old(a[..]))
      invariant forall k :: 0 <= k < i - 1 ==> Compare(rules, a[k], a[k + 1]) != Greater
    {
      InsertPage(rules, a, i);
    }
  }

  /** One pass of the insertion sort: `a[i]` moves left into the locally
      sorted `a[..i]`. */
  method InsertPage(rules: Rules, a: array<nat>, i: nat)
    requires i < a.Length
    requires forall k :: 0 <= k < i - 1 ==> Compare(rules, a[k], a[k + 1]) != Greater
    modifies a
    ensures multiset(a[..]) == multiset(old(a[..]))
    ensures forall k :: 0 <= k < i ==> Compare(rules, a[k], a[k + 1]) != Greater
  {
    var j := i;
    while j > 0 && Compare(rules, a[j - 1], a[j]) == Greater
      invariant 0 <= j <= i
      invariant multiset(a[..]) == multiset(old(a[..]))
      invariant forall k :: 0 <= k < j - 1 ==> Compare(rules, a[k], a[k + 1]) != Greater
      invariant forall k :: j <= k < i ==> Compare(rules, a[k], a[k + 1]) != Greater
      invariant 0 < j < i ==> Compare(rules, a[j - 1], a[j + 1]) != Greater
    {
      SwapDown(rules, a, i, j);
      j := j - 1;
    }
  }

  /** One step of `InsertPage`: the page at `j` trades places with the page
      before it, which must come after it. */
  method SwapDown(rules: Rules, a: array<nat>, i: nat, j: nat)
    requires 0 < j <= i < a.Length
    requires Compare(rules, a[j - 1], a[j]) == Greater
    requires forall k :: 0 <= k < j - 1 ==> Compare(rules, a[k], a[k + 1]) != Greater
    requires forall k :: j <= k < i ==> Compare(rules, a[k], a[k + 1]) != Greater
    requires j < i ==> Compare(rules, a[j - 1], a[j + 1]) != Greater
    modifies a
    ensures multiset(a[..]) == multiset(old(a[..]))
    ensures forall k :: 0 <= k < j - 2 ==> Compare(rules, a[k], a[k + 1]) != Greater
    ensures forall k :: j - 1 <= k < i ==> Compare(rules, a[k], a[k + 1]) != Greater
    ensures 1 < j ==> Compare(rules, a[j - 2], a[j]) != Greater
  {
    a[j - 1], a[j] := a[j], a[j - 1];
  }

  /** The rules decide between any two different pages of the update. */
  predicate TotalOn(rules: Rules, update: seq<nat>)
  {
    forall i, j :: 0 <= i < |update| && 0 <= j < |update| && update[i] != update[j] ==>
      Compare(rules, update[i], update[j]) != Equal
  }

  /** "must come before" is transitive among the pages of the update. */
  predicate TransitiveOn(rules: Rules, update: seq<nat>)
  {
    forall i, j, k :: 0 <= i < |update| && 0 <= j < |update| && 0 <= k < |update|
      && Compare(rules, update[i], update[j]) == Less && Compare(rules, update[j], update[k]) == Less
      ==> Compare(rules, update[i], update[k]) == Less
  }

  /** When the rules order the pages of an update totally, a locally sorted
      update is in order: sorting repairs an update for `check_update`. */
  lemma SortedInOrder(rules: Rules, update: seq<nat>)
    requires LocallySorted(rules, update) && TotalOn(rules, update) && TransitiveOn(rules, update)
    ensures InOrder(rules, update)
  {
    forall i, j | 0 <= i < j < |update|
      ensures Compare(rules, update[i], update[j]) != Greater
    {
      SortedFrom(rules, update, i, j);
    }
  }

  lemma {:induction false} SortedFrom(rules: Rules, update: seq<nat>, i: nat, j: nat)
    requires LocallySorted(rules, update) && TotalOn(rules, update) && TransitiveOn(rules, update)
    requires i <= j < |update|
    ensures update[i] == update[j] || Compare(rules, update[i], update[j]) == Less
    decreases j - i
  {
    if i < j {
      SortedFrom(rules, update, i, j - 1);
      assert Compare(rules, update[j - 1], update[j]) != Greater;
      if update[j - 1] != update[j] {
        assert Compare(rules, update[j - 1], update[j]) == Less;
      }
    }
  }

  /** The rules put any two different pages of `pages` in one order and
      never in both. */
  predicate StrictAmong(rules: Rules, pages: multiset<nat>)
  {
    forall x, y :: x in pages && y in pages && x != y ==> Follows(rules, x, y) != Follows(rules, y, x)
  }

  /** "must come before" is transitive among the pages of `pages`. */
  predicate TransitiveAmong(rules: Rules, pages: multiset<nat>)
  {
    forall x, y, z :: x in pages && y in pages && z in pages ==>
      (Compare(rules, x, y) == Less && Compare(rules, y, z) == Less ==> Compare(rules, x, z) == Less)
  }

  /** Two in-order arrangements of the same pages are the same update when
      the rules are strict among those pages. */
  lemma {:induction false} InOrderUnique(rules: Rules, a: seq<nat>, b: seq<nat>)
    requires multiset(a) == multiset(b) && StrictAmong(rules, multiset(a))
    requires InOrder(rules, a) && InOrder(rules, b)
    ensures a == b
    decreases |a|
  {
    if |a| == 0 {
      assert |b| == |multiset(b)| == 0;
    } else {
      assert |b| == |multiset(b)| == |multiset(a)| == |a|;
      InOrderHeads(rules, a, b);
      InOrderTail(rules, a);
      InOrderTail(rules, b);
      InOrderUnique(rules, a[1..], b[1..]);
      SameHeadAndTail(a, b);
    }
  }

  lemma SameHeadAndTail(a: seq<nat>, b: seq<nat>)
    requires |a| > 0 && |b| > 0 && a[0] == b[0] && a[1..] == b[1..]
    ensures a == b
  {
    assert a == [a[0]] + a[1..] && b == [b[0]] + b[1..];
  }

  /** Dropping the first page keeps an update in order and its pages strict. */
  lemma InOrderTail(rules: Rules, a: seq<nat>)
    requires InOrder(rules, a) && StrictAmong(rules, multiset(a)) && |a| > 0
    ensures InOrder(rules, a[1..]) && StrictAmong(rules, multiset(a[1..]))
    ensures multiset(a[1..]) == multiset(a) - multiset{a[0]}
  {
    assert a == [a[0]] + a[1..];
    forall i, j | 0 <= i < j < |a| - 1
      ensures Compare(rules, a[1..][i], a[1..][j]) != Greater
    {
      assert a[1..][i] == a[i + 1] && a[1..][j] == a[j + 1];
    }
  }

  /** In-order arrangements of the same pages start with the same page. */
  lemma InOrderHeads(rules: Rules, a: seq<nat>, b: seq<nat>)
    requires multiset(a) == multiset(b) && StrictAmong(rules, multiset(a))
    requires InOrder(rules, a) && InOrder(rules, b) && |a| > 0 && |b| > 0
    ensures a[0] == b[0]
  {
    assert a[0] in multiset(b) && b[0] in multiset(a);
  }

  /** Any two results of the sort agree when the rules order the update's
      pages strictly and transitively, so the repaired update is fixed by
      the rules alone. */
  lemma SortUnique(rules: Rules, update: seq<nat>, s1: seq<nat>, s2: seq<nat>)
    requires multiset(s1) == multiset(update) && multiset(s2) == multiset(update)
    requires StrictAmong(rules, multiset(update)) && TransitiveAmong(rules, multiset(update))
    requires LocallySorted(rules, s1) && LocallySorted(rules, s2)
    ensures s1 == s2
  {
    AmongOn(rules, update, s1);
    AmongOn(rules, update, s2);
    SortedInOrder(rules, s1);
    SortedInOrder(rules, s2);
    InOrderUnique(rules, s1, s2);
  }

  lemma AmongOn(rules: Rules, update: seq<nat>, s: seq<nat>)
    requires multiset(s) == multiset(update)
    requires StrictAmong(rules, multiset(update)) && TransitiveAmong(rules, multiset(update))
    ensures TotalOn(rules, s) && TransitiveOn(rules, s)
  {
    assert forall i :: 0 <= i < |s| ==> s[i] in multiset(update);
  }

  /** `reordered` holds, for each of the first `|reordered|` updates, a
      locally sorted permutation of it if it is out of order, and the update
      itself otherwise. */
  ghost predicate Reordering(rules: Rules, updates: seq<seq<nat>>, reordered: seq<seq<nat>>)
  {
    |reordered| <= |updates|
    && forall k :: 0 <= k < |reordered| ==>
         if InOrder(rules, updates[k]) then reordered[k] == updates[k]
         else multiset(reordered[k]) == multiset(updates[k]) && LocallySorted(rules, reordered[k])
  }

  /** The sum of the middle pages of the reordered updates that were out of order. */
  ghost function RepairedMiddles(rules: Rules, updates: seq<seq<nat>>, reordered: seq<seq<nat>>): nat
    requires NonEmpty(updates) && Reordering(rules, updates, reordered)
    decreases |reordered|
  {
    if |reordered| == 0 then 0
    else
      var k := |reordered| - 1;
      assert |multiset(reordered[k])| == |multiset(updates[k])|;
      RepairedMiddles(rules, updates, reordered[..k]) + if InOrder(rules, updates[k]) then 0 else Middle(reordered[k])
  }

  /** The loop of `part_two::compute_answer` over the updates. */
  method RepairAll(rules: Rules, updates: seq<seq<nat>>) returns (answer: nat, ghost reordered: seq<seq<nat>>)
    requires NonEmpty(updates)
    ensures |reordered| == |updates| && Reordering(rules, updates, reordered)
    ensures answer == RepairedMiddles(rules, updates, reordered)
  {
    answer := 0;
    reordered := [];
    for i := 0 to |updates|
      invariant |reordered| == i && Reordering(rules, updates, reordered)
      invariant answer == RepairedMiddles(rules, updates, reordered)
    {
      var ok := CheckUpdate(rules, updates[i]);
      var next := updates[i];
      var middle := 0;
      if !ok {
        var a := new nat[|updates[i]|](k requires 0 <= k < |updates[i]| => updates[i][k]);
        assert a[..] == updates[i];
        SortUpdate(rules, a);
        assert |multiset(a[..])| == |updates[i]|;
        middle := a[a.Length / 2];
        next := a[..];
      }
      RepairedStep(rules, updates, reordered, next, middle);
      answer := answer + middle;
      reordered := reordered + [next];
    }
  }

  /** When the rules order the pages of every out-of-order update strictly
      and transitively, the reordering, and with it the part-two sum, is
      the same whichever sorted arrangement the sort picks. */
  lemma ReorderingUnique(rules: Rules, updates: seq<seq<nat>>, r1: seq<seq<nat>>, r2: seq<seq<nat>>)
    requires Reordering(rules, updates, r1) && Reordering(rules, updates, r2) && |r1| == |r2|
    requires forall k :: 0 <= k < |updates| && !InOrder(rules, updates[k]) ==>
               StrictAmong(rules, multiset(updates[k])) && TransitiveAmong(rules, multiset(updates[k]))
    ensures r1 == r2
  {
    forall k | 0 <= k < |r1|
      ensures r1[k] == r2[k]
    {
      if !InOrder(rules, updates[k]) {
        SortUnique(rules, updates[k], r1[k], r2[k]);
      }
    }
  }

  /** One more update adds its middle page to the sum when it was repaired. */
  lemma RepairedStep(rules: Rules, updates: seq<seq<nat>>, reordered: seq<seq<nat>>, next: seq<nat>, middle: nat)
    requires NonEmpty(updates) && Reordering(rules, updates, reordered)
    requires |reordered| < |updates|
    requires InOrder(rules, updates[|reordered|]) ==> next == updates[|reordered|] && middle == 0
    requires !InOrder(rules, updates[|reordered|]) ==>
      multiset(next) == multiset(updates[|reordered|]) && LocallySorted(rules, next) &&
      |next| > 0 && middle == Middle(next)
    ensures Reordering(rules, updates, reordered + [next])
    ensures RepairedMiddles(rules, updates, reordered + [next]) == RepairedMiddles(rules, updates, reordered) + middle
  {
    ReorderingExtends(rules, updates, reordered, next);
    var extended := reordered + [next];
    assert extended[..|reordered|] == reordered;
  }

  lemma ReorderingExtends(rules: Rules, updates: seq<seq<nat>>, reordered: seq<seq<nat>>, next: seq<nat>)
    requires Reordering(rules, updates, reordered) && |reordered| < |updates|
    requires InOrder(rules, updates[|reordered|]) ==> next == updates[|reordered|]
    requires !InOrder(rules, updates[|reordered|]) ==>
      multiset(next) == multiset(updates[|reordered|]) && LocallySorted(rules, next)
    ensures Reordering(rules, updates, reordered + [next])
  {
    var extended := reordered + [next];
    assert forall k :: 0 <= k < |reordered| ==> extended[k] == reordered[k];
  }

  /** `part_two::compute_answer`: `None` where parsing panics. The sum
      depends on the order the sort leaves, which the rules fix whenever
      they order the pages of each update strictly and transitively
      (`ReorderingUnique`). */
  method PartTwo(input: string) returns (answer: Option<nat>, ghost reordered: seq<seq<nat>>)
    ensures answer.Some? <==> ParseInput(input).Some?
    ensures answer.Some? ==> Reordering(ParseInput(input).value.0, ParseInput(input).value.1, reordered)
    ensures answer.Some? ==> |reordered| == |ParseInput(input).value.1|
    ensures answer.Some? ==> answer.value == RepairedMiddles(ParseInput(input).value.0, ParseInput(input).value.1, reordered)
  {
    var parsed := ParseInput(input);
    if parsed.None? {
      return None, [];
    }
    var (rules, updates) := parsed.value;
    var sum;
    sum, reordered := RepairAll(rules, updates);
    answer := Some(sum);
  }

  /** One sample rule line, such as 61|13, parses to its pair. */
  lemma SampleRuleLine(left: nat, right: nat, line: string)
    requires 10 <= left < 100 && 10 <= right < 100
    requires line == [Text.DigitChar(left / 10), Text.DigitChar(left % 10), '|', Text.DigitChar(right / 10), Text.DigitChar(right % 10)]
    ensures ParseRule(line) == Some((left, right))
  {
    ParseRuleRoundTrip(left, right);
    assert Text.NatToString(left) == [Text.DigitChar(left / 10), Text.DigitChar(left % 10)];
    assert Text.NatToString(right) == [Text.DigitChar(right / 10), Text.DigitChar(right % 10)];
    assert line == Text.NatToString(left) + "|" + Text.NatToString(right);
  }

  /** The sample rules 61|13, 61|29 and 29|13 build the map the loop of
      `from_iter` yields. */
  lemma SampleRuleMap()
    ensures Build([(61, 13), (61, 29), (29, 13)]) == map[61 := [13, 29], 29 := [13]]
  {
    var pairs: seq<(nat, nat)> := [(61, 13), (61, 29), (29, 13)];
    var none: seq<(nat, nat)> := [];
    var one := pairs[..1];
    var two := pairs[..2];
    assert one[..|one| - 1] == none && two[..|two| - 1] == one && pairs[..|pairs| - 1] == two;
    assert one[|one| - 1] == (61, 13) && two[|two| - 1] == (61, 29) && pairs[|pairs| - 1] == (29, 13);
    assert Build(none) == map[];
    assert Build(one) == Insert(map[], 61, 13);
    var empty: seq<nat> := [];
    assert empty + [13] == [13] && [13] + [29] == [13, 29];
    assert Insert(map[], 61, 13) == map[][61 := empty + [13]];
    assert Insert(map[], 61, 13) == map[61 := [13]];
    assert Build(two) == Insert(map[61 := [13]], 61, 29);
    assert Insert(map[61 := [13]], 61, 29) == map[61 := [13]][61 := [13] + [29]];
    assert Insert(map[61 := [13]], 61, 29) == map[61 := [13, 29]];
    assert Build(pairs) == Insert(map[61 := [13, 29]], 29, 13);
  }

  /** The sample update 61,13,29 breaks the rule 29|13; sorted it reads
      61,29,13, which is in order, with middle page 29. */
  lemma SampleUpdate()
    ensures !InOrder(map[61 := [13, 29], 29 := [13]], [61, 13, 29])
    ensures InOrder(map[61 := [13, 29], 29 := [13]], [61, 29, 13])
    ensures Middle([61, 29, 13]) == 29
  {
    var rules := map[61 := [13, 29], 29 := [13]];
    var v := [61, 13, 29];
    assert Compare(rules, v[1], v[2]) == Greater;
    var u := [61, 29, 13];
    assert Compare(rules, u[0], u[1]) == Less && Compare(rules, u[0], u[2]) == Less && Compare(rules, u[1], u[2]) == Less;
    forall i, j | 0 <= i < j < 3
      ensures Compare(rules, u[i], u[j]) != Greater
    {
      assert (i == 0 && j == 1) || (i == 0 && j == 2) || (i == 1 && j == 2);
    }
  }
}
