/** Bridge calibration: each line "result: v0 v1 ... vn" asks whether
    operators placed between the values, evaluated strictly left to right,
    can produce the result. Part one may use `+` and `*`; part two also the
    concatenation of decimal notations. The answer sums the results of the
    equations that can be made true. */
module Calibration {
  import opened Wrappers
  import Text
  import opened Decimal

  /** `Equation`: the test value and the numbers to combine (`isize`). */
  datatype Equation = Equation(result: int, values: seq<int>)

  /** The three ways `Equation::from_str` fails, one per message: no `:`
      ("failed to parse equation"), a bad result ("failed to parse
      equation's result"), a bad value ("failed to parse equation's values"). */
  datatype ParseError = MissingColon | BadResult | BadValues

  /** `map(str::parse).collect::<Result<_, _>>()` over `isize` values. */
  function ParseValues(pieces: seq<string>): (r: Option<seq<int>>)
    ensures r.Some? <==> forall k :: 0 <= k < |pieces| ==> Text.ParseSigned(pieces[k], Text.ISIZE_MIN, Text.ISIZE_MAX).Some?
    ensures r.Some? ==> |r.value| == |pieces|
    ensures r.Some? ==> forall k :: 0 <= k < |pieces| ==> Text.ParseSigned(pieces[k], Text.ISIZE_MIN, Text.ISIZE_MAX) == Some(r.value[k])
  {
    if |pieces| == 0 then Some([])
    else
      match Text.ParseSigned(pieces[0], Text.ISIZE_MIN, Text.ISIZE_MAX)
      case None => None
      case Some(v) =>
        match ParseValues(pieces[1..])
        case None => None
        case Some(rest) => Some([v] + rest)
  }

  /** `Equation::from_str`: the text before the first `:` is the result, the
      text after it (up to a second `:`, if any) is trimmed and split at
      single spaces into values. */
  function FromStr(input: string): (r: Result<Equation, ParseError>)
    ensures r == Err(MissingColon) <==> ':' !in input
    ensures r == Err(BadResult) <==>
              ':' in input && Text.ParseSigned(Text.Split(input, ":")[0], Text.ISIZE_MIN, Text.ISIZE_MAX).None?
    ensures r.Ok? ==> |r.value.values| > 0
    ensures r.Ok? ==> Text.ParseSigned(Text.Split(input, ":")[0], Text.ISIZE_MIN, Text.ISIZE_MAX) == Some(r.value.result)
  {
    Text.SplitAtChar(input, ':');
    var split := Text.Split(input, ":");
    if |split| < 2 then Err(MissingColon)
    else
      match Text.ParseSigned(split[0], Text.ISIZE_MIN, Text.ISIZE_MAX)
      case None => Err(BadResult)
      case Some(result) =>
        match ParseValues(Text.Split(Text.Trim(split[1]), " "))
        case None => Err(BadValues)
        case Some(values) => Ok(Equation(result, values))
  }

  /** The line an equation is written as: "result: v0 v1 ... vn". */
  function Render(equation: Equation): (s: string)
    requires |equation.values| > 0
  {
    Text.IntToString(equation.result) + ":" + " " + Text.Join(Strings(equation.values), " ")
  }

  function Strings(values: seq<int>): (r: seq<string>)
    ensures |r| == |values|
    ensures forall k :: 0 <= k < |r| ==> r[k] == Text.IntToString(values[k])
  {
    if |values| == 0 then [] else [Text.IntToString(values[0])] + Strings(values[1..])
  }

  /** Parsing the written line of an equation with `isize` numbers gives
      the equation back. */
  lemma FromStrRoundTrip(equation: Equation)
    requires |equation.values| > 0
    requires Text.ISIZE_MIN <= equation.result <= Text.ISIZE_MAX
    requires forall k :: 0 <= k < |equation.values| ==> Text.ISIZE_MIN <= equation.values[k] <= Text.ISIZE_MAX
    ensures FromStr(Render(equation)) == Ok(equation)
  {
    var head := Text.IntToString(equation.result);
    var pieces := Strings(equation.values);
    var joined := Text.Join(pieces, " ");
    RenderPieces(equation, head, pieces, joined);
    Text.ParseSignedRoundTrip(equation.result, Text.ISIZE_MIN, Text.ISIZE_MAX);
    ValuesRoundTrip(equation.values, pieces);
  }

  /** The written line splits at `:` into the result and the padded values,
      which trim and split at spaces into the written values. */
  lemma RenderPieces(equation: Equation, head: string, pieces: seq<string>, joined: string)
    requires |equation.values| > 0
    requires head == Text.IntToString(equation.result)
    requires pieces == Strings(equation.values) && joined == Text.Join(pieces, " ")
    ensures Text.Split(Render(equation), ":") == [head, " " + joined]
    ensures Text.Split(Text.Trim(" " + joined), " ") == pieces
  {
    WrittenValues(equation.values, pieces);
    RenderSplits(head, pieces, joined);
    assert Render(equation) == head + [':'] + (" " + joined);
    JoinEnds(pieces);
    Text.TrimPadded(joined);
    Text.SplitJoin(pieces, ' ');
  }

  /** Each written value is free of spaces and colons and has no white space at either end. */
  lemma WrittenValues(values: seq<int>, pieces: seq<string>)
    requires pieces == Strings(values)
    ensures forall k :: 0 <= k < |pieces| ==> ' ' !in pieces[k] && ':' !in pieces[k]
    ensures forall k :: 0 <= k < |pieces| ==>
              |pieces[k]| > 0 && !Text.IsWhitespace(pieces[k][0]) && !Text.IsWhitespace(pieces[k][|pieces[k]| - 1])
  {
    forall k | 0 <= k < |pieces|
      ensures ' ' !in pieces[k] && ':' !in pieces[k]
      ensures |pieces[k]| > 0 && !Text.IsWhitespace(pieces[k][0]) && !Text.IsWhitespace(pieces[k][|pieces[k]| - 1])
    {
      assert pieces[k] == Text.IntToString(values[k]);
    }
  }

  lemma RenderSplits(head: string, pieces: seq<string>, joined: string)
    requires |pieces| > 0 && joined == Text.Join(pieces, " ")
    requires ':' !in head && forall k :: 0 <= k < |pieces| ==> ':' !in pieces[k]
    ensures Text.Split(head + [':'] + (" " + joined), ":") == [head, " " + joined]
  {
    if ':' in joined {
      Text.JoinHas(pieces, " ", ':');
    }
    Text.SplitAfter(head, " " + joined, ':');
    Text.SplitWithout(" " + joined, ':');
  }

  /** Parsing the written values gives the values back. */
  lemma ValuesRoundTrip(values: seq<int>, pieces: seq<string>)
    requires forall k :: 0 <= k < |values| ==> Text.ISIZE_MIN <= values[k] <= Text.ISIZE_MAX
    requires pieces == Strings(values)
    ensures ParseValues(pieces) == Some(values)
  {
    forall k | 0 <= k < |pieces|
      ensures Text.ParseSigned(pieces[k], Text.ISIZE_MIN, Text.ISIZE_MAX) == Some(values[k])
    {
      Text.ParseSignedRoundTrip(values[k], Text.ISIZE_MIN, Text.ISIZE_MAX);
    }
    var parsed := ParseValues(pieces);
    assert parsed.value == values;
  }

  /** The written values start and end with a character that is not white space. */
  lemma {:induction false} JoinEnds(pieces: seq<string>)
    requires |pieces| > 0
    requires forall k :: 0 <= k < |pieces| ==> |pieces[k]| > 0 && !Text.IsWhitespace(pieces[k][0]) && !Text.IsWhitespace(pieces[k][|pieces[k]| - 1])
    ensures var s := Text.Join(pieces, " ");
            |s| > 0 && !Text.IsWhitespace(s[0]) && !Text.IsWhitespace(s[|s| - 1])
  {
    if |pieces| > 1 {
      JoinEnds(pieces[1..]);
    }
  }

  /** `parse_input`: every line an equation; `None` where `expect` panics. */
  function ParseInput(input: string): (r: Option<seq<Equation>>)
    ensures r.Some? <==> forall k :: 0 <= k < |Text.Lines(input)| ==> FromStr(Text.Lines(input)[k]).Ok?
    ensures r.Some? ==> |r.value| == |Text.Lines(input)| && WellFormed(r.value)
    ensures r.Some? ==> forall k :: 0 <= k < |r.value| ==> FromStr(Text.Lines(input)[k]) == Ok(r.value[k])
  {
    ParseLines(Text.Lines(input))
  }

  function ParseLines(lines: seq<string>): (r: Option<seq<Equation>>)
    ensures r.Some? <==> forall k :: 0 <= k < |lines| ==> FromStr(lines[k]).Ok?
    ensures r.Some? ==> |r.value| == |lines|
    ensures r.Some? ==> forall k :: 0 <= k < |lines| ==> FromStr(lines[k]) == Ok(r.value[k])
  {
    if |lines| == 0 then Some([])
    else
      match FromStr(lines[0])
      case Err(_) => None
      case Ok(equation) =>
        match ParseLines(lines[1..])
        case None => None
        case Some(rest) => Some([equation] + rest)
  }

  // ---------------------------------------------------------------------------
  // Operators and evaluation

  datatype Operator = Add | Mul | Concat

  /** Part one's `OPERATORS`. */
  const PartOneOperators: seq<Operator> := [Add, Mul]

  /** Part two's `OPERATORS`. */
  const PartTwoOperators: seq<Operator> := [Add, Mul, Concat]

  /** One step of the evaluation. Concatenation takes `ilog10` of the
      operand, which panics unless it is positive: `None` there. */
  function Apply(acc: int, op: Operator, operand: int): (r: Option<int>)
    ensures r.None? <==> op == Concat && operand <= 0
  {
    match op
    case Add => Some(acc + operand)
    case Mul => Some(acc * operand)
    case Concat => if operand > 0 then Some(acc * Pow10(NumDigits(operand)) + operand) else None
  }

  /** For positive numbers, concatenation writes the digits of the operand
      after those of the accumulator. */
  lemma ApplyConcat(acc: int, operand: int)
    requires acc > 0 && operand > 0
    ensures Apply(acc, Concat, operand).Some?
    ensures Apply(acc, Concat, operand).value > 0
    ensures Text.NatToString(Apply(acc, Concat, operand).value) == Text.NatToString(acc) + Text.NatToString(operand)
  {
    ConcatDigits(acc, operand);
  }

  /** The accumulator after applying `ops[k]` with `operands[k]` for every
      `k`, from left to right, without precedence. */
  function Evaluate(acc: int, operands: seq<int>, ops: seq<Operator>): (r: Option<int>)
    requires |ops| == |operands|
    decreases |operands|
  {
    if |operands| == 0 then Some(acc)
    else
      match Apply(acc, ops[0], operands[0])
      case None => None
      case Some(next) => Evaluate(next, operands[1..], ops[1..])
  }

  /** Evaluation only fails on a concatenation with a non-positive operand. */
  lemma {:induction false} EvaluateFails(acc: int, operands: seq<int>, ops: seq<Operator>)
    requires |ops| == |operands|
    decreases |operands|
    ensures Evaluate(acc, operands, ops).None? <==>
              exists k :: 0 <= k < |ops| && ops[k] == Concat && operands[k] <= 0
  {
    if |operands| > 0 {
      match Apply(acc, ops[0], operands[0])
      case None =>
      case Some(next) =>
        EvaluateFails(next, operands[1..], ops[1..]);
        if exists k :: 0 <= k < |ops[1..]| && ops[1..][k] == Concat && operands[1..][k] <= 0 {
          var k :| 0 <= k < |ops[1..]| && ops[1..][k] == Concat && operands[1..][k] <= 0;
          assert ops[k + 1] == Concat && operands[k + 1] <= 0;
        }
        if exists k :: 0 <= k < |ops| && ops[k] == Concat && operands[k] <= 0 {
          var k :| 0 <= k < |ops| && ops[k] == Concat && operands[k] <= 0;
          assert ops[1..][k - 1] == Concat && operands[1..][k - 1] <= 0;
        }
    }
  }

  /** Evaluating a prefix of the operators, then the rest, is evaluating all. */
  lemma {:induction false} EvaluateSnoc(acc: int, operands: seq<int>, ops: seq<Operator>, j: nat)
    requires |ops| == |operands| && j < |operands|
    requires Evaluate(acc, operands[..j], ops[..j]).Some?
    decreases j
    ensures Evaluate(acc, operands[..j + 1], ops[..j + 1])
            == Apply(Evaluate(acc, operands[..j], ops[..j]).value, ops[j], operands[j])
  {
    if j > 0 {
      var next := Apply(acc, ops[0], operands[0]).value;
      assert operands[..j + 1][1..] == operands[1..][..j];
      assert ops[..j + 1][1..] == ops[1..][..j];
      assert operands[..j][1..] == operands[1..][..j - 1];
      assert ops[..j][1..] == ops[1..][..j - 1];
      EvaluateSnoc(next, operands[1..], ops[1..], j - 1);
    }
  }

  /** Every placement of `n` operators from `ops`, in the order of
      `multi_cartesian_product` (the last position varies fastest). No
      position gives one empty placement. */
  function Products(ops: seq<Operator>, n: nat): (r: seq<seq<Operator>>)
    ensures forall k :: 0 <= k < |r| ==> |r[k]| == n
    ensures forall k, j :: 0 <= k < |r| && 0 <= j < n ==> r[k][j] in ops
    decreases n
  {
    if n == 0 then [[]] else PrefixAll(ops, Products(ops, n - 1))
  }

  /** `head` put in front of every tail, in order. */
  function Prefix(head: Operator, tails: seq<seq<Operator>>): (r: seq<seq<Operator>>)
    ensures |r| == |tails|
    ensures forall k :: 0 <= k < |r| ==> r[k] == [head] + tails[k]
  {
    if |tails| == 0 then [] else [[head] + tails[0]] + Prefix(head, tails[1..])
  }

  /** Every head in front of every tail, the heads varying slowest. */
  function PrefixAll(heads: seq<Operator>, tails: seq<seq<Operator>>): (r: seq<seq<Operator>>)
    ensures forall k :: 0 <= k < |r| ==> |r[k]| > 0 && r[k][0] in heads && r[k][1..] in tails
  {
    if |heads| == 0 then []
    else
      var first := Prefix(heads[0], tails);
      assert forall k :: 0 <= k < |first| ==> first[k][1..] == tails[k];
      first + PrefixAll(heads[1..], tails)
  }

  function Power(base: nat, n: nat): nat
  {
    if n == 0 then 1 else base * Power(base, n - 1)
  }

  /** There are `|ops|` to the power `n` placements, one per choice. */
  lemma {:induction false} ProductsLength(ops: seq<Operator>, n: nat)
    ensures |Products(ops, n)| == Power(|ops|, n)
  {
    if n > 0 {
      ProductsLength(ops, n - 1);
      PrefixAllLength(ops, Products(ops, n - 1));
    }
  }

  lemma {:induction false} PrefixAllLength(heads: seq<Operator>, tails: seq<seq<Operator>>)
    ensures |PrefixAll(heads, tails)| == |heads| * |tails|
  {
    if |heads| > 0 {
      PrefixAllLength(heads[1..], tails);
      assert |heads| * |tails| == |tails| + (|heads| - 1) * |tails|;
    }
  }

  /** The enumeration order of `multi_cartesian_product`: the candidate at
      index `i * |T| + j`, where `T` lists the placements of the remaining
      `n - 1` positions, is operator `i` in front of `T[j]`. The first
      position varies slowest, so the last varies fastest. */
  lemma ProductsOrder(ops: seq<Operator>, n: nat, i: nat, j: nat)
    requires n > 0 && i < |ops| && j < |Products(ops, n - 1)|
    ensures i * |Products(ops, n - 1)| + j < |Products(ops, n)|
    ensures Products(ops, n)[i * |Products(ops, n - 1)| + j] == [ops[i]] + Products(ops, n - 1)[j]
  {
    ProductsUnfold(ops, n);
    PrefixAllAt(ops, Products(ops, n - 1), i, j);
  }

  lemma ProductsUnfold(ops: seq<Operator>, n: nat)
    requires n > 0
    ensures Products(ops, n) == PrefixAll(ops, Products(ops, n - 1))
  {
  }

  lemma PrefixAllAt(heads: seq<Operator>, tails: seq<seq<Operator>>, i: nat, j: nat)
    requires i < |heads| && j < |tails|
    ensures i * |tails| + j < |PrefixAll(heads, tails)|
    ensures PrefixAll(heads, tails)[i * |tails| + j] == [heads[i]] + tails[j]
  {
    PrefixAllSplit(heads, tails, i);
    PrefixAllLength(heads[..i], tails);
    IndexInBlock(PrefixAll(heads, tails), PrefixAll(heads[..i], tails), Prefix(heads[i], tails),
                 PrefixAll(heads[i + 1..], tails), i * |tails|, j);
  }

  /** The placements headed by `heads[i]` sit between those of the heads
      before it and those of the heads after it. */
  lemma PrefixAllSplit(heads: seq<Operator>, tails: seq<seq<Operator>>, i: nat)
    requires i < |heads|
    ensures PrefixAll(heads, tails)
            == PrefixAll(heads[..i], tails) + (Prefix(heads[i], tails) + PrefixAll(heads[i + 1..], tails))
  {
    assert heads == heads[..i] + ([heads[i]] + heads[i + 1..]);
    PrefixAllAppend(heads[..i], [heads[i]] + heads[i + 1..], tails);
    PrefixAllAppend([heads[i]], heads[i + 1..], tails);
    assert PrefixAll([heads[i]], tails) == Prefix(heads[i], tails) + PrefixAll([], tails);
  }

  lemma IndexInBlock<T>(whole: seq<T>, before: seq<T>, block: seq<T>, after: seq<T>, offset: nat, j: nat)
    requires whole == before + (block + after) && |before| == offset && j < |block|
    ensures offset + j < |whole| && whole[offset + j] == block[j]
  {
  }

  /** The placements for the heads `a + b` are those for `a`, then those for `b`. */
  lemma {:induction false} PrefixAllAppend(a: seq<Operator>, b: seq<Operator>, tails: seq<seq<Operator>>)
    ensures PrefixAll(a + b, tails) == PrefixAll(a, tails) + PrefixAll(b, tails)
  {
    if |a| > 0 {
      assert (a + b)[1..] == a[1..] + b;
      PrefixAllAppend(a[1..], b, tails);
    } else {
      assert a + b == b;
    }
  }

  /** No placement is missing. */
  lemma {:induction false} ProductsComplete(ops: seq<Operator>, p: seq<Operator>)
    requires forall j :: 0 <= j < |p| ==> p[j] in ops
    ensures p in Products(ops, |p|)
    decreases |p|
  {
    if |p| > 0 {
      ProductsComplete(ops, p[1..]);
      PrefixAllHas(ops, Products(ops, |p| - 1), p);
    }
  }

  lemma {:induction false} PrefixAllHas(heads: seq<Operator>, tails: seq<seq<Operator>>, p: seq<Operator>)
    requires |p| > 0 && p[0] in heads && p[1..] in tails
    ensures p in PrefixAll(heads, tails)
  {
    var first := Prefix(heads[0], tails);
    if p[0] == heads[0] {
      var k :| 0 <= k < |tails| && tails[k] == p[1..];
      assert first[k] == p;
    } else {
      PrefixAllHas(heads[1..], tails, p);
    }
    assert PrefixAll(heads, tails) == first + PrefixAll(heads[1..], tails);
  }

  /** The loop of `try_solve`: the first placement that panics or hits the
      result decides; `Some(false)` when none does. */
  function Search(equation: Equation, candidates: seq<seq<Operator>>): (r: Option<bool>)
    requires |equation.values| > 0
    requires forall k :: 0 <= k < |candidates| ==> |candidates[k]| == |equation.values| - 1
  {
    if |candidates| == 0 then Some(false)
    else
      match Evaluate(equation.values[0], equation.values[1..], candidates[0])
      case None => None
      case Some(v) => if v == equation.result then Some(true) else Search(equation, candidates[1..])
  }

  /** The placement `p` makes the equation true. */
  ghost predicate Solves(equation: Equation, p: seq<Operator>)
    requires |equation.values| > 0
  {
    |p| == |equation.values| - 1 && Evaluate(equation.values[0], equation.values[1..], p) == Some(equation.result)
  }

  /** `try_solve` of one equation, as a value: `None` where it panics. */
  function Solve(equation: Equation, operators: seq<Operator>): Option<bool>
    requires |equation.values| > 0
  {
    Search(equation, Products(operators, |equation.values| - 1))
  }

  /** Some placement of operators from `ops` makes the equation true. */
  ghost predicate Solvable(equation: Equation, ops: seq<Operator>)
    requires |equation.values| > 0
  {
    exists p: seq<Operator> {:trigger Solves(equation, p)} :: (forall j :: 0 <= j < |p| ==> p[j] in ops) && Solves(equation, p)
  }

  /** Some candidate makes the equation true. */
  ghost predicate Hits(equation: Equation, candidates: seq<seq<Operator>>)
    requires |equation.values| > 0
  {
    exists k :: 0 <= k < |candidates| && Solves(equation, candidates[k])
  }

  /** Where no placement can panic, the search answers exactly whether the
      equation can be made true. */
  lemma SearchDecides(equation: Equation, ops: seq<Operator>)
    requires |equation.values| > 0
    requires Concat !in ops || forall k :: 1 <= k < |equation.values| ==> equation.values[k] > 0
    ensures Solve(equation, ops) == Some(Solvable(equation, ops))
  {
    SearchWithoutPanics(equation, ops, |equation.values| - 1);
    HitsSolvable(equation, ops);
  }

  /** Where no placement can panic, the search tells whether some candidate hits. */
  lemma SearchWithoutPanics(equation: Equation, ops: seq<Operator>, n: nat)
    requires |equation.values| > 0 && n == |equation.values| - 1
    requires Concat !in ops || forall k :: 1 <= k < |equation.values| ==> equation.values[k] > 0
    ensures Search(equation, Products(ops, n)) == Some(Hits(equation, Products(ops, n)))
  {
    NoPanics(equation, ops, n);
    SearchFinds(equation, Products(ops, n));
  }

  /** Without a concatenation by a non-positive value, no candidate panics. */
  lemma NoPanics(equation: Equation, ops: seq<Operator>, n: nat)
    requires |equation.values| > 0 && n == |equation.values| - 1
    requires Concat !in ops || forall k :: 1 <= k < |equation.values| ==> equation.values[k] > 0
    ensures forall k :: 0 <= k < |Products(ops, n)| ==>
              Evaluate(equation.values[0], equation.values[1..], Products(ops, n)[k]).Some?
  {
    var candidates := Products(ops, n);
    forall k | 0 <= k < |candidates|
      ensures Evaluate(equation.values[0], equation.values[1..], candidates[k]).Some?
    {
      EvaluateFails(equation.values[0], equation.values[1..], candidates[k]);
    }
  }

  /** The candidates hit exactly when some placement solves the equation. */
  lemma HitsSolvable(equation: Equation, ops: seq<Operator>)
    requires |equation.values| > 0
    ensures Hits(equation, Products(ops, |equation.values| - 1)) <==> Solvable(equation, ops)
  {
    if Solvable(equation, ops) {
      SolvableHits(equation, ops);
    }
    if Hits(equation, Products(ops, |equation.values| - 1)) {
      HitsSolve(equation, ops);
    }
  }

  lemma SolvableHits(equation: Equation, ops: seq<Operator>)
    requires |equation.values| > 0 && Solvable(equation, ops)
    ensures Hits(equation, Products(ops, |equation.values| - 1))
  {
    var p :| (forall j :: 0 <= j < |p| ==> p[j] in ops) && Solves(equation, p);
    ProductsComplete(ops, p);
    CandidateHits(equation, Products(ops, |p|), p);
  }

  lemma CandidateHits(equation: Equation, candidates: seq<seq<Operator>>, p: seq<Operator>)
    requires |equation.values| > 0 && p in candidates && Solves(equation, p)
    ensures Hits(equation, candidates)
  {
    var k :| 0 <= k < |candidates| && candidates[k] == p;
    assert Solves(equation, candidates[k]);
  }

  lemma HitsSolve(equation: Equation, ops: seq<Operator>)
    requires |equation.values| > 0 && Hits(equation, Products(ops, |equation.values| - 1))
    ensures Solvable(equation, ops)
  {
    var candidates := Products(ops, |equation.values| - 1);
    var k :| 0 <= k < |candidates| && Solves(equation, candidates[k]);
    assert forall j :: 0 <= j < |candidates[k]| ==> candidates[k][j] in ops;
  }

  lemma {:induction false} SearchFinds(equation: Equation, candidates: seq<seq<Operator>>)
    requires |equation.values| > 0
    requires forall k :: 0 <= k < |candidates| ==> |candidates[k]| == |equation.values| - 1
    requires forall k :: 0 <= k < |candidates| ==> Evaluate(equation.values[0], equation.values[1..], candidates[k]).Some?
    ensures Search(equation, candidates) == Some(Hits(equation, candidates))
  {
    if |candidates| > 0 {
      SearchFinds(equation, candidates[1..]);
      if Hits(equation, candidates[1..]) {
        var k :| 0 <= k < |candidates[1..]| && Solves(equation, candidates[1..][k]);
        assert Solves(equation, candidates[k + 1]);
      }
      if Hits(equation, candidates) {
        var k :| 0 <= k < |candidates| && Solves(equation, candidates[k]);
        if k > 0 {
          assert Solves(equation, candidates[1..][k - 1]);
        }
      }
    }
  }

  /** A true answer always comes with a placement that makes the equation true. */
  lemma {:induction false} SearchSound(equation: Equation, ops: seq<Operator>, n: nat)
    requires |equation.values| > 0 && n == |equation.values| - 1
    requires Search(equation, Products(ops, n)) == Some(true)
    ensures Solvable(equation, ops)
  {
    var candidates := Products(ops, n);
    var k := SearchHit(equation, candidates);
    assert forall j :: 0 <= j < |candidates[k]| ==> candidates[k][j] in ops;
    assert Solves(equation, candidates[k]);
  }

  lemma {:induction false} SearchHit(equation: Equation, candidates: seq<seq<Operator>>) returns (k: nat)
    requires |equation.values| > 0
    requires forall k :: 0 <= k < |candidates| ==> |candidates[k]| == |equation.values| - 1
    requires Search(equation, candidates) == Some(true)
    ensures k < |candidates| && Evaluate(equation.values[0], equation.values[1..], candidates[k]) == Some(equation.result)
  {
    if Evaluate(equation.values[0], equation.values[1..], candidates[0]) == Some(equation.result) {
      k := 0;
    } else {
      var j := SearchHit(equation, candidates[1..]);
      k := j + 1;
    }
  }

  /** `try_solve` with the given operator table: `None` where it panics. */
  method TrySolve(equation: Equation, operators: seq<Operator>) returns (solved: Option<bool>)
    requires |equation.values| > 0
    ensures solved == Solve(equation, operators)
  {
    var candidates := Products(operators, |equation.values| - 1);
    for i := 0 to |candidates|
      invariant Search(equation, candidates) == Search(equation, candidates[i..])
    {
      var value := Fold(equation.values, candidates[i]);
      SearchStep(equation, candidates, i, value);
      match value
      case None =>
        return None;
      case Some(result) =>
        if result == equation.result {
          return Some(true);
        }
    }
    return Some(false);
  }

  /** The inner loop of `try_solve`: the values folded with the operators,
      from left to right; `None` where a concatenation panics. */
  method Fold(values: seq<int>, ops: seq<Operator>) returns (value: Option<int>)
    requires |values| > 0 && |ops| == |values| - 1
    ensures value == Evaluate(values[0], values[1..], ops)
  {
    ghost var operands := values[1..];
    var result := values[0];
    for j := 1 to |values|
      invariant Evaluate(values[0], operands[..j - 1], ops[..j - 1]) == Some(result)
    {
      EvaluateSnoc(values[0], operands, ops, j - 1);
      match Apply(result, ops[j - 1], values[j])
      case None =>
        EvaluatePrefixFails(values[0], operands, ops, j);
        return None;
      case Some(next) =>
        result := next;
    }
    assert operands[..|operands|] == operands && ops[..|operands|] == ops;
    return Some(result);
  }

  /** The search from candidate `i` on, in terms of that candidate's value. */
  lemma SearchStep(equation: Equation, candidates: seq<seq<Operator>>, i: nat, value: Option<int>)
    requires |equation.values| > 0 && i < |candidates|
    requires forall k :: 0 <= k < |candidates| ==> |candidates[k]| == |equation.values| - 1
    requires Evaluate(equation.values[0], equation.values[1..], candidates[i]) == value
    ensures value.None? ==> Search(equation, candidates[i..]).None?
    ensures value.Some? && value.value == equation.result ==> Search(equation, candidates[i..]) == Some(true)
    ensures value.Some? && value.value != equation.result ==>
      Search(equation, candidates[i..]) == Search(equation, candidates[i + 1..])
  {
    assert candidates[i..][0] == candidates[i] && candidates[i..][1..] == candidates[i + 1..];
  }

  /** A failure on a prefix is a failure of the whole evaluation. */
  lemma {:induction false} EvaluatePrefixFails(acc: int, operands: seq<int>, ops: seq<Operator>, j: nat)
    requires |ops| == |operands| && j <= |operands|
    requires Evaluate(acc, operands[..j], ops[..j]).None?
    ensures Evaluate(acc, operands, ops).None?
  {
    EvaluateFails(acc, operands[..j], ops[..j]);
    var k :| 0 <= k < j && ops[..j][k] == Concat && operands[..j][k] <= 0;
    EvaluateFails(acc, operands, ops);
  }

  /** Part two's operators include part one's, so anything part one solves,
      part two solves. */
  lemma PartOneSolvedByPartTwo(equation: Equation)
    requires |equation.values| > 0 && Solvable(equation, PartOneOperators)
    ensures Solvable(equation, PartTwoOperators)
  {
    var p :| (forall j :: 0 <= j < |p| ==> p[j] in PartOneOperators) && Solves(equation, p);
    assert forall j :: 0 <= j < |p| ==> p[j] in PartTwoOperators;
  }

  /** Every equation has at least one value, as `try_solve` needs. */
  predicate WellFormed(equations: seq<Equation>)
  {
    forall k :: 0 <= k < |equations| ==> |equations[k].values| > 0
  }

  /** No value after the first of any equation rules out a concatenation. */
  predicate PositiveOperands(equations: seq<Equation>)
  {
    forall k, j :: 0 <= k < |equations| && 1 <= j < |equations[k].values| ==> equations[k].values[j] > 0
  }

  /** What `try_solve` answers for each equation. */
  function Outcomes(equations: seq<Equation>, operators: seq<Operator>): (r: seq<Option<bool>>)
    requires WellFormed(equations)
    ensures |r| == |equations|
    ensures forall k :: 0 <= k < |r| ==> r[k] == Solve(equations[k], operators)
  {
    if |equations| == 0 then [] else [Solve(equations[0], operators)] + Outcomes(equations[1..], operators)
  }

  /** Which equations can be made true. */
  ghost function Decisions(equations: seq<Equation>, operators: seq<Operator>): (r: seq<bool>)
    requires WellFormed(equations)
    ensures |r| == |equations|
    ensures forall k :: 0 <= k < |r| ==> r[k] == Solvable(equations[k], operators)
  {
    if |equations| == 0 then [] else [Solvable(equations[0], operators)] + Decisions(equations[1..], operators)
  }

  /** The `filter(..).map(result).sum()` over the first `n` equations, given
      what the filter answers for each: `None` once an answer panics. */
  function Accepted(equations: seq<Equation>, outcomes: seq<Option<bool>>, n: nat): (r: Option<int>)
    requires n <= |equations| && |outcomes| == |equations|
    ensures r.Some? <==> forall k :: 0 <= k < n ==> outcomes[k].Some?
  {
    if n == 0 then Some(0)
    else
      match Accepted(equations, outcomes, n - 1)
      case None => None
      case Some(sum) =>
        match outcomes[n - 1]
        case None => None
        case Some(solved) => Some(sum + if solved then equations[n - 1].result else 0)
  }

  /** The sum of the results of the first `n` equations that are accepted. */
  function AcceptedSum(equations: seq<Equation>, accepted: seq<bool>, n: nat): int
    requires n <= |equations| && |accepted| == |equations|
  {
    if n == 0 then 0
    else AcceptedSum(equations, accepted, n - 1) + if accepted[n - 1] then equations[n - 1].result else 0
  }

  /** When no answer panics, the sum is the sum over the accepted equations. */
  lemma {:induction false} AcceptedDecided(equations: seq<Equation>, outcomes: seq<Option<bool>>, accepted: seq<bool>, n: nat)
    requires n <= |equations| && |outcomes| == |equations| == |accepted|
    requires forall k :: 0 <= k < n ==> outcomes[k] == Some(accepted[k])
    ensures Accepted(equations, outcomes, n) == Some(AcceptedSum(equations, accepted, n))
  {
    if n > 0 {
      AcceptedDecided(equations, outcomes, accepted, n - 1);
    }
  }

  /** The answer of `compute_answer`: `None` if a search panics. */
  function Total(equations: seq<Equation>, operators: seq<Operator>): (r: Option<int>)
    requires WellFormed(equations)
  {
    Accepted(equations, Outcomes(equations, operators), |equations|)
  }

  /** The sum of the results of the equations that can be made true. */
  ghost function SolvableSum(equations: seq<Equation>, operators: seq<Operator>): int
    requires WellFormed(equations)
  {
    AcceptedSum(equations, Decisions(equations, operators), |equations|)
  }

  /** Without panics the answer is the sum over exactly the solvable equations. */
  lemma TotalIsSolvableSum(equations: seq<Equation>, operators: seq<Operator>)
    requires WellFormed(equations)
    requires Concat !in operators || PositiveOperands(equations)
    ensures Total(equations, operators) == Some(SolvableSum(equations, operators))
  {
    var outcomes := Outcomes(equations, operators);
    var accepted := Decisions(equations, operators);
    forall k | 0 <= k < |equations|
      ensures outcomes[k] == Some(accepted[k])
    {
      PositiveAt(equations, operators, k);
      SearchDecides(equations[k], operators);
    }
    AcceptedDecided(equations, outcomes, accepted, |equations|);
  }

  /** The condition of `TotalIsSolvableSum`, for one equation. */
  lemma PositiveAt(equations: seq<Equation>, operators: seq<Operator>, k: nat)
    requires k < |equations| && (Concat !in operators || PositiveOperands(equations))
    ensures Concat !in operators || forall j :: 1 <= j < |equations[k].values| ==> equations[k].values[j] > 0
  {
  }

  /** `compute_answer` with the given operator table: `None` where parsing
      or a search panics. Without panics it is the sum of the results of
      exactly the equations that can be made true. */
  function ComputeAnswer(input: string, operators: seq<Operator>): (r: Option<int>)
    ensures ParseInput(input).None? ==> r.None?
    ensures ParseInput(input).Some? && (Concat !in operators || PositiveOperands(ParseInput(input).value)) ==>
              r == Some(SolvableSum(ParseInput(input).value, operators))
  {
    match ParseInput(input)
    case None => None
    case Some(equations) =>
      if Concat !in operators || PositiveOperands(equations) then
        TotalIsSolvableSum(equations, operators);
        Total(equations, operators)
      else
        Total(equations, operators)
  }

  /** `part_one::compute_answer`: addition and multiplication never panic. */
  function PartOne(input: string): (r: Option<int>)
    ensures r.Some? <==> ParseInput(input).Some?
    ensures r.Some? ==> r.value == SolvableSum(ParseInput(input).value, PartOneOperators)
  {
    assert Concat !in PartOneOperators;
    ComputeAnswer(input, PartOneOperators)
  }

  /** `part_two::compute_answer`: it panics on a value (after the first of
      its equation) that is not positive, if the search reaches it. */
  function PartTwo(input: string): (r: Option<int>)
    ensures ParseInput(input).None? ==> r.None?
    ensures ParseInput(input).Some? && PositiveOperands(ParseInput(input).value) ==>
              r == Some(SolvableSum(ParseInput(input).value, PartTwoOperators))
  {
    ComputeAnswer(input, PartTwoOperators)
  }

  /** Part two counts every equation part one counts, and more: each
      equation part one can make true, part two can. */
  lemma PartTwoAccepts(equations: seq<Equation>)
    requires WellFormed(equations)
    ensures forall k :: 0 <= k < |equations| && Decisions(equations, PartOneOperators)[k] ==> Decisions(equations, PartTwoOperators)[k]
  {
    forall k | 0 <= k < |equations| && Decisions(equations, PartOneOperators)[k]
      ensures Decisions(equations, PartTwoOperators)[k]
    {
      PartOneSolvedByPartTwo(equations[k]);
    }
  }

  /** "190: 10 19" is solved with `*` in part one. */
  lemma SampleOne()
    ensures Solve(Equation(190, [10, 19]), PartOneOperators) == Some(true)
  {
    var e := Equation(190, [10, 19]);
    assert Evaluate(10, [19], [Mul]) == Some(190);
    assert Solvable(e, PartOneOperators) by {
      assert e.values[1..] == [19];
      assert Solves(e, [Mul]);
    }
    SearchDecides(e, PartOneOperators);
  }

  /** "7290: 6 8 6 15" is solved as 6 * 8 || 6 * 15 in part two. */
  lemma SampleTwo()
    ensures Solve(Equation(7290, [6, 8, 6, 15]), PartTwoOperators) == Some(true)
  {
    var e := Equation(7290, [6, 8, 6, 15]);
    NumDigitsUnique(6, 1);
    assert Apply(48, Concat, 6) == Some(486);
    assert Evaluate(6, [8, 6, 15], [Mul, Concat, Mul]) == Some(7290);
    assert Solvable(e, PartTwoOperators) by {
      assert e.values[1..] == [8, 6, 15];
      assert Solves(e, [Mul, Concat, Mul]);
    }
    SearchDecides(e, PartTwoOperators);
  }
}
