/** Decimal arithmetic shared by the puzzles that cut or glue numbers by
    their digits: powers of ten, `ilog10() + 1`, and the division facts the
    proofs about them use. */
module Decimal {
  import opened Text

  /** `10.pow(k)`. */
  function Pow10(k: nat): (r: nat)
    ensures r >= 1
  {
    if k == 0 then 1 else 10 * Pow10(k - 1)
  }

  /** `n.ilog10() + 1`: the number of decimal digits of a positive number. */
  function NumDigits(n: nat): (d: nat)
    requires n > 0
    ensures d >= 1 && Pow10(d - 1) <= n < Pow10(d)
  {
    if n < 10 then 1 else 1 + NumDigits(n / 10)
  }

  /** The digit count is the only `d` with `10^(d-1) <= n < 10^d`. */
  lemma NumDigitsUnique(n: nat, d: nat)
    requires n > 0 && d >= 1 && Pow10(d - 1) <= n < Pow10(d)
    ensures NumDigits(n) == d
  {
    var e := NumDigits(n);
    if e < d {
      Pow10Monotone(e, d - 1);
    } else if d < e {
      Pow10Monotone(d, e - 1);
    }
  }

  lemma {:induction false} Pow10Monotone(i: nat, j: nat)
    requires i <= j
    ensures Pow10(i) <= Pow10(j)
    decreases j - i
  {
    if i < j {
      Pow10Monotone(i, j - 1);
    }
  }

  lemma {:induction false} Pow10Add(i: nat, j: nat)
    ensures Pow10(i + j) == Pow10(i) * Pow10(j)
  {
    if j > 0 {
      Pow10Add(i, j - 1);
    }
  }

  lemma DivSplit(n: nat, m: nat)
    requires m > 0
    ensures (n / m) * m <= n && n - (n / m) * m < m
  {
    assert n == (n / m) * m + n % m;
  }

  lemma {:induction false} MulMonotone(a: nat, b: nat, m: nat)
    requires a <= b
    ensures a * m <= b * m
  {
    if m > 0 {
      MulMonotone(a, b, m - 1);
      assert a * m == a * (m - 1) + a && b * m == b * (m - 1) + b;
    }
  }

  lemma LowerBound(n: nat, m: nat, q: nat)
    requires m > 0 && q * m <= n
    ensures q <= n / m
  {
    DivSplit(n, m);
    if n / m < q {
      MulMonotone(n / m + 1, q, m);
    }
  }

  lemma UpperBound(n: nat, m: nat, q: nat)
    requires m > 0 && n < q * m
    ensures n / m < q
  {
    DivSplit(n, m);
    if n / m >= q {
      MulMonotone(q, n / m, m);
    }
  }

  /** The digit count is the length of the decimal notation. */
  lemma {:induction false} NumDigitsIsLength(n: nat)
    requires n > 0
    ensures NumDigits(n) == |NatToString(n)|
  {
    if n >= 10 {
      NumDigitsIsLength(n / 10);
    }
  }

  /** Shifting `a` left by the width of `b` and adding `b` writes the two
      numbers side by side. */
  lemma {:induction false} ConcatDigits(a: nat, b: nat)
    requires a > 0 && b > 0
    ensures NatToString(a * Pow10(NumDigits(b)) + b) == NatToString(a) + NatToString(b)
    decreases b
  {
    var d := NumDigits(b);
    var x := a * Pow10(d) + b;
    if b < 10 {
      LastDigit(x, a, b);
    } else {
      var y := a * Pow10(d - 1) + b / 10;
      ShiftOnce(a, d);
      LastDigit(x, y, b % 10);
      ConcatDigits(a, b / 10);
    }
  }

  /** Writing `x` as `10 * q + r` with a single digit `r` splits off its last digit. */
  lemma LastDigit(x: nat, q: nat, r: nat)
    requires r < 10 && x == 10 * q + r
    ensures x / 10 == q && x % 10 == r
  {
  }

  /** One factor of ten can be taken out of a shift by `d` places. */
  lemma ShiftOnce(a: nat, d: nat)
    requires d >= 1
    ensures a * Pow10(d) == 10 * (a * Pow10(d - 1))
  {
  }
}
