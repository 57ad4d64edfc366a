/** The blob gas price (packages/block/src/helpers.ts), after the helpers of EIP-4844. */
module BlobPrice {
  /** Division that truncates toward zero, by a positive number. */
  function Quotient(a: int, b: int): int
    requires b > 0
  {
    if a >= 0 then a / b else -(-a / b)
  }

  /** How far the factor of a term is from being less than one. */
  function Ahead(numerator: int, denominator: int, i: int): nat
    requires denominator > 0
  {
    if numerator < denominator * i then 0 else numerator / denominator + 1 - i
  }

  /** The terms from the one with accumulator `acc` on, until one comes to nothing. */
  ghost function Series(acc: int, numerator: int, denominator: int, i: int): int
    requires denominator > 0 && i > 0
    decreases Ahead(numerator, denominator, i), acc
  {
    if acc <= 0 then 0
    else
      Shrinks(acc, numerator, denominator, i);
      acc + Series(Quotient(acc * numerator, denominator * i), numerator, denominator, i + 1)
  }

  /** Each term brings the factor nearer to one or, below one, the accumulator down. */
  lemma {:induction false} Shrinks(acc: int, numerator: int, denominator: int, i: int)
    requires acc > 0 && denominator > 0 && i > 0
    ensures denominator * i > 0
    ensures Ahead(numerator, denominator, i + 1) <= Ahead(numerator, denominator, i)
    ensures Ahead(numerator, denominator, i + 1) == Ahead(numerator, denominator, i) ==>
              Quotient(acc * numerator, denominator * i) < acc
  {
    Positive(denominator, i);
    var d := denominator * i;
    assert denominator * (i + 1) == d + denominator;
    if numerator < d {
      Below(acc, numerator, d);
    } else {
      Quotients(numerator, denominator, i);
    }
  }

  lemma {:induction false} TimesOrder(a: int, b: int, d: int)
    requires d > 0
    ensures a < b <==> a * d < b * d
  {
    assert b * d - a * d == (b - a) * d;
    if a < b {
      Positive(b - a, d);
    } else if b < a {
      Positive(a - b, d);
    }
  }

  lemma {:induction false} RealOrder(a: real, b: real, d: real)
    requires d > 0.0
    ensures a < b <==> a * d < b * d
  {
    assert b * d - a * d == (b - a) * d;
  }

  lemma {:induction false} Positive(a: int, b: int)
    requires a > 0 && b > 0
    ensures a * b > 0
  {
  }

  lemma {:induction false} Below(acc: int, numerator: int, d: int)
    requires acc > 0 && d > 0 && numerator < d
    ensures Quotient(acc * numerator, d) < acc
  {
    if acc * numerator >= 0 {
      assert acc * numerator < acc * d;
      DivideLess(acc * numerator, acc, d);
    }
  }

  lemma {:induction false} DivideLess(a: int, q: int, d: int)
    requires d > 0 && 0 <= a < q * d
    ensures a / d < q
  {
    TimesOrder(a / d, q, d);
  }

  lemma {:induction false} Quotients(numerator: int, denominator: int, i: int)
    requires denominator > 0 && i > 0 && numerator >= denominator * i
    ensures numerator / denominator >= i
  {
    TimesOrder(numerator / denominator + 1, i, denominator);
    TimesOrder(i, numerator / denominator + 1, denominator);
  }

  /** What `FakeExponential` computes. */
  ghost function Price(factor: int, numerator: int, denominator: int): int
    requires denominator > 0
  {
    Quotient(Series(factor * denominator, numerator, denominator, 1), denominator)
  }

  /** `q` is `a` divided by `d` and cut toward zero. */
  predicate Cut(q: int, a: int, d: int) {
    if a >= 0 then q >= 0 && q * d <= a < (q + 1) * d else q <= 0 && (q - 1) * d < a <= q * d
  }

  lemma {:induction false} QuotientCuts(a: int, d: int)
    requires d > 0
    ensures Cut(Quotient(a, d), a, d)
  {
    if a >= 0 {
      DivisionCuts(a, d);
    } else {
      DivisionCuts(-a, d);
      Negated(-a / d, d);
    }
  }

  lemma {:induction false} DivisionCuts(a: int, d: int)
    requires d > 0 && a >= 0
    ensures a / d >= 0 && (a / d) * d <= a < (a / d + 1) * d
  {
    var q := a / d;
    assert a == q * d + a % d && (q + 1) * d == q * d + d;
  }

  lemma {:induction false} Negated(q: int, d: int)
    ensures (-q) * d == -(q * d) && (-q - 1) * d == -((q + 1) * d)
  {
  }

  /**
   * The terms of the expansion, cut to whole numbers one after the other: the first is the factor times the
   * denominator, term k is the one before times numerator / (denominator * k), and the last alone is not positive.
   */
  ghost predicate AreTerms(terms: seq<int>, factor: int, numerator: int, denominator: int) {
    && terms != [] && terms[0] == factor * denominator
    && (forall k {:trigger terms[k]} | 0 <= k < |terms| :: terms[k] > 0 <==> k < |terms| - 1)
    && (forall k {:trigger terms[k]} | 0 < k < |terms| :: Cut(terms[k], terms[k - 1] * numerator, denominator * k))
  }

  ghost function Sum(terms: seq<int>): int {
    if terms == [] then 0 else Sum(terms[..|terms| - 1]) + terms[|terms| - 1]
  }

  /** Terminates for every numerator, with the sum of the positive terms divided by the denominator and rounded down. */
  method FakeExponential(factor: int, numerator: int, denominator: int) returns (r: int, ghost terms: seq<int>)
    requires denominator > 0
    ensures AreTerms(terms, factor, numerator, denominator)
    ensures r * denominator <= Sum(terms[..|terms| - 1]) < (r + 1) * denominator
    ensures r == Price(factor, numerator, denominator)
    ensures |terms| - 1 == Steps(factor * denominator, numerator, denominator, 1)
  {
    var output;
    output, terms := SumTerms(factor, numerator, denominator);
    SeriesBound(factor * denominator, numerator, denominator, 1);
    QuotientCuts(output, denominator);
    r := Quotient(output, denominator);
  }

  /** The first terms, all but the last one positive. */
  ghost predicate FirstTerms(terms: seq<int>, factor: int, numerator: int, denominator: int) {
    && terms != [] && terms[0] == factor * denominator
    && (forall k {:trigger terms[k]} | 0 <= k < |terms| - 1 :: terms[k] > 0)
    && (forall k {:trigger terms[k]} | 0 < k < |terms| :: Cut(terms[k], terms[k - 1] * numerator, denominator * k))
  }

  lemma {:induction false} OneTermMore(terms: seq<int>, factor: int, numerator: int, denominator: int, t: int)
    requires FirstTerms(terms, factor, numerator, denominator) && terms[|terms| - 1] > 0
    requires Cut(t, terms[|terms| - 1] * numerator, denominator * |terms|)
    ensures FirstTerms(terms + [t], factor, numerator, denominator)
    ensures Sum((terms + [t])[..|terms|]) == Sum(terms[..|terms| - 1]) + terms[|terms| - 1]
  {
    assert (terms + [t])[..|terms|] == terms;
  }

  /** The loop. */
  method SumTerms(factor: int, numerator: int, denominator: int) returns (output: int, ghost terms: seq<int>)
    requires denominator > 0
    ensures AreTerms(terms, factor, numerator, denominator) && output == Sum(terms[..|terms| - 1])
    ensures output == Series(factor * denominator, numerator, denominator, 1)
    ensures |terms| - 1 == Steps(factor * denominator, numerator, denominator, 1)
  {
    var i := 1;
    output := 0;
    var numeratorAccumulator := factor * denominator;
    terms := [numeratorAccumulator];
    while numeratorAccumulator > 0
      invariant i == |terms| > 0 && terms[i - 1] == numeratorAccumulator && output == Sum(terms[..i - 1])
      invariant FirstTerms(terms, factor, numerator, denominator)
      invariant output + Series(numeratorAccumulator, numerator, denominator, i)
                  == Series(factor * denominator, numerator, denominator, 1)
      invariant i - 1 + Steps(numeratorAccumulator, numerator, denominator, i)
                  == Steps(factor * denominator, numerator, denominator, 1)
      decreases Ahead(numerator, denominator, i), numeratorAccumulator
    {
      Shrinks(numeratorAccumulator, numerator, denominator, i);
      var next := Quotient(numeratorAccumulator * numerator, denominator * i);
      QuotientCuts(numeratorAccumulator * numerator, denominator * i);
      OneTermMore(terms, factor, numerator, denominator, next);
      output := output + numeratorAccumulator;
      numeratorAccumulator := next;
      terms := terms + [next];
      i := i + 1;
    }
  }

  // ----- bounds --------------------------------------------------------------------------------

  lemma {:induction false} SeriesBound(acc: int, numerator: int, denominator: int, i: int)
    requires denominator > 0 && i > 0
    ensures Series(acc, numerator, denominator, i) >= if acc > 0 then acc else 0
    decreases Ahead(numerator, denominator, i), acc
  {
    if acc > 0 {
      Shrinks(acc, numerator, denominator, i);
      SeriesBound(Quotient(acc * numerator, denominator * i), numerator, denominator, i + 1);
    }
  }

  /** The price is at least the factor. */
  lemma {:induction false} AtLeastFactor(factor: int, numerator: int, denominator: int)
    requires denominator > 0
    ensures Price(factor, numerator, denominator) >= factor && Price(factor, numerator, denominator) >= 0
  {
    SeriesBound(factor * denominator, numerator, denominator, 1);
    var s := Series(factor * denominator, numerator, denominator, 1);
    QuotientMonotone(factor * denominator, s, denominator);
    QuotientMonotone(0, s, denominator);
    assert factor >= 0 ==> Quotient(factor * denominator, denominator) == factor by {
      if factor >= 0 {
        QuotientExact(factor, denominator);
      }
    }
  }

  lemma {:induction false} QuotientExact(q: nat, d: int)
    requires d > 0
    ensures q * d >= 0 && Quotient(q * d, d) == q
  {
    assert (q * d) % d == 0 && (q * d) / d == q by {
      Exact(q * d, q, d);
    }
  }

  lemma {:induction false} Exact(a: int, q: int, d: int)
    requires d > 0 && a == q * d
    ensures a / d == q
  {
    var k := a / d;
    assert a == k * d + a % d && (k + 1) * d == k * d + d;
    TimesOrder(q, k, d);
    TimesOrder(q, k + 1, d);
  }

  lemma {:induction false} QuotientMonotone(a: int, b: int, d: int)
    requires d > 0 && a <= b
    ensures Quotient(a, d) <= Quotient(b, d)
  {
    if a >= 0 {
      DivideMonotone(a, b, d);
    } else if b < 0 {
      DivideMonotone(-b, -a, d);
    } else {
      DivideMonotone(0, -a, d);
      DivideMonotone(0, b, d);
    }
  }

  lemma {:induction false} DivideMonotone(a: int, b: int, d: int)
    requires d > 0 && a <= b
    ensures a / d <= b / d
  {
    TimesOrder(b / d + 1, a / d, d);
    TimesOrder(a / d, b / d + 1, d);
  }

  /** A larger numerator never gives a smaller sum. */
  lemma {:induction false} SeriesMonotone(acc: int, acc': int, numerator: int, numerator': int, denominator: int,
                                          i: int)
    requires denominator > 0 && i > 0 && acc <= acc' && numerator <= numerator'
    ensures Series(acc, numerator, denominator, i) <= Series(acc', numerator', denominator, i)
    decreases Ahead(numerator', denominator, i), acc'
  {
    SeriesBound(acc', numerator', denominator, i);
    if acc > 0 {
      Shrinks(acc, numerator, denominator, i);
      Shrinks(acc', numerator', denominator, i);
      var d := denominator * i;
      var next, next' := Quotient(acc * numerator, d), Quotient(acc' * numerator', d);
      if numerator >= 0 {
        ProductMonotone(acc, acc', numerator, numerator');
        QuotientMonotone(acc * numerator, acc' * numerator', d);
        SeriesMonotone(next, next', numerator, numerator', denominator, i + 1);
      } else {
        ProductNegative(acc, numerator);
        QuotientMonotone(acc * numerator, 0, d);
        SeriesBound(next', numerator', denominator, i + 1);
      }
    }
  }

  lemma {:induction false} ProductMonotone(a: int, a': int, b: int, b': int)
    requires 0 <= a <= a' && 0 <= b <= b'
    ensures a * b <= a' * b'
  {
    assert a * b <= a' * b <= a' * b';
  }

  lemma {:induction false} ProductNegative(a: int, b: int)
    requires a > 0 && b < 0
    ensures a * b <= 0
  {
  }

  /** The price never falls when the numerator rises. */
  lemma {:induction false} Monotone(factor: int, numerator: int, numerator': int, denominator: int)
    requires denominator > 0 && numerator <= numerator'
    ensures Price(factor, numerator, denominator) <= Price(factor, numerator', denominator)
  {
    SeriesMonotone(factor * denominator, factor * denominator, numerator, numerator', denominator, 1);
    QuotientMonotone(Series(factor * denominator, numerator, denominator, 1),
                     Series(factor * denominator, numerator', denominator, 1), denominator);
  }

  // ----- the exact sum -----------------------------------------------------------------------------

  /** The number of terms that are summed. */
  ghost function Steps(acc: int, numerator: int, denominator: int, i: int): nat
    requires denominator > 0 && i > 0
    decreases Ahead(numerator, denominator, i), acc
  {
    if acc <= 0 then 0
    else
      Shrinks(acc, numerator, denominator, i);
      1 + Steps(Quotient(acc * numerator, denominator * i), numerator, denominator, i + 1)
  }

  /** Term `k` of the Taylor expansion of f * e ** x, and the sum of the first `n`. */
  ghost function TaylorTerm(f: real, x: real, k: nat): real {
    if k == 0 then f else TaylorTerm(f, x, k - 1) * x / k as real
  }

  ghost function TaylorSum(f: real, x: real, n: nat): real {
    if n == 0 then 0.0 else TaylorSum(f, x, n - 1) + TaylorTerm(f, x, n - 1)
  }

  /** The tail of the sum, from term `k` on. */
  ghost function TaylorTail(f: real, x: real, k: nat, n: nat): real
    decreases n
  {
    if n == 0 then 0.0 else TaylorTerm(f, x, k) + TaylorTail(f, x, k + 1, n - 1)
  }

  lemma {:induction false} TailCompletes(f: real, x: real, k: nat, n: nat)
    ensures TaylorSum(f, x, k) + TaylorTail(f, x, k, n) == TaylorSum(f, x, k + n)
    decreases n
  {
    if n > 0 {
      TailCompletes(f, x, k + 1, n - 1);
    }
  }

  /** A truncated term is no larger than the exact one, and so is all that follows it. */
  lemma {:induction false} SeriesBelowTail(acc: int, numerator: int, denominator: int, i: nat, f: real, x: real)
    requires denominator > 0 && i > 0 && x == numerator as real / denominator as real
    requires acc as real <= TaylorTerm(f, x, i - 1)
    ensures Series(acc, numerator, denominator, i) as real
              <= TaylorTail(f, x, i - 1, Steps(acc, numerator, denominator, i))
    decreases Ahead(numerator, denominator, i), acc, 1
  {
    if acc > 0 {
      Shrinks(acc, numerator, denominator, i);
      var next := Quotient(acc * numerator, denominator * i);
      RestBelowTail(acc, numerator, denominator, i, f, x, next);
    }
  }

  lemma {:induction false} RestBelowTail(acc: int, numerator: int, denominator: int, i: nat, f: real, x: real,
                                         next: int)
    requires denominator > 0 && i > 0 && x == numerator as real / denominator as real && acc > 0 && denominator * i > 0
    requires acc as real <= TaylorTerm(f, x, i - 1) && next == Quotient(acc * numerator, denominator * i)
    ensures Series(next, numerator, denominator, i + 1) as real
              <= TaylorTail(f, x, i, Steps(next, numerator, denominator, i + 1))
    decreases Ahead(numerator, denominator, i), acc, 0
  {
    if numerator >= 0 {
      NextTerm(acc, numerator, denominator, i, TaylorTerm(f, x, i - 1), x);
      Shrinks(acc, numerator, denominator, i);
      SeriesBelowTail(next, numerator, denominator, i + 1, f, x);
    } else {
      ProductNegative(acc, numerator);
      QuotientMonotone(acc * numerator, 0, denominator * i);
    }
  }

  lemma {:induction false} NextTerm(acc: int, numerator: int, denominator: int, i: nat, term: real, x: real)
    requires acc > 0 && numerator >= 0 && denominator > 0 && i > 0 && acc as real <= term
    requires x == numerator as real / denominator as real
    ensures denominator * i > 0 && Quotient(acc * numerator, denominator * i) as real <= term * x / i as real
  {
    Positive(denominator, i);
    ProductMonotone(0, acc, 0, numerator);
    QuotientReal(acc * numerator, denominator * i);
    Fractions(acc as real, numerator as real, denominator as real, i as real, x);
    RealProducts(acc as real, term, x, i as real);
  }

  lemma {:induction false} QuotientReal(a: int, d: int)
    requires a >= 0 && d > 0
    ensures Quotient(a, d) as real <= a as real / d as real
  {
    var q := a / d;
    assert q * d <= a;
    assert (q * d) as real == q as real * d as real;
    RealDivide(q as real, a as real, d as real);
  }

  lemma {:induction false} RealDivide(q: real, a: real, d: real)
    requires d > 0.0 && q * d <= a
    ensures q <= a / d
  {
    assert (a / d) * d == a;
    RealOrder(a / d, q, d);
  }

  lemma {:induction false} Fractions(a: real, n: real, d: real, i: real, x: real)
    requires d > 0.0 && i > 0.0 && x == n / d && d * i > 0.0
    ensures (a * n) / (d * i) == a * x / i
  {
    assert n == x * d;
    var r := a * x / i;
    assert r * i == a * x;
    assert r * (d * i) == (r * i) * d == a * x * d == a * n;
  }

  lemma {:induction false} RealProducts(a: real, b: real, x: real, i: real)
    requires a <= b && x >= 0.0 && i > 0.0
    ensures a * x / i <= b * x / i
  {
    assert a * x <= b * x;
    RealDivide(a * x / i, b * x, i);
  }

  lemma {:induction false} TermScale(f: real, g: real, x: real, n: nat, d: real)
    requires g == f * d
    ensures TaylorTerm(g, x, n) == TaylorTerm(f, x, n) * d
  {
    if n > 0 {
      TermScale(f, g, x, n - 1, d);
      ScaleTerm(TaylorTerm(f, x, n - 1), x, n as real, d);
    }
  }

  lemma {:induction false} TaylorScale(f: real, g: real, x: real, n: nat, d: real)
    requires g == f * d
    ensures TaylorSum(g, x, n) == TaylorSum(f, x, n) * d
  {
    if n > 0 {
      TaylorScale(f, g, x, n - 1, d);
      TermScale(f, g, x, n - 1, d);
      Distribute(TaylorSum(f, x, n - 1), TaylorTerm(f, x, n - 1), d);
    }
  }

  lemma {:induction false} Distribute(a: real, b: real, d: real)
    ensures (a + b) * d == a * d + b * d
  {
  }

  lemma {:induction false} ScaleTerm(t: real, x: real, k: real, d: real)
    requires k > 0.0
    ensures (t * d) * x / k == (t * x / k) * d
  {
    var r := t * x / k;
    assert r * k == t * x;
    assert (r * d) * k == (r * k) * d == (t * d) * x;
  }

  lemma {:induction false} SeriesBelowSum(acc: int, numerator: int, denominator: int, f: real, x: real, n: nat)
    requires denominator > 0 && x == numerator as real / denominator as real
    requires n == Steps(acc, numerator, denominator, 1)
    requires acc as real == f
    ensures Series(acc, numerator, denominator, 1) as real <= TaylorSum(f, x, n)
  {
    SeriesBelowTail(acc, numerator, denominator, 1, f, x);
    TailCompletes(f, x, 0, n);
  }

  lemma {:induction false} RealProduct(a: int, b: int)
    ensures (a * b) as real == a as real * b as real
  {
  }

  /** The price never exceeds the exact partial sum of the expansion of factor * e ** (numerator / denominator). */
  lemma {:induction false} BelowTaylor(factor: int, numerator: int, denominator: int)
    requires denominator > 0
    ensures Price(factor, numerator, denominator) as real
            <= TaylorSum(factor as real, numerator as real / denominator as real,
                         Steps(factor * denominator, numerator, denominator, 1))
  {
    var acc, x := factor * denominator, numerator as real / denominator as real;
    var n, s := Steps(acc, numerator, denominator, 1), Series(acc, numerator, denominator, 1);
    RealProduct(factor, denominator);
    SeriesBelowSum(acc, numerator, denominator, acc as real, x, n);
    TaylorScale(factor as real, acc as real, x, n, denominator as real);
    SeriesBound(acc, numerator, denominator, 1);
    QuotientReal(s, denominator);
    Unscale(s as real, TaylorSum(factor as real, x, n), denominator as real);
  }

  lemma {:induction false} Unscale(s: real, t: real, d: real)
    requires d > 0.0 && s <= t * d
    ensures s / d <= t
  {
    assert (s / d) * d == s;
    RealOrder(t, s / d, d);
  }
}
