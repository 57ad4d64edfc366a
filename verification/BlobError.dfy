/** How far the blob gas price can fall short of the expansion that it approximates (packages/block/src/helpers.ts). */
module BlobError {
  import opened BlobPrice

  /**
   * What cutting `n` terms to whole numbers can lose in all, from term `i` - 1 on, when that one may have lost `e`:
   * the next one has lost the share of that which it takes over, and less than one of its own.
   */
  ghost function Lost(e: real, x: real, i: nat, n: nat): real
    requires i > 0
    decreases n
  {
    if n == 0 then 0.0 else e + Lost(e * x / i as real + 1.0, x, i + 1, n - 1)
  }

  lemma {:induction false} Times(a: real, i: real)
    requires i > 0.0
    ensures (a / i) * i == a
  {
  }

  lemma {:induction false} TermTimes(f: real, x: real, i: nat)
    requires i > 0
    ensures TaylorTerm(f, x, i) * i as real == TaylorTerm(f, x, i - 1) * x
  {
    Times(TaylorTerm(f, x, i - 1) * x, i as real);
  }

  /** The quotient before it is cut, by what it is a solution of; and the cut one. */
  lemma {:induction false} CutNext(acc: int, numerator: int, denominator: int, i: nat, x: real)
      returns (q: real, exact: real)
    requires acc > 0 && numerator >= 0 && denominator > 0 && i > 0 && x == numerator as real / denominator as real
    ensures denominator * i > 0 && q == Quotient(acc * numerator, denominator * i) as real
    ensures x >= 0.0 && q >= exact - 1.0 && exact * i as real == acc as real * x
  {
    Positive(denominator, i);
    ProductMonotone(0, acc, 0, numerator);
    q := Quotient(acc * numerator, denominator * i) as real;
    exact := (acc * numerator) as real / (denominator * i) as real;
    QuotientShort(acc * numerator, denominator * i);
    ExactTimes(acc, numerator, denominator, i, x, exact);
  }

  lemma {:induction false} ExactTimes(acc: int, numerator: int, denominator: int, i: nat, x: real, exact: real)
    requires numerator >= 0 && denominator > 0 && i > 0 && denominator * i > 0
    requires x == numerator as real / denominator as real
    requires exact == (acc * numerator) as real / (denominator * i) as real
    ensures x >= 0.0 && exact * i as real == acc as real * x
  {
    RealProduct(acc, numerator);
    RealProduct(denominator, i);
    Cancel(exact, acc as real, numerator as real, denominator as real, i as real, x);
  }

  lemma {:induction false} Cancel(exact: real, a: real, n: real, d: real, i: real, x: real)
    requires d > 0.0 && i > 0.0 && n >= 0.0 && d * i > 0.0 && x == n / d && exact == (a * n) / (d * i)
    ensures x >= 0.0 && exact * i == a * x
  {
    Times(n, d);
    Times(a * n, d * i);
    Same(exact * i, a * x, d, exact, a, n, i, x);
  }

  lemma {:induction false} Same(l: real, r: real, d: real, exact: real, a: real, n: real, i: real, x: real)
    requires d > 0.0 && l == exact * i && r == a * x && x * d == n && exact * (d * i) == a * n
    ensures l == r
  {
    assert l * d == exact * (d * i);
    assert r * d == a * (x * d);
    RealOrder(l, r, d);
    RealOrder(r, l, d);
  }

  /** A cut term is short of the exact one by no more than what the one before was, scaled, and one. */
  lemma {:induction false} ScaledShort(a: real, t: real, e: real, x: real, i: real, q: real, exact: real, t': real,
                                       e': real)
    requires i > 0.0 && x >= 0.0 && a >= t - e && q >= exact - 1.0
    requires exact * i == a * x && t' * i == t * x && (e' - 1.0) * i == e * x
    ensures q >= t' - e'
  {
    var short := t' - (e' - 1.0);
    assert short * i == (t - e) * x;
    assert (a - (t - e)) * x >= 0.0;
    assert exact * i - short * i == (a - (t - e)) * x;
    RealOrder(exact, short, i);
  }

  lemma {:induction false} QuotientShort(a: int, d: int)
    requires a >= 0 && d > 0
    ensures Quotient(a, d) as real >= a as real / d as real - 1.0
  {
    var q := a / d;
    DivisionCuts(a, d);
    assert ((q + 1) * d) as real == (q + 1) as real * d as real;
    var r := a as real / d as real;
    assert r * d as real == a as real;
    RealOrder(r, (q + 1) as real, d as real);
  }

  lemma {:induction false} TailShort(acc: int, numerator: int, denominator: int, i: nat, f: real, x: real, e: real)
    requires denominator > 0 && i > 0 && x == numerator as real / denominator as real
    requires acc as real >= TaylorTerm(f, x, i - 1) - e
    ensures var n := Steps(acc, numerator, denominator, i);
            TaylorTail(f, x, i - 1, n) - Series(acc, numerator, denominator, i) as real <= Lost(e, x, i, n)
    decreases Ahead(numerator, denominator, i), acc, 1
  {
    if acc > 0 {
      Shrinks(acc, numerator, denominator, i);
      var next, e' := Quotient(acc * numerator, denominator * i), e * x / i as real + 1.0;
      Times(e * x, i as real);
      RestShort(acc, numerator, denominator, i, f, x, e, next, e');
      Opened(acc, numerator, denominator, i, f, x, e, next, e');
    }
  }

  /** The three sums with their first terms taken out. */
  lemma {:induction false} Opened(acc: int, numerator: int, denominator: int, i: nat, f: real, x: real, e: real,
                                  next: int, e': real)
    requires denominator > 0 && i > 0 && acc > 0 && denominator * i > 0
    requires next == Quotient(acc * numerator, denominator * i) && e' == e * x / i as real + 1.0
    ensures var n := Steps(next, numerator, denominator, i + 1);
            && Steps(acc, numerator, denominator, i) == n + 1
            && Series(acc, numerator, denominator, i) == acc + Series(next, numerator, denominator, i + 1)
            && TaylorTail(f, x, i - 1, n + 1) == TaylorTerm(f, x, i - 1) + TaylorTail(f, x, i, n)
            && Lost(e, x, i, n + 1) == e + Lost(e', x, i + 1, n)
  {
  }

  lemma {:induction false} RestShort(acc: int, numerator: int, denominator: int, i: nat, f: real, x: real, e: real,
                                     next: int, e': real)
    requires denominator > 0 && i > 0 && x == numerator as real / denominator as real && acc > 0 && denominator * i > 0
    requires (e' - 1.0) * i as real == e * x
    requires acc as real >= TaylorTerm(f, x, i - 1) - e && next == Quotient(acc * numerator, denominator * i)
    ensures var n := Steps(next, numerator, denominator, i + 1);
            TaylorTail(f, x, i, n) - Series(next, numerator, denominator, i + 1) as real <= Lost(e', x, i + 1, n)
    decreases Ahead(numerator, denominator, i), acc, 0
  {
    if numerator >= 0 {
      var q, exact := CutNext(acc, numerator, denominator, i, x);
      TermTimes(f, x, i);
      ScaledShort(acc as real, TaylorTerm(f, x, i - 1), e, x, i as real, q, exact, TaylorTerm(f, x, i), e');
      Shrinks(acc, numerator, denominator, i);
      TailShort(next, numerator, denominator, i + 1, f, x, e');
    } else {
      ProductNegative(acc, numerator);
      QuotientMonotone(acc * numerator, 0, denominator * i);
    }
  }

  /**
   * The price falls short of the exact partial sum, of as many terms as were added, by less than what cutting them
   * can lose, divided by the denominator, and one.
   */
  lemma {:induction false} NotFarBelowTaylor(factor: int, numerator: int, denominator: int)
    requires denominator > 0
    ensures var x, n := numerator as real / denominator as real, Steps(factor * denominator, numerator, denominator, 1);
            Price(factor, numerator, denominator) as real
            > TaylorSum(factor as real, x, n) - Lost(0.0, x, 1, n) / denominator as real - 1.0
  {
    var acc, x := factor * denominator, numerator as real / denominator as real;
    var n, s := Steps(acc, numerator, denominator, 1), Series(acc, numerator, denominator, 1);
    RealProduct(factor, denominator);
    TailShort(acc, numerator, denominator, 1, acc as real, x, 0.0);
    TailCompletes(acc as real, x, 0, n);
    TaylorScale(factor as real, acc as real, x, n, denominator as real);
    SeriesBound(acc, numerator, denominator, 1);
    QuotientAbove(s, denominator);
    Share(TaylorSum(factor as real, x, n), Lost(0.0, x, 1, n), s as real, denominator as real);
  }

  lemma {:induction false} QuotientAbove(a: int, d: int)
    requires a >= 0 && d > 0
    ensures Quotient(a, d) as real > a as real / d as real - 1.0
  {
    var q := a / d;
    DivisionCuts(a, d);
    assert ((q + 1) * d) as real == (q + 1) as real * d as real;
    var r := a as real / d as real;
    assert r * d as real == a as real;
    RealOrder(r, (q + 1) as real, d as real);
  }

  lemma {:induction false} Share(t: real, l: real, s: real, d: real)
    requires d > 0.0 && t * d - s <= l
    ensures s / d >= t - l / d
  {
    assert (s / d) * d == s && (l / d) * d == l;
    assert (t - l / d) * d == t * d - l;
    RealOrder(s / d, t - l / d, d);
  }

  // ----- a bound in closed form ----------------------------------------------------------------

  lemma {:induction false} TermNotNegative(x: real, k: nat)
    requires x >= 0.0
    ensures TaylorTerm(1.0, x, k) >= 0.0
  {
    if k > 0 {
      TermNotNegative(x, k - 1);
      RealProducts(0.0, TaylorTerm(1.0, x, k - 1), x, k as real);
    }
  }

  lemma {:induction false} LessByMore(a: real, b: real, j: real, k: real)
    requires 0.0 < j <= k && b >= 0.0 && a * k == b * j
    ensures a <= b
  {
    assert b * j <= b * k;
    RealOrder(b, a, k);
  }

  lemma {:induction false} SumScaled(a: real, y: real, z: real, sum: real, k: real)
    requires k > 0.0 && a == y * k + z * k && sum * k == a
    ensures sum == y + z
  {
    assert (y + z) * k == a;
    RealOrder(y + z, sum, k);
    RealOrder(sum, y + z, k);
  }

  /** The expansion of e ** x, shifted by one term; `y` is its first `j` terms times x / k. */
  lemma {:induction false} Shifted(x: real, j: nat, k: nat, y: real)
    requires x >= 0.0 && j < k && y * k as real == TaylorSum(1.0, x, j) * x
    ensures y + 1.0 <= TaylorSum(1.0, x, j + 1)
  {
    if j > 0 {
      var y0 := WithoutLast(x, j, k, y);
      Shifted(x, j - 1, k, y0);
    } else {
      Zero(y, k as real);
    }
  }

  lemma {:induction false} WithoutLast(x: real, j: nat, k: nat, y: real) returns (y0: real)
    requires x >= 0.0 && 0 < j < k && y * k as real == TaylorSum(1.0, x, j) * x
    ensures y0 * k as real == TaylorSum(1.0, x, j - 1) * x && y <= y0 + TaylorTerm(1.0, x, j)
  {
    var z := TermScaled(x, j, k);
    y0 := Scaled(TaylorSum(1.0, x, j - 1), x, k as real);
    Distribute(TaylorSum(1.0, x, j - 1), TaylorTerm(1.0, x, j - 1), x);
    SumScaled(y * k as real, y0, z, y, k as real);
  }

  lemma {:induction false} Zero(y: real, k: real)
    requires k > 0.0 && y * k == 0.0
    ensures y == 0.0
  {
    RealOrder(0.0, y, k);
    RealOrder(y, 0.0, k);
  }

  lemma {:induction false} Scaled(s: real, x: real, k: real) returns (y: real)
    requires k > 0.0
    ensures y * k == s * x
  {
    y := s * x / k;
    Times(s * x, k);
  }

  lemma {:induction false} TermScaled(x: real, j: nat, k: nat) returns (z: real)
    requires x >= 0.0 && 0 < j <= k
    ensures z * k as real == TaylorTerm(1.0, x, j - 1) * x && z <= TaylorTerm(1.0, x, j)
  {
    z := Scaled(TaylorTerm(1.0, x, j - 1), x, k as real);
    TermTimes(1.0, x, j);
    TermNotNegative(x, j);
    LessByMore(z, TaylorTerm(1.0, x, j), j as real, k as real);
  }

  /** What one term can have lost is at most the expansion of e ** x up to it. */
  lemma {:induction false} LostOne(e: real, x: real, i: nat, e': real)
    requires x >= 0.0 && i > 0 && e <= TaylorSum(1.0, x, i - 1) && e' == e * x / i as real + 1.0
    ensures e' <= TaylorSum(1.0, x, i)
  {
    var s := TaylorSum(1.0, x, i - 1);
    RealProducts(e, s, x, i as real);
    Times(s * x, i as real);
    Shifted(x, i - 1, i, s * x / i as real);
  }

  lemma {:induction false} SumGrows(x: real, k: nat, n: nat)
    requires x >= 0.0 && k <= n
    ensures TaylorSum(1.0, x, k) <= TaylorSum(1.0, x, n)
  {
    if k < n {
      SumGrows(x, k, n - 1);
      TermNotNegative(x, n - 1);
    }
  }

  lemma {:induction false} LostBelow(e: real, x: real, i: nat, n: nat, m: nat)
    requires x >= 0.0 && i > 0 && e <= TaylorSum(1.0, x, i - 1) && i - 1 + n <= m
    ensures Lost(e, x, i, n) <= n as real * TaylorSum(1.0, x, m)
    decreases n
  {
    if n > 0 {
      var e' := e * x / i as real + 1.0;
      LostOne(e, x, i, e');
      LostBelow(e', x, i + 1, n - 1, m);
      SumGrows(x, i - 1, m);
      assert n as real * TaylorSum(1.0, x, m) == TaylorSum(1.0, x, m) + (n - 1) as real * TaylorSum(1.0, x, m);
    }
  }

  /** In all, cutting `n` terms loses at most n times the expansion of e ** x of that many terms. */
  lemma {:induction false} LostAtMost(x: real, n: nat)
    requires x >= 0.0
    ensures Lost(0.0, x, 1, n) <= n as real * TaylorSum(1.0, x, n)
  {
    LostBelow(0.0, x, 1, n, n);
  }
}
