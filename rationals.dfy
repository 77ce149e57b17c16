/**
 * The rational parameters of the TKF91 model that tkf91_rationals_init
 * derives from the insertion rate lambda, the deletion rate mu, the branch
 * length tau and the four equilibrium frequencies pi. FLINT's fmpq values
 * are exact rationals, which Dafny's real type is for the operations used
 * here (+, -, * and / on rational operands); fmpq_div aborts on a zero
 * divisor.
 */
module Rationals {
  import opened Basics

  const DivisionByZero := "Exception (fmpq_div). Division by zero."

  /** The fields of tkf91_rationals_t. */
  datatype Params = Params(
    lambda: real, mu: real, tau: real,
    pi: seq<real>, qi: seq<real>,
    negdt: real,
    lambdaDivMu: real, oneMinusLambdaDivMu: real,
    betaExponent: real, negMuTau: real)

  /** The sum of the squares of the entries. */
  function SumSquares(s: seq<real>): real
  {
    if s == [] then 0.0 else SumSquares(s[..|s| - 1]) + s[|s| - 1] * s[|s| - 1]
  }

  /** The sum of the entries. */
  function Sum(s: seq<real>): real
  {
    if s == [] then 0.0 else Sum(s[..|s| - 1]) + s[|s| - 1]
  }

  /** pi is a probability distribution none of whose entries is 1: at least two nucleotides can occur. */
  predicate SpreadDistribution(pi: seq<real>)
  {
    && (forall i :: 0 <= i < |pi| ==> 0.0 <= pi[i] < 1.0)
    && Sum(pi) == 1.0
  }

  /**
   * The negdt block: dt starts at one and each frequency's square is
   * subtracted from it (fmpq_submul), in order.
   */
  method OneMinusSumSquares(pi: seq<real>) returns (dt: real)
    ensures dt + SumSquares(pi) == 1.0
  {
    dt := 1.0;
    var i := 0;
    while i < |pi|
      invariant i <= |pi| && dt + SumSquares(pi[..i]) == 1.0
    {
      assert pi[..i + 1][..i] == pi[..i];
      dt := dt - pi[i] * pi[i];
      i := i + 1;
    }
    assert pi[..|pi|] == pi;
  }

  /**
   * tkf91_rationals_init: the inputs are copied, qi[i] is the complement
   * of pi[i], negdt is -tau / (1 - sum of pi[i]^2), lambda_div_mu and its
   * complement, beta_exponent is (lambda - mu) tau and neg_mu_tau is
   * -mu tau. The two divisions abort on a zero divisor, the negdt one
   * first.
   */
  method RationalsInit(lambda: real, mu: real, tau: real, pi: seq<real>) returns (r: Result<Params>)
    requires |pi| == 4
    ensures r.Abort? <==> SumSquares(pi) == 1.0 || mu == 0.0
    ensures r.Abort? ==> r.reason == DivisionByZero
    ensures r.Ok? ==> (
      && r.value.lambda == lambda && r.value.mu == mu && r.value.tau == tau && r.value.pi == pi
      && |r.value.qi| == 4 && (forall i :: 0 <= i < 4 ==> r.value.pi[i] + r.value.qi[i] == 1.0)
      && r.value.negdt * (1.0 - SumSquares(pi)) == -tau
      && r.value.lambdaDivMu * mu == lambda
      && r.value.lambdaDivMu + r.value.oneMinusLambdaDivMu == 1.0
      && r.value.betaExponent == lambda * tau - mu * tau
      && r.value.negMuTau + mu * tau == 0.0)
  {
    var qi := [];
    var i := 0;
    while i < 4
      invariant i <= 4 && |qi| == i
      invariant forall k :: 0 <= k < i ==> pi[k] + qi[k] == 1.0
    {
      qi := qi + [1.0 - pi[i]];
      i := i + 1;
    }
    var dt := OneMinusSumSquares(pi);
    if dt == 0.0 {
      return Abort(DivisionByZero);
    }
    var negdt := -(tau / dt);
    if mu == 0.0 {
      return Abort(DivisionByZero);
    }
    var lambdaDivMu := lambda / mu;
    var betaExponent := (lambda - mu) * tau;
    r := Ok(Params(lambda, mu, tau, pi, qi, negdt, lambdaDivMu, 1.0 - lambdaDivMu, betaExponent, -(mu * tau)));
  }

  /** Adding a square below one and its base keeps a strict order. */
  lemma AddSquare(a: real, b: real, x: real)
    requires a < b && 0.0 <= x <= 1.0
    ensures a + x * x < b + x
  {
    SquareBelow(x);
  }

  /** Adding a square strictly between zero and one and its base makes an order strict. */
  lemma AddStrictSquare(a: real, b: real, x: real)
    requires a <= b && 0.0 < x < 1.0
    ensures a + x * x < b + x
  {
    SquareStrictlyBelow(x);
  }

  lemma SquareBelow(x: real)
    requires 0.0 <= x <= 1.0
    ensures x * x <= x
  {
    assert x * x <= x * 1.0;
  }

  lemma SquareStrictlyBelow(x: real)
    requires 0.0 < x < 1.0
    ensures x * x < x
  {
    assert x * x < x * 1.0;
  }

  /** The square of an entry between zero and one is at most the entry, so the squares sum to at most the sum. */
  lemma {:induction false} SquaresBelow(s: seq<real>)
    requires forall i :: 0 <= i < |s| ==> 0.0 <= s[i] <= 1.0
    ensures SumSquares(s) <= Sum(s)
  {
    if s != [] {
      var init, x := s[..|s| - 1], s[|s| - 1];
      SquaresBelow(init);
      SquareBelow(x);
      assert SumSquares(s) == SumSquares(init) + x * x;
      assert Sum(s) == Sum(init) + x;
    }
  }

  /** One entry strictly between zero and one makes the sum of squares strictly smaller than the sum. */
  lemma {:induction false} SquaresStrictlyBelow(s: seq<real>, i: nat)
    requires forall k :: 0 <= k < |s| ==> 0.0 <= s[k] <= 1.0
    requires i < |s| && 0.0 < s[i] < 1.0
    ensures SumSquares(s) < Sum(s)
  {
    var init, x := s[..|s| - 1], s[|s| - 1];
    assert SumSquares(s) == SumSquares(init) + x * x;
    assert Sum(s) == Sum(init) + x;
    if i < |s| - 1 {
      assert init[i] == s[i];
      SquaresStrictlyBelow(init, i);
      AddSquare(SumSquares(init), Sum(init), x);
    } else {
      SquaresBelow(init);
      AddStrictSquare(SumSquares(init), Sum(init), x);
    }
  }

  /**
   * For a distribution none of whose frequencies is 1 the negdt divisor
   * 1 - sum of pi[i]^2 is positive, so the first division cannot abort
   * and negdt has the sign opposite to tau.
   */
  lemma NegdtDefined(pi: seq<real>, tau: real)
    requires SpreadDistribution(pi)
    ensures 0.0 < 1.0 - SumSquares(pi)
    ensures tau > 0.0 ==> -(tau / (1.0 - SumSquares(pi))) < 0.0
  {
    if forall i :: 0 <= i < |pi| ==> pi[i] == 0.0 {
      ZeroSum(pi);
      assert false;
    }
    var i :| 0 <= i < |pi| && pi[i] != 0.0;
    SquaresStrictlyBelow(pi, i);
    if tau > 0.0 {
      QuotientSign(tau, 1.0 - SumSquares(pi));
    }
  }

  lemma QuotientSign(a: real, d: real)
    requires a > 0.0 && d > 0.0
    ensures a / d > 0.0
  {
  }

  /** A factor of a negative product with a positive factor is negative. */
  lemma NegativeFactor(x: real, d: real)
    requires d > 0.0 && x * d < 0.0
    ensures x < 0.0
  {
  }

  /** Multiplying by a positive number keeps a strict order. */
  lemma ScaleBelow(a: real, b: real, t: real)
    requires a < b && t > 0.0
    ensures a * t < b * t
  {
  }

  /** The quotient of 0 <= a < b is in [0, 1). */
  lemma RatioBelowOne(x: real, a: real, b: real)
    requires 0.0 <= a < b && x * b == a
    ensures 0.0 <= x < 1.0
  {
    assert x == a / b;
  }

  lemma {:induction false} ZeroSum(s: seq<real>)
    requires forall i :: 0 <= i < |s| ==> s[i] == 0.0
    ensures Sum(s) == 0.0
  {
    if s != [] {
      ZeroSum(s[..|s| - 1]);
    }
  }

  /**
   * With valid rates (0 <= lambda < mu) and a positive branch length, a
   * successful initialisation gives a negative beta exponent, a gamma
   * complement 1 - lambda/mu strictly between zero and one, a negative
   * -mu tau and, for a spread distribution, a negative negdt.
   */
  lemma ParamsSigns(p: Params)
    requires 0.0 <= p.lambda < p.mu && p.tau > 0.0 && |p.pi| == 4
    requires p.lambdaDivMu * p.mu == p.lambda
    requires p.lambdaDivMu + p.oneMinusLambdaDivMu == 1.0
    requires p.betaExponent == p.lambda * p.tau - p.mu * p.tau
    requires p.negMuTau + p.mu * p.tau == 0.0
    requires p.negdt * (1.0 - SumSquares(p.pi)) == -p.tau
    ensures p.betaExponent < 0.0
    ensures 0.0 < p.oneMinusLambdaDivMu <= 1.0
    ensures p.negMuTau < 0.0
    ensures SpreadDistribution(p.pi) ==> p.negdt < 0.0
  {
    assert p.betaExponent < 0.0 by {
      ScaleBelow(p.lambda, p.mu, p.tau);
    }
    assert p.negMuTau < 0.0 by {
      ScaleBelow(0.0, p.mu, p.tau);
    }
    assert 0.0 < p.oneMinusLambdaDivMu <= 1.0 by {
      RatioBelowOne(p.lambdaDivMu, p.lambda, p.mu);
    }
    if SpreadDistribution(p.pi) {
      NegdtDefined(p.pi, p.tau);
      NegativeFactor(p.negdt, 1.0 - SumSquares(p.pi));
    }
  }
}
