/** Small facts of field arithmetic over plain `real` variables.  The solver
    proofs instantiate them with balances, growth factors and annuity
    factors, so that no proof about the loan has to find an algebraic step on
    its own. */
module RealAlgebra {

  /** A quotient is the number that multiplies back to the dividend. */
  lemma QuotientOfProduct(q: real, a: real, b: real)
    requires b != 0.0 && q * b == a
    ensures q == a / b
  {
  }

  /** Equal dividends over equal divisors give equal quotients. */
  lemma SameQuotient(a: real, b: real, c: real, d: real)
    requires a == c && b == d && b != 0.0
    ensures a / b == c / d
  {
  }

  /** A factor above 1 keeps a value above 1. */
  lemma ProductAboveOne(x: real, p: real)
    requires x > 1.0 && p > 1.0
    ensures x * p > 1.0
  {
  }

  /** One month of the geometric sum: if a * r == p - 1 then
      (a * (1 + r) + 1) * r == (1 + r) * p - 1. */
  lemma GeometricStep(a: real, p: real, r: real)
    requires a * r == p - 1.0
    ensures (a * (1.0 + r) + 1.0) * r == (1.0 + r) * p - 1.0
  {
    calc {
      (a * (1.0 + r) + 1.0) * r;
      (a * r) * (1.0 + r) + r;
      (p - 1.0) * (1.0 + r) + r;
      (1.0 + r) * p - 1.0;
    }
  }

  /** One month of the balance: if b == pv * p - pmt * a, then the next
      balance b1 == b - (pmt - b * r) is pv * p1 - pmt * a1 with the factors
      p1 == (1 + r) * p and a1 == a * (1 + r) + 1 of the next month. */
  lemma BalanceStep(b: real, b1: real, pv: real, p: real, p1: real, pmt: real, a: real, a1: real, r: real)
    requires b == pv * p - pmt * a
    requires b1 == b - (pmt - b * r) && p1 == (1.0 + r) * p && a1 == a * (1.0 + r) + 1.0
    ensures b1 == pv * p1 - pmt * a1
  {
    calc {
      b1;
      b * (1.0 + r) - pmt;
      (pv * p - pmt * a) * (1.0 + r) - pmt;
      pv * ((1.0 + r) * p) - pmt * (a * (1.0 + r) + 1.0);
    }
  }

  /** One month of the interest total: adding the interest b * r to a total
      s == b - pv + q, where q is what the payments so far add up to, gives
      the next balance less pv plus q1 == q + pmt. */
  lemma InterestStep(s: real, b: real, r: real, pv: real, pmt: real, q: real, q1: real)
    requires s == b - pv + q && q1 == q + pmt
    ensures s + b * r == (b - (pmt - b * r)) - pv + q1
  {
  }

  /** The balloon payment divided through by the rate: with a * r == g - 1,
      (pv * r * g - q * r) / (g - 1) == (pv * g - q) / a. */
  lemma PaymentByAnnuity(pv: real, q: real, r: real, g: real, a: real)
    requires r != 0.0 && g != 1.0 && a * r == g - 1.0
    ensures a != 0.0
    ensures (pv * r * g - q * r) / (g - 1.0) == (pv * g - q) / a
  {
    var pmt := (pv * g - q) / a;
    assert pmt * a == pv * g - q;
    calc {
      pmt * (g - 1.0);
      pmt * (a * r);
      (pmt * a) * r;
      (pv * g - q) * r;
      pv * r * g - q * r;
    }
    QuotientOfProduct(pmt, pv * r * g - q * r, g - 1.0);
  }

  /** The future-value term divided through by the rate: with a * r == g - 1,
      pmt * (g - 1) / r == pmt * a. */
  lemma ResidualByAnnuity(pmt: real, r: real, g: real, a: real)
    requires r != 0.0 && a * r == g - 1.0
    ensures pmt * (g - 1.0) / r == pmt * a
  {
    assert (pmt * a) * r == pmt * (g - 1.0);
    QuotientOfProduct(pmt * a, pmt * (g - 1.0), r);
  }

  /** The two closed forms undo each other: the payment (x - q) / a leaves
      x - ((x - q) / a) * a == q. */
  lemma ResidualOfPayment(x: real, q: real, a: real)
    requires a != 0.0
    ensures x - ((x - q) / a) * a == q
  {
  }

  /** ... and the residual x - p * a asks for the payment (x - (x - p * a)) / a == p. */
  lemma PaymentOfResidual(x: real, p: real, a: real)
    requires a != 0.0
    ensures (x - (x - p * a)) / a == p
  {
    QuotientOfProduct(p, p * a, a);
  }

  /** A quotient times its divisor gives back the dividend. */
  lemma QuotientTimesDivisor(a: real, b: real)
    requires b != 0.0
    ensures (a / b) * b == a
  {
  }

  /** A product equation read from either side: x * y == z gives y * x == z. */
  lemma SameProductBothWays(x: real, y: real, z: real)
    requires x * y == z
    ensures y * x == z
  {
  }

  /** The percentage p with d * 100 == c * p is d / c * 100, for c != 0. */
  lemma PercentOfProduct(d: real, c: real, p: real)
    requires c != 0.0 && d * 100.0 == c * p
    ensures p == d / c * 100.0
  {
    QuotientOfProduct(p, d * 100.0, c);
  }
}
