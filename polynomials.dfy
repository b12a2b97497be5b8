/**
 * Multivariate polynomials as the string parser builds them: a sum of
 * terms, where adding a term merges it with the term of the same monomial
 * and drops a term whose coefficient becomes zero.  A polynomial is kept in
 * normal form, as the map from each monomial (its variable occurrences) to
 * its non-zero coefficient; it is zero exactly when it has no terms.
 */
module Polynomials {
  import opened Terms

  type Poly = map<multiset<Variable>, real>

  /** No monomial is stored with a zero coefficient. */
  predicate Normal(p: Poly)
  {
    forall k :: k in p ==> p[k] != 0.0
  }

  /** The coefficient of the monomial `k`, zero when it has no term. */
  function Coeff(p: Poly, k: multiset<Variable>): real
  {
    if k in p then p[k] else 0.0
  }

  /** `p += t`: merges t into the term of its monomial, dropping a term that cancels. */
  function AddTerm(p: Poly, t: Value): Poly
  {
    var c := Coeff(p, t.vars) + t.coeff;
    if c == 0.0 then p - {t.vars} else p[t.vars := c]
  }

  /** Adding a term: the coefficient of t's monomial grows by t's coefficient, every other stays, and normal form is kept. */
  lemma AddTermCoefficients(p: Poly, t: Value)
    ensures Normal(p) ==> Normal(AddTerm(p, t))
    ensures forall k :: Coeff(AddTerm(p, t), k) == Coeff(p, k) + (if k == t.vars then t.coeff else 0.0)
  {
  }

  /** The terms added one after the other to the zero polynomial. */
  function Sum(ts: seq<Value>): Poly
  {
    if ts == [] then map[] else AddTerm(Sum(ts[..|ts| - 1]), ts[|ts| - 1])
  }

  lemma SumSnoc(ts: seq<Value>, t: Value)
    ensures Sum(ts + [t]) == AddTerm(Sum(ts), t)
  {
    assert (ts + [t])[..|ts|] == ts;
  }

  /** Reference definition: the sum of the coefficients of the terms over the monomial `k`. */
  function CoeffSum(ts: seq<Value>, k: multiset<Variable>): real
  {
    if ts == [] then 0.0
    else CoeffSum(ts[..|ts| - 1], k) + (if ts[|ts| - 1].vars == k then ts[|ts| - 1].coeff else 0.0)
  }

  /** The polynomial is the sum of its terms, monomial by monomial, and stays in normal form. */
  lemma {:induction false} SumCoefficients(ts: seq<Value>)
    ensures Normal(Sum(ts))
    ensures forall k :: Coeff(Sum(ts), k) == CoeffSum(ts, k)
  {
    if ts != [] {
      SumCoefficients(ts[..|ts| - 1]);
      AddTermCoefficients(Sum(ts[..|ts| - 1]), ts[|ts| - 1]);
    }
  }

  /** isZero: the sum has no term exactly when the coefficients of every monomial cancel. */
  lemma SumZero(ts: seq<Value>)
    ensures Sum(ts) == map[] <==> forall k :: CoeffSum(ts, k) == 0.0
  {
    SumCoefficients(ts);
    var p := Sum(ts);
    if p == map[] {
      forall k
        ensures CoeffSum(ts, k) == 0.0
      {
        assert k !in p;
        assert Coeff(p, k) == 0.0;
      }
    } else {
      var k := NonZeroWitness(p);
      assert Coeff(p, k) == CoeffSum(ts, k);
      assert !(forall j :: CoeffSum(ts, j) == 0.0);
    }
  }

  /** A polynomial in normal form other than zero has a monomial with a non-zero coefficient. */
  lemma NonZeroWitness(p: Poly) returns (k: multiset<Variable>)
    requires Normal(p) && p != map[]
    ensures Coeff(p, k) != 0.0
  {
    assert p.Keys != {} by {
      assert p != map[] && p.Keys == {} ==> p == map[];
    }
    k :| k in p.Keys;
  }
}
