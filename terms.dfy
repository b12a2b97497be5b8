/**
 * Monomials and terms, as far as monomial substitution and the string parser
 * use them.  A monomial is its list of variable-exponent pairs together with
 * its cached total degree; a term is a coefficient times an optional
 * monomial (none for a constant term).  The product of monomials and the
 * power of a term are written out here.
 *
 * The meaning of a term is its normal form: the coefficient together with
 * the multiset of variable occurrences (`x^2 y` is `{x, x, y}`).  Two terms
 * with the same normal form take the same value under every assignment of
 * the variables, so stating results on normal forms fixes their values
 * without committing to an order of multiplication.
 */
module Terms {
  import opened Wrappers

  type Variable = nat

  datatype VarExp = VarExp(v: Variable, exp: nat)

  datatype Monomial = Monomial(exponents: seq<VarExp>, totalDegree: nat)

  /** A coefficient times a monomial; `None` is the constant term. */
  datatype Term = Term(coeff: real, monomial: Option<Monomial>)

  /** The normal form of a product: a coefficient times the product of the variable occurrences. */
  datatype Value = Value(coeff: real, vars: multiset<Variable>)

  function Pow(x: real, e: nat): real
  {
    if e == 0 then 1.0 else x * Pow(x, e - 1)
  }

  /** The sum of the exponents of a variable-exponent list. */
  function DegreeSum(es: seq<VarExp>): nat
  {
    if es == [] then 0 else es[0].exp + DegreeSum(es[1..])
  }

  /** Variables strictly increasing along the list. */
  predicate StrictlySorted(es: seq<VarExp>)
  {
    forall i, j :: 0 <= i < j < |es| ==> es[i].v < es[j].v
  }

  /**
   * The class invariant of a monomial: at least one variable, variables
   * sorted and distinct, every exponent positive, and the cached total
   * degree equal to the sum of the exponents.
   */
  predicate ValidMonomial(m: Monomial)
  {
    && |m.exponents| > 0
    && StrictlySorted(m.exponents)
    && (forall i :: 0 <= i < |m.exponents| ==> m.exponents[i].exp > 0)
    && m.totalDegree == DegreeSum(m.exponents)
  }

  /** The variable `v`, `e` times. */
  function Repeat(v: Variable, e: nat): (r: multiset<Variable>)
    ensures r[v] == e && |r| == e
    ensures forall w :: w != v ==> r[w] == 0
  {
    multiset{}[v := e]
  }

  /** The variable occurrences of a product of powers. */
  function Occurrences(es: seq<VarExp>): multiset<Variable>
  {
    if es == [] then multiset{} else Repeat(es[0].v, es[0].exp) + Occurrences(es[1..])
  }

  function MonomialOccurrences(m: Option<Monomial>): multiset<Variable>
  {
    match m
    case None => multiset{}
    case Some(mono) => Occurrences(mono.exponents)
  }

  /** The normal form of a term. */
  function Denote(t: Term): Value
  {
    Value(t.coeff, MonomialOccurrences(t.monomial))
  }

  const One := Value(1.0, multiset{})

  function MulValue(a: Value, b: Value): Value
  {
    Value(a.coeff * b.coeff, a.vars + b.vars)
  }

  /** Every occurrence taken `e` times. */
  function Scale(ms: multiset<Variable>, e: nat): multiset<Variable>
  {
    if e == 0 then multiset{} else Scale(ms, e - 1) + ms
  }

  function PowValue(a: Value, e: nat): Value
  {
    Value(Pow(a.coeff, e), Scale(a.vars, e))
  }

  /** The exponent list of a product of monomials: a merge that adds the exponents of shared variables. */
  function MulExps(a: seq<VarExp>, b: seq<VarExp>): seq<VarExp>
    decreases |a| + |b|
  {
    if a == [] then b
    else if b == [] then a
    else if a[0].v < b[0].v then [a[0]] + MulExps(a[1..], b)
    else if b[0].v < a[0].v then [b[0]] + MulExps(a, b[1..])
    else [VarExp(a[0].v, a[0].exp + b[0].exp)] + MulExps(a[1..], b[1..])
  }

  function MulMonomial(a: Option<Monomial>, b: Option<Monomial>): Option<Monomial>
  {
    match (a, b)
    case (None, _) => b
    case (_, None) => a
    case (Some(x), Some(y)) => Some(Monomial(MulExps(x.exponents, y.exponents), x.totalDegree + y.totalDegree))
  }

  /** Every exponent multiplied by e. */
  function PowExps(es: seq<VarExp>, e: nat): (r: seq<VarExp>)
    ensures |r| == |es|
  {
    if es == [] then [] else [VarExp(es[0].v, es[0].exp * e)] + PowExps(es[1..], e)
  }

  function TermMul(a: Term, b: Term): Term
  {
    Term(a.coeff * b.coeff, MulMonomial(a.monomial, b.monomial))
  }

  function TermPow(t: Term, e: nat): Term
  {
    Term(Pow(t.coeff, e),
         match t.monomial
         case None => None
         case Some(m) => if e == 0 then None else Some(Monomial(PowExps(m.exponents, e), m.totalDegree * e)))
  }

  lemma {:induction false} PowOne(e: nat)
    ensures Pow(1.0, e) == 1.0
  {
    if e > 0 {
      PowOne(e - 1);
    }
  }

  /** The total degree counts the variable occurrences. */
  lemma {:induction false} DegreeIsSize(es: seq<VarExp>)
    ensures |Occurrences(es)| == DegreeSum(es)
    decreases |es|
  {
    if es != [] {
      DegreeIsSize(es[1..]);
    }
  }

  lemma {:induction false} OccurrencesAppend(a: seq<VarExp>, b: seq<VarExp>)
    ensures Occurrences(a + b) == Occurrences(a) + Occurrences(b)
    decreases |a|
  {
    if a == [] {
      assert a + b == b;
    } else {
      assert (a + b)[1..] == a[1..] + b;
      OccurrencesAppend(a[1..], b);
    }
  }

  /** Two exponents of one variable add up. */
  lemma RepeatAdd(v: Variable, x: nat, y: nat)
    ensures Repeat(v, x + y) == Repeat(v, x) + Repeat(v, y)
  {
  }

  /** The merge of two exponent lists holds the occurrences of both. */
  lemma {:induction false} MulExpsOccurrences(a: seq<VarExp>, b: seq<VarExp>)
    ensures Occurrences(MulExps(a, b)) == Occurrences(a) + Occurrences(b)
    decreases |a| + |b|
  {
    if a == [] || b == [] {
    } else if a[0].v < b[0].v {
      MulExpsOccurrences(a[1..], b);
      var rest := MulExps(a[1..], b);
      assert ([a[0]] + rest)[1..] == rest;
    } else if b[0].v < a[0].v {
      MulExpsOccurrences(a, b[1..]);
      var rest := MulExps(a, b[1..]);
      assert ([b[0]] + rest)[1..] == rest;
    } else {
      MulExpsOccurrences(a[1..], b[1..]);
      var rest := MulExps(a[1..], b[1..]);
      assert ([VarExp(a[0].v, a[0].exp + b[0].exp)] + rest)[1..] == rest;
      RepeatAdd(a[0].v, a[0].exp, b[0].exp);
    }
  }

  lemma {:induction false} ScaleEmpty(e: nat)
    ensures Scale(multiset{}, e) == multiset{}
  {
    if e > 0 {
      ScaleEmpty(e - 1);
    }
  }

  lemma {:induction false} ScaleRepeat(v: Variable, x: nat, e: nat)
    ensures Scale(Repeat(v, x), e) == Repeat(v, x * e)
  {
    if e > 0 {
      ScaleRepeat(v, x, e - 1);
      assert x * (e - 1) + x == x * e;
      RepeatAdd(v, x * (e - 1), x);
    }
  }

  lemma {:induction false} ScaleUnion(a: multiset<Variable>, b: multiset<Variable>, e: nat)
    ensures Scale(a + b, e) == Scale(a, e) + Scale(b, e)
  {
    if e > 0 {
      ScaleUnion(a, b, e - 1);
    }
  }

  /** Raising every exponent to the `e`-th multiple takes every occurrence `e` times. */
  lemma {:induction false} PowExpsOccurrences(es: seq<VarExp>, e: nat)
    ensures Occurrences(PowExps(es, e)) == Scale(Occurrences(es), e)
    decreases |es|
  {
    if es == [] {
      ScaleEmpty(e);
    } else {
      var h, tail := es[0], es[1..];
      PowExpsOccurrences(tail, e);
      var r := PowExps(es, e);
      assert r[0] == VarExp(h.v, h.exp * e) && r[1..] == PowExps(tail, e);
      var hr, tr := Repeat(h.v, h.exp), Occurrences(tail);
      ScaleRepeat(h.v, h.exp, e);
      ScaleUnion(hr, tr, e);
      assert Occurrences(es) == hr + tr;
      assert Occurrences(r) == Repeat(h.v, h.exp * e) + Scale(tr, e);
    }
  }

  /** The product of monomials holds the occurrences of both. */
  lemma {:induction false} MulMonomialOccurrences(a: Option<Monomial>, b: Option<Monomial>)
    ensures MonomialOccurrences(MulMonomial(a, b)) == MonomialOccurrences(a) + MonomialOccurrences(b)
  {
    match (a, b)
    case (None, _) =>
    case (_, None) =>
    case (Some(x), Some(y)) =>
      MulExpsOccurrences(x.exponents, y.exponents);
  }

  /** The product of terms denotes the product of their normal forms. */
  lemma {:induction false} DenoteTermMul(a: Term, b: Term)
    ensures Denote(TermMul(a, b)) == MulValue(Denote(a), Denote(b))
  {
    MulMonomialOccurrences(a.monomial, b.monomial);
  }

  /** The power of a term denotes the power of its normal form. */
  lemma {:induction false} DenoteTermPow(t: Term, e: nat)
    ensures Denote(TermPow(t, e)) == PowValue(Denote(t), e)
  {
    match t.monomial
    case None =>
      ScaleEmpty(e);
    case Some(m) =>
      if e > 0 {
        PowExpsOccurrences(m.exponents, e);
      }
  }
}
