/**
 * `Monomial::substitute`, both overloads.
 *
 * Both walk the exponent list of a monomial once.  A variable without an
 * entry in the substitution map is kept, with its exponent, in order; a
 * substituted variable is folded into a factor by its power and its exponent
 * is taken off the total degree.  The first overload substitutes values and
 * folds them into a coefficient; the second substitutes terms and folds them
 * into a term.
 *
 * The reference for both is `Instantiate`: the monomial with every variable
 * replaced by its image, as a normal form.
 */
module MonomialSubstitute {
  import opened Wrappers
  import opened Terms

  /** What a variable stands for under a substitution: its image when it has one, itself otherwise. */
  function Image(v: Variable, sigma: map<Variable, Value>): Value
  {
    if v in sigma then sigma[v] else Value(1.0, multiset{v})
  }

  /** `acc` multiplied, left to right, by the power of the image of every pair. */
  function Instantiate(acc: Value, es: seq<VarExp>, sigma: map<Variable, Value>): Value
    decreases |es|
  {
    if es == [] then acc
    else Instantiate(MulValue(acc, PowValue(Image(es[0].v, sigma), es[0].exp)), es[1..], sigma)
  }

  /** Values substituted for variables, as constant normal forms. */
  function ValueImages(subs: map<Variable, real>): map<Variable, Value>
  {
    map v: Variable | v in subs :: Value(subs[v], multiset{})
  }

  /** Terms substituted for variables, as normal forms. */
  function TermImages(subs: map<Variable, Term>): map<Variable, Value>
  {
    map v: Variable | v in subs :: Denote(subs[v])
  }

  /** The pairs whose variable is not substituted, in their original order. */
  function Kept<S>(es: seq<VarExp>, subs: map<Variable, S>): seq<VarExp>
  {
    if es == [] then []
    else if es[0].v in subs then Kept(es[1..], subs)
    else [es[0]] + Kept(es[1..], subs)
  }

  /** The sum of the exponents of the substituted variables. */
  function SubstDegree<S>(es: seq<VarExp>, subs: map<Variable, S>): nat
  {
    if es == [] then 0
    else (if es[0].v in subs then es[0].exp else 0) + SubstDegree(es[1..], subs)
  }

  /** The accumulator of both walks: the factor so far times the occurrences of the kept pairs. */
  function Accumulated(factor: Term, kept: seq<VarExp>): Value
  {
    Value(factor.coeff, MonomialOccurrences(factor.monomial) + Occurrences(kept))
  }

  /**
   * `substitute(map<Variable, SubstitutionType>, Coefficient factor)`.  The
   * result denotes `factor` times the monomial with the substituted variables
   * replaced by their values; it is constant exactly when every variable is
   * substituted; otherwise its monomial is valid and holds the kept pairs in
   * order.  When no variable of the monomial is substituted the result is the
   * monomial itself with coefficient `factor`.
   */
  method SubstituteValues(m: Monomial, subs: map<Variable, real>, factor: real) returns (t: Term)
    requires ValidMonomial(m)
    ensures Denote(t) == Instantiate(Value(factor, multiset{}), m.exponents, ValueImages(subs))
    ensures t.monomial.None? <==> Kept(m.exponents, subs) == []
    ensures t.monomial.Some? ==> ValidMonomial(t.monomial.value) && t.monomial.value.exponents == Kept(m.exponents, subs)
    ensures (forall i :: 0 <= i < |m.exponents| ==> m.exponents[i].v !in subs) ==> t == Term(factor, Some(m))
  {
    var kept, f, degree := CollectValueSubstitution(m, subs, factor);
    KeptResult(m, subs);
    if degree == 0 {
      t := Term(f, None);
    } else {
      t := Term(f, Some(Monomial(kept, degree)));
    }
    assert Denote(t) == Accumulated(Term(f, None), kept);
    if forall i :: 0 <= i < |m.exponents| ==> m.exponents[i].v !in subs {
      SubstituteNothing(m, subs, factor, f);
    }
  }

  /**
   * The loop of the value overload: the kept pairs, the coefficient `f`
   * (`factor` times the powers of the substituted values), and the remaining
   * total degree.  The coefficient times the kept occurrences is the
   * instantiated monomial.
   */
  method CollectValueSubstitution(m: Monomial, subs: map<Variable, real>, factor: real) returns (kept: seq<VarExp>, f: real, degree: int)
    ensures kept == Kept(m.exponents, subs)
    ensures degree == m.totalDegree - SubstDegree(m.exponents, subs)
    ensures Accumulated(Term(f, None), kept) == Instantiate(Value(factor, multiset{}), m.exponents, ValueImages(subs))
  {
    var es := m.exponents;
    ghost var sigma := ValueImages(subs);
    kept := [];
    degree := m.totalDegree;
    f := factor;
    assert es[0..] == es && kept + Kept(es, subs) == Kept(es, subs);
    assert Accumulated(Term(f, None), kept) == Value(factor, multiset{});
    for i := 0 to |es|
      invariant kept + Kept(es[i..], subs) == Kept(es, subs)
      invariant degree - SubstDegree(es[i..], subs) == m.totalDegree - SubstDegree(es, subs)
      invariant Instantiate(Accumulated(Term(f, None), kept), es[i..], sigma) == Instantiate(Value(factor, multiset{}), es, sigma)
    {
      var ve := es[i];
      WalkStep(kept, es, i, subs);
      if ve.v in subs {
        var p := Pow(subs[ve.v], ve.exp);
        ValueStep(f, kept, ve, subs, p);
        Advance(Accumulated(Term(f, None), kept), Accumulated(Term(f * p, None), kept), es, i, sigma);
        f := f * p;
        degree := degree - ve.exp;
      } else {
        KeptStep(Term(f, None), kept, ve, sigma);
        Advance(Accumulated(Term(f, None), kept), Accumulated(Term(f, None), kept + [ve]), es, i, sigma);
        kept := kept + [ve];
      }
    }
    assert kept + [] == kept;
  }

  /** With none of the monomial's variables substituted, the walk keeps every pair and leaves the coefficient alone. */
  lemma SubstituteNothing(m: Monomial, subs: map<Variable, real>, factor: real, f: real)
    requires forall i :: 0 <= i < |m.exponents| ==> m.exponents[i].v !in subs
    requires Value(f, Occurrences(Kept(m.exponents, subs))) == Instantiate(Value(factor, multiset{}), m.exponents, ValueImages(subs))
    ensures Kept(m.exponents, subs) == m.exponents
    ensures SubstDegree(m.exponents, subs) == 0
    ensures f == factor
  {
    KeptAll(m.exponents, subs);
    InstantiateUnsubstituted(Value(factor, multiset{}), m.exponents, ValueImages(subs));
  }

  /**
   * What remains after a walk: the remaining degree is 0 exactly when
   * nothing is kept, and otherwise the kept pairs with that degree form a
   * valid monomial.
   */
  lemma KeptResult<S>(m: Monomial, subs: map<Variable, S>)
    requires ValidMonomial(m)
    ensures m.totalDegree - SubstDegree(m.exponents, subs) >= 0
    ensures m.totalDegree - SubstDegree(m.exponents, subs) == 0 <==> Kept(m.exponents, subs) == []
    ensures Kept(m.exponents, subs) != [] ==> ValidMonomial(Monomial(Kept(m.exponents, subs), m.totalDegree - SubstDegree(m.exponents, subs)))
  {
    var es := m.exponents;
    DegreeSplit(es, subs);
    KeptSorted(es, subs);
    KeptPositive(es, subs);
    if m.totalDegree - SubstDegree(es, subs) == 0 {
      KeptEmptyAtDegreeZero(es, subs);
    }
  }

  /** One pair of a walk: the suffix from `i` folds its head into the accumulator. */
  lemma Advance(acc: Value, next: Value, es: seq<VarExp>, i: nat, sigma: map<Variable, Value>)
    requires i < |es|
    requires MulValue(acc, PowValue(Image(es[i].v, sigma), es[i].exp)) == next
    ensures Instantiate(acc, es[i..], sigma) == Instantiate(next, es[i + 1..], sigma)
  {
    assert es[i..][0] == es[i] && es[i..][1..] == es[i + 1..];
  }

  /** A substituted value's power `p` multiplies the coefficient. */
  lemma ValueStep(f: real, kept: seq<VarExp>, ve: VarExp, subs: map<Variable, real>, p: real)
    requires ve.v in subs && p == Pow(subs[ve.v], ve.exp)
    ensures MulValue(Accumulated(Term(f, None), kept), PowValue(Image(ve.v, ValueImages(subs)), ve.exp))
            == Accumulated(Term(f * p, None), kept)
  {
    var img := Image(ve.v, ValueImages(subs));
    assert img == Value(subs[ve.v], multiset{});
    ScaleEmpty(ve.exp);
    assert PowValue(img, ve.exp) == Value(p, multiset{});
  }

  /** A substituted term's power multiplies the factor. */
  lemma TermStep(factor: Term, kept: seq<VarExp>, ve: VarExp, subs: map<Variable, Term>)
    requires ve.v in subs
    ensures MulValue(Accumulated(factor, kept), PowValue(Image(ve.v, TermImages(subs)), ve.exp))
            == Accumulated(TermMul(factor, TermPow(subs[ve.v], ve.exp)), kept)
  {
    var power := TermPow(subs[ve.v], ve.exp);
    DenoteTermPow(subs[ve.v], ve.exp);
    DenoteTermMul(factor, power);
    assert Image(ve.v, TermImages(subs)) == Denote(subs[ve.v]);
  }

  /** A kept pair's power is its variable repeated, and joins the kept occurrences. */
  lemma KeptStep(factor: Term, kept: seq<VarExp>, ve: VarExp, sigma: map<Variable, Value>)
    requires ve.v !in sigma
    ensures MulValue(Accumulated(factor, kept), PowValue(Image(ve.v, sigma), ve.exp)) == Accumulated(factor, kept + [ve])
  {
    PowOne(ve.exp);
    assert multiset{ve.v} == Repeat(ve.v, 1);
    ScaleRepeat(ve.v, 1, ve.exp);
    OccurrencesAppend(kept, [ve]);
    assert Occurrences([ve]) == Repeat(ve.v, ve.exp) + Occurrences([]);
  }

  /** One pair of a walk, for the kept pairs and the substituted degree of the suffix from `i`. */
  lemma WalkStep<S>(kept: seq<VarExp>, es: seq<VarExp>, i: nat, subs: map<Variable, S>)
    requires i < |es|
    ensures es[i].v in subs ==>
      && kept + Kept(es[i..], subs) == kept + Kept(es[i + 1..], subs)
      && SubstDegree(es[i..], subs) == es[i].exp + SubstDegree(es[i + 1..], subs)
    ensures es[i].v !in subs ==>
      && kept + Kept(es[i..], subs) == (kept + [es[i]]) + Kept(es[i + 1..], subs)
      && SubstDegree(es[i..], subs) == SubstDegree(es[i + 1..], subs)
  {
    assert es[i..][0] == es[i] && es[i..][1..] == es[i + 1..];
    if es[i].v !in subs {
      assert kept + ([es[i]] + Kept(es[i + 1..], subs)) == (kept + [es[i]]) + Kept(es[i + 1..], subs);
    }
  }

  /** A pair is kept exactly when it occurs in the list and its variable is not substituted. */
  lemma {:induction false} KeptMembers<S>(es: seq<VarExp>, subs: map<Variable, S>, x: VarExp)
    ensures x in Kept(es, subs) <==> x in es && x.v !in subs
    decreases |es|
  {
    if es != [] {
      KeptMembers(es[1..], subs, x);
      assert es == [es[0]] + es[1..];
    }
  }

  /** With none of its variables substituted every pair is kept. */
  lemma {:induction false} KeptAll<S>(es: seq<VarExp>, subs: map<Variable, S>)
    requires forall i :: 0 <= i < |es| ==> es[i].v !in subs
    ensures Kept(es, subs) == es
    ensures SubstDegree(es, subs) == 0
    decreases |es|
  {
    if es != [] {
      KeptAll(es[1..], subs);
      assert es == [es[0]] + es[1..];
    }
  }

  /** The exponents of a list split into those kept and those substituted. */
  lemma {:induction false} DegreeSplit<S>(es: seq<VarExp>, subs: map<Variable, S>)
    ensures DegreeSum(es) == DegreeSum(Kept(es, subs)) + SubstDegree(es, subs)
    decreases |es|
  {
    if es != [] {
      DegreeSplit(es[1..], subs);
      var k := Kept(es[1..], subs);
      assert ([es[0]] + k)[1..] == k;
    }
  }

  /** Kept pairs carry positive exponents when the monomial's do. */
  lemma {:induction false} KeptPositive<S>(es: seq<VarExp>, subs: map<Variable, S>)
    requires forall i :: 0 <= i < |es| ==> es[i].exp > 0
    ensures forall i :: 0 <= i < |Kept(es, subs)| ==> Kept(es, subs)[i].exp > 0
  {
    var k := Kept(es, subs);
    forall i | 0 <= i < |k|
      ensures k[i].exp > 0
    {
      KeptMembers(es, subs, k[i]);
    }
  }

  /** When the remaining degree is 0 nothing is kept (the assertion in the source). */
  lemma {:induction false} KeptEmptyAtDegreeZero<S>(es: seq<VarExp>, subs: map<Variable, S>)
    requires forall i :: 0 <= i < |es| ==> es[i].exp > 0
    requires DegreeSum(es) - SubstDegree(es, subs) == 0
    ensures Kept(es, subs) == []
  {
    DegreeSplit(es, subs);
    KeptPositive(es, subs);
  }

  /** The kept pairs of a strictly sorted list are strictly sorted. */
  lemma {:induction false} KeptSorted<S>(es: seq<VarExp>, subs: map<Variable, S>)
    requires StrictlySorted(es)
    ensures StrictlySorted(Kept(es, subs))
    decreases |es|
  {
    if es != [] {
      var h, rest := es[0], es[1..];
      KeptSorted(rest, subs);
      if h.v !in subs {
        var k := Kept(rest, subs);
        forall i | 0 <= i < |k|
          ensures h.v < k[i].v
        {
          KeptMembers(rest, subs, k[i]);
        }
        var r := [h] + k;
        forall i, j | 0 <= i < j < |r|
          ensures r[i].v < r[j].v
        {
          assert r[j] == k[j - 1];
          if i > 0 {
            assert r[i] == k[i - 1];
          }
        }
      }
    }
  }

  /** Kept depends only on which variables are substituted. */
  lemma {:induction false} KeptKeysOnly<S, U>(es: seq<VarExp>, subs: map<Variable, S>, other: map<Variable, U>)
    requires subs.Keys == other.Keys
    ensures Kept(es, subs) == Kept(es, other)
    decreases |es|
  {
    if es != [] {
      KeptKeysOnly(es[1..], subs, other);
    }
  }

  /** With none of its variables substituted, a list instantiates to its own occurrences. */
  lemma {:induction false} InstantiateUnsubstituted(acc: Value, es: seq<VarExp>, sigma: map<Variable, Value>)
    requires forall i :: 0 <= i < |es| ==> es[i].v !in sigma
    ensures Instantiate(acc, es, sigma) == Value(acc.coeff, acc.vars + Occurrences(es))
    decreases |es|
  {
    if es != [] {
      var h := es[0];
      var next := MulValue(acc, PowValue(Image(h.v, sigma), h.exp));
      PowOne(h.exp);
      assert multiset{h.v} == Repeat(h.v, 1);
      ScaleRepeat(h.v, 1, h.exp);
      assert next == Value(acc.coeff, acc.vars + Repeat(h.v, h.exp));
      InstantiateUnsubstituted(next, es[1..], sigma);
    }
  }

  // ---------------------------------------------------------------------
  // The overload substituting terms.

  /**
   * The loop shared by both versions of the term overload: the kept pairs,
   * the product `factor` of the powers of the substituted terms, and the
   * remaining total degree.  The factor times the kept occurrences is the
   * instantiated monomial.
   */
  method CollectTermSubstitution(m: Monomial, subs: map<Variable, Term>) returns (kept: seq<VarExp>, factor: Term, degree: int)
    requires ValidMonomial(m)
    ensures kept == Kept(m.exponents, subs)
    ensures degree == m.totalDegree - SubstDegree(m.exponents, subs)
    ensures Accumulated(factor, kept) == Instantiate(One, m.exponents, TermImages(subs))
  {
    var es := m.exponents;
    ghost var sigma := TermImages(subs);
    kept := [];
    factor := Term(1.0, None);
    degree := m.totalDegree;
    assert es[0..] == es && kept + Kept(es, subs) == Kept(es, subs);
    assert Accumulated(factor, kept) == One;
    for i := 0 to |es|
      invariant kept + Kept(es[i..], subs) == Kept(es, subs)
      invariant degree - SubstDegree(es[i..], subs) == m.totalDegree - SubstDegree(es, subs)
      invariant Instantiate(Accumulated(factor, kept), es[i..], sigma) == Instantiate(One, es, sigma)
    {
      var ve := es[i];
      WalkStep(kept, es, i, subs);
      if ve.v in subs {
        var power := TermPow(subs[ve.v], ve.exp);
        TermStep(factor, kept, ve, subs);
        Advance(Accumulated(factor, kept), Accumulated(TermMul(factor, power), kept), es, i, sigma);
        factor := TermMul(factor, power);
        degree := degree - ve.exp;
      } else {
        KeptStep(factor, kept, ve, sigma);
        Advance(Accumulated(factor, kept), Accumulated(factor, kept + [ve]), es, i, sigma);
        kept := kept + [ve];
      }
    }
    assert kept + [] == kept;
  }

  /** The kept monomial times the factor denotes the accumulator, scaled by `coeff`. */
  lemma ProductDenotes(coeff: real, factor: Term, kept: seq<VarExp>, degree: nat)
    ensures Denote(Term(coeff * factor.coeff, MulMonomial(Some(Monomial(kept, degree)), factor.monomial)))
            == MulValue(Value(coeff, multiset{}), Accumulated(factor, kept))
  {
    MulMonomialOccurrences(Some(Monomial(kept, degree)), factor.monomial);
  }

  /**
   * `substitute(map<Variable, Term<Coefficient>>, const Coefficient& coeff)`
   * as written.  While some variable is kept the result denotes `coeff` times
   * the instantiated monomial; once every variable is substituted it keeps
   * only the coefficient of that product and drops its variables.
   */
  method SubstituteTerms(m: Monomial, subs: map<Variable, Term>, coeff: real) returns (t: Term)
    requires ValidMonomial(m)
    ensures Kept(m.exponents, subs) != [] ==> Denote(t) == MulValue(Value(coeff, multiset{}), Instantiate(One, m.exponents, TermImages(subs)))
    ensures Kept(m.exponents, subs) == [] ==> t == Term(coeff * Instantiate(One, m.exponents, TermImages(subs)).coeff, None)
  {
    var kept, factor, degree := CollectTermSubstitution(m, subs);
    KeptResult(m, subs);
    if degree == 0 {
      t := Term(coeff * factor.coeff, None);
    } else if factor.monomial.Some? {
      t := Term(coeff * factor.coeff, MulMonomial(Some(Monomial(kept, degree)), factor.monomial));
      ProductDenotes(coeff, factor, kept, degree);
    } else {
      t := Term(coeff * factor.coeff, Some(Monomial(kept, degree)));
      ProductDenotes(coeff, factor, kept, degree);
    }
  }

  /**
   * The term overload with the factor's monomial kept when nothing else is:
   * the result always denotes `coeff` times the instantiated monomial.
   */
  method SubstituteTermsCorrected(m: Monomial, subs: map<Variable, Term>, coeff: real) returns (t: Term)
    requires ValidMonomial(m)
    ensures Denote(t) == MulValue(Value(coeff, multiset{}), Instantiate(One, m.exponents, TermImages(subs)))
  {
    var kept, factor, degree := CollectTermSubstitution(m, subs);
    KeptResult(m, subs);
    if degree == 0 {
      t := Term(coeff * factor.coeff, factor.monomial);
      assert Denote(t) == MulValue(Value(coeff, multiset{}), Accumulated(factor, kept));
    } else {
      t := Term(coeff * factor.coeff, MulMonomial(Some(Monomial(kept, degree)), factor.monomial));
      ProductDenotes(coeff, factor, kept, degree);
    }
  }

  /**
   * The term overload as written loses the factor's monomial: substituting
   * `y` (variable 1) for `x` (variable 0) in the monomial `x` keeps nothing,
   * so the as-written result is the constant 1, while the instantiated
   * monomial is `y`.
   */
  lemma SubstituteTermsDropsFactor()
    ensures var m := Monomial([VarExp(0, 1)], 1);
            var subs := map[0 := Term(1.0, Some(Monomial([VarExp(1, 1)], 1)))];
            && ValidMonomial(m)
            && Kept(m.exponents, subs) == []
            && Instantiate(One, m.exponents, TermImages(subs)) == Value(1.0, multiset{1})
  {
    var y := Term(1.0, Some(Monomial([VarExp(1, 1)], 1)));
    var subs := map[0 := y];
    var es := [VarExp(0, 1)];
    assert es[1..] == [];
    assert Occurrences([VarExp(1, 1)]) == multiset{1};
    assert Denote(y) == Value(1.0, multiset{1});
    assert Scale(multiset{1}, 1) == multiset{1};
  }
}
