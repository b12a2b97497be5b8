/**
 * carl's StringParser: reads polynomials and rational functions written as
 * text, such as "3*x^2*y + (1/2)*z / x + 1".
 *
 * Text is cut at '/' into numerator and denominator, each of those at '+'
 * into terms, each term at '*' into factors, and a factor at '^' into a
 * variable and its exponent.  A factor that names a known variable is that
 * variable; any other factor without '^' is a coefficient.  Every rejection
 * is an InvalidInputStringException, modelled as a `ParseError`.
 *
 * The parser object holds the known variables and the parsing modes;
 * `SetVariables` registers names with the shared variable pool.  Parsing
 * changes nothing, and each parse method is proved equal to a function
 * (`ParseTermAsWrittenOf`, `ParseTermOf`, `PolynomialOf`,
 * `RationalFunctionOf`) whose properties are the lemmas of this module.
 *
 * parseTerm as written never rejects a repeated variable: the result of
 * std::unique is dropped, and the pairs it rewrote in place become the
 * monomial.  `ParseTerm` models that, and the parser's polynomial and
 * rational-function readers use it, as the source does.
 * `ParseTermCorrected` rejects the repeated variable as the check intends;
 * the reading functions take a `TermMode` that picks one of the two, and
 * the agreement lemmas say where the two readings differ.
 *
 * Converting coefficient text to a number (rationalize) is a parameter.
 * The model follows a build without assertions: the asserts and the logged
 * assertions of the parser are not preconditions here.
 */
module Parser {
  import opened Wrappers
  import opened Terms
  import opened Text
  import opened Polynomials

  /** The messages an InvalidInputStringException is thrown with. */
  datatype ErrorKind =
    | MultipleDivisions    // "Multiple divisions, unclear which is division"
    | DenominatorZero      // "Denominator is zero"
    | TwoCarats            // "Two carats in one variable-exponent pair"
    | ExponentNotNumber    // "Exponent is not a number"
    | UnknownVariable      // "Unknown variable"
    | NoCoefficient        // "Could not build coefficient"
    | VariableOccursTwice  // "Variable occurs twice"

  /** The exception: its message, the offending substring and the input it was found in (empty until filled in). */
  datatype ParseError = ParseError(kind: ErrorKind, substring: string, input: string)

  /** A term as read: its coefficient and its variable-exponent pairs in reading order. */
  datatype ParsedTerm = ParsedTerm(coeff: real, factors: seq<VarExp>)

  /** The term's normal form: its coefficient times the product of its pairs. */
  function TermValue(t: ParsedTerm): Value
  {
    Value(t.coeff, Occurrences(t.factors))
  }

  /** A polynomial, or a quotient of two polynomials. */
  datatype RationalFunction = RationalFunction(numerator: Poly, denominator: Option<Poly>)

  /** rationalize<C>: the number a coefficient text stands for, `None` when the conversion throws. */
  type Rationalize = string -> Option<real>

  /** The text constructCoefficient converts: without its enclosing parentheses when it starts with '('. */
  function StripParentheses(s: string): string
  {
    if |s| > 0 && s[0] == '(' then s[1..if |s| >= 2 then |s| - 1 else 1] else s
  }

  /** constructCoefficient: a failed conversion is reported with the text that was converted. */
  function ConstructCoefficient(rationalize: Rationalize, s: string): Result<real, ParseError>
  {
    var body := StripParentheses(s);
    match rationalize(body)
    case Some(c) => Ok(c)
    case None => Err(ParseError(NoCoefficient, body, ""))
  }

  /** Parentheses around a coefficient make no difference. */
  lemma ParenthesesStripped(rationalize: Rationalize, t: string)
    requires t == [] || t[0] != '('
    ensures ConstructCoefficient(rationalize, "(" + t + ")") == ConstructCoefficient(rationalize, t)
  {
    assert ("(" + t + ")")[1..|t| + 1] == t;
  }

  /** What one '*'-separated factor contributes to its term. */
  datatype Factor = Coefficient(c: real) | Power(pair: VarExp)

  /** One factor of a term, read as the loop body of parseTerm reads it. */
  function ReadFactor(vars: map<string, Variable>, rationalize: Rationalize, piece: string): Result<Factor, ParseError>
  {
    var varAndExp := Split(piece, '^');
    if |varAndExp| > 2 then Err(ParseError(TwoCarats, piece, ""))
    else if |varAndExp| == 1 then
      if piece in vars then Ok(Power(VarExp(vars[piece], 1)))
      else
        match ConstructCoefficient(rationalize, piece)
        case Ok(c) => Ok(Coefficient(c))
        case Err(e) => Err(e)
    else if varAndExp[0] in vars then
      match LexicalCastUnsigned(varAndExp[1])
      case Some(e) => Ok(Power(VarExp(vars[varAndExp[0]], e)))
      case None => Err(ParseError(ExponentNotNumber, piece, ""))
    else Err(ParseError(UnknownVariable, varAndExp[0], ""))
  }

  /** The reader of one factor, as a function value. */
  function FactorReader(vars: map<string, Variable>, rationalize: Rationalize): string -> Result<Factor, ParseError>
  {
    piece => ReadFactor(vars, rationalize, piece)
  }

  /** The term read so far with one more factor: a coefficient multiplies it, a power is appended to it. */
  function Apply(t: ParsedTerm, f: Factor): ParsedTerm
  {
    match f
    case Coefficient(c) => ParsedTerm(t.coeff * c, t.factors)
    case Power(p) => ParsedTerm(t.coeff, t.factors + [p])
  }

  /** The factors applied from left to right to the constant 1. */
  function Combine(fs: seq<Factor>): ParsedTerm
  {
    if fs == [] then ParsedTerm(1.0, []) else Apply(Combine(fs[..|fs| - 1]), fs[|fs| - 1])
  }

  lemma CombineStep(fs: seq<Factor>, f: Factor)
    ensures Combine(fs + [f]) == Apply(Combine(fs), f)
  {
    assert (fs + [f])[..|fs|] == fs;
  }

  /** The factors between '*' read from left to right; the first one that fails decides the error. */
  function CollectFactors(vars: map<string, Variable>, rationalize: Rationalize, pieces: seq<string>): Result<ParsedTerm, ParseError>
  {
    match MapAll(FactorReader(vars, rationalize), pieces)
    case Err(e) => Err(e)
    case Ok(fs) => Ok(Combine(fs))
  }

  /** The factors parseTerm reads: none in implicit multiplication mode (the constant 1), otherwise those between '*'. */
  function FactorsOf(vars: map<string, Variable>, implicit: bool, rationalize: Rationalize, s: string): Result<ParsedTerm, ParseError>
  {
    if implicit then Ok(ParsedTerm(1.0, [])) else CollectFactors(vars, rationalize, Split(s, '*'))
  }

  /** No variable occurs in two of the pairs. */
  predicate DistinctVariables(ps: seq<VarExp>)
  {
    forall i, j :: 0 <= i < j < |ps| ==> ps[i].v != ps[j].v
  }

  /**
   * parseTerm as its "Variable occurs twice" check intends: the factors
   * between '*', and a term in which a variable occurs twice is rejected
   * with the whole term text.
   */
  function ParseTermOf(vars: map<string, Variable>, implicit: bool, rationalize: Rationalize, s: string): Result<ParsedTerm, ParseError>
  {
    match FactorsOf(vars, implicit, rationalize, s)
    case Err(e) => Err(e)
    case Ok(t) => if DistinctVariables(t.factors) then Ok(t) else Err(ParseError(VariableOccursTwice, s, ""))
  }

  /** Pairs ordered by descending variable, as parseTerm's comparator `p1.first > p2.first` sorts them. */
  predicate Descending(ps: seq<VarExp>)
  {
    forall i :: 0 < i < |ps| ==> ps[i - 1].v >= ps[i].v
  }

  /** One pair placed into pairs sorted by descending variable, in front of those of its own variable. */
  function InsertDescending(p: VarExp, qs: seq<VarExp>): (r: seq<VarExp>)
    ensures |r| == |qs| + 1 && multiset(r) == multiset(qs) + multiset{p}
  {
    if qs == [] || qs[0].v <= p.v then [p] + qs
    else
      assert qs == [qs[0]] + qs[1..];
      [qs[0]] + InsertDescending(p, qs[1..])
  }

  /**
   * std::sort with parseTerm's comparator: a permutation of the pairs (see
   * SortDescendingSorted for the order).  The standard leaves the order
   * among pairs of one variable open; this one keeps their reading order.
   */
  function SortDescending(ps: seq<VarExp>): (r: seq<VarExp>)
    ensures |r| == |ps| && multiset(r) == multiset(ps)
  {
    if ps == [] then []
    else
      assert ps == [ps[0]] + ps[1..];
      InsertDescending(ps[0], SortDescending(ps[1..]))
  }

  /** The inserted pair, or the one that was first, comes first; the others follow in their order. */
  lemma InsertDescendingHead(p: VarExp, qs: seq<VarExp>)
    ensures var r := InsertDescending(p, qs);
            && (r[0] == p || (qs != [] && r[0] == qs[0]))
            && (qs != [] && qs[0].v > p.v ==> r == [qs[0]] + InsertDescending(p, qs[1..]))
            && (forall x :: x in r ==> x == p || x in qs)
  {
    var r := InsertDescending(p, qs);
    forall x | x in r ensures x == p || x in qs {
      assert x in multiset(r);
    }
  }

  /** Inserting keeps pairs sorted by descending variable. */
  lemma {:induction false} InsertDescendingSorted(p: VarExp, qs: seq<VarExp>)
    requires Descending(qs)
    ensures Descending(InsertDescending(p, qs))
    decreases |qs|
  {
    InsertDescendingHead(p, qs);
    if qs != [] && qs[0].v > p.v {
      var rest := InsertDescending(p, qs[1..]);
      InsertDescendingSorted(p, qs[1..]);
      InsertDescendingHead(p, qs[1..]);
      assert rest[0].v <= qs[0].v;
      var r := [qs[0]] + rest;
      forall i | 0 < i < |r| ensures r[i - 1].v >= r[i].v {
        if i > 1 {
          assert r[i - 1] == rest[i - 2] && r[i] == rest[i - 1];
        }
      }
    }
  }

  /** Inserting a pair of a new variable keeps the variables distinct. */
  lemma {:induction false} InsertDescendingDistinct(p: VarExp, qs: seq<VarExp>)
    requires DistinctVariables(qs) && forall q :: q in qs ==> q.v != p.v
    ensures DistinctVariables(InsertDescending(p, qs))
    decreases |qs|
  {
    InsertDescendingHead(p, qs);
    if qs != [] && qs[0].v > p.v {
      var rest := InsertDescending(p, qs[1..]);
      InsertDescendingDistinct(p, qs[1..]);
      InsertDescendingHead(p, qs[1..]);
      var r := [qs[0]] + rest;
      forall i, j | 0 <= i < j < |r| ensures r[i].v != r[j].v {
        if i == 0 {
          assert r[j] == rest[j - 1] && r[j] in rest;
        } else {
          assert r[i] == rest[i - 1] && r[j] == rest[j - 1];
        }
      }
    }
  }

  /** The sorted pairs are by descending variable, and distinct variables stay distinct. */
  lemma {:induction false} SortDescendingSorted(ps: seq<VarExp>)
    ensures Descending(SortDescending(ps))
    ensures DistinctVariables(ps) ==> DistinctVariables(SortDescending(ps))
    decreases |ps|
  {
    if ps != [] {
      var rest := SortDescending(ps[1..]);
      SortDescendingSorted(ps[1..]);
      InsertDescendingSorted(ps[0], rest);
      assert forall q :: q in rest ==> q in ps[1..] by {
        forall q | q in rest ensures q in ps[1..] {
          assert q in multiset(rest);
        }
      }
      if DistinctVariables(ps) {
        assert DistinctVariables(ps[1..]);
        assert forall q :: q in ps[1..] ==> q.v != ps[0].v;
        InsertDescendingDistinct(ps[0], rest);
      }
    }
  }

  /** The range std::unique keeps: every run of equal neighbouring pairs reduced to one. */
  function UniqueRuns(ps: seq<VarExp>): (r: seq<VarExp>)
    ensures |r| <= |ps|
  {
    if |ps| <= 1 then ps
    else if ps[0] == ps[1] then UniqueRuns(ps[1..])
    else [ps[0]] + UniqueRuns(ps[1..])
  }

  /**
   * std::unique with its result dropped, as parseTerm calls it: the kept
   * pairs move to the front, and the positions behind them still hold the
   * pairs that were there (no element is written past the kept range), so
   * the vector keeps its length.
   */
  function UniqueInPlace(ps: seq<VarExp>): (r: seq<VarExp>)
    ensures |r| == |ps|
  {
    var kept := UniqueRuns(ps);
    kept + ps[|kept|..]
  }

  /** The pairs parseTerm hands to createMonomial: sorted, then rewritten by std::unique. */
  function AsWrittenPairs(ps: seq<VarExp>): seq<VarExp>
  {
    UniqueInPlace(SortDescending(ps))
  }

  /** parseTerm as written: the sorted pairs after std::unique; the size check compares equal sizes, so nothing is rejected. */
  function ParseTermAsWrittenOf(vars: map<string, Variable>, implicit: bool, rationalize: Rationalize, s: string): Result<ParsedTerm, ParseError>
  {
    match FactorsOf(vars, implicit, rationalize, s)
    case Err(e) => Err(e)
    case Ok(t) => Ok(ParsedTerm(t.coeff, AsWrittenPairs(t.factors)))
  }

  /** Without equal neighbours std::unique keeps everything. */
  lemma {:induction false} UniqueRunsKeepsAll(ps: seq<VarExp>)
    requires forall i :: 0 < i < |ps| ==> ps[i - 1] != ps[i]
    ensures UniqueRuns(ps) == ps
    decreases |ps|
  {
    if |ps| > 1 {
      UniqueRunsKeepsAll(ps[1..]);
      assert ps == [ps[0]] + ps[1..];
    }
  }

  /** Placing a pair among others multiplies their monomial by it. */
  lemma {:induction false} InsertOccurrences(p: VarExp, qs: seq<VarExp>)
    ensures Occurrences(InsertDescending(p, qs)) == Repeat(p.v, p.exp) + Occurrences(qs)
    decreases |qs|
  {
    var r := InsertDescending(p, qs);
    if qs == [] || qs[0].v <= p.v {
      assert r[1..] == qs;
    } else {
      InsertOccurrences(p, qs[1..]);
      assert r[1..] == InsertDescending(p, qs[1..]);
    }
  }

  /** Sorting the pairs leaves the monomial they denote unchanged. */
  lemma {:induction false} SortOccurrences(ps: seq<VarExp>)
    ensures Occurrences(SortDescending(ps)) == Occurrences(ps)
    decreases |ps|
  {
    if ps != [] {
      SortOccurrences(ps[1..]);
      InsertOccurrences(ps[0], SortDescending(ps[1..]));
    }
  }

  /** Without a repeated variable std::unique changes nothing, and the pairs as written denote the monomial the text spells. */
  lemma AsWrittenWithoutRepeats(ps: seq<VarExp>)
    requires DistinctVariables(ps)
    ensures AsWrittenPairs(ps) == SortDescending(ps)
    ensures Occurrences(AsWrittenPairs(ps)) == Occurrences(ps)
  {
    var sorted := SortDescending(ps);
    SortDescendingSorted(ps);
    assert forall i :: 0 < i < |sorted| ==> sorted[i - 1] != sorted[i] by {
      forall i | 0 < i < |sorted| ensures sorted[i - 1] != sorted[i] {
        assert sorted[i - 1].v != sorted[i].v;
      }
    }
    UniqueRunsKeepsAll(sorted);
    assert sorted[|sorted|..] == [];
    SortOccurrences(ps);
  }

  /**
   * The as-written and the corrected parseTerm fail on the same factors with
   * the same error, and agree on the term's value whenever the corrected
   * one accepts; they differ exactly on the terms that repeat a variable,
   * which only the corrected one rejects.
   */
  lemma ParseTermAgreement(vars: map<string, Variable>, implicit: bool, rationalize: Rationalize, s: string)
    ensures ParseTermAsWrittenOf(vars, implicit, rationalize, s).Err? ==>
              ParseTermAsWrittenOf(vars, implicit, rationalize, s) == ParseTermOf(vars, implicit, rationalize, s)
    ensures ParseTermOf(vars, implicit, rationalize, s).Ok? ==>
              && ParseTermAsWrittenOf(vars, implicit, rationalize, s).Ok?
              && TermValue(ParseTermAsWrittenOf(vars, implicit, rationalize, s).value) == TermValue(ParseTermOf(vars, implicit, rationalize, s).value)
    ensures ParseTermOf(vars, implicit, rationalize, s).Err? && ParseTermAsWrittenOf(vars, implicit, rationalize, s).Ok? <==>
              FactorsOf(vars, implicit, rationalize, s).Ok? && !DistinctVariables(FactorsOf(vars, implicit, rationalize, s).value.factors)
    ensures ParseTermOf(vars, implicit, rationalize, s).Err? && ParseTermOf(vars, implicit, rationalize, s).error.kind != VariableOccursTwice ==>
              ParseTermAsWrittenOf(vars, implicit, rationalize, s) == ParseTermOf(vars, implicit, rationalize, s)
  {
    var f := FactorsOf(vars, implicit, rationalize, s);
    if f.Ok? && DistinctVariables(f.value.factors) {
      AsWrittenWithoutRepeats(f.value.factors);
    }
  }

  /** `e` is the error of the factor at i, and every factor before it reads. */
  predicate FailsFirstAt(vars: map<string, Variable>, rationalize: Rationalize, pieces: seq<string>, i: int, e: ParseError)
  {
    && 0 <= i < |pieces|
    && ReadFactor(vars, rationalize, pieces[i]) == Err(e)
    && forall j :: 0 <= j < i ==> ReadFactor(vars, rationalize, pieces[j]).Ok?
  }

  /** A term is rejected exactly with the error of its first factor that does not read. */
  lemma CollectFactorsError(vars: map<string, Variable>, rationalize: Rationalize, pieces: seq<string>, e: ParseError)
    ensures CollectFactors(vars, rationalize, pieces) == Err(e) <==> exists i :: FailsFirstAt(vars, rationalize, pieces, i, e)
  {
    var f := FactorReader(vars, rationalize);
    MapAllError(f, pieces, e);
    if exists i :: FailsFirstAt(vars, rationalize, pieces, i, e) {
      var i :| FailsFirstAt(vars, rationalize, pieces, i, e);
      assert f(pieces[i]) == Err(e);
      assert forall j :: 0 <= j < i ==> f(pieces[j]).Ok?;
    }
    if CollectFactors(vars, rationalize, pieces) == Err(e) {
      var i :| 0 <= i < |pieces| && f(pieces[i]) == Err(e) && forall j :: 0 <= j < i ==> f(pieces[j]).Ok?;
      assert FailsFirstAt(vars, rationalize, pieces, i, e);
    }
  }

  /** The factor at i is the first that fails: the term fails with its error. */
  lemma CollectFirstError(vars: map<string, Variable>, rationalize: Rationalize, pieces: seq<string>, i: nat)
    requires i < |pieces| && ReadFactor(vars, rationalize, pieces[i]).Err?
    requires forall j :: 0 <= j < i ==> ReadFactor(vars, rationalize, pieces[j]).Ok?
    ensures CollectFactors(vars, rationalize, pieces) == Err(ReadFactor(vars, rationalize, pieces[i]).error)
  {
    var e := ReadFactor(vars, rationalize, pieces[i]).error;
    CollectFactorsError(vars, rationalize, pieces, e);
    assert FailsFirstAt(vars, rationalize, pieces, i, e);
  }

  /** Every factor reads: the term is their combination. */
  lemma CollectAll(vars: map<string, Variable>, rationalize: Rationalize, pieces: seq<string>, fs: seq<Factor>)
    requires |fs| == |pieces|
    requires forall j :: 0 <= j < |pieces| ==> ReadFactor(vars, rationalize, pieces[j]) == Ok(fs[j])
    ensures CollectFactors(vars, rationalize, pieces) == Ok(Combine(fs))
  {
    var f := FactorReader(vars, rationalize);
    assert forall j :: 0 <= j < |pieces| ==> f(pieces[j]) == Ok(fs[j]);
    MapAllOk(f, pieces, fs);
  }

  /**
   * "x*y*y" with x registered before y (variables 0 and 1).  parseTerm as
   * written sorts the pairs to (y,1),(y,1),(x,1), std::unique rewrites them
   * in place to (y,1),(x,1),(x,1), and the term read is x^2*y instead of the
   * x*y^2 the text spells; the corrected parseTerm rejects the term.
   */
  lemma RepeatedVariableAsWritten(rationalize: Rationalize)
    ensures var vars := map["x" := 0, "y" := 1];
            && FactorsOf(vars, false, rationalize, "x*y*y") == Ok(ParsedTerm(1.0, [VarExp(0, 1), VarExp(1, 1), VarExp(1, 1)]))
            && ParseTermAsWrittenOf(vars, false, rationalize, "x*y*y") == Ok(ParsedTerm(1.0, [VarExp(1, 1), VarExp(0, 1), VarExp(0, 1)]))
            && Occurrences([VarExp(1, 1), VarExp(0, 1), VarExp(0, 1)]) == multiset{0, 0, 1}
            && Occurrences([VarExp(0, 1), VarExp(1, 1), VarExp(1, 1)]) == multiset{0, 1, 1}
            && ParseTermOf(vars, false, rationalize, "x*y*y") == Err(ParseError(VariableOccursTwice, "x*y*y", ""))
  {
    RepeatedVariableFactors(rationalize);
    RepeatedVariablePairs();
  }

  /** The factors of "x*y*y", in reading order. */
  lemma RepeatedVariableFactors(rationalize: Rationalize)
    ensures FactorsOf(map["x" := 0, "y" := 1], false, rationalize, "x*y*y")
            == Ok(ParsedTerm(1.0, [VarExp(0, 1), VarExp(1, 1), VarExp(1, 1)]))
  {
    var vars: map<string, Variable> := map["x" := 0, "y" := 1];
    var pieces := ["x", "y", "y"];
    JoinSplit(pieces, '*');
    assert Join(pieces, '*') == "x*y*y";
    SplitNone("x", '^');
    SplitNone("y", '^');
    var x, y := VarExp(0, 1), VarExp(1, 1);
    var fs := [Power(x), Power(y), Power(y)];
    CollectAll(vars, rationalize, pieces, fs);
    CombineStep([], Power(x));
    assert [] + [Power(x)] == [Power(x)] && [] + [x] == [x];
    assert Combine([Power(x)]) == ParsedTerm(1.0, [x]);
    CombineStep([Power(x)], Power(y));
    assert Combine([Power(x), Power(y)]) == ParsedTerm(1.0, [x, y]);
    CombineStep([Power(x), Power(y)], Power(y));
    assert [Power(x), Power(y)] + [Power(y)] == fs;
    assert Combine(fs) == ParsedTerm(1.0, [x, y, y]);
  }

  /** The pairs (x,1),(y,1),(y,1) after the sort and std::unique, and the monomials before and after. */
  lemma RepeatedVariablePairs()
    ensures AsWrittenPairs([VarExp(0, 1), VarExp(1, 1), VarExp(1, 1)]) == [VarExp(1, 1), VarExp(0, 1), VarExp(0, 1)]
    ensures !DistinctVariables([VarExp(0, 1), VarExp(1, 1), VarExp(1, 1)])
    ensures Occurrences([VarExp(1, 1), VarExp(0, 1), VarExp(0, 1)]) == multiset{0, 0, 1}
    ensures Occurrences([VarExp(0, 1), VarExp(1, 1), VarExp(1, 1)]) == multiset{0, 1, 1}
  {
    var x, y := VarExp(0, 1), VarExp(1, 1);
    RepeatedVariableSorted();
    RepeatedVariableUnique();
    assert AsWrittenPairs([x, y, y]) == UniqueInPlace([y, y, x]);
    assert [x, y, y][1].v == [x, y, y][2].v;
    PairOccurrences(x, y);
    PairOccurrences(y, x);
  }

  lemma RepeatedVariableSorted()
    ensures SortDescending([VarExp(0, 1), VarExp(1, 1), VarExp(1, 1)]) == [VarExp(1, 1), VarExp(1, 1), VarExp(0, 1)]
  {
    var x, y := VarExp(0, 1), VarExp(1, 1);
    assert SortDescending([y]) == [y];
    assert [x, y, y][1..] == [y, y] && [y, y][1..] == [y];
    assert SortDescending([y, y]) == [y, y];
    assert InsertDescending(x, [y]) == [y, x];
    assert InsertDescending(x, [y, y]) == [y, y, x];
  }

  lemma RepeatedVariableUnique()
    ensures UniqueInPlace([VarExp(1, 1), VarExp(1, 1), VarExp(0, 1)]) == [VarExp(1, 1), VarExp(0, 1), VarExp(0, 1)]
  {
    var x, y := VarExp(0, 1), VarExp(1, 1);
    assert [y, y, x][1..] == [y, x] && [y, x][1..] == [x];
    assert UniqueRuns([y, x]) == [y, x];
    assert UniqueRuns([y, y, x]) == [y, x];
    assert [y, y, x][2..] == [x];
  }

  /** The monomial of p, q, q. */
  lemma PairOccurrences(p: VarExp, q: VarExp)
    requires p.exp == 1 && q.exp == 1
    ensures Occurrences([p, q, q]) == multiset{p.v, q.v, q.v}
  {
    assert [p, q, q][1..] == [q, q] && [q, q][1..] == [q] && [q][1..] == [];
    assert Repeat(p.v, 1) == multiset{p.v} && Repeat(q.v, 1) == multiset{q.v};
    assert Occurrences([q]) == multiset{q.v};
    assert Occurrences([q, q]) == multiset{q.v} + Occurrences([q]);
    assert Occurrences([p, q, q]) == multiset{p.v} + Occurrences([q, q]);
  }

  /** The errors of one factor: never about divisions, and without the input text. */
  lemma ReadFactorErrorKinds(vars: map<string, Variable>, rationalize: Rationalize, piece: string)
    ensures ReadFactor(vars, rationalize, piece).Err? ==>
              var e := ReadFactor(vars, rationalize, piece).error;
              e.kind != MultipleDivisions && e.kind != DenominatorZero && e.kind != VariableOccursTwice && e.input == []
  {
  }

  /**
   * The errors of a term: never about divisions, and without the input
   * text; parseTerm as written never reports a repeated variable.
   */
  lemma TermErrorKinds(vars: map<string, Variable>, implicit: bool, rationalize: Rationalize, s: string)
    ensures ParseTermOf(vars, implicit, rationalize, s).Err? ==>
              var e := ParseTermOf(vars, implicit, rationalize, s).error;
              e.kind != MultipleDivisions && e.kind != DenominatorZero && e.input == []
    ensures ParseTermAsWrittenOf(vars, implicit, rationalize, s).Err? ==>
              var e := ParseTermAsWrittenOf(vars, implicit, rationalize, s).error;
              e.kind != MultipleDivisions && e.kind != DenominatorZero && e.kind != VariableOccursTwice && e.input == []
  {
    var f := FactorsOf(vars, implicit, rationalize, s);
    if f.Err? {
      var pieces := Split(s, '*');
      CollectFactorsError(vars, rationalize, pieces, f.error);
      var i :| FailsFirstAt(vars, rationalize, pieces, i, f.error);
      ReadFactorErrorKinds(vars, rationalize, pieces[i]);
    }
  }

  /** The text of `name^e`. */
  function PowerText(name: string, e: nat): string
  {
    name + "^" + ShowNat(e)
  }

  /** The pairs named by `names` and `exps`. */
  function NamedPairs(vars: map<string, Variable>, names: seq<string>, exps: seq<nat>): seq<VarExp>
    requires |names| == |exps| && forall i :: 0 <= i < |names| ==> names[i] in vars
  {
    seq(|names|, i requires 0 <= i < |names| => VarExp(vars[names[i]], exps[i]))
  }

  function PowerTexts(names: seq<string>, exps: seq<nat>): seq<string>
    requires |names| == |exps|
  {
    seq(|names|, i requires 0 <= i < |names| => PowerText(names[i], exps[i]))
  }

  /** A power `name^e` of a known name reads as its pair. */
  lemma ReadPower(vars: map<string, Variable>, rationalize: Rationalize, name: string, e: nat)
    requires name in vars && '^' !in name && e < UINT_RANGE
    ensures ReadFactor(vars, rationalize, PowerText(name, e)) == Ok(Power(VarExp(vars[name], e)))
  {
    var digits := ShowNat(e);
    assert '^' !in digits by {
      forall i | 0 <= i < |digits| ensures digits[i] != '^' { assert IsDigit(digits[i]); }
    }
    JoinSplit([name, digits], '^');
    assert Join([name, digits], '^') == PowerText(name, e);
    CastShowNat(e);
  }

  function Powers(ps: seq<VarExp>): seq<Factor>
  {
    seq(|ps|, i requires 0 <= i < |ps| => Power(ps[i]))
  }

  /** A coefficient followed by powers combines to that coefficient and those pairs. */
  lemma {:induction false} CombinePowers(c: real, ps: seq<VarExp>)
    ensures Combine([Coefficient(c)] + Powers(ps)) == ParsedTerm(c, ps)
    decreases |ps|
  {
    var fs := [Coefficient(c)] + Powers(ps);
    if ps == [] {
      assert Powers(ps) == [] && fs == [Coefficient(c)] && fs[..0] == [];
      assert Combine(fs[..0]) == ParsedTerm(1.0, []);
      var t := Combine(fs);
      assert t == Apply(ParsedTerm(1.0, []), Coefficient(c));
      assert t.coeff == 1.0 * c == c && t.factors == [];
    } else {
      var init := ps[..|ps| - 1];
      CombinePowers(c, init);
      assert fs[..|fs| - 1] == [Coefficient(c)] + Powers(init);
      assert fs[|fs| - 1] == Power(ps[|ps| - 1]);
      var t := Combine(fs);
      assert t.coeff == c && t.factors == init + [ps[|ps| - 1]] == ps;
    }
  }

  /**
   * Round trip: a term printed as `c*x^e*...*y^f`, with a coefficient text
   * that is not a variable name and converts to c, and exponents below 2^32,
   * has exactly that coefficient and those pairs as its factors.  The
   * corrected parseTerm returns them unless a variable repeats, which it
   * rejects; parseTerm as written returns them sorted and rewritten by
   * std::unique.
   */
  lemma TermRoundTrip(vars: map<string, Variable>, rationalize: Rationalize, coeffText: string, c: real,
                      names: seq<string>, exps: seq<nat>)
    requires coeffText !in vars && '*' !in coeffText && '^' !in coeffText
    requires ConstructCoefficient(rationalize, coeffText) == Ok(c)
    requires |names| == |exps|
    requires forall i :: 0 <= i < |names| ==> names[i] in vars && '*' !in names[i] && '^' !in names[i] && exps[i] < UINT_RANGE
    ensures var text := Join([coeffText] + PowerTexts(names, exps), '*');
            var ps := NamedPairs(vars, names, exps);
            && FactorsOf(vars, false, rationalize, text) == Ok(ParsedTerm(c, ps))
            && ParseTermOf(vars, false, rationalize, text)
               == (if DistinctVariables(ps) then Ok(ParsedTerm(c, ps)) else Err(ParseError(VariableOccursTwice, text, "")))
            && ParseTermAsWrittenOf(vars, false, rationalize, text) == Ok(ParsedTerm(c, AsWrittenPairs(ps)))
  {
    var pieces := [coeffText] + PowerTexts(names, exps);
    var ps := NamedPairs(vars, names, exps);
    var fs := [Coefficient(c)] + Powers(ps);
    forall i | 0 <= i < |pieces|
      ensures '*' !in pieces[i]
      ensures ReadFactor(vars, rationalize, pieces[i]) == Ok(fs[i])
    {
      if i == 0 {
        SplitNone(coeffText, '^');
      } else {
        var digits := ShowNat(exps[i - 1]);
        assert '*' !in digits by {
          forall k | 0 <= k < |digits| ensures digits[k] != '*' { assert IsDigit(digits[k]); }
        }
        assert pieces[i] == names[i - 1] + "^" + digits;
        ReadPower(vars, rationalize, names[i - 1], exps[i - 1]);
      }
    }
    JoinSplit(pieces, '*');
    CollectAll(vars, rationalize, pieces, fs);
    CombinePowers(c, ps);
  }

  /** Which parseTerm the polynomial readers use: the one the source has, or the one its check intends. */
  datatype TermMode = AsWritten | Corrected

  /** parseTerm in the given mode. */
  function TermOf(mode: TermMode, vars: map<string, Variable>, implicit: bool, rationalize: Rationalize, s: string): Result<ParsedTerm, ParseError>
  {
    match mode
    case AsWritten => ParseTermAsWrittenOf(vars, implicit, rationalize, s)
    case Corrected => ParseTermOf(vars, implicit, rationalize, s)
  }

  /** The reader of one trimmed term, as a function value. */
  function TermReader(mode: TermMode, vars: map<string, Variable>, implicit: bool, rationalize: Rationalize): string -> Result<ParsedTerm, ParseError>
  {
    piece => TermOf(mode, vars, implicit, rationalize, Trim(piece))
  }

  /** The terms between '+', each trimmed, read from left to right; the first failure decides the error. */
  function TermsOf(mode: TermMode, vars: map<string, Variable>, implicit: bool, rationalize: Rationalize, s: string): Result<seq<ParsedTerm>, ParseError>
  {
    MapAll(TermReader(mode, vars, implicit, rationalize), Split(s, '+'))
  }

  function Values(ts: seq<ParsedTerm>): (r: seq<Value>)
    ensures |r| == |ts| && forall i :: 0 <= i < |ts| ==> r[i] == TermValue(ts[i])
  {
    seq(|ts|, i requires 0 <= i < |ts| => TermValue(ts[i]))
  }

  lemma SumStep(ts: seq<ParsedTerm>, t: ParsedTerm)
    ensures Sum(Values(ts + [t])) == AddTerm(Sum(Values(ts)), TermValue(t))
  {
    assert Values(ts + [t]) == Values(ts) + [TermValue(t)];
    SumSnoc(Values(ts), TermValue(t));
  }

  /**
   * parseMultivariatePolynomial: the sum of the terms between '+'; an error
   * of a term is passed on with the whole polynomial text as its input.
   * Outside sum-of-terms form the result is the zero polynomial.
   */
  function PolynomialOf(mode: TermMode, vars: map<string, Variable>, implicit: bool, sumOfTerms: bool, rationalize: Rationalize, s: string): Result<Poly, ParseError>
  {
    if !sumOfTerms then Ok(map[])
    else
      match TermsOf(mode, vars, implicit, rationalize, s)
      case Err(e) => Err(e.(input := s))
      case Ok(ts) => Ok(Sum(Values(ts)))
  }

  /** The term at i is the first that fails: the polynomial fails with its error, now carrying the polynomial text. */
  lemma PolynomialFirstError(mode: TermMode, vars: map<string, Variable>, implicit: bool, rationalize: Rationalize, s: string, i: nat)
    requires i < |Split(s, '+')| && TermOf(mode, vars, implicit, rationalize, Trim(Split(s, '+')[i])).Err?
    requires forall j :: 0 <= j < i ==> TermOf(mode, vars, implicit, rationalize, Trim(Split(s, '+')[j])).Ok?
    ensures PolynomialOf(mode, vars, implicit, true, rationalize, s) == Err(TermOf(mode, vars, implicit, rationalize, Trim(Split(s, '+')[i])).error.(input := s))
  {
    var f := TermReader(mode, vars, implicit, rationalize);
    var pieces := Split(s, '+');
    var e := TermOf(mode, vars, implicit, rationalize, Trim(pieces[i])).error;
    MapAllError(f, pieces, e);
    assert f(pieces[i]) == Err(e);
    assert forall j :: 0 <= j < i ==> f(pieces[j]).Ok?;
  }

  /** Every term reads: the polynomial is their sum. */
  lemma PolynomialAll(mode: TermMode, vars: map<string, Variable>, implicit: bool, rationalize: Rationalize, s: string, ts: seq<ParsedTerm>)
    requires |ts| == |Split(s, '+')|
    requires forall j :: 0 <= j < |ts| ==> TermOf(mode, vars, implicit, rationalize, Trim(Split(s, '+')[j])) == Ok(ts[j])
    ensures TermsOf(mode, vars, implicit, rationalize, s) == Ok(ts)
    ensures PolynomialOf(mode, vars, implicit, true, rationalize, s) == Ok(Sum(Values(ts)))
  {
    var f := TermReader(mode, vars, implicit, rationalize);
    var pieces := Split(s, '+');
    assert forall j :: 0 <= j < |pieces| ==> f(pieces[j]) == Ok(ts[j]);
    MapAllOk(f, pieces, ts);
  }

  /**
   * Round trip of a sum: texts without '+' that read as the given terms,
   * joined with '+', read as the polynomial whose coefficient on every
   * monomial is the sum of the terms' coefficients on it.
   */
  lemma PolynomialRoundTrip(mode: TermMode, vars: map<string, Variable>, implicit: bool, rationalize: Rationalize,
                            texts: seq<string>, terms: seq<ParsedTerm>)
    requires |texts| == |terms| >= 1
    requires forall i :: 0 <= i < |texts| ==> '+' !in texts[i]
    requires forall i :: 0 <= i < |texts| ==> TermOf(mode, vars, implicit, rationalize, Trim(texts[i])) == Ok(terms[i])
    ensures PolynomialOf(mode, vars, implicit, true, rationalize, Join(texts, '+')) == Ok(Sum(Values(terms)))
    ensures Normal(Sum(Values(terms)))
    ensures forall k :: Coeff(Sum(Values(terms)), k) == CoeffSum(Values(terms), k)
  {
    JoinSplit(texts, '+');
    PolynomialAll(mode, vars, implicit, rationalize, Join(texts, '+'), terms);
    SumCoefficients(Values(terms));
  }

  /**
   * The errors of a polynomial: never about divisions, and carrying the
   * polynomial text; as written, never about a repeated variable.
   */
  lemma PolynomialErrors(mode: TermMode, vars: map<string, Variable>, implicit: bool, sumOfTerms: bool, rationalize: Rationalize, s: string)
    ensures PolynomialOf(mode, vars, implicit, sumOfTerms, rationalize, s).Err? ==>
              var e := PolynomialOf(mode, vars, implicit, sumOfTerms, rationalize, s).error;
              && e.kind != MultipleDivisions && e.kind != DenominatorZero && e.input == s
              && (mode == AsWritten ==> e.kind != VariableOccursTwice)
  {
    if PolynomialOf(mode, vars, implicit, sumOfTerms, rationalize, s).Err? {
      var f := TermReader(mode, vars, implicit, rationalize);
      var pieces := Split(s, '+');
      var e := TermsOf(mode, vars, implicit, rationalize, s).error;
      MapAllError(f, pieces, e);
      var i :| 0 <= i < |pieces| && f(pieces[i]) == Err(e) && forall j :: 0 <= j < i ==> f(pieces[j]).Ok?;
      TermErrorKinds(vars, implicit, rationalize, Trim(pieces[i]));
    }
  }

  /** A reader of polynomials, as parseMultivariatePolynomial is. */
  type PolynomialReader = string -> Result<Poly, ParseError>

  /** The reader parseMultivariatePolynomial is, for fixed parser settings. */
  function ReadPolynomial(mode: TermMode, vars: map<string, Variable>, implicit: bool, sumOfTerms: bool, rationalize: Rationalize): PolynomialReader
  {
    t => PolynomialOf(mode, vars, implicit, sumOfTerms, rationalize, t)
  }

  /**
   * parseRationalFunction over a reader of polynomials: more than one '/' is
   * rejected; with one, the two sides are read in turn and a zero
   * denominator is rejected; without one, the text is a polynomial.
   */
  function Divide(poly: PolynomialReader, s: string): Result<RationalFunction, ParseError>
  {
    var parts := Split(s, '/');
    if |parts| > 2 then Err(ParseError(MultipleDivisions, s, s))
    else if |parts| == 2 then
      match poly(parts[0])
      case Err(e) => Err(e)
      case Ok(num) =>
        match poly(parts[1])
        case Err(e) => Err(e)
        case Ok(den) =>
          if den == map[] then Err(ParseError(DenominatorZero, parts[1], s))
          else Ok(RationalFunction(num, Some(den)))
    else
      match poly(parts[0])
      case Err(e) => Err(e)
      case Ok(p) => Ok(RationalFunction(p, None))
  }

  /** parseRationalFunction with the parser's own polynomial reader. */
  function RationalFunctionOf(mode: TermMode, vars: map<string, Variable>, implicit: bool, sumOfTerms: bool, rationalize: Rationalize, s: string): Result<RationalFunction, ParseError>
  {
    Divide(ReadPolynomial(mode, vars, implicit, sumOfTerms, rationalize), s)
  }

  /** The reader never reports a division error itself. */
  ghost predicate NoDivisionErrors(poly: PolynomialReader)
  {
    forall t :: poly(t).Err? ==> poly(t).error.kind != MultipleDivisions && poly(t).error.kind != DenominatorZero
  }

  /** parseMultivariatePolynomial never reports a division error. */
  lemma ReaderNoDivisionErrors(mode: TermMode, vars: map<string, Variable>, implicit: bool, sumOfTerms: bool, rationalize: Rationalize)
    ensures NoDivisionErrors(ReadPolynomial(mode, vars, implicit, sumOfTerms, rationalize))
  {
    forall t {
      PolynomialErrors(mode, vars, implicit, sumOfTerms, rationalize, t);
    }
  }

  /** Two or more '/' are rejected as multiple divisions, and nothing else is. */
  lemma MultipleDivisionsIff(poly: PolynomialReader, s: string)
    requires NoDivisionErrors(poly)
    ensures Divide(poly, s).Err? && Divide(poly, s).error.kind == MultipleDivisions <==> Count(s, '/') >= 2
    ensures Count(s, '/') >= 2 ==> Divide(poly, s) == Err(ParseError(MultipleDivisions, s, s))
  {
    var parts := Split(s, '/');
    if |parts| == 2 {
      assert poly(parts[0]).Err? ==> poly(parts[0]).error.kind != MultipleDivisions;
      assert poly(parts[1]).Err? ==> poly(parts[1]).error.kind != MultipleDivisions;
    } else if |parts| == 1 {
      assert poly(parts[0]).Err? ==> poly(parts[0]).error.kind != MultipleDivisions;
    }
  }

  /**
   * A zero denominator is rejected exactly when there is one '/' and both
   * sides read, the right one as the zero polynomial.
   */
  lemma DenominatorZeroIff(poly: PolynomialReader, s: string)
    requires NoDivisionErrors(poly)
    ensures Divide(poly, s).Err? && Divide(poly, s).error.kind == DenominatorZero <==>
              && Count(s, '/') == 1
              && poly(Split(s, '/')[0]).Ok?
              && poly(Split(s, '/')[1]) == Ok(map[])
  {
    var parts := Split(s, '/');
    if |parts| == 2 {
      assert poly(parts[0]).Err? ==> poly(parts[0]).error.kind != DenominatorZero;
      assert poly(parts[1]).Err? ==> poly(parts[1]).error.kind != DenominatorZero;
    } else if |parts| == 1 {
      assert poly(parts[0]).Err? ==> poly(parts[0]).error.kind != DenominatorZero;
    }
  }

  /** Without '/', the text reads as the polynomial it is, and only then is there no denominator. */
  lemma PolynomialOnlyIff(poly: PolynomialReader, s: string)
    ensures Divide(poly, s).Ok? && Divide(poly, s).value.denominator.None? <==> Count(s, '/') == 0 && poly(s).Ok?
    ensures Count(s, '/') == 0 && poly(s).Ok? ==> Divide(poly, s) == Ok(RationalFunction(poly(s).value, None))
  {
    SplitJoin(s, '/');
  }

  /** A sum of terms reads as the zero polynomial exactly when its terms read and their coefficients cancel on every monomial. */
  lemma PolynomialZeroIff(mode: TermMode, vars: map<string, Variable>, implicit: bool, rationalize: Rationalize, s: string)
    ensures PolynomialOf(mode, vars, implicit, true, rationalize, s) == Ok(map[]) <==>
              && TermsOf(mode, vars, implicit, rationalize, s).Ok?
              && forall k :: CoeffSum(Values(TermsOf(mode, vars, implicit, rationalize, s).value), k) == 0.0
  {
    var ts := TermsOf(mode, vars, implicit, rationalize, s);
    if ts.Ok? {
      SumZero(Values(ts.value));
    }
  }

  /**
   * What a reading with parseTerm as written (`a`) and one with the
   * corrected parseTerm (`c`) have in common: the corrected one fails
   * whenever the one as written does, with the same error unless it rejects
   * a repeated variable, and when it succeeds the two read the same value
   * (`value` gives the value of a success).
   */
  predicate Agree<T(==), V(==)>(a: Result<T, ParseError>, c: Result<T, ParseError>, value: T -> V)
  {
    && (a.Err? ==> c.Err?)
    && (c.Err? && c.error.kind != VariableOccursTwice ==> a == c)
    && (c.Ok? ==> a.Ok? && value(a.value) == value(c.value))
  }

  /** Readings that agree element by element agree as a whole. */
  lemma {:induction false} MapAllAgree<A>(fa: A -> Result<ParsedTerm, ParseError>, fc: A -> Result<ParsedTerm, ParseError>, xs: seq<A>)
    requires forall i :: 0 <= i < |xs| ==> Agree(fa(xs[i]), fc(xs[i]), TermValue)
    ensures Agree(MapAll(fa, xs), MapAll(fc, xs), Values)
    decreases |xs|
  {
    if xs != [] {
      var a0, c0 := fa(xs[0]), fc(xs[0]);
      assert Agree(a0, c0, TermValue);
      assert forall i :: 0 <= i < |xs[1..]| ==> Agree(fa(xs[1..][i]), fc(xs[1..][i]), TermValue) by {
        forall i | 0 <= i < |xs[1..]| ensures Agree(fa(xs[1..][i]), fc(xs[1..][i]), TermValue) {
          assert xs[1..][i] == xs[i + 1];
        }
      }
      MapAllAgree(fa, fc, xs[1..]);
      var ra, rc := MapAll(fa, xs[1..]), MapAll(fc, xs[1..]);
      if c0.Err? {
        assert MapAll(fc, xs) == Err(c0.error);
        if c0.error.kind != VariableOccursTwice {
          assert MapAll(fa, xs) == Err(a0.error);
        }
      } else if rc.Err? {
        assert MapAll(fc, xs) == Err(rc.error);
        if ra.Err? {
          assert MapAll(fa, xs) == Err(ra.error);
        }
      } else {
        var ta, tc := a0.value, c0.value;
        assert MapAll(fa, xs) == Ok([ta] + ra.value);
        assert MapAll(fc, xs) == Ok([tc] + rc.value);
        ValuesCons(ta, ra.value);
        ValuesCons(tc, rc.value);
      }
    }
  }

  lemma ValuesCons(t: ParsedTerm, ts: seq<ParsedTerm>)
    ensures Values([t] + ts) == [TermValue(t)] + Values(ts)
  {
    var l, r := Values([t] + ts), [TermValue(t)] + Values(ts);
    forall i | 0 <= i < |l|
      ensures l[i] == r[i]
    {
      if i > 0 {
        assert ([t] + ts)[i] == ts[i - 1];
      }
    }
  }

  /**
   * parseMultivariatePolynomial with parseTerm as written and corrected:
   * wherever the corrected reader accepts, the source reads the same
   * polynomial; whenever the source fails, so does the corrected reader;
   * and the two differ only where the corrected reader rejects a repeated
   * variable.
   */
  lemma PolynomialAgreement(vars: map<string, Variable>, implicit: bool, sumOfTerms: bool, rationalize: Rationalize, s: string)
    ensures var a := PolynomialOf(AsWritten, vars, implicit, sumOfTerms, rationalize, s);
            var c := PolynomialOf(Corrected, vars, implicit, sumOfTerms, rationalize, s);
            && (c.Ok? ==> a == c)
            && (a.Err? ==> c.Err?)
            && (c.Err? && c.error.kind != VariableOccursTwice ==> a == c)
  {
    var fa := TermReader(AsWritten, vars, implicit, rationalize);
    var fc := TermReader(Corrected, vars, implicit, rationalize);
    var pieces := Split(s, '+');
    forall i | 0 <= i < |pieces|
      ensures Agree(fa(pieces[i]), fc(pieces[i]), TermValue)
    {
      ParseTermAgreement(vars, implicit, rationalize, Trim(pieces[i]));
    }
    MapAllAgree(fa, fc, pieces);
  }

  /** A reader of rational functions over polynomial readers that agree, agrees in the same way. */
  lemma DivideAgreement(pa: PolynomialReader, pc: PolynomialReader, s: string)
    requires forall t :: Agree(pa(t), pc(t), (p: Poly) => p)
    ensures Agree(Divide(pa, s), Divide(pc, s), (r: RationalFunction) => r)
  {
    var parts := Split(s, '/');
    assert Agree(pa(parts[0]), pc(parts[0]), (p: Poly) => p);
    if |parts| == 2 {
      assert Agree(pa(parts[1]), pc(parts[1]), (p: Poly) => p);
    }
  }

  /** The same for parseRationalFunction: the two readers differ only where the corrected one rejects a repeated variable. */
  lemma RationalFunctionAgreement(vars: map<string, Variable>, implicit: bool, sumOfTerms: bool, rationalize: Rationalize, s: string)
    ensures var a := RationalFunctionOf(AsWritten, vars, implicit, sumOfTerms, rationalize, s);
            var c := RationalFunctionOf(Corrected, vars, implicit, sumOfTerms, rationalize, s);
            && (c.Ok? ==> a == c)
            && (a.Err? ==> c.Err?)
            && (c.Err? && c.error.kind != VariableOccursTwice ==> a == c)
  {
    var pa := ReadPolynomial(AsWritten, vars, implicit, sumOfTerms, rationalize);
    var pc := ReadPolynomial(Corrected, vars, implicit, sumOfTerms, rationalize);
    forall t
      ensures Agree(pa(t), pc(t), (p: Poly) => p)
    {
      PolynomialAgreement(vars, implicit, sumOfTerms, rationalize, t);
    }
    DivideAgreement(pa, pc, s);
  }

  /** The factors of "(-1)*x*x*y", in reading order. */
  lemma CancellingTermFactors(rationalize: Rationalize)
    requires rationalize("-1") == Some(-1.0)
    ensures FactorsOf(map["x" := 0, "y" := 1], false, rationalize, "(-1)*x*x*y")
            == Ok(ParsedTerm(-1.0, [VarExp(0, 1), VarExp(0, 1), VarExp(1, 1)]))
  {
    var vars: map<string, Variable> := map["x" := 0, "y" := 1];
    var x, y := VarExp(0, 1), VarExp(1, 1);
    CancellingTermSplit();
    CancellingTermReads(rationalize);
    FactorsOfPieces(vars, rationalize, "(-1)*x*x*y", ["(-1)", "x", "x", "y"], [Coefficient(-1.0), Power(x), Power(x), Power(y)]);
    CancellingTermCombine();
  }

  /** The factors of a term outside implicit mode, given how its pieces between '*' read. */
  lemma FactorsOfPieces(vars: map<string, Variable>, rationalize: Rationalize, s: string, pieces: seq<string>, fs: seq<Factor>)
    requires Split(s, '*') == pieces && |fs| == |pieces|
    requires forall j :: 0 <= j < |pieces| ==> ReadFactor(vars, rationalize, pieces[j]) == Ok(fs[j])
    ensures FactorsOf(vars, false, rationalize, s) == Ok(Combine(fs))
  {
    CollectAll(vars, rationalize, pieces, fs);
  }

  lemma CancellingTermReads(rationalize: Rationalize)
    requires rationalize("-1") == Some(-1.0)
    ensures var pieces := ["(-1)", "x", "x", "y"];
            var fs := [Coefficient(-1.0), Power(VarExp(0, 1)), Power(VarExp(0, 1)), Power(VarExp(1, 1))];
            forall j :: 0 <= j < |pieces| ==> ReadFactor(map["x" := 0, "y" := 1], rationalize, pieces[j]) == Ok(fs[j])
  {
    CoefficientReads(rationalize);
    VariablesRead(rationalize);
  }

  lemma VariablesRead(rationalize: Rationalize)
    ensures ReadFactor(map["x" := 0, "y" := 1], rationalize, "x") == Ok(Power(VarExp(0, 1)))
    ensures ReadFactor(map["x" := 0, "y" := 1], rationalize, "y") == Ok(Power(VarExp(1, 1)))
  {
    SplitNone("x", '^');
    SplitNone("y", '^');
  }

  lemma CancellingTermSplit()
    ensures Split("(-1)*x*x*y", '*') == ["(-1)", "x", "x", "y"]
  {
    var pieces := ["(-1)", "x", "x", "y"];
    JoinSplit(pieces, '*');
    assert Join(pieces, '*') == "(-1)*x*x*y";
  }

  lemma CoefficientReads(rationalize: Rationalize)
    requires rationalize("-1") == Some(-1.0)
    ensures ReadFactor(map["x" := 0, "y" := 1], rationalize, "(-1)") == Ok(Coefficient(-1.0))
  {
    SplitNone("(-1)", '^');
    assert StripParentheses("(-1)") == "-1";
  }

  lemma CancellingTermCombine()
    ensures Combine([Coefficient(-1.0), Power(VarExp(0, 1)), Power(VarExp(0, 1)), Power(VarExp(1, 1))])
            == ParsedTerm(-1.0, [VarExp(0, 1), VarExp(0, 1), VarExp(1, 1)])
  {
    var x, y := VarExp(0, 1), VarExp(1, 1);
    var fs := [Coefficient(-1.0), Power(x), Power(x), Power(y)];
    CombineStep([], Coefficient(-1.0));
    assert [] + [Coefficient(-1.0)] == [Coefficient(-1.0)];
    assert Combine([Coefficient(-1.0)]) == ParsedTerm(-1.0, []);
    CombineStep([Coefficient(-1.0)], Power(x));
    assert [Coefficient(-1.0)] + [Power(x)] == fs[..2];
    assert Combine(fs[..2]) == ParsedTerm(-1.0, [x]);
    CombineStep(fs[..2], Power(x));
    assert fs[..2] + [Power(x)] == fs[..3];
    assert Combine(fs[..3]) == ParsedTerm(-1.0, [x, x]);
    CombineStep(fs[..3], Power(y));
    assert fs[..3] + [Power(y)] == fs;
  }

  /** The pairs (x,1),(x,1),(y,1) after the sort and std::unique: (y,1),(x,1),(x,1), the pairs "x*y*y" gives as written. */
  lemma CancellingTermPairs()
    ensures AsWrittenPairs([VarExp(0, 1), VarExp(0, 1), VarExp(1, 1)]) == [VarExp(1, 1), VarExp(0, 1), VarExp(0, 1)]
  {
    var x, y := VarExp(0, 1), VarExp(1, 1);
    assert [x, x, y][1..] == [x, y] && [x, y][1..] == [y];
    assert SortDescending([y]) == [y];
    assert InsertDescending(x, [y]) == [y, x];
    assert InsertDescending(x, [x]) == [x, x];
    assert InsertDescending(x, [y, x]) == [y, x, x];
    assert SortDescending([x, x, y]) == [y, x, x];
    assert [y, x, x][1..] == [x, x] && [x, x][1..] == [x];
    assert UniqueRuns([x, x]) == [x];
    assert UniqueRuns([y, x, x]) == [y, x];
    assert [y, x, x][2..] == [x];
  }

  /** "x*y*y+(-1)*x*x*y" is a text whose terms are "x*y*y" and "(-1)*x*x*y". */
  lemma CancellingPieces()
    ensures Split("x*y*y+(-1)*x*x*y", '+') == ["x*y*y", "(-1)*x*x*y"]
  {
    JoinSplit(["x*y*y", "(-1)*x*x*y"], '+');
    assert Join(["x*y*y", "(-1)*x*x*y"], '+') == "x*y*y+(-1)*x*x*y";
  }

  /**
   * A sum whose terms are "x*y*y" and "(-1)*x*x*y", such as
   * "x*y*y+(-1)*x*x*y", with x registered before y: as written both terms
   * read as the monomial x^2*y and cancel, so the polynomial is zero; the
   * corrected reader rejects the first term.
   */
  lemma RepeatedVariablePolynomial(rationalize: Rationalize, s: string)
    requires rationalize("-1") == Some(-1.0)
    requires Split(s, '+') == ["x*y*y", "(-1)*x*x*y"]
    ensures PolynomialOf(AsWritten, map["x" := 0, "y" := 1], false, true, rationalize, s) == Ok(map[])
    ensures PolynomialOf(Corrected, map["x" := 0, "y" := 1], false, true, rationalize, s)
            == Err(ParseError(VariableOccursTwice, "x*y*y", s))
  {
    CancellingAsWritten(rationalize, s);
    RepeatedTermRejected(rationalize);
    FirstOfTwoFails(Corrected, map["x" := 0, "y" := 1], false, rationalize, s, "x*y*y", "(-1)*x*x*y",
                    ParseError(VariableOccursTwice, "x*y*y", ""));
  }

  lemma CancellingAsWritten(rationalize: Rationalize, s: string)
    requires rationalize("-1") == Some(-1.0)
    requires Split(s, '+') == ["x*y*y", "(-1)*x*x*y"]
    ensures PolynomialOf(AsWritten, map["x" := 0, "y" := 1], false, true, rationalize, s) == Ok(map[])
  {
    var x, y := VarExp(0, 1), VarExp(1, 1);
    var t1, t2 := ParsedTerm(1.0, [y, x, x]), ParsedTerm(-1.0, [y, x, x]);
    CancellingTermsRead(rationalize);
    PolynomialOfTwo(AsWritten, map["x" := 0, "y" := 1], false, rationalize, s, "x*y*y", "(-1)*x*x*y", t1, t2);
    CancellingValues(t1, t2);
  }

  /** Two terms with coefficients 1 and -1 on the same pairs cancel. */
  lemma CancellingValues(t1: ParsedTerm, t2: ParsedTerm)
    requires t1.coeff == 1.0 && t2.coeff == -1.0 && t1.factors == t2.factors
    ensures Sum(Values([t1, t2])) == map[]
  {
    var m := Occurrences(t1.factors);
    assert Values([t1, t2]) == [Value(1.0, m), Value(-1.0, m)];
    CancellingSum(m);
  }

  /** "x/" followed by "x*y*y+(-1)*x*x*y" divides "x" by the sum of "x*y*y" and "(-1)*x*x*y". */
  lemma DenominatorPieces()
    ensures Split("x/" + "x*y*y+(-1)*x*x*y", '/') == ["x", "x*y*y+(-1)*x*x*y"]
  {
    var d := "x*y*y+(-1)*x*x*y";
    SlashFree();
    SplitFirst("x", '/', d);
    SplitNone(d, '/');
    assert "x/" == "x" + ['/'];
  }

  lemma SlashFree()
    ensures '/' !in "x" && '/' !in "x*y*y+(-1)*x*x*y"
  {
  }

  /** The polynomial "x" reads under either term reader. */
  lemma NumeratorReads(mode: TermMode, rationalize: Rationalize)
    ensures PolynomialOf(mode, map["x" := 0, "y" := 1], false, true, rationalize, "x") == Ok(Sum(Values([ParsedTerm(1.0, [VarExp(0, 1)])])))
  {
    var vars: map<string, Variable> := map["x" := 0, "y" := 1];
    var x := VarExp(0, 1);
    SplitNone("x", '+');
    SplitNone("x", '*');
    SplitNone("x", '^');
    assert Trim("x") == "x";
    CollectAll(vars, rationalize, ["x"], [Power(x)]);
    CombineStep([], Power(x));
    assert [] + [Power(x)] == [Power(x)] && [] + [x] == [x];
    assert FactorsOf(vars, false, rationalize, "x") == Ok(ParsedTerm(1.0, [x]));
    assert DistinctVariables([x]);
    AsWrittenWithoutRepeats([x]);
    assert SortDescending([x]) == [x];
    PolynomialAll(mode, vars, false, rationalize, "x", [ParsedTerm(1.0, [x])]);
  }

  /**
   * "x" divided by a sum whose terms are "x*y*y" and "(-1)*x*x*y", such as
   * "x/x*y*y+(-1)*x*x*y": as written the denominator cancels to zero and
   * the text is rejected with "Denominator is zero"; the corrected reader
   * rejects it for the repeated variable of the denominator's first term.
   */
  lemma RepeatedVariableDenominator(rationalize: Rationalize, s: string, d: string)
    requires rationalize("-1") == Some(-1.0)
    requires Split(s, '/') == ["x", d] && Split(d, '+') == ["x*y*y", "(-1)*x*x*y"]
    ensures RationalFunctionOf(AsWritten, map["x" := 0, "y" := 1], false, true, rationalize, s)
            == Err(ParseError(DenominatorZero, d, s))
    ensures RationalFunctionOf(Corrected, map["x" := 0, "y" := 1], false, true, rationalize, s)
            == Err(ParseError(VariableOccursTwice, "x*y*y", d))
  {
    NumeratorReads(AsWritten, rationalize);
    NumeratorReads(Corrected, rationalize);
    RepeatedVariablePolynomial(rationalize, d);
  }

  /** A text that neither starts nor ends with white space is its own trim. */
  lemma TrimUnpadded(s: string)
    requires s != [] && !IsSpace(s[0]) && !IsSpace(s[|s| - 1])
    ensures Trim(s) == s
  {
  }
  /** Two terms of one monomial with coefficients 1 and -1 sum to zero. */
  lemma CancellingSum(m: multiset<Variable>)
    ensures Sum([Value(1.0, m), Value(-1.0, m)]) == map[]
  {
    SumSnoc([], Value(1.0, m));
    assert [] + [Value(1.0, m)] == [Value(1.0, m)];
    SumSnoc([Value(1.0, m)], Value(-1.0, m));
    assert [Value(1.0, m)] + [Value(-1.0, m)] == [Value(1.0, m), Value(-1.0, m)];
    assert Sum([Value(1.0, m)]) == map[m := 1.0];
    assert AddTerm(map[m := 1.0], Value(-1.0, m)) == map[];
  }
  lemma RepeatedTermAsWritten(rationalize: Rationalize)
    ensures TermOf(AsWritten, map["x" := 0, "y" := 1], false, rationalize, "x*y*y")
            == Ok(ParsedTerm(1.0, [VarExp(1, 1), VarExp(0, 1), VarExp(0, 1)]))
  {
    RepeatedVariableAsWritten(rationalize);
  }
  lemma RepeatedTermRejected(rationalize: Rationalize)
    ensures TermOf(Corrected, map["x" := 0, "y" := 1], false, rationalize, "x*y*y")
            == Err(ParseError(VariableOccursTwice, "x*y*y", ""))
  {
    RepeatedVariableAsWritten(rationalize);
  }
  /** "(-1)*x*x*y" read as written: the sorted pairs are those of "x*y*y" as written. */
  lemma CancellingTermAsWritten(rationalize: Rationalize)
    requires rationalize("-1") == Some(-1.0)
    ensures ParseTermAsWrittenOf(map["x" := 0, "y" := 1], false, rationalize, "(-1)*x*x*y")
            == Ok(ParsedTerm(-1.0, [VarExp(1, 1), VarExp(0, 1), VarExp(0, 1)]))
  {
    CancellingTermFactors(rationalize);
    CancellingTermPairs();
  }
  /** `p1` and `p2` are untrimmed texts that read as `t1` and `t2`. */
  predicate TwoTermsRead(mode: TermMode, vars: map<string, Variable>, implicit: bool, rationalize: Rationalize,
                         p1: string, p2: string, t1: ParsedTerm, t2: ParsedTerm)
  {
    && p1 != [] && !IsSpace(p1[0]) && !IsSpace(p1[|p1| - 1])
    && p2 != [] && !IsSpace(p2[0]) && !IsSpace(p2[|p2| - 1])
    && TermOf(mode, vars, implicit, rationalize, p1) == Ok(t1)
    && TermOf(mode, vars, implicit, rationalize, p2) == Ok(t2)
  }

  /** A sum of two terms, given how its two pieces between '+' read. */
  lemma PolynomialOfTwo(mode: TermMode, vars: map<string, Variable>, implicit: bool, rationalize: Rationalize,
                        s: string, p1: string, p2: string, t1: ParsedTerm, t2: ParsedTerm)
    requires Split(s, '+') == [p1, p2]
    requires TwoTermsRead(mode, vars, implicit, rationalize, p1, p2, t1, t2)
    ensures PolynomialOf(mode, vars, implicit, true, rationalize, s) == Ok(Sum(Values([t1, t2])))
  {
    TrimUnpadded(p1);
    TrimUnpadded(p2);
    PolynomialAll(mode, vars, implicit, rationalize, s, [t1, t2]);
  }

  /** "x*y*y" and "(-1)*x*x*y" read as written as x^2*y and -x^2*y. */
  lemma CancellingTermsRead(rationalize: Rationalize)
    requires rationalize("-1") == Some(-1.0)
    ensures TwoTermsRead(AsWritten, map["x" := 0, "y" := 1], false, rationalize, "x*y*y", "(-1)*x*x*y",
                         ParsedTerm(1.0, [VarExp(1, 1), VarExp(0, 1), VarExp(0, 1)]),
                         ParsedTerm(-1.0, [VarExp(1, 1), VarExp(0, 1), VarExp(0, 1)]))
  {
    RepeatedTermAsWritten(rationalize);
    CancellingTermAsWritten(rationalize);
    CancellingUnpadded();
  }

  lemma CancellingUnpadded()
    ensures var p1, p2 := "x*y*y", "(-1)*x*x*y";
            && p1 != [] && !IsSpace(p1[0]) && !IsSpace(p1[|p1| - 1])
            && p2 != [] && !IsSpace(p2[0]) && !IsSpace(p2[|p2| - 1])
  {
  }

  /** A sum of two terms whose first term fails, with its error. */
  lemma FirstOfTwoFails(mode: TermMode, vars: map<string, Variable>, implicit: bool, rationalize: Rationalize,
                        s: string, p1: string, p2: string, e: ParseError)
    requires Split(s, '+') == [p1, p2]
    requires p1 != [] && !IsSpace(p1[0]) && !IsSpace(p1[|p1| - 1])
    requires TermOf(mode, vars, implicit, rationalize, p1) == Err(e)
    ensures PolynomialOf(mode, vars, implicit, true, rationalize, s) == Err(e.(input := s))
  {
    TrimUnpadded(p1);
    PolynomialFirstError(mode, vars, implicit, rationalize, s, 0);
  }

  /**
   * The names registered one after the other, starting at variable `next`:
   * every name uses up one variable, a new name is bound to it and a known
   * name keeps its own.
   */
  function Register(m: map<string, Variable>, ns: seq<string>, next: nat): map<string, Variable>
    decreases |ns|
  {
    if ns == [] then m
    else Register(if ns[0] in m then m else m[ns[0] := next], ns[1..], next + 1)
  }

  lemma RegisterStep(m: map<string, Variable>, ns: seq<string>, i: nat, next: nat)
    requires i < |ns|
    ensures Register(m, ns[i..], next) == Register(if ns[i] in m then m else m[ns[i] := next], ns[i + 1..], next + 1)
  {
    assert ns[i..][1..] == ns[i + 1..];
  }

  /** Registering binds exactly the known and the given names, keeps the known bindings, and binds new names to unused variables. */
  lemma {:induction false} RegisterKeys(m: map<string, Variable>, ns: seq<string>, next: nat)
    ensures forall n :: n in Register(m, ns, next) <==> n in m || n in ns
    ensures forall n :: n in m ==> Register(m, ns, next)[n] == m[n]
    ensures forall n :: n in Register(m, ns, next) && n !in m ==> next <= Register(m, ns, next)[n] < next + |ns|
    decreases |ns|
  {
    if ns != [] {
      var m' := if ns[0] in m then m else m[ns[0] := next];
      RegisterKeys(m', ns[1..], next + 1);
      assert forall n :: n in ns <==> n == ns[0] || n in ns[1..];
    }
  }

  /** Distinct names: a name that was not known is bound to the variable of its position. */
  lemma {:induction false} RegisterPositions(m: map<string, Variable>, ns: seq<string>, next: nat)
    requires forall i, j :: 0 <= i < j < |ns| ==> ns[i] != ns[j]
    ensures forall i :: 0 <= i < |ns| && ns[i] !in m ==> ns[i] in Register(m, ns, next) && Register(m, ns, next)[ns[i]] == next + i
    decreases |ns|
  {
    if ns != [] {
      var m' := if ns[0] in m then m else m[ns[0] := next];
      RegisterPositions(m', ns[1..], next + 1);
      RegisterKeys(m', ns[1..], next + 1);
      forall i | 0 <= i < |ns| && ns[i] !in m
        ensures ns[i] in Register(m, ns, next) && Register(m, ns, next)[ns[i]] == next + i
      {
        if i > 0 {
          assert ns[1..][i - 1] == ns[i] != ns[0];
        }
      }
    }
  }

  /** Every name is at most one symbol long. */
  predicate AllShort(ns: seq<string>)
  {
    forall j :: 0 <= j < |ns| ==> |ns[j]| <= 1
  }

  lemma AllShortSnoc(ns: seq<string>, i: nat)
    requires i < |ns|
    ensures AllShort(ns[..i + 1]) == (AllShort(ns[..i]) && |ns[i]| <= 1)
  {
    assert ns[..i + 1] == ns[..i] + [ns[i]];
  }

  lemma AllShortMembers(a: seq<string>, b: seq<string>)
    requires forall n :: n in a <==> n in b
    ensures AllShort(a) <==> forall n :: n in b ==> |n| <= 1
  {
    if AllShort(a) {
      forall n | n in b ensures |n| <= 1 {
        var j :| 0 <= j < |a| && a[j] == n;
      }
    }
  }

  /** The outcome of setImplicitMultiplicationMode: whether it was accepted, and the mode afterwards. */
  datatype ModeChange = ModeChange(accepted: bool, mode: bool)

  /** setImplicitMultiplicationMode as written: it is accepted only when some variable name is longer than one symbol. */
  function ImplicitModeChange(single: bool, mode: bool, to: bool): ModeChange
  {
    if !single then ModeChange(true, to) else ModeChange(false, mode)
  }

  /** The guard the other way round: accepted only when every variable name is a single symbol. */
  function ImplicitModeChangeCorrected(single: bool, mode: bool, to: bool): ModeChange
  {
    if single then ModeChange(true, to) else ModeChange(false, mode)
  }

  /**
   * As written, implicit multiplication is switched on for multi-symbol
   * variable names, the one situation parseTerm's assertion and
   * setVariables rule out.
   */
  lemma ImplicitModeAcceptsLongNames()
    ensures ImplicitModeChange(false, false, true) == ModeChange(true, true)
    ensures ImplicitModeChange(true, false, true) == ModeChange(false, false)
  {
  }

  /** Corrected, enabling succeeds exactly for single-symbol names, so the mode is only ever on for them. */
  lemma ImplicitModeCorrectedKeepsSingle(single: bool, mode: bool, to: bool)
    requires mode ==> single
    ensures ImplicitModeChangeCorrected(single, mode, to).accepted <==> single
    ensures ImplicitModeChangeCorrected(single, mode, to).mode ==> single
  {
  }

  /** The shared variable pool, as far as the parser uses it: every variable it hands out is new. */
  class VariablePool {
    var next: nat

    constructor (start: nat)
      ensures next == start
    {
      next := start;
    }

    method GetFreshVariable(name: string) returns (v: Variable)
      modifies this
      ensures v == old(next) && next == old(next) + 1
    {
      v := next;
      next := next + 1;
    }
  }

  class StringParser {
    const pool: VariablePool
    var singleSymbVariables: bool
    var implicitMultiplicationMode: bool
    var sumOfTermsForm: bool
    var vars: map<string, Variable>

    /** The flag for single-symbol names is not initialised by the source, so its first value is a parameter. */
    constructor (pool: VariablePool, singleSymbVariables: bool)
      ensures this.pool == pool && this.singleSymbVariables == singleSymbVariables
      ensures !implicitMultiplicationMode && sumOfTermsForm && vars == map[]
    {
      this.pool := pool;
      this.singleSymbVariables := singleSymbVariables;
      implicitMultiplicationMode := false;
      sumOfTermsForm := true;
      vars := map[];
    }

    /** Implicit multiplication is on only for single-symbol names (what parseTerm asserts). */
    predicate ImplicitNeedsSingle()
      reads this
    {
      implicitMultiplicationMode ==> singleSymbVariables
    }

    /**
     * setVariables: the distinct names in sorted order each take a fresh
     * variable from the pool, and a name that is already known keeps its
     * variable (see Register).  Afterwards the names count as single-symbol
     * exactly when every name of this call is at most one character long,
     * and a longer name switches implicit multiplication off.
     */
    method SetVariables(names: seq<string>)
      modifies this, pool
      ensures pool.next == old(pool.next) + |SortUnique(names)|
      ensures vars == Register(old(vars), SortUnique(names), old(pool.next))
      ensures singleSymbVariables <==> forall n :: n in names ==> |n| <= 1
      ensures implicitMultiplicationMode <==> old(implicitMultiplicationMode) && forall n :: n in names ==> |n| <= 1
      ensures ImplicitNeedsSingle()
      ensures sumOfTermsForm == old(sumOfTermsForm)
    {
      var sorted := SortUnique(names);
      ghost var vars0, next0, implicit0 := vars, pool.next, implicitMultiplicationMode;
      singleSymbVariables := true;
      var i := 0;
      while i < |sorted|
        invariant 0 <= i <= |sorted|
        invariant pool.next == next0 + i && sumOfTermsForm == old(sumOfTermsForm)
        invariant singleSymbVariables == AllShort(sorted[..i])
        invariant implicitMultiplicationMode == (implicit0 && AllShort(sorted[..i]))
        invariant Register(vars, sorted[i..], pool.next) == Register(vars0, sorted, next0)
      {
        var v := sorted[i];
        AllShortSnoc(sorted, i);
        RegisterStep(vars, sorted, i, pool.next);
        if |v| > 1 {
          singleSymbVariables := false;
          implicitMultiplicationMode := false;
        }
        var newVariable := pool.GetFreshVariable(v);
        if v !in vars {
          vars := vars[v := newVariable];
        }
        i := i + 1;
      }
      assert sorted[..i] == sorted;
      SortUniqueMembers(names);
      AllShortMembers(sorted, names);
    }

    /** setImplicitMultiplicationMode as written (see ImplicitModeChange). */
    method SetImplicitMultiplicationMode(to: bool) returns (accepted: bool)
      modifies this
      ensures ModeChange(accepted, implicitMultiplicationMode) == ImplicitModeChange(old(singleSymbVariables), old(implicitMultiplicationMode), to)
      ensures singleSymbVariables == old(singleSymbVariables) && sumOfTermsForm == old(sumOfTermsForm) && vars == old(vars)
    {
      if !singleSymbVariables {
        implicitMultiplicationMode := to;
        return true;
      } else {
        return false;
      }
    }

    /** setImplicitMultiplicationMode with the guard corrected: it keeps ImplicitNeedsSingle. */
    method SetImplicitMultiplicationModeCorrected(to: bool) returns (accepted: bool)
      modifies this
      ensures ModeChange(accepted, implicitMultiplicationMode) == ImplicitModeChangeCorrected(old(singleSymbVariables), old(implicitMultiplicationMode), to)
      ensures old(ImplicitNeedsSingle()) ==> ImplicitNeedsSingle()
      ensures singleSymbVariables == old(singleSymbVariables) && sumOfTermsForm == old(sumOfTermsForm) && vars == old(vars)
    {
      if singleSymbVariables {
        implicitMultiplicationMode := to;
        return true;
      } else {
        return false;
      }
    }

    method SetSumOfTermsForm(to: bool)
      modifies this
      ensures sumOfTermsForm == to
      ensures singleSymbVariables == old(singleSymbVariables) && implicitMultiplicationMode == old(implicitMultiplicationMode) && vars == old(vars)
    {
      sumOfTermsForm := to;
    }

    /** The loop of parseTerm: the factors between '*', read from left to right. */
    method ReadFactors(rationalize: Rationalize, s: string) returns (r: Result<ParsedTerm, ParseError>)
      ensures r == FactorsOf(vars, implicitMultiplicationMode, rationalize, s)
    {
      var term := ParsedTerm(1.0, []);
      if !implicitMultiplicationMode {
        var pieces := Split(s, '*');
        ghost var done: seq<Factor> := [];
        var i := 0;
        while i < |pieces|
          invariant 0 <= i <= |pieces| && |done| == i
          invariant forall j :: 0 <= j < i ==> ReadFactor(vars, rationalize, pieces[j]) == Ok(done[j])
          invariant term == Combine(done)
        {
          var f := ReadFactor(vars, rationalize, pieces[i]);
          if f.Err? {
            CollectFirstError(vars, rationalize, pieces, i);
            return Err(f.error);
          }
          CombineStep(done, f.value);
          term := Apply(term, f.value);
          done := done + [f.value];
          i := i + 1;
        }
        CollectAll(vars, rationalize, pieces, done);
      }
      return Ok(term);
    }

    /**
     * parseTerm as written: after the loop the pairs are sorted by
     * descending variable and std::unique rewrites them in place.  Its
     * result is dropped, so the size compared by the "Variable occurs twice"
     * check has not changed and the check never rejects.
     */
    method ParseTerm(rationalize: Rationalize, s: string) returns (r: Result<ParsedTerm, ParseError>)
      ensures r == ParseTermAsWrittenOf(vars, implicitMultiplicationMode, rationalize, s)
    {
      var factors := ReadFactors(rationalize, s);
      if factors.Err? {
        return Err(factors.error);
      }
      var pairs := SortDescending(factors.value.factors);
      pairs := UniqueInPlace(pairs);
      return Ok(ParsedTerm(factors.value.coeff, pairs));
    }

    /** parseTerm with the check corrected: a term that repeats a variable is rejected. */
    method ParseTermCorrected(rationalize: Rationalize, s: string) returns (r: Result<ParsedTerm, ParseError>)
      ensures r == ParseTermOf(vars, implicitMultiplicationMode, rationalize, s)
    {
      r := ReadFactors(rationalize, s);
      if r.Ok? && !DistinctVariables(r.value.factors) {
        r := Err(ParseError(VariableOccursTwice, s, ""));
      }
    }

    /** One summand of parseMultivariatePolynomial: the term read from the trimmed piece. */
    method ReadTerm(rationalize: Rationalize, piece: string) returns (t: Result<ParsedTerm, ParseError>)
      ensures t == TermReader(AsWritten, vars, implicitMultiplicationMode, rationalize)(piece)
    {
      t := ParseTerm(rationalize, Trim(piece));
    }

    /** parseMultivariatePolynomial: the sum of the trimmed terms between '+'. */
    method ParseMultivariatePolynomial(rationalize: Rationalize, s: string) returns (r: Result<Poly, ParseError>)
      ensures r == PolynomialOf(AsWritten, vars, implicitMultiplicationMode, sumOfTermsForm, rationalize, s)
    {
      var result: Poly := map[];
      if sumOfTermsForm {
        var pieces := Split(s, '+');
        ghost var reader := TermReader(AsWritten, vars, implicitMultiplicationMode, rationalize);
        ghost var done: seq<ParsedTerm> := [];
        var i := 0;
        assert pieces[..0] == [];
        while i < |pieces|
          invariant 0 <= i <= |pieces|
          invariant MapAll(reader, pieces[..i]) == Ok(done)
          invariant result == Sum(Values(done))
        {
          var t := ReadTerm(rationalize, pieces[i]);
          match t {
            case Err(e) =>
              MapAllStops(reader, pieces, i);
              return Err(e.(input := s));
            case Ok(term) =>
              MapAllSnoc(reader, pieces, i);
              SumStep(done, term);
              result := AddTerm(result, TermValue(term));
              done := done + [term];
          }
          i := i + 1;
        }
        assert pieces[..i] == pieces;
      }
      return Ok(result);
    }

    /** parseRationalFunction: at most one '/', and a denominator that is not zero. */
    method ParseRationalFunction(rationalize: Rationalize, s: string) returns (r: Result<RationalFunction, ParseError>)
      ensures r == RationalFunctionOf(AsWritten, vars, implicitMultiplicationMode, sumOfTermsForm, rationalize, s)
    {
      var parts := Split(s, '/');
      if |parts| > 2 {
        return Err(ParseError(MultipleDivisions, s, s));
      } else if |parts| == 2 {
        var num := ParseMultivariatePolynomial(rationalize, parts[0]);
        if num.Err? {
          return Err(num.error);
        }
        var den := ParseMultivariatePolynomial(rationalize, parts[1]);
        if den.Err? {
          return Err(den.error);
        }
        if den.value == map[] {
          return Err(ParseError(DenominatorZero, parts[1], s));
        }
        return Ok(RationalFunction(num.value, Some(den.value)));
      } else {
        var p := ParseMultivariatePolynomial(rationalize, parts[0]);
        if p.Err? {
          return Err(p.error);
        }
        return Ok(RationalFunction(p.value, None));
      }
    }
  }
}
