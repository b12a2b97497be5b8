/**
 * The formula pool: the interning table of formula nodes.  Every node is
 * published together with its negation (ids k and k + 1), the usage count
 * of a pair is kept on its base polarity, a pair is deleted when its count
 * falls to 1, and two cross-linked maps tie formulas to their Tseitin
 * placeholder variables.
 *
 * Nodes are identified by their ids; the pool's per-node fields (content,
 * negation link, usage counter, difficulty) are maps from ids.  The body of
 * `add` is not part of this model: `Add` interns a content abstractly, by
 * returning a live node with that content or publishing a new pair.
 */
module FormulaPools {
  import opened Wrappers
  import opened PoolStates

  // ----- Uninterpreted equalities -----

  /** An uninterpreted equality after simplification: a constant, or the equality to intern. */
  datatype UEqShape = Trivial(holds: bool) | Equation(content: Content)

  /** Canonical argument order: variables before function instances, each kind by id. */
  predicate UBefore(a: UArg, b: UArg)
  {
    (a.UVariable? && b.UFInstance?) || (a.UVariable? == b.UVariable? && a.id < b.id)
  }

  /** The uninterpreted-equality create: with simplification, arguments are ordered and `x = x` is decided. */
  function UEqualityShape(simplify: bool, lhs: UArg, rhs: UArg, negated: bool): UEqShape
  {
    if !simplify then Equation(UEquality(lhs, rhs, negated))
    else if lhs.UVariable? && rhs.UVariable? then
      if lhs.id < rhs.id then Equation(UEquality(lhs, rhs, negated))
      else if rhs.id < lhs.id then Equation(UEquality(rhs, lhs, negated))
      else Trivial(!negated)
    else if lhs.UVariable? && rhs.UFInstance? then Equation(UEquality(lhs, rhs, negated))
    else if lhs.UFInstance? && rhs.UVariable? then Equation(UEquality(rhs, lhs, negated))
    else if lhs.id < rhs.id then Equation(UEquality(lhs, rhs, negated))
    else if rhs.id < lhs.id then Equation(UEquality(rhs, lhs, negated))
    else Trivial(!negated)
  }

  /**
   * With simplification the equality is canonical: it does not depend on
   * the order of the arguments, it is decided exactly when both arguments
   * are the same (true for `=`, false for `!=`), and otherwise it stores
   * the same two arguments in canonical order.
   */
  lemma UEqualityCanonical(lhs: UArg, rhs: UArg, negated: bool)
    ensures UEqualityShape(true, lhs, rhs, negated) == UEqualityShape(true, rhs, lhs, negated)
    ensures UEqualityShape(true, lhs, rhs, negated) == Trivial(!negated) <==> lhs == rhs
    ensures lhs != rhs ==>
      var e := UEqualityShape(true, lhs, rhs, negated);
      e.Equation? && e.content.negated == negated && UBefore(e.content.lhs, e.content.rhs) &&
      {e.content.lhs, e.content.rhs} == {lhs, rhs}
  {
  }

  // ----- Odd multiplicities -----

  /** Ascending by id, as a multiset of formulas is ordered. */
  predicate Ascending(s: seq<FormulaId>)
  {
    forall i, j :: 0 <= i < j < |s| ==> s[i] <= s[j]
  }

  predicate StrictlyAscending(s: seq<FormulaId>)
  {
    forall i, j :: 0 <= i < j < |s| ==> s[i] < s[j]
  }

  /** The outcome of the multiset create: a node, or the operands handed on to the n-ary XOR. */
  datatype MultiCreated = Formula(id: FormulaId) | XorOf(operands: seq<FormulaId>)

  /** In an ascending sequence, a run `s[lo..hi]` of one value adds exactly its length to that value's count. */
  lemma RunCount(s: seq<FormulaId>, lo: nat, hi: nat)
    requires Ascending(s) && lo < hi <= |s|
    requires forall j :: lo <= j < hi ==> s[j] == s[lo]
    requires lo == 0 || s[lo - 1] < s[lo]
    ensures multiset(s[..lo])[s[lo]] == 0
    ensures forall x :: multiset(s[..hi])[x] == if x == s[lo] then hi - lo else multiset(s[..lo])[x]
  {
    assert s[..hi] == s[..lo] + s[lo..hi];
    assert s[lo] !in s[..lo];
    RunMultiset(s[lo..hi], s[lo]);
  }

  /** The kept formulas once a run of `count` copies of x has ended: x is kept when its count is odd. */
  function Closed(kept: seq<FormulaId>, x: FormulaId, count: nat): seq<FormulaId>
  {
    if count % 2 == 1 then kept + [x] else kept
  }

  /** A run of `count` copies of y, which did not occur before, flips y's parity alone. */
  lemma ClosedOdd(kept: seq<FormulaId>, y: FormulaId, count: nat, before: multiset<FormulaId>, after: multiset<FormulaId>)
    requires forall x :: x in kept <==> before[x] % 2 == 1
    requires before[y] == 0
    requires forall x :: after[x] == if x == y then count else before[x]
    ensures forall x :: x in Closed(kept, y, count) <==> after[x] % 2 == 1
  {
    var k := Closed(kept, y, count);
    forall x | true
      ensures x in k <==> after[x] % 2 == 1
    {
      assert x in k <==> x in kept || (x == y && count % 2 == 1);
    }
  }

  lemma ClosedAscending(kept: seq<FormulaId>, y: FormulaId, count: nat)
    requires StrictlyAscending(kept) && forall x :: x in kept ==> x < y
    ensures var k := Closed(kept, y, count);
      StrictlyAscending(k) && forall x :: x in k ==> x <= y
  {
    var k := Closed(kept, y, count);
    forall i, j | 0 <= i < j < |k|
      ensures k[i] < k[j]
    {
      assert k[i] == kept[i] && kept[i] in kept;
    }
  }

  lemma {:induction false} RunMultiset(r: seq<FormulaId>, x: FormulaId)
    requires forall j :: 0 <= j < |r| ==> r[j] == x
    ensures multiset(r) == multiset{}[x := |r|]
  {
    if r != [] {
      RunMultiset(r[1..], x);
      assert r == [r[0]] + r[1..];
    }
  }

  // ----- The pool -----

  /**
   * The pool's tables, updated in place.  `negateAtom` is the negation of
   * constraints, `consistency` their consistency test (0 for never, 1 for
   * always, anything else for undecided), and `simplify` whether the
   * simplifying creates are compiled in.
   */
  class FormulaPool {
    var nodes: map<FormulaId, Node>
    var pool: set<FormulaId>
    var tseitinVars: map<FormulaId, FormulaId>
    var tseitinVarToFormula: map<FormulaId, FormulaId>
    var idAllocator: nat
    var freshBoolean: nat
    const negateAtom: Atom -> Atom
    const consistency: Atom -> nat
    const simplify: bool

    function State(): PoolState
      reads this
    {
      PoolState(nodes, pool, tseitinVars, tseitinVarToFormula, idAllocator, freshBoolean)
    }

    ghost predicate Valid()
      reads this
    {
      PoolStates.Valid(State(), negateAtom)
    }

    /** The pool with TRUE and FALSE only. */
    constructor(negateAtom: Atom -> Atom, consistency: Atom -> nat, simplify: bool)
      requires Involution(negateAtom)
      ensures Valid() && State() == Initial()
      ensures this.negateAtom == negateAtom && this.consistency == consistency && this.simplify == simplify
    {
      nodes := Initial().nodes;
      pool := Initial().pool;
      tseitinVars := map[];
      tseitinVarToFormula := map[];
      idAllocator := 2;
      freshBoolean := 0;
      this.negateAtom := negateAtom;
      this.consistency := consistency;
      this.simplify := simplify;
      new;
      InitialValid(negateAtom);
    }

    /** `add`: the live node with content c, or a new pair holding c and its negation. */
    method Add(c: Content) returns (k: FormulaId)
      requires Valid() && Internable(State(), negateAtom, c)
      modifies this
      ensures Valid() && k in nodes && (State(), k) == AddOf(old(State()), negateAtom, c)
    {
      ghost var s := State();
      AddKeepsValid(s, negateAtom, c);
      if j: FormulaId :| j in nodes && nodes[j].content == c {
        AddOfInterned(s, negateAtom, c, j);
        k := j;
      } else {
        assert !Interned(s, c);
        k := idAllocator;
        nodes := nodes[k := Node(c, k + 1, InitialUsage(c.ConstraintAtom?), 0)]
                      [k + 1 := Node(NegatedContent(c, k, negateAtom), k, 0, 0)];
        pool := pool + {k};
        idAllocator := k + 2;
        assert State() == Published(s, negateAtom, c);
      }
    }

    /** `reg`: one more use of elem, counted on its base formula. */
    method Reg(elem: FormulaId)
      requires Valid() && elem in nodes
      modifies this
      ensures Valid() && State() == RegOf(old(State()), elem)
    {
      RegKeepsValid(State(), negateAtom, elem);
      var b := BaseFormula(State(), elem);
      var m := nodes[b];
      var u: nat := m.usages + 1;
      if u == 1 && nodes[elem].content.ConstraintAtom? {
        u := u + 1;
      }
      nodes := nodes[b := m.(usages := u)];
    }

    /** `freeTseitinVariable`: drop the Tseitin link of d when the other end is unused; true when it is kept. */
    method FreeTseitinVariable(d: FormulaId) returns (held: bool)
      requires Valid() && d in nodes
      modifies this
      ensures Valid() && (State(), held) == FreeTseitinOf(old(State()), d)
    {
      ghost var s := State();
      FreeTseitinValid(s, negateAtom, d);
      held := false;
      if d in tseitinVars {
        var p := tseitinVars[d];
        if nodes[p].usages == 1 {
          var n := nodes[p].negation;
          tseitinVars := tseitinVars - {d};
          tseitinVarToFormula := tseitinVarToFormula - {p};
          pool := pool - {p};
          nodes := nodes - {p, n};
          assert State() == Deleted(Unlinked(s, d), p);
        } else {
          held := true;
        }
      } else if d in tseitinVarToFormula {
        var f := tseitinVarToFormula[d];
        if nodes[f].usages == 1 {
          var b := BaseFormula(State(), f);
          var n := nodes[b].negation;
          tseitinVars := tseitinVars - {f};
          tseitinVarToFormula := tseitinVarToFormula - {d};
          pool := pool - {b};
          nodes := nodes - {b, n};
          assert State() == Deleted(Unlinked(s, f), b);
        } else {
          held := true;
        }
      }
    }

    /** `free`: one use less of elem; at the pool's own use only, its Tseitin links go and, unless held, its pair. */
    method Free(elem: FormulaId)
      requires Valid() && elem in nodes && Freeable(State(), elem)
      modifies this
      ensures Valid() && State() == FreeOf(old(State()), negateAtom, elem)
    {
      FreeDecrement(State(), negateAtom, elem);
      var b := BaseFormula(State(), elem);
      var m := nodes[b];
      var u: nat := m.usages - 1;
      nodes := nodes[b := m.(usages := u)];
      if u == 1 {
        ReleaseSteps(State(), negateAtom, b);
        var n := m.negation;
        var stillStored := false;
        var held := FreeTseitinVariable(b);
        if held {
          stillStored := true;
        }
        held := FreeTseitinVariable(n);
        if held {
          stillStored := true;
        }
        if !stillStored {
          pool := pool - {b};
          nodes := nodes - {b, n};
        }
      }
    }

    /** `getTseitinVar`: the Tseitin variable of f, TRUE when it has none. */
    function GetTseitinVar(f: FormulaId): (r: FormulaId)
      requires Valid()
      reads this
      ensures r == TRUE_NODE <==> f !in tseitinVars
      ensures f in tseitinVars ==> r in tseitinVarToFormula && tseitinVarToFormula[r] == f
    {
      GetTseitinVarSpec(State(), negateAtom, f);
      GetTseitinVarOf(State(), f)
    }

    /** `createTseitinVar`: f's Tseitin variable, made from a fresh Boolean variable when f has none. */
    method CreateTseitinVar(f: FormulaId) returns (p: FormulaId)
      requires Valid() && f in nodes && Tieable(State(), f)
      modifies this
      ensures Valid() && (State(), p) == CreateTseitinVarOf(old(State()), negateAtom, f)
    {
      ghost var s := State();
      TseitinVarSteps(s, negateAtom, f);
      if f in tseitinVars {
        p := tseitinVars[f];
      } else {
        var v := freshBoolean;
        freshBoolean := v + 1;
        assert State() == Drawn(s);
        var difficulty := nodes[f].difficulty;
        p := Add(BoolVar(v));
        ghost var s2 := State();
        nodes := nodes[p := nodes[p].(difficulty := difficulty)];
        ghost var s3 := State();
        assert s3 == Retagged(s2, p, s2.nodes[p].(difficulty := s.nodes[f].difficulty));
        tseitinVars := tseitinVars[f := p];
        tseitinVarToFormula := tseitinVarToFormula[p := f];
        assert State() == Tied(s3, f, p);
      }
    }

    // ----- Creating formulas -----

    /** `create(TRUE)` and `create(FALSE)`: the pool's own constant nodes. */
    function CreateConstant(t: FormulaType): (r: FormulaId)
      requires Valid() && (t == TRUE || t == FALSE)
      reads this
      ensures r in nodes && nodes[r].content == Constant(t == TRUE)
    {
      if t == TRUE then TRUE_NODE else FALSE_NODE
    }

    /** `create(Variable)`: the node of a Boolean variable. */
    method CreateVariable(v: nat) returns (k: FormulaId)
      requires Valid() && v < freshBoolean
      modifies this
      ensures Valid() && k in nodes && nodes[k].content == BoolVar(v)
      ensures (State(), k) == AddOf(old(State()), negateAtom, BoolVar(v))
    {
      AddValid(State(), negateAtom, BoolVar(v));
      k := Add(BoolVar(v));
    }

    /**
     * `create(Constraint)`: with simplification, a constraint that is never
     * or always satisfied is FALSE or TRUE and the pool is unchanged;
     * otherwise the node holding exactly that constraint, interned through
     * whichever of the constraint and its negation is the smaller.
     */
    method CreateConstraint(a: Atom) returns (k: FormulaId)
      requires Valid()
      modifies this
      ensures Valid() && k in nodes
      ensures simplify && consistency(a) == 0 ==> k == FALSE_NODE && State() == old(State())
      ensures simplify && consistency(a) == 1 ==> k == TRUE_NODE && State() == old(State())
      ensures !(simplify && consistency(a) <= 1) ==>
        && nodes[k].content == ConstraintAtom(a)
        && State() == AddOf(old(State()), negateAtom, ConstraintAtom(BaseAtom(negateAtom, a))).0
    {
      ghost var s := State();
      if simplify && consistency(a) == 0 {
        k := FALSE_NODE;
      } else if simplify && consistency(a) == 1 {
        k := TRUE_NODE;
      } else if a < negateAtom(a) {
        AddValid(s, negateAtom, ConstraintAtom(a));
        k := Add(ConstraintAtom(a));
      } else {
        var b := negateAtom(a);
        assert negateAtom(b) == a && b != a;
        AddValid(s, negateAtom, ConstraintAtom(b));
        var j := Add(ConstraintAtom(b));
        k := nodes[j].negation;
        assert k in nodes && nodes[k].content == ConstraintAtom(negateAtom(b));
      }
    }

    /**
     * `create(const VariableComparison&)`: a comparison that the owner can
     * rewrite as a constraint (`asConstraint`) is created as that
     * constraint; otherwise the comparison's own node.
     */
    method CreateVariableComparison(key: int, asConstraint: Option<Atom>) returns (k: FormulaId)
      requires Valid()
      modifies this
      ensures Valid() && k in nodes
      ensures asConstraint.None? ==>
        && nodes[k].content == TheoryAtom(VARCOMPARE, key)
        && (State(), k) == AddOf(old(State()), negateAtom, TheoryAtom(VARCOMPARE, key))
      ensures asConstraint.Some? && simplify && consistency(asConstraint.value) == 0 ==>
        k == FALSE_NODE && State() == old(State())
      ensures asConstraint.Some? && simplify && consistency(asConstraint.value) == 1 ==>
        k == TRUE_NODE && State() == old(State())
      ensures asConstraint.Some? && !(simplify && consistency(asConstraint.value) <= 1) ==>
        && nodes[k].content == ConstraintAtom(asConstraint.value)
        && State() == AddOf(old(State()), negateAtom, ConstraintAtom(BaseAtom(negateAtom, asConstraint.value))).0
    {
      if asConstraint.Some? {
        k := CreateConstraint(asConstraint.value);
      } else {
        k := CreateTheoryAtom(VARCOMPARE, key);
      }
    }

    /** The moved-in overloads for comparisons, assignments and pseudo-Boolean constraints: the atom's own node. */
    method CreateTheoryAtom(kind: FormulaType, key: int) returns (k: FormulaId)
      requires Valid()
      modifies this
      ensures Valid() && k in nodes && nodes[k].content == TheoryAtom(kind, key)
      ensures (State(), k) == AddOf(old(State()), negateAtom, TheoryAtom(kind, key))
    {
      AddValid(State(), negateAtom, TheoryAtom(kind, key));
      k := Add(TheoryAtom(kind, key));
    }

    /** `create(BVConstraint)`: with simplification a trivially true or false bit-vector constraint is TRUE or FALSE. */
    method CreateBitvector(key: int, alwaysConsistent: bool, alwaysInconsistent: bool) returns (k: FormulaId)
      requires Valid()
      modifies this
      ensures Valid() && k in nodes
      ensures simplify && alwaysConsistent ==> k == TRUE_NODE && State() == old(State())
      ensures simplify && !alwaysConsistent && alwaysInconsistent ==> k == FALSE_NODE && State() == old(State())
      ensures !(simplify && (alwaysConsistent || alwaysInconsistent)) ==>
        && nodes[k].content == TheoryAtom(BITVECTOR, key)
        && (State(), k) == AddOf(old(State()), negateAtom, TheoryAtom(BITVECTOR, key))
    {
      if simplify && alwaysConsistent {
        k := TRUE_NODE;
      } else if simplify && alwaysInconsistent {
        k := FALSE_NODE;
      } else {
        k := CreateTheoryAtom(BITVECTOR, key);
      }
    }

    /**
     * `create(type, subformula)`: NOT is the operand's negation partner,
     * AND, OR and XOR of one operand are the operand, IFF of one operand is
     * TRUE; every other type is rejected.
     */
    function CreateUnary(t: FormulaType, sub: FormulaId): (r: Option<FormulaId>)
      requires Valid() && sub in nodes
      reads this
      ensures r.Some? <==> t == NOT || t == AND || t == OR || t == XOR || t == IFF
      ensures r.Some? ==> r.value in nodes
      ensures t == NOT ==> r.value != sub && nodes[r.value].negation == sub
      ensures t == AND || t == OR || t == XOR ==> r == Some(sub)
      ensures t == IFF ==> nodes[r.value].content == Constant(true)
    {
      match t
      case NOT => Some(nodes[sub].negation)
      case AND => Some(sub)
      case OR => Some(sub)
      case XOR => Some(sub)
      case IFF => Some(CreateConstant(TRUE))
      case _ => None
    }

    /** `create(EXISTS/FORALL, vars, body)`: a quantifier binding no variable is its body. */
    method CreateQuantifier(isExists: bool, vars: seq<nat>, body: FormulaId) returns (k: FormulaId)
      requires Valid() && body in nodes
      modifies this
      ensures Valid() && k in nodes
      ensures |vars| == 0 ==> k == body && State() == old(State())
      ensures |vars| > 0 ==>
        && nodes[k].content == Quantifier(isExists, vars, body)
        && (State(), k) == AddOf(old(State()), negateAtom, Quantifier(isExists, vars, body))
    {
      if |vars| > 0 {
        AddValid(State(), negateAtom, Quantifier(isExists, vars, body));
        k := Add(Quantifier(isExists, vars, body));
      } else {
        k := body;
      }
    }

    /**
     * `create(FormulasMulti)`: the XOR of a multiset of formulas, given in
     * ascending order.  No operand is FALSE and one operand is itself;
     * otherwise each formula occurring an odd number of times is kept once,
     * in ascending order, and the rest cancel.
     */
    method CreateMultiset(operands: seq<FormulaId>) returns (r: MultiCreated)
      requires Ascending(operands)
      ensures |operands| == 0 ==> r == Formula(FALSE_NODE)
      ensures |operands| == 1 ==> r == Formula(operands[0])
      ensures |operands| >= 2 ==>
        && r.XorOf? && StrictlyAscending(r.operands)
        && forall x :: x in r.operands <==> multiset(operands)[x] % 2 == 1
    {
      if |operands| == 0 {
        return Formula(FALSE_NODE);
      }
      if |operands| == 1 {
        return Formula(operands[0]);
      }
      var kept: seq<FormulaId> := [];
      var last := 0;
      var i := 1;
      var counter := 1;
      while i < |operands|
        invariant 1 <= i <= |operands| && 0 <= last < i && counter == i - last
        invariant forall j :: last <= j < i ==> operands[j] == operands[last]
        invariant last == 0 || operands[last - 1] < operands[last]
        invariant StrictlyAscending(kept) && forall x :: x in kept ==> x < operands[last]
        invariant forall x :: x in kept <==> multiset(operands[..last])[x] % 2 == 1
      {
        if operands[last] == operands[i] {
          counter := counter + 1;
        } else {
          RunCount(operands, last, i);
          ClosedAscending(kept, operands[last], counter);
          ClosedOdd(kept, operands[last], counter, multiset(operands[..last]), multiset(operands[..i]));
          ghost var before := kept;
          if counter % 2 == 1 {
            kept := kept + [operands[last]];
          }
          assert kept == Closed(before, operands[last], counter);
          assert operands[last] < operands[i];
          last := i;
          counter := 1;
        }
        i := i + 1;
      }
      RunCount(operands, last, i);
      ClosedAscending(kept, operands[last], counter);
      ClosedOdd(kept, operands[last], counter, multiset(operands[..last]), multiset(operands[..i]));
      ghost var before := kept;
      if counter % 2 == 1 {
        kept := kept + [operands[last]];
      }
      assert kept == Closed(before, operands[last], counter);
      assert operands[..i] == operands;
      r := XorOf(kept);
    }

    /** `create(lhs, rhs, negated)`: an uninterpreted equality, decided or put in canonical order when simplifying. */
    method CreateUEquality(lhs: UArg, rhs: UArg, negated: bool) returns (k: FormulaId)
      requires Valid()
      modifies this
      ensures Valid() && k in nodes
      ensures match UEqualityShape(simplify, lhs, rhs, negated)
        case Trivial(h) => nodes[k].content == Constant(h) && State() == old(State())
        case Equation(c) => nodes[k].content == c && (State(), k) == AddOf(old(State()), negateAtom, c)
    {
      match UEqualityShape(simplify, lhs, rhs, negated)
      case Trivial(h) =>
        k := CreateConstant(if h then TRUE else FALSE);
      case Equation(c) =>
        AddValid(State(), negateAtom, c);
        k := Add(c);
    }

    /** `create(UEquality&&)`: the equality as given. */
    method CreateEquality(lhs: UArg, rhs: UArg, negated: bool) returns (k: FormulaId)
      requires Valid()
      modifies this
      ensures Valid() && k in nodes && nodes[k].content == UEquality(lhs, rhs, negated)
      ensures (State(), k) == AddOf(old(State()), negateAtom, UEquality(lhs, rhs, negated))
    {
      AddValid(State(), negateAtom, UEquality(lhs, rhs, negated));
      k := Add(UEquality(lhs, rhs, negated));
    }
  }

  /** The polarity of a constraint that the pool stores as a pair's base: the smaller of it and its negation. */
  function BaseAtom(negate: Atom -> Atom, a: Atom): (b: Atom)
    ensures b == a || b == negate(a)
    ensures b <= a && b <= negate(a)
  {
    if a < negate(a) then a else negate(a)
  }
}
