/**
 * The state of the formula pool as a value, its invariants, and the effect
 * of each state-changing pool operation as a function of the old state.
 *
 * Nodes are identified by their ids.  Every node is published together
 * with its negation (ids k and k + 1); the usage count of a pair lives on
 * its base polarity; a pair is deleted when its count falls to 1 unless a
 * Tseitin mapping pins it; and two cross-linked maps tie formulas to their
 * placeholder variables.  Interning (`add`) is specified abstractly: it
 * returns the live node with the requested content, or publishes a new pair.
 */
module PoolStates {
  import opened Wrappers

  type FormulaId = int

  /** An arithmetic constraint, ordered by `<`; its negation is supplied by the pool's owner. */
  type Atom = int

  datatype FormulaType =
    | TRUE | FALSE | BOOL | NOT | IMPLIES | AND | OR | XOR | IFF | ITE | EXISTS | FORALL
    | CONSTRAINT | VARCOMPARE | VARASSIGN | BITVECTOR | UEQ | PBCONSTRAINT

  /** An argument of an uninterpreted equality: a variable or a function instance. */
  datatype UArg = UVariable(id: nat) | UFInstance(id: nat)

  /** What a node stands for; the sub-formulas of compound nodes are node ids. */
  datatype Content =
    | Constant(value: bool)
    | BoolVar(v: nat)
    | Not(sub: FormulaId)
    | ConstraintAtom(atom: Atom)
    | Quantifier(isExists: bool, vars: seq<nat>, body: FormulaId)
    | UEquality(lhs: UArg, rhs: UArg, negated: bool)
    | TheoryAtom(kind: FormulaType, key: int)

  function TypeOf(c: Content): FormulaType
  {
    match c
    case Constant(b) => if b then TRUE else FALSE
    case BoolVar(_) => BOOL
    case Not(_) => NOT
    case ConstraintAtom(_) => CONSTRAINT
    case Quantifier(e, _, _) => if e then EXISTS else FORALL
    case UEquality(_, _, _) => UEQ
    case TheoryAtom(k, _) => k
  }

  // ----- Usage counting -----

  /** The usage count of a freshly published node: the negation node of a non-constraint holds one handle on it. */
  function InitialUsage(isConstraint: bool): nat
  {
    if isConstraint then 0 else 1
  }

  /** `reg`: one more use, and one extra when a constraint reaches its first use. */
  function RegUsage(u: nat, isConstraint: bool): nat
  {
    if u + 1 == 1 && isConstraint then u + 2 else u + 1
  }

  lemma RegUsageGrows(u: nat, isConstraint: bool)
    ensures RegUsage(u, isConstraint) == u + 2 <==> u == 0 && isConstraint
    ensures RegUsage(u, isConstraint) != u + 2 ==> RegUsage(u, isConstraint) == u + 1
  {
  }

  /** The usage count after n registrations. */
  function RegTimes(u: nat, isConstraint: bool, n: nat): nat
  {
    if n == 0 then u else RegUsage(RegTimes(u, isConstraint, n - 1), isConstraint)
  }

  /** The usage count after k `free`s, each taking one use away. */
  function FreeTimes(u: nat, k: nat): int
  {
    if k == 0 then u else FreeTimes(u, k - 1) - 1
  }

  /**
   * The two quirks cancel: whether or not the node is a constraint, a node
   * registered n times after publication has count n + 1, so of n following
   * `free`s exactly the last one brings the count down to 1 and deletes it.
   */
  lemma {:induction false} HandleLifecycle(isConstraint: bool, n: nat)
    requires n >= 1
    ensures RegTimes(InitialUsage(isConstraint), isConstraint, n) == n + 1
    ensures forall k :: 1 <= k <= n ==> (FreeTimes(RegTimes(InitialUsage(isConstraint), isConstraint, n), k) == 1 <==> k == n)
  {
    if n > 1 {
      HandleLifecycle(isConstraint, n - 1);
    }
    FreeTimesCount(n + 1, n);
  }

  lemma {:induction false} FreeTimesCount(u: nat, n: nat)
    ensures forall k :: 0 <= k <= n ==> FreeTimes(u, k) == u - k
  {
    if n > 0 {
      FreeTimesCount(u, n - 1);
      assert FreeTimes(u, n) == FreeTimes(u, n - 1) - 1;
    }
  }

  // ----- The state -----

  /** TRUE and FALSE are the first pair the pool publishes. */
  const TRUE_NODE: FormulaId := 0
  const FALSE_NODE: FormulaId := 1

  /** A published node: what it stands for, its negation, its usage counter and its difficulty. */
  datatype Node = Node(content: Content, negation: FormulaId, usages: nat, difficulty: nat)

  /** The live nodes by id, the lookup table, the two Tseitin maps and the two allocators. */
  datatype PoolState = PoolState(
    nodes: map<FormulaId, Node>,
    pool: set<FormulaId>,
    tseitinVars: map<FormulaId, FormulaId>,
    tseitinVarToFormula: map<FormulaId, FormulaId>,
    idAllocator: nat,
    freshBoolean: nat)

  /** The pool's owner supplies constraint negation: it undoes itself and never returns its argument. */
  ghost predicate Involution(negate: Atom -> Atom)
  {
    forall a :: negate(negate(a)) == a && negate(a) != a
  }

  /** Every live node has a distinct live negation, the link goes both ways, and ids are below the allocator. */
  ghost predicate Paired(s: PoolState)
  {
    forall k {:trigger k in s.nodes} :: k in s.nodes ==>
      var n := s.nodes[k].negation;
      n in s.nodes && s.nodes[n].negation == k && n != k && k < s.idAllocator
  }

  /** isBaseFormula of a constraint node: its constraint is less than its negation's. */
  predicate IsBaseConstraint(a: Atom, negated: Content)
  {
    negated.ConstraintAtom? && a < negated.atom
  }

  /** getBaseFormula: a NOT node counts on its negation, a constraint on the smaller of its two constraints. */
  function BaseFormula(s: PoolState, f: FormulaId): FormulaId
    requires Paired(s) && f in s.nodes
  {
    var n := s.nodes[f].negation;
    match s.nodes[f].content
    case Not(_) => n
    case ConstraintAtom(a) => if IsBaseConstraint(a, s.nodes[n].content) then f else n
    case _ => f
  }

  /**
   * The contents of the pairs: a NOT node negates its own negation, which is
   * not a NOT; a constraint's negation holds the negated constraint; every
   * other node but TRUE and FALSE is negated by a NOT node.  Boolean
   * variables come from the allocator.
   */
  ghost predicate Shaped(s: PoolState, negate: Atom -> Atom)
    requires Paired(s)
  {
    forall k {:trigger k in s.nodes} :: k in s.nodes ==>
      var c := s.nodes[k].content;
      var n := s.nodes[k].negation;
      && (c.Not? ==> c.sub == n && !s.nodes[n].content.Not?)
      && (c.ConstraintAtom? ==> s.nodes[n].content == ConstraintAtom(negate(c.atom)))
      && (!c.Not? && !c.ConstraintAtom? && !c.Constant? ==> s.nodes[n].content == Not(k))
      && (c.Constant? ==> k == TRUE_NODE || k == FALSE_NODE)
      && (c.BoolVar? ==> c.v < s.freshBoolean)
  }

  /** No two live nodes have the same content: the table interns. */
  ghost predicate Interning(s: PoolState)
  {
    forall i, j {:trigger i in s.nodes, j in s.nodes} ::
      i in s.nodes && j in s.nodes && s.nodes[i].content == s.nodes[j].content ==> i == j
  }

  /** The lookup table holds live base polarities. */
  ghost predicate Tabled(s: PoolState)
    requires Paired(s)
  {
    forall k {:trigger k in s.pool} :: k in s.pool ==> k in s.nodes && BaseFormula(s, k) == k
  }

  /** TRUE and FALSE are live, negate each other, and their counters are pinned above 1. */
  ghost predicate Constants(s: PoolState)
  {
    && TRUE_NODE in s.nodes && s.nodes[TRUE_NODE].content == Constant(true)
    && FALSE_NODE in s.nodes && s.nodes[FALSE_NODE].content == Constant(false)
    && s.nodes[TRUE_NODE].negation == FALSE_NODE
    && s.nodes[TRUE_NODE].usages >= 2 && s.nodes[FALSE_NODE].usages >= 2
  }

  /**
   * The two Tseitin maps are inverse to each other and hold live nodes; a
   * placeholder is a Boolean variable whose negation is mapped in neither
   * direction, and a mapped formula is no placeholder and its negation is
   * mapped in neither direction.
   */
  ghost predicate Linked(s: PoolState)
    requires Paired(s)
  {
    FormulasLinked(s) && VariablesLinked(s)
  }

  /** Each formula with a Tseitin variable, seen from the formula's side. */
  ghost predicate FormulasLinked(s: PoolState)
    requires Paired(s)
  {
    forall f {:trigger f in s.tseitinVars} :: f in s.tseitinVars ==>
      && f in s.nodes && s.tseitinVars[f] in s.nodes && s.tseitinVars[f] in s.tseitinVarToFormula && s.tseitinVarToFormula[s.tseitinVars[f]] == f
      && f !in s.tseitinVarToFormula
      && s.nodes[f].negation !in s.tseitinVars && s.nodes[f].negation !in s.tseitinVarToFormula
  }

  /** Each Tseitin variable, seen from the variable's side. */
  ghost predicate VariablesLinked(s: PoolState)
    requires Paired(s)
  {
    forall p {:trigger p in s.tseitinVarToFormula} :: p in s.tseitinVarToFormula ==>
      && p in s.nodes && s.nodes[p].content.BoolVar? && s.tseitinVarToFormula[p] in s.nodes
      && s.tseitinVarToFormula[p] in s.tseitinVars
      && s.tseitinVars[s.tseitinVarToFormula[p]] == p
      && s.nodes[p].negation !in s.tseitinVars && s.nodes[p].negation !in s.tseitinVarToFormula
  }

  ghost predicate Valid(s: PoolState, negate: Atom -> Atom)
  {
    Involution(negate) && Paired(s) && Shaped(s, negate) && Interning(s) && Tabled(s) && Constants(s) && Linked(s)
  }

  /** The pool as constructed: TRUE and FALSE, pinned, both in the lookup table. */
  function Initial(): PoolState
  {
    PoolState(map[TRUE_NODE := Node(Constant(true), FALSE_NODE, 2, 0), FALSE_NODE := Node(Constant(false), TRUE_NODE, 2, 0)],
              {TRUE_NODE, FALSE_NODE}, map[], map[], 2, 0)
  }

  lemma InitialValid(negate: Atom -> Atom)
    requires Involution(negate)
    ensures Valid(Initial(), negate)
  {
  }

  /**
   * Both polarities of a pair other than TRUE/FALSE share one base, which is
   * a polarity of the pair, is its own base and is never a NOT node; for a
   * constraint pair it is the polarity whose constraint is smaller than its
   * negation.  TRUE and FALSE are each their own base.
   */
  lemma BaseFormulaOfPair(s: PoolState, negate: Atom -> Atom, f: FormulaId)
    requires Valid(s, negate) && f in s.nodes
    ensures s.nodes[f].content.Constant? ==> BaseFormula(s, f) == f
    ensures !s.nodes[f].content.Constant? ==>
      var b := BaseFormula(s, f);
      && (b == f || b == s.nodes[f].negation)
      && BaseFormula(s, s.nodes[f].negation) == b
      && BaseFormula(s, b) == b
      && !s.nodes[b].content.Not? && !s.nodes[b].content.Constant?
      && (s.nodes[f].content.ConstraintAtom? ==> s.nodes[b].content.atom < negate(s.nodes[b].content.atom))
  {
    var n := s.nodes[f].negation;
    assert n in s.nodes;
    var c := s.nodes[f].content;
    if c.ConstraintAtom? {
      assert negate(c.atom) != c.atom && negate(negate(c.atom)) == c.atom;
    }
  }

  // ----- Interning -----

  /**
   * What the pool's creators hand to `add`: never a NOT node (negations are
   * published with their base) nor a constant, a constraint only in its
   * base polarity, and a Boolean variable drawn from the allocator.
   */
  predicate Internable(s: PoolState, negate: Atom -> Atom, c: Content)
  {
    && !c.Not? && !c.Constant?
    && (c.ConstraintAtom? ==> c.atom < negate(c.atom))
    && (c.BoolVar? ==> c.v < s.freshBoolean)
  }

  ghost predicate Interned(s: PoolState, c: Content)
  {
    exists j: FormulaId :: j in s.nodes && s.nodes[j].content == c
  }

  /** createNegatedContent: the negated constraint, or NOT of the node. */
  function NegatedContent(c: Content, k: FormulaId, negate: Atom -> Atom): Content
  {
    if c.ConstraintAtom? then ConstraintAtom(negate(c.atom)) else Not(k)
  }

  /** A new pair at the next two ids; the node goes into the lookup table. */
  function Published(s: PoolState, negate: Atom -> Atom, c: Content): PoolState
  {
    var k := s.idAllocator;
    s.(nodes := s.nodes[k := Node(c, k + 1, InitialUsage(c.ConstraintAtom?), 0)]
                       [k + 1 := Node(NegatedContent(c, k, negate), k, 0, 0)],
       pool := s.pool + {k},
       idAllocator := k + 2)
  }

  /** `add`: the live node with content c, or a newly published pair. */
  ghost function AddOf(s: PoolState, negate: Atom -> Atom, c: Content): (PoolState, FormulaId)
  {
    if Interned(s, c) then
      var j: FormulaId :| j in s.nodes && s.nodes[j].content == c; (s, j)
    else (Published(s, negate, c), s.idAllocator)
  }

  /**
   * Interning keeps the invariants and returns a node with the requested
   * content.  A content already live is returned as is and nothing changes;
   * otherwise a fresh pair is published, the node's counter holding the one
   * use its NOT partner makes of it (none for a constraint), and no live
   * node or Tseitin entry changes.
   */
  lemma AddValid(s: PoolState, negate: Atom -> Atom, c: Content)
    requires Valid(s, negate) && Internable(s, negate, c)
    ensures var (t, k) := AddOf(s, negate, c);
      && Valid(t, negate) && k in t.nodes && t.nodes[k].content == c
      && (Interned(s, c) ==> t == s)
      && (!Interned(s, c) ==>
            && k !in s.nodes && t.nodes[k].usages == InitialUsage(c.ConstraintAtom?)
            && t.nodes[k].negation !in s.nodes && t.nodes[k].negation in t.nodes
            && k in t.pool && t.freshBoolean == s.freshBoolean
            && t.tseitinVars == s.tseitinVars && t.tseitinVarToFormula == s.tseitinVarToFormula
            && (forall j {:trigger j in s.nodes} :: j in s.nodes ==> j in t.nodes && t.nodes[j] == s.nodes[j]))
  {
    if !Interned(s, c) {
      PublishedValid(s, negate, c);
    }
  }

  /** The part of AddValid the pool's `add` needs. */
  lemma AddKeepsValid(s: PoolState, negate: Atom -> Atom, c: Content)
    ensures Valid(s, negate) && Internable(s, negate, c) ==>
      Valid(AddOf(s, negate, c).0, negate) && AddOf(s, negate, c).1 in AddOf(s, negate, c).0.nodes
  {
    if Valid(s, negate) && Internable(s, negate, c) {
      AddValid(s, negate, c);
    }
  }

  /** A content already live is found at its unique node. */
  lemma AddOfInterned(s: PoolState, negate: Atom -> Atom, c: Content, j: FormulaId)
    requires Interning(s) && j in s.nodes && s.nodes[j].content == c
    ensures AddOf(s, negate, c) == (s, j)
  {
  }

  lemma PublishedValid(s: PoolState, negate: Atom -> Atom, c: Content)
    requires Valid(s, negate) && Internable(s, negate, c) && !Interned(s, c)
    ensures var t := Published(s, negate, c); var k := s.idAllocator;
      && Valid(t, negate)
      && k !in s.nodes && t.nodes[k].usages == InitialUsage(c.ConstraintAtom?)
      && Extends(s, t)
  {
    PublishedPaired(s, negate, c);
    PublishedShaped(s, negate, c);
    PublishedInterning(s, negate, c);
    PublishedTabled(s, negate, c);
    PublishedExtends(s, negate, c);
    LinkedExtends(s, Published(s, negate, c));
  }

  /** Every node of s is live in t, unchanged. */
  ghost predicate Extends(s: PoolState, t: PoolState)
  {
    forall j {:trigger j in s.nodes} :: j in s.nodes ==> j in t.nodes && t.nodes[j] == s.nodes[j]
  }

  lemma PublishedExtends(s: PoolState, negate: Atom -> Atom, c: Content)
    requires Paired(s)
    ensures Extends(s, Published(s, negate, c))
  {
  }

  lemma LinkedExtends(s: PoolState, t: PoolState)
    requires Paired(s) && Linked(s) && Paired(t) && Extends(s, t)
    requires t.tseitinVars == s.tseitinVars && t.tseitinVarToFormula == s.tseitinVarToFormula
    ensures Linked(t)
  {
    forall f | f in t.tseitinVars
      ensures f in t.nodes && t.nodes[f] == s.nodes[f]
    {
      assert f in s.nodes;
    }
    forall p | p in t.tseitinVarToFormula
      ensures p in t.nodes && t.nodes[p] == s.nodes[p]
    {
      assert p in s.nodes;
    }
  }

  lemma PublishedShaped(s: PoolState, negate: Atom -> Atom, c: Content)
    requires Valid(s, negate) && Internable(s, negate, c)
    ensures Paired(Published(s, negate, c)) && Shaped(Published(s, negate, c), negate)
  {
    PublishedPaired(s, negate, c);
    var t := Published(s, negate, c);
    var k := s.idAllocator;
    forall j | j in t.nodes
      ensures
        var c := t.nodes[j].content;
        var n := t.nodes[j].negation;
        && (c.Not? ==> c.sub == n && !t.nodes[n].content.Not?)
        && (c.ConstraintAtom? ==> t.nodes[n].content == ConstraintAtom(negate(c.atom)))
        && (!c.Not? && !c.ConstraintAtom? && !c.Constant? ==> t.nodes[n].content == Not(j))
        && (c.Constant? ==> j == TRUE_NODE || j == FALSE_NODE)
        && (c.BoolVar? ==> c.v < t.freshBoolean)
    {
      if j != k && j != k + 1 {
        assert j in s.nodes;
        assert s.nodes[j].negation in s.nodes;
      }
    }
  }

  lemma PublishedInterning(s: PoolState, negate: Atom -> Atom, c: Content)
    requires Valid(s, negate) && Internable(s, negate, c) && !Interned(s, c)
    ensures Interning(Published(s, negate, c))
  {
    var t := Published(s, negate, c);
    var k := s.idAllocator;
    var nc := NegatedContent(c, k, negate);
    assert !Interned(s, nc);
    forall i, j | i in t.nodes && j in t.nodes && t.nodes[i].content == t.nodes[j].content
      ensures i == j
    {
      if i != k && i != k + 1 {
        assert i in s.nodes;
      }
      if j != k && j != k + 1 {
        assert j in s.nodes;
      }
    }
  }

  lemma PublishedTabled(s: PoolState, negate: Atom -> Atom, c: Content)
    requires Valid(s, negate) && Internable(s, negate, c)
    ensures Paired(Published(s, negate, c)) && Tabled(Published(s, negate, c))
  {
    PublishedPaired(s, negate, c);
    var t := Published(s, negate, c);
    var k := s.idAllocator;
    forall j | j in t.pool
      ensures j in t.nodes && BaseFormula(t, j) == j
    {
      if j != k {
        assert j in s.pool && j in s.nodes;
        assert s.nodes[j].negation in s.nodes;
      }
    }
  }

  lemma PublishedPaired(s: PoolState, negate: Atom -> Atom, c: Content)
    requires Paired(s)
    ensures Paired(Published(s, negate, c))
  {
    var t := Published(s, negate, c);
    var k := s.idAllocator;
    forall j | j in t.nodes
      ensures var n := t.nodes[j].negation; n in t.nodes && t.nodes[n].negation == j && n != j && j < t.idAllocator
    {
      if j != k && j != k + 1 {
        assert j in s.nodes;
      }
    }
  }

  // ----- Registering a use -----

  /** `reg`: one more use on the base formula, two when a constraint gets its first. */
  function RegOf(s: PoolState, elem: FormulaId): PoolState
    requires Paired(s) && elem in s.nodes
  {
    var b := BaseFormula(s, elem);
    WithUsage(s, b, RegUsage(s.nodes[b].usages, s.nodes[elem].content.ConstraintAtom?))
  }

  /** s with node b replaced by m, which has b's content and negation link. */
  function Retagged(s: PoolState, b: FormulaId, m: Node): PoolState
    requires b in s.nodes
  {
    s.(nodes := s.nodes[b := m])
  }

  /** m differs from node b at most in its counters. */
  predicate SameLinks(s: PoolState, b: FormulaId, m: Node)
    requires b in s.nodes
  {
    m.content == s.nodes[b].content && m.negation == s.nodes[b].negation
  }

  /** s with the usage counter of node b set to u. */
  function WithUsage(s: PoolState, b: FormulaId, u: nat): PoolState
    requires b in s.nodes
  {
    Retagged(s, b, s.nodes[b].(usages := u))
  }

  lemma WithUsageValid(s: PoolState, negate: Atom -> Atom, b: FormulaId, u: nat)
    requires Valid(s, negate) && b in s.nodes
    requires b == TRUE_NODE || b == FALSE_NODE ==> u >= 2
    ensures Valid(WithUsage(s, b, u), negate)
  {
    RetaggedValid(s, negate, b, s.nodes[b].(usages := u));
  }

  /** Changing the counters of one node keeps the invariants, as long as TRUE and FALSE stay pinned. */
  lemma RetaggedValid(s: PoolState, negate: Atom -> Atom, b: FormulaId, m: Node)
    requires Valid(s, negate) && b in s.nodes && SameLinks(s, b, m)
    requires b == TRUE_NODE || b == FALSE_NODE ==> m.usages >= 2
    ensures Valid(Retagged(s, b, m), negate)
  {
    RetaggedPaired(s, b, m);
    RetaggedShaped(s, negate, b, m);
    RetaggedInterning(s, b, m);
    RetaggedTabled(s, b, m);
    RetaggedLinked(s, b, m);
  }

  lemma RetaggedPaired(s: PoolState, b: FormulaId, m: Node)
    requires Paired(s) && b in s.nodes && SameLinks(s, b, m)
    ensures Paired(Retagged(s, b, m))
  {
  }

  lemma RetaggedShaped(s: PoolState, negate: Atom -> Atom, b: FormulaId, m: Node)
    requires Paired(s) && Shaped(s, negate) && b in s.nodes && SameLinks(s, b, m)
    ensures Paired(Retagged(s, b, m)) && Shaped(Retagged(s, b, m), negate)
  {
    RetaggedPaired(s, b, m);
  }

  lemma RetaggedInterning(s: PoolState, b: FormulaId, m: Node)
    requires Interning(s) && b in s.nodes && SameLinks(s, b, m)
    ensures Interning(Retagged(s, b, m))
  {
  }

  lemma RetaggedTabled(s: PoolState, b: FormulaId, m: Node)
    requires Paired(s) && Tabled(s) && b in s.nodes && SameLinks(s, b, m)
    ensures Paired(Retagged(s, b, m)) && Tabled(Retagged(s, b, m))
  {
    RetaggedPaired(s, b, m);
    var t := Retagged(s, b, m);
    forall k | k in t.pool
      ensures BaseFormula(t, k) == k
    {
      assert k in s.nodes && s.nodes[k].negation in s.nodes;
    }
  }

  lemma RetaggedLinked(s: PoolState, b: FormulaId, m: Node)
    requires Paired(s) && Linked(s) && b in s.nodes && SameLinks(s, b, m)
    ensures Paired(Retagged(s, b, m)) && Linked(Retagged(s, b, m))
  {
    RetaggedPaired(s, b, m);
  }

  /**
   * `reg` keeps the invariants and raises the base formula's counter by
   * exactly one, or by two when a constraint goes from no use to its first;
   * no other counter and nothing else changes.
   */
  /** The part of RegValid the pool's `reg` needs. */
  lemma RegKeepsValid(s: PoolState, negate: Atom -> Atom, elem: FormulaId)
    requires Valid(s, negate) && elem in s.nodes
    ensures Valid(RegOf(s, elem), negate)
  {
    RegValid(s, negate, elem);
  }

  lemma RegValid(s: PoolState, negate: Atom -> Atom, elem: FormulaId)
    requires Valid(s, negate) && elem in s.nodes
    ensures var t := RegOf(s, elem); var b := BaseFormula(s, elem);
      && Valid(t, negate) && t == WithUsage(s, b, t.nodes[b].usages)
      && t.nodes[b].usages == s.nodes[b].usages + (if s.nodes[b].usages == 0 && s.nodes[elem].content.ConstraintAtom? then 2 else 1)
      && (forall j {:trigger j in s.nodes} :: j in s.nodes && j != b ==> t.nodes[j] == s.nodes[j])
  {
    var t := RegOf(s, elem);
    var b := BaseFormula(s, elem);
    assert b in s.nodes;
    WithUsageValid(s, negate, b, t.nodes[b].usages);
  }

  // ----- Deleting a pair -----

  /** Neither Tseitin map has d as a key. */
  predicate Unmapped(s: PoolState, d: FormulaId)
  {
    d !in s.tseitinVars && d !in s.tseitinVarToFormula
  }

  /** The pair of x, erased from the pool and deleted. */
  function Deleted(s: PoolState, x: FormulaId): PoolState
    requires x in s.nodes
  {
    s.(nodes := s.nodes - {x, s.nodes[x].negation}, pool := s.pool - {x})
  }

  /**
   * Deleting a non-constant base formula and its negation keeps the
   * invariants when no Tseitin entry is keyed by either; every other node
   * stays as it was.
   */
  lemma DeletedValid(s: PoolState, negate: Atom -> Atom, x: FormulaId)
    requires Valid(s, negate) && x in s.nodes && BaseFormula(s, x) == x && !s.nodes[x].content.Constant?
    requires Unmapped(s, x) && Unmapped(s, s.nodes[x].negation)
    ensures var t := Deleted(s, x);
      && Valid(t, negate) && Extends(t, s)
      && x !in t.nodes && s.nodes[x].negation !in t.nodes
      && t.tseitinVars == s.tseitinVars && t.tseitinVarToFormula == s.tseitinVarToFormula
  {
    DeletedPaired(s, x);
    DeletedShaped(s, negate, x);
    BaseFormulaOfPair(s, negate, x);
    DeletedTabled(s, x);
    DeletedLinked(s, x);
  }

  lemma DeletedPaired(s: PoolState, x: FormulaId)
    requires Paired(s) && x in s.nodes
    ensures Paired(Deleted(s, x)) && Extends(Deleted(s, x), s)
  {
    var t := Deleted(s, x);
    forall k | k in t.nodes
      ensures t.nodes[k].negation in t.nodes
    {
      assert k in s.nodes;
    }
  }

  lemma DeletedShaped(s: PoolState, negate: Atom -> Atom, x: FormulaId)
    requires Paired(s) && Shaped(s, negate) && Interning(s) && x in s.nodes
    ensures Paired(Deleted(s, x)) && Shaped(Deleted(s, x), negate) && Interning(Deleted(s, x))
  {
    DeletedPaired(s, x);
    var t := Deleted(s, x);
    forall k | k in t.nodes
      ensures k in s.nodes && s.nodes[k].negation in t.nodes
    {
    }
    forall i, j | i in t.nodes && j in t.nodes
      ensures i in s.nodes && j in s.nodes
    {
    }
  }

  lemma DeletedTabled(s: PoolState, x: FormulaId)
    requires Paired(s) && Tabled(s) && x in s.nodes
    requires BaseFormula(s, s.nodes[x].negation) != s.nodes[x].negation
    ensures Paired(Deleted(s, x)) && Tabled(Deleted(s, x))
  {
    DeletedPaired(s, x);
    var t := Deleted(s, x);
    forall k | k in t.pool
      ensures k in t.nodes && BaseFormula(t, k) == k
    {
      assert k in s.nodes && s.nodes[k].negation in s.nodes;
    }
  }

  lemma DeletedLinked(s: PoolState, x: FormulaId)
    requires Paired(s) && Linked(s) && x in s.nodes
    requires Unmapped(s, x) && Unmapped(s, s.nodes[x].negation)
    ensures Paired(Deleted(s, x)) && Linked(Deleted(s, x))
  {
    DeletedPaired(s, x);
    var t := Deleted(s, x);
    forall f | f in t.tseitinVars
      ensures f in t.nodes && s.nodes[f].negation in t.nodes
    {
      assert f in s.nodes;
    }
    forall q | q in t.tseitinVarToFormula
      ensures q in t.nodes && s.nodes[q].negation in t.nodes
    {
      assert q in s.nodes;
    }
  }

  // ----- Releasing Tseitin variables -----

  /** The Tseitin entry of formula f and its back link, erased. */
  function Unlinked(s: PoolState, f: FormulaId): PoolState
    requires f in s.tseitinVars
  {
    s.(tseitinVars := s.tseitinVars - {f}, tseitinVarToFormula := s.tseitinVarToFormula - {s.tseitinVars[f]})
  }

  lemma UnlinkedValid(s: PoolState, negate: Atom -> Atom, f: FormulaId)
    requires Valid(s, negate) && f in s.tseitinVars
    ensures var t := Unlinked(s, f);
      && Valid(t, negate) && t.nodes == s.nodes
      && Unmapped(t, f) && Unmapped(t, s.tseitinVars[f])
  {
    UnlinkedLinked(s, f);
    SameNodes(s, negate, Unlinked(s, f));
  }

  lemma UnlinkedLinked(s: PoolState, f: FormulaId)
    requires Paired(s) && Linked(s) && f in s.tseitinVars
    ensures Paired(Unlinked(s, f)) && Linked(Unlinked(s, f))
  {
    var t := Unlinked(s, f);
    assert Paired(t);
    forall g | g in t.tseitinVars
      ensures g in s.tseitinVars && t.tseitinVars[g] != s.tseitinVars[f]
    {
    }
    forall q | q in t.tseitinVarToFormula
      ensures q in s.tseitinVarToFormula && t.tseitinVarToFormula[q] != f
    {
    }
  }

  /** Everything but the Tseitin maps is the same: only Linked needs proving again. */
  lemma SameNodes(s: PoolState, negate: Atom -> Atom, t: PoolState)
    requires Valid(s, negate) && Paired(t) && Linked(t)
    requires t.nodes == s.nodes && t.pool == s.pool && t.idAllocator == s.idAllocator && t.freshBoolean == s.freshBoolean
    ensures Valid(t, negate)
  {
    assert s.(tseitinVars := t.tseitinVars, tseitinVarToFormula := t.tseitinVarToFormula) == t;
  }

  /**
   * Whether d is still needed as a Tseitin variable: d has a Tseitin
   * variable whose own counter is not 1, or d is the Tseitin variable of a
   * formula whose own counter is not 1.
   */
  predicate HeldByTseitin(s: PoolState, d: FormulaId)
    requires Paired(s) && Linked(s)
  {
    if d in s.tseitinVars then s.nodes[s.tseitinVars[d]].usages != 1
    else if d in s.tseitinVarToFormula then s.nodes[s.tseitinVarToFormula[d]].usages != 1
    else false
  }

  /**
   * `freeTseitinVariable`: when d has a Tseitin variable used only by the
   * pool, the variable's pair is deleted; when d is a Tseitin variable of a
   * formula used only by the pool, the formula's pair is deleted.  The
   * boolean says whether the link had to be kept.
   */
  function FreeTseitinOf(s: PoolState, d: FormulaId): (PoolState, bool)
    requires Paired(s) && Linked(s)
  {
    if d in s.tseitinVars then
      var p := s.tseitinVars[d];
      if s.nodes[p].usages == 1 then (Deleted(Unlinked(s, d), p), false) else (s, true)
    else if d in s.tseitinVarToFormula then
      var f := s.tseitinVarToFormula[d];
      if s.nodes[f].usages == 1 then (Deleted(Unlinked(s, f), BaseFormula(s, f)), false) else (s, true)
    else (s, false)
  }

  /**
   * Releasing a Tseitin link keeps the invariants; it reports exactly
   * whether the link is still held; when it is released, d is no longer a
   * key of either map and its partner's pair is gone; d's own pair and every
   * other surviving node are unchanged, and the maps only shrink.
   */
  lemma FreeTseitinValid(s: PoolState, negate: Atom -> Atom, d: FormulaId)
    requires Valid(s, negate) && d in s.nodes
    ensures var (t, held) := FreeTseitinOf(s, d);
      && Valid(t, negate)
      && held == HeldByTseitin(s, d)
      && (held || Unmapped(s, d) ==> t == s)
      && (!held ==> Unmapped(t, d))
      && (!held && d in s.tseitinVars ==> s.tseitinVars[d] !in t.nodes)
      && (!held && d !in s.tseitinVars && d in s.tseitinVarToFormula ==>
            BaseFormula(s, s.tseitinVarToFormula[d]) !in t.nodes)
      && Extends(t, s) && d in t.nodes && s.nodes[d].negation in t.nodes
      && t.tseitinVars.Keys <= s.tseitinVars.Keys
      && t.tseitinVarToFormula.Keys <= s.tseitinVarToFormula.Keys
  {
    var n := s.nodes[d].negation;
    assert n in s.nodes;
    if d in s.tseitinVars {
      if s.nodes[s.tseitinVars[d]].usages == 1 {
        ReleasedVariable(s, negate, d);
        ReleasedVariableFrame(s, d);
      }
    } else if d in s.tseitinVarToFormula {
      if s.nodes[s.tseitinVarToFormula[d]].usages == 1 {
        ReleasedFormula(s, negate, d);
        ReleasedFormulaFrame(s, d);
      }
    } else {
      assert Extends(s, s);
    }
  }

  /** The first branch of `freeTseitinVariable`: d's unused Tseitin variable is deleted. */
  lemma ReleasedVariable(s: PoolState, negate: Atom -> Atom, d: FormulaId)
    requires Valid(s, negate) && d in s.tseitinVars
    ensures s.tseitinVars[d] in s.nodes
    ensures Valid(Deleted(Unlinked(s, d), s.tseitinVars[d]), negate)
  {
    var p := s.tseitinVars[d];
    UnlinkedValid(s, negate, d);
    assert p in s.tseitinVarToFormula && p in s.nodes;
    assert s.nodes[p].content.BoolVar?;
    DeletedValid(Unlinked(s, d), negate, p);
  }

  /** In the first branch, d loses its entry, the variable's pair goes and every other node stays. */
  lemma ReleasedVariableFrame(s: PoolState, d: FormulaId)
    requires Paired(s) && Linked(s) && d in s.tseitinVars
    ensures s.tseitinVars[d] in s.nodes
    ensures var t := Deleted(Unlinked(s, d), s.tseitinVars[d]);
      && Unmapped(t, d) && s.tseitinVars[d] !in t.nodes
      && Extends(t, s) && d in t.nodes && s.nodes[d].negation in t.nodes
  {
    var p := s.tseitinVars[d];
    assert p in s.tseitinVarToFormula && d in s.nodes;
    DeletedPaired(Unlinked(s, d), p);
    var n := s.nodes[d].negation;
    assert n in s.nodes && n !in s.tseitinVarToFormula;
  }

  /** The second branch: the unused formula whose Tseitin variable is d is deleted. */
  lemma ReleasedFormula(s: PoolState, negate: Atom -> Atom, d: FormulaId)
    requires Valid(s, negate) && d in s.tseitinVarToFormula
    requires s.nodes[s.tseitinVarToFormula[d]].usages == 1
    ensures s.tseitinVarToFormula[d] in s.tseitinVars
    ensures Valid(Deleted(Unlinked(s, s.tseitinVarToFormula[d]), BaseFormula(s, s.tseitinVarToFormula[d])), negate)
  {
    var f := s.tseitinVarToFormula[d];
    UnlinkedValid(s, negate, f);
    assert f in s.nodes && f != TRUE_NODE && f != FALSE_NODE;
    BaseFormulaOfPair(s, negate, f);
    var b := BaseFormula(s, f);
    assert b in s.nodes;
    DeletedValid(Unlinked(s, f), negate, b);
  }

  /** In the second branch, d loses its entry, the formula's pair goes and every other node stays. */
  lemma ReleasedFormulaFrame(s: PoolState, d: FormulaId)
    requires Paired(s) && Linked(s) && d in s.tseitinVarToFormula
    ensures s.tseitinVarToFormula[d] in s.tseitinVars && s.tseitinVarToFormula[d] in s.nodes
    ensures var f := s.tseitinVarToFormula[d]; var t := Deleted(Unlinked(s, f), BaseFormula(s, f));
      && Unmapped(t, d) && BaseFormula(s, f) !in t.nodes
      && Extends(t, s) && d in t.nodes && s.nodes[d].negation in t.nodes
  {
    var f := s.tseitinVarToFormula[d];
    assert f in s.nodes && d in s.nodes;
    var b := BaseFormula(s, f);
    assert b in s.nodes;
    DeletedPaired(Unlinked(s, f), b);
    var n := s.nodes[d].negation;
    assert n in s.nodes && n !in s.tseitinVars && n !in s.tseitinVarToFormula;
    assert b == f || b == s.nodes[f].negation;
  }

  // ----- Freeing a use -----

  /** Both polarities of a freed pair go through `freeTseitinVariable`; the pair is held if either is. */
  ghost function ReleaseBoth(s: PoolState, negate: Atom -> Atom, b: FormulaId): (PoolState, bool)
    requires Valid(s, negate) && b in s.nodes
  {
    FreeTseitinValid(s, negate, b);
    var (s2, held1) := FreeTseitinOf(s, b);
    var (s3, held2) := FreeTseitinOf(s2, s.nodes[b].negation);
    (s3, held1 || held2)
  }

  /**
   * At most one polarity of a pair is tied to a Tseitin link, so releasing
   * both keeps the invariants and reports a hold exactly when one of them is
   * held in the original pool; the pair itself survives unchanged.
   */
  lemma ReleaseBothValid(s: PoolState, negate: Atom -> Atom, b: FormulaId)
    requires Valid(s, negate) && b in s.nodes
    ensures var (t, held) := ReleaseBoth(s, negate, b); var n := s.nodes[b].negation;
      && Valid(t, negate) && Extends(t, s) && b in t.nodes && n in t.nodes
      && held == (HeldByTseitin(s, b) || HeldByTseitin(s, n))
      && (!held ==> Unmapped(t, b) && Unmapped(t, n))
      && (Unmapped(s, b) && Unmapped(s, n) ==> t == s)
  {
    var n := s.nodes[b].negation;
    assert n in s.nodes && s.nodes[n].negation == b;
    FreeTseitinValid(s, negate, b);
    var (s2, held1) := FreeTseitinOf(s, b);
    assert s2.nodes[n] == s.nodes[n];
    FreeTseitinValid(s2, negate, n);
    if !Unmapped(s, b) {
      assert Unmapped(s, n);
      assert Unmapped(s2, n);
    }
  }

  /** What `free` asserts of its caller: the base formula is in use; a constant keeps the pool's own two uses. */
  predicate Freeable(s: PoolState, elem: FormulaId)
    requires Paired(s) && elem in s.nodes
  {
    var b := BaseFormula(s, elem);
    s.nodes[b].usages > 0 && (b == TRUE_NODE || b == FALSE_NODE ==> s.nodes[b].usages > 2)
  }

  /**
   * `free`: one use less on the base formula; when only the pool's own use
   * is left, the Tseitin links of both polarities are released and, unless
   * one of them is still held, the pair is deleted.
   */
  ghost function FreeOf(s: PoolState, negate: Atom -> Atom, elem: FormulaId): PoolState
    requires Valid(s, negate) && elem in s.nodes && Freeable(s, elem)
  {
    var b := BaseFormula(s, elem);
    var u := s.nodes[b].usages - 1;
    WithUsageValid(s, negate, b, u);
    var s1 := WithUsage(s, b, u);
    if u != 1 then s1 else FreeAtOne(s1, negate, b)
  }

  /** The rest of `free` once only the pool's own use is left on b. */
  ghost function FreeAtOne(s: PoolState, negate: Atom -> Atom, b: FormulaId): PoolState
    requires Valid(s, negate) && b in s.nodes
  {
    ReleaseBothValid(s, negate, b);
    var (s3, held) := ReleaseBoth(s, negate, b);
    if held then s3 else Deleted(s3, b)
  }

  /** The pair goes exactly when neither polarity is held; nothing is added and survivors are unchanged. */
  lemma FreeAtOneFrame(s: PoolState, negate: Atom -> Atom, b: FormulaId)
    requires Valid(s, negate) && b in s.nodes
    ensures var t := FreeAtOne(s, negate, b);
      && (b !in t.nodes <==> !HeldByTseitin(s, b) && !HeldByTseitin(s, s.nodes[b].negation))
      && Extends(t, s)
  {
    ReleaseBothValid(s, negate, b);
    var (s3, held) := ReleaseBoth(s, negate, b);
    if !held {
      DeletedPaired(s3, b);
      ExtendsTransitive(Deleted(s3, b), s3, s);
    }
  }

  /** A node whose pair survives into a smaller pool keeps its base formula. */
  lemma BaseFormulaKept(s: PoolState, t: PoolState, x: FormulaId)
    requires Paired(s) && Paired(t) && Extends(t, s) && x in t.nodes
    ensures x in s.nodes && BaseFormula(t, x) == BaseFormula(s, x)
  {
    assert t.nodes[x].negation in t.nodes;
  }

  /** Counters do not enter into the base formula. */
  lemma BaseFormulaWithUsage(s: PoolState, b: FormulaId, u: nat, x: FormulaId)
    requires Paired(s) && b in s.nodes && x in s.nodes
    ensures Paired(WithUsage(s, b, u)) && BaseFormula(WithUsage(s, b, u), x) == BaseFormula(s, x)
  {
    RetaggedPaired(s, b, s.nodes[b].(usages := u));
  }

  lemma ExtendsTransitive(a: PoolState, b: PoolState, c: PoolState)
    requires Extends(a, b) && Extends(b, c)
    ensures Extends(a, c)
  {
    forall j | j in a.nodes
      ensures j in b.nodes
    {
    }
  }

  /** The base formula of a freed element is its own base, and not a constant when its count can fall to 1. */
  lemma FreedBase(s: PoolState, negate: Atom -> Atom, elem: FormulaId)
    requires Valid(s, negate) && elem in s.nodes && Freeable(s, elem)
    ensures var b := BaseFormula(s, elem);
      && b in s.nodes && BaseFormula(s, b) == b
      && (s.nodes[b].usages == 2 ==> !s.nodes[b].content.Constant?)
  {
    BaseFormulaOfPair(s, negate, elem);
  }

  /** `free` keeps the invariants. */
  lemma FreeValid(s: PoolState, negate: Atom -> Atom, elem: FormulaId)
    requires Valid(s, negate) && elem in s.nodes && Freeable(s, elem)
    ensures Valid(FreeOf(s, negate, elem), negate)
  {
    var b := BaseFormula(s, elem);
    FreedBase(s, negate, elem);
    var u := s.nodes[b].usages - 1;
    WithUsageValid(s, negate, b, u);
    var s1 := WithUsage(s, b, u);
    if u == 1 {
      BaseFormulaWithUsage(s, b, u, b);
      FreeAtOneValid(s1, negate, b);
    }
  }

  /** The counter step of the pool's `free`: the decremented state is valid and determines the result. */
  lemma FreeDecrement(s: PoolState, negate: Atom -> Atom, elem: FormulaId)
    requires Valid(s, negate) && elem in s.nodes && Freeable(s, elem)
    ensures var b := BaseFormula(s, elem); var u := s.nodes[b].usages - 1;
      && b in s.nodes && u >= 0
      && Valid(WithUsage(s, b, u), negate)
      && Valid(FreeOf(s, negate, elem), negate)
      && (u != 1 ==> FreeOf(s, negate, elem) == WithUsage(s, b, u))
      && (u == 1 ==> FreeOf(s, negate, elem) == FreeAtOne(WithUsage(s, b, u), negate, b))
  {
    var b := BaseFormula(s, elem);
    FreedBase(s, negate, elem);
    WithUsageValid(s, negate, b, s.nodes[b].usages - 1);
    FreeValid(s, negate, elem);
  }

  /** The release step of the pool's `free`, one Tseitin release after the other. */
  lemma ReleaseSteps(s: PoolState, negate: Atom -> Atom, b: FormulaId)
    requires Valid(s, negate) && b in s.nodes
    ensures var n := s.nodes[b].negation; var (s2, held1) := FreeTseitinOf(s, b);
      && Valid(s2, negate) && n in s2.nodes
      && var (s3, held2) := FreeTseitinOf(s2, n);
      && b in s3.nodes && s3.nodes[b].negation == n
      && FreeAtOne(s, negate, b) == if held1 || held2 then s3 else Deleted(s3, b)
  {
    ReleaseBothValid(s, negate, b);
    FreeTseitinValid(s, negate, b);
  }

  /** Deleting a pair that only the pool uses keeps the invariants. */
  lemma FreeAtOneValid(s: PoolState, negate: Atom -> Atom, b: FormulaId)
    requires Valid(s, negate) && b in s.nodes && BaseFormula(s, b) == b && !s.nodes[b].content.Constant?
    ensures Valid(FreeAtOne(s, negate, b), negate)
  {
    ReleaseBothValid(s, negate, b);
    var (s3, held) := ReleaseBoth(s, negate, b);
    if !held {
      BaseFormulaKept(s, s3, b);
      DeletedValid(s3, negate, b);
    }
  }

  /** A counter change on b leaves the hold of d alone when d's Tseitin partner is not b. */
  lemma HeldWithUsage(s: PoolState, b: FormulaId, u: nat, d: FormulaId)
    requires Paired(s) && Linked(s) && b in s.nodes
    requires d in s.tseitinVars ==> s.tseitinVars[d] != b
    requires d !in s.tseitinVars && d in s.tseitinVarToFormula ==> s.tseitinVarToFormula[d] != b
    ensures Paired(WithUsage(s, b, u)) && Linked(WithUsage(s, b, u))
    ensures HeldByTseitin(WithUsage(s, b, u), d) == HeldByTseitin(s, d)
  {
    RetaggedLinked(s, b, s.nodes[b].(usages := u));
  }

  /** Neither polarity of a pair is the Tseitin partner of either. */
  lemma PartnersOutsidePair(s: PoolState, b: FormulaId)
    requires Paired(s) && Linked(s) && b in s.nodes
    ensures var n := s.nodes[b].negation;
      && (b in s.tseitinVars ==> s.tseitinVars[b] != b)
      && (b !in s.tseitinVars && b in s.tseitinVarToFormula ==> s.tseitinVarToFormula[b] != b)
      && (n in s.tseitinVars ==> s.tseitinVars[n] != b)
      && (n !in s.tseitinVars && n in s.tseitinVarToFormula ==> s.tseitinVarToFormula[n] != b)
  {
    var n := s.nodes[b].negation;
    assert n in s.nodes && s.nodes[n].negation == b;
  }

  /**
   * `free` deletes the base formula's pair exactly when its count was 2 and
   * neither polarity is held by a Tseitin link; otherwise the count is one
   * less, and when the count was not 2 nothing else changes.  Nodes are
   * never added, and only b's counter changes among the survivors.
   */
  lemma FreeDeletes(s: PoolState, negate: Atom -> Atom, elem: FormulaId)
    requires Valid(s, negate) && elem in s.nodes && Freeable(s, elem)
    ensures var b := BaseFormula(s, elem); var t := FreeOf(s, negate, elem);
      && b in s.nodes
      && (b !in t.nodes <==>
            s.nodes[b].usages == 2 && !HeldByTseitin(s, b) && !HeldByTseitin(s, s.nodes[b].negation))
      && (b in t.nodes ==> t.nodes[b] == s.nodes[b].(usages := s.nodes[b].usages - 1))
      && (s.nodes[b].usages != 2 ==> t == WithUsage(s, b, s.nodes[b].usages - 1))
      && (forall j {:trigger j in t.nodes} :: j in t.nodes ==> j in s.nodes && (j != b ==> t.nodes[j] == s.nodes[j]))
  {
    var b := BaseFormula(s, elem);
    FreedBase(s, negate, elem);
    if s.nodes[b].usages == 2 {
      FreeAtTwo(s, negate, elem);
    } else {
      assert FreeOf(s, negate, elem) == WithUsage(s, b, s.nodes[b].usages - 1);
    }
  }

  /** The case of FreeDeletes where the count falls to 1: `free` runs FreeAtOne on the decremented pool. */
  lemma FreeAtTwo(s: PoolState, negate: Atom -> Atom, elem: FormulaId)
    requires Valid(s, negate) && elem in s.nodes && Freeable(s, elem)
    requires s.nodes[BaseFormula(s, elem)].usages == 2
    ensures var b := BaseFormula(s, elem); var t := FreeOf(s, negate, elem);
      && b in s.nodes
      && (b !in t.nodes <==> !HeldByTseitin(s, b) && !HeldByTseitin(s, s.nodes[b].negation))
      && (b in t.nodes ==> t.nodes[b] == s.nodes[b].(usages := 1))
      && (forall j {:trigger j in t.nodes} :: j in t.nodes ==> j in s.nodes && (j != b ==> t.nodes[j] == s.nodes[j]))
  {
    var b := BaseFormula(s, elem);
    FreedBase(s, negate, elem);
    WithUsageValid(s, negate, b, 1);
    FreeAtOneFrame(WithUsage(s, b, 1), negate, b);
    DecrementedHolds(s, b);
    DecrementedFrame(s, b, FreeAtOne(WithUsage(s, b, 1), negate, b));
  }

  /** After the counter of b falls to 1, both polarities are held as before. */
  lemma DecrementedHolds(s: PoolState, b: FormulaId)
    requires Paired(s) && Linked(s) && b in s.nodes
    ensures var s1 := WithUsage(s, b, 1); var n := s.nodes[b].negation;
      && Paired(s1) && Linked(s1) && s1.nodes[b].negation == n
      && HeldByTseitin(s1, b) == HeldByTseitin(s, b) && HeldByTseitin(s1, n) == HeldByTseitin(s, n)
  {
    PartnersOutsidePair(s, b);
    HeldWithUsage(s, b, 1, b);
    HeldWithUsage(s, b, 1, s.nodes[b].negation);
  }

  /** What survives a pool derived from the decremented one is as in the original, but for b's counter. */
  lemma DecrementedFrame(s: PoolState, b: FormulaId, t: PoolState)
    requires b in s.nodes && Extends(t, WithUsage(s, b, 1))
    ensures b in t.nodes ==> t.nodes[b] == s.nodes[b].(usages := 1)
    ensures forall j {:trigger j in t.nodes} :: j in t.nodes ==> j in s.nodes && (j != b ==> t.nodes[j] == s.nodes[j])
  {
  }

  // ----- Tseitin variables -----

  /** `getTseitinVar`: the Tseitin variable of f, TRUE when it has none. */
  function GetTseitinVarOf(s: PoolState, f: FormulaId): FormulaId
  {
    if f in s.tseitinVars then s.tseitinVars[f] else TRUE_NODE
  }

  /** The Tseitin variable of f is TRUE exactly when f has none: a Tseitin variable is never a constant. */
  lemma GetTseitinVarSpec(s: PoolState, negate: Atom -> Atom, f: FormulaId)
    requires Valid(s, negate)
    ensures GetTseitinVarOf(s, f) == TRUE_NODE <==> f !in s.tseitinVars
    ensures f in s.tseitinVars ==> GetTseitinVarOf(s, f) in s.nodes && s.nodes[GetTseitinVarOf(s, f)].content.BoolVar?
  {
    if f in s.tseitinVars {
      var p := s.tseitinVars[f];
      assert p in s.tseitinVarToFormula;
    }
  }

  /**
   * The links this model keeps apart: f is linked already, or neither f nor
   * its negation takes part in a link.
   */
  predicate Tieable(s: PoolState, f: FormulaId)
    requires Paired(s) && f in s.nodes
  {
    var n := s.nodes[f].negation;
    f in s.tseitinVars || (f !in s.tseitinVarToFormula && Unmapped(s, n))
  }

  /** Both Tseitin entries between formula f and its variable p. */
  function Tied(s: PoolState, f: FormulaId, p: FormulaId): PoolState
  {
    s.(tseitinVars := s.tseitinVars[f := p], tseitinVarToFormula := s.tseitinVarToFormula[p := f])
  }

  /** The next fresh Boolean variable, drawn. */
  function Drawn(s: PoolState): PoolState
  {
    s.(freshBoolean := s.freshBoolean + 1)
  }

  /**
   * `createTseitinVar`: the Tseitin variable f already has, or a fresh
   * Boolean variable interned with f's difficulty and linked both ways.
   */
  ghost function CreateTseitinVarOf(s: PoolState, negate: Atom -> Atom, f: FormulaId): (PoolState, FormulaId)
    requires Valid(s, negate) && f in s.nodes && Tieable(s, f)
  {
    if f in s.tseitinVars then (s, s.tseitinVars[f])
    else
      var (s3, p) := NewTseitinVar(s, negate, f);
      (Tied(s3, f, p), p)
  }

  /** The fresh Boolean variable interned for f and given f's difficulty, not yet linked. */
  ghost function NewTseitinVar(s: PoolState, negate: Atom -> Atom, f: FormulaId): (PoolState, FormulaId)
    requires Valid(s, negate) && f in s.nodes
  {
    DrawnValid(s, negate);
    AddValid(Drawn(s), negate, BoolVar(s.freshBoolean));
    var (s2, p) := AddOf(Drawn(s), negate, BoolVar(s.freshBoolean));
    (Retagged(s2, p, s2.nodes[p].(difficulty := s.nodes[f].difficulty)), p)
  }

  lemma DrawnValid(s: PoolState, negate: Atom -> Atom)
    requires Valid(s, negate)
    ensures Valid(Drawn(s), negate) && Internable(Drawn(s), negate, BoolVar(s.freshBoolean))
    ensures !Interned(Drawn(s), BoolVar(s.freshBoolean))
  {
    DrawnShaped(s, negate);
    DrawnOthers(s);
  }

  /** A larger supply of fresh variables keeps every Boolean variable below it, and the drawn one unused. */
  lemma DrawnShaped(s: PoolState, negate: Atom -> Atom)
    requires Paired(s) && Shaped(s, negate)
    ensures Paired(Drawn(s)) && Shaped(Drawn(s), negate) && !Interned(Drawn(s), BoolVar(s.freshBoolean))
  {
    var t := Drawn(s);
    forall k | k in t.nodes
      ensures k in s.nodes && s.nodes[k].negation in s.nodes
      ensures t.nodes[k].content != BoolVar(s.freshBoolean)
    {
    }
  }

  lemma DrawnOthers(s: PoolState)
    requires Paired(s) && Interning(s) && Tabled(s) && Constants(s) && Linked(s)
    ensures Paired(Drawn(s)) && Interning(Drawn(s)) && Tabled(Drawn(s)) && Constants(Drawn(s)) && Linked(Drawn(s))
  {
    DrawnPaired(s);
    DrawnInterning(s);
    DrawnTabled(s);
    DrawnLinked(s);
  }

  lemma DrawnPaired(s: PoolState)
    requires Paired(s)
    ensures Paired(Drawn(s))
  {
    var t := Drawn(s);
    forall k | k in t.nodes
      ensures k in s.nodes
    {
    }
  }

  lemma DrawnInterning(s: PoolState)
    requires Interning(s)
    ensures Interning(Drawn(s))
  {
  }

  lemma DrawnTabled(s: PoolState)
    requires Paired(s) && Tabled(s)
    ensures Paired(Drawn(s)) && Tabled(Drawn(s))
  {
    DrawnPaired(s);
    var t := Drawn(s);
    forall k | k in t.pool
      ensures k in s.pool && s.nodes[k].negation in s.nodes
    {
    }
  }

  lemma DrawnLinked(s: PoolState)
    requires Paired(s) && Linked(s)
    ensures Paired(Drawn(s)) && Linked(Drawn(s))
  {
    DrawnPaired(s);
    var t := Drawn(s);
    forall f | f in t.tseitinVars
      ensures f in s.tseitinVars
    {
    }
    forall q | q in t.tseitinVarToFormula
      ensures q in s.tseitinVarToFormula
    {
    }
  }

  /** Linking a linkable formula to a fresh, unlinked variable keeps the invariants. */
  lemma TiedValid(s: PoolState, negate: Atom -> Atom, f: FormulaId, p: FormulaId)
    requires Valid(s, negate) && f in s.nodes && p in s.nodes && s.nodes[p].content.BoolVar?
    requires f !in s.tseitinVars && Tieable(s, f)
    requires Unmapped(s, p) && Unmapped(s, s.nodes[p].negation)
    requires p != f && p != s.nodes[f].negation
    ensures Valid(Tied(s, f, p), negate)
  {
    TiedLinked(s, f, p);
    SameNodes(s, negate, Tied(s, f, p));
  }

  lemma TiedLinked(s: PoolState, f: FormulaId, p: FormulaId)
    requires Paired(s) && Linked(s) && f in s.nodes && p in s.nodes && s.nodes[p].content.BoolVar?
    requires f !in s.tseitinVars && Tieable(s, f)
    requires Unmapped(s, p) && Unmapped(s, s.nodes[p].negation)
    requires p != f && p != s.nodes[f].negation
    ensures Paired(Tied(s, f, p)) && Linked(Tied(s, f, p))
  {
    var t := Tied(s, f, p);
    assert Paired(t);
    assert s.nodes[f].negation in s.nodes && s.nodes[p].negation in s.nodes;
    assert FormulasLinked(t) by {
      forall g | g in t.tseitinVars
        ensures g == f || g in s.tseitinVars
      {
      }
    }
    assert VariablesLinked(t) by {
      forall q | q in t.tseitinVarToFormula
        ensures q == p || q in s.tseitinVarToFormula
      {
      }
    }
  }


  /**
   * `createTseitinVar` keeps the invariants and returns f's Tseitin variable,
   * linked both ways: a Boolean variable, the one f already had when it had
   * one (and then nothing changes).
   */
  /** What the pool's `createTseitinVar` needs: the result is valid, and so is the state with one more variable drawn. */
  lemma TseitinVarSteps(s: PoolState, negate: Atom -> Atom, f: FormulaId)
    requires Valid(s, negate) && f in s.nodes && Tieable(s, f)
    ensures Valid(CreateTseitinVarOf(s, negate, f).0, negate)
    ensures f !in s.tseitinVars ==>
      && Valid(Drawn(s), negate) && Internable(Drawn(s), negate, BoolVar(s.freshBoolean))
      && var (s2, p) := AddOf(Drawn(s), negate, BoolVar(s.freshBoolean));
      && p in s2.nodes
      && CreateTseitinVarOf(s, negate, f) == (Tied(Retagged(s2, p, s2.nodes[p].(difficulty := s.nodes[f].difficulty)), f, p), p)
  {
    CreateTseitinVarValid(s, negate, f);
    DrawnValid(s, negate);
    AddValid(Drawn(s), negate, BoolVar(s.freshBoolean));
  }

  lemma CreateTseitinVarValid(s: PoolState, negate: Atom -> Atom, f: FormulaId)
    requires Valid(s, negate) && f in s.nodes && Tieable(s, f)
    ensures var (t, p) := CreateTseitinVarOf(s, negate, f);
      && Valid(t, negate) && GetTseitinVarOf(t, f) == p
      && p in t.tseitinVarToFormula && t.tseitinVarToFormula[p] == f
      && p in t.nodes && t.nodes[p].content.BoolVar?
      && (f in s.tseitinVars ==> t == s)
  {
    if f !in s.tseitinVars {
      CreatedTseitinVar(s, negate, f);
      CreatedTseitinVarShape(s, negate, f);
    } else {
      assert s.tseitinVars[f] in s.tseitinVarToFormula;
    }
  }

  /** A new Tseitin variable keeps the invariants and every live node as it was. */
  lemma CreatedTseitinVar(s: PoolState, negate: Atom -> Atom, f: FormulaId)
    requires Valid(s, negate) && f in s.nodes && Tieable(s, f) && f !in s.tseitinVars
    ensures var (t, p) := CreateTseitinVarOf(s, negate, f); Valid(t, negate) && Extends(s, t)
  {
    NewTseitinVarValid(s, negate, f);
    NewTseitinVarFit(s, negate, f);
    var (s3, p) := NewTseitinVar(s, negate, f);
    TiedValid(s3, negate, f, p);
    ExtendsTied(s, s3, f, p);
  }

  /** The unlinked variable keeps the invariants and every live node. */
  lemma NewTseitinVarValid(s: PoolState, negate: Atom -> Atom, f: FormulaId)
    requires Valid(s, negate) && f in s.nodes
    ensures var (s3, p) := NewTseitinVar(s, negate, f); Valid(s3, negate) && Extends(s, s3)
  {
    var s1 := Drawn(s);
    DrawnValid(s, negate);
    AddValid(s1, negate, BoolVar(s.freshBoolean));
    var (s2, p) := AddOf(s1, negate, BoolVar(s.freshBoolean));
    var m := s2.nodes[p].(difficulty := s.nodes[f].difficulty);
    assert p != TRUE_NODE && p != FALSE_NODE by {
      assert TRUE_NODE in s1.nodes && FALSE_NODE in s1.nodes;
    }
    RetaggedValid(s2, negate, p, m);
    ExtendsRetagged(s1, s2, p, m);
    ExtendsDrawn(s, Retagged(s2, p, m));
  }

  /** The unlinked variable is a fresh Boolean variable, fit to be linked to f. */
  lemma NewTseitinVarFit(s: PoolState, negate: Atom -> Atom, f: FormulaId)
    requires Valid(s, negate) && f in s.nodes && Tieable(s, f) && f !in s.tseitinVars
    ensures var (s3, p) := NewTseitinVar(s, negate, f);
      && f in s3.nodes && p in s3.nodes && s3.nodes[p].content.BoolVar? && Paired(s3)
      && f !in s3.tseitinVars && Tieable(s3, f)
      && Unmapped(s3, p) && Unmapped(s3, s3.nodes[p].negation)
      && p != f && p != s3.nodes[f].negation
  {
    NewTseitinVarValid(s, negate, f);
    var s1 := Drawn(s);
    DrawnValid(s, negate);
    AddValid(s1, negate, BoolVar(s.freshBoolean));
    var (s3, p) := NewTseitinVar(s, negate, f);
    assert s.nodes[f].negation in s.nodes && s.nodes[f].negation != p;
    assert s3.nodes[f] == s.nodes[f] && s3.tseitinVars == s.tseitinVars && s3.tseitinVarToFormula == s.tseitinVarToFormula;
  }

  /**
   * A new Tseitin variable: a pair that was not live, holding the next fresh
   * Boolean variable and f's difficulty, linked both ways.
   */
  lemma CreatedTseitinVarShape(s: PoolState, negate: Atom -> Atom, f: FormulaId)
    requires Valid(s, negate) && f in s.nodes && Tieable(s, f) && f !in s.tseitinVars
    ensures var (t, p) := CreateTseitinVarOf(s, negate, f);
      && p !in s.nodes && p in t.nodes && t.nodes[p].content == BoolVar(s.freshBoolean)
      && t.nodes[p].difficulty == s.nodes[f].difficulty
      && t.freshBoolean == s.freshBoolean + 1
      && t.tseitinVars == s.tseitinVars[f := p] && t.tseitinVarToFormula == s.tseitinVarToFormula[p := f]
  {
    DrawnValid(s, negate);
    AddValid(Drawn(s), negate, BoolVar(s.freshBoolean));
  }

  /** Replacing a node that a is not concerned with keeps b extending a. */
  lemma ExtendsRetagged(a: PoolState, b: PoolState, p: FormulaId, m: Node)
    requires Extends(a, b) && p in b.nodes && p !in a.nodes
    ensures Extends(a, Retagged(b, p, m))
  {
  }

  /** Drawing a variable does not touch the nodes. */
  lemma ExtendsDrawn(s: PoolState, t: PoolState)
    requires Extends(Drawn(s), t)
    ensures Extends(s, t)
  {
    forall j | j in s.nodes
      ensures j in Drawn(s).nodes
    {
    }
  }

  /** Linking does not touch the nodes. */
  lemma ExtendsTied(s: PoolState, t: PoolState, f: FormulaId, p: FormulaId)
    requires Extends(s, t)
    ensures Extends(s, Tied(t, f, p))
  {
  }


  /** Asking again for f's Tseitin variable returns the same one and changes nothing. */
  lemma CreateTseitinVarIdempotent(s: PoolState, negate: Atom -> Atom, f: FormulaId)
    requires Valid(s, negate) && f in s.nodes && Tieable(s, f)
    ensures var (t, p) := CreateTseitinVarOf(s, negate, f);
      f in t.nodes && Valid(t, negate) && Tieable(t, f) && CreateTseitinVarOf(t, negate, f) == (t, p)
  {
    CreateTseitinVarValid(s, negate, f);
    var (t, p) := CreateTseitinVarOf(s, negate, f);
    assert f in t.tseitinVars;
  }

  // ----- Registering and freeing together -----

  /**
   * A `free` undoes a `reg` of the same element as long as the count stays
   * at 2 or more: only at 1 does `free` go on to release and delete.
   */
  lemma RegFreeInverse(s: PoolState, negate: Atom -> Atom, elem: FormulaId)
    requires Valid(s, negate) && elem in s.nodes && s.nodes[BaseFormula(s, elem)].usages >= 2
    ensures var t := RegOf(s, elem);
      && Valid(t, negate) && elem in t.nodes && Freeable(t, elem) && FreeOf(t, negate, elem) == s
  {
    var b := BaseFormula(s, elem);
    RegValid(s, negate, elem);
    var t := RegOf(s, elem);
    assert b in s.nodes;
    BaseFormulaWithUsage(s, b, t.nodes[b].usages, elem);
    assert WithUsage(t, b, s.nodes[b].usages) == s;
  }
}
