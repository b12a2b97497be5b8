/**
 * A polynomial constraint `lhs ~ 0` and its trivial-truth tests.
 *
 * The left-hand side is consumed through three queries only: whether it is
 * constant, its constant part, and equality.  It is represented by its
 * constant part together with the (opaque) non-constant terms; it is
 * constant exactly when there are none.
 */
module Constraints {

  /** CompareRelation: the relation between the left-hand side and zero. */
  datatype Relation = EQ | NEQ | LT | LEQ | GT | GEQ

  /** The strict relations: those that do not hold between 0 and 0. */
  predicate RelationIsStrict(r: Relation)
  {
    r == LT || r == GT || r == NEQ
  }

  /** A left-hand side: its constant part and the identifiers of its non-constant terms. */
  datatype Lhs = Lhs(constantPart: real, nonConstantTerms: seq<nat>)
  {
    predicate IsConstant() { nonConstantTerms == [] }
  }

  datatype Constraint = Constraint(lhs: Lhs, rel: Relation)

  /** Reference semantics: whether `value ~ 0` holds for the relation ~. */
  predicate Holds(r: Relation, value: real)
  {
    match r
    case EQ => value == 0.0
    case NEQ => value != 0.0
    case LT => value < 0.0
    case LEQ => value <= 0.0
    case GT => value > 0.0
    case GEQ => value >= 0.0
  }

  /** `Constraint(bool v)`: `0 = 0` for true and `1 = 0` for false. */
  function FromBool(v: bool): (c: Constraint)
    ensures c.lhs.IsConstant() && c.rel == EQ
    ensures c.lhs.constantPart == if v then 0.0 else 1.0
  {
    Constraint(Lhs(if v then 0.0 else 1.0, []), EQ)
  }

  /** `Constraint(lhs, rel)`. */
  function Make(lhs: Lhs, rel: Relation): (c: Constraint)
    ensures c.lhs == lhs && c.rel == rel
  {
    Constraint(lhs, rel)
  }

  function IsTrivialTrue(c: Constraint): bool
  {
    if c.lhs.IsConstant() then
      var cp := c.lhs.constantPart;
      if cp == 0.0 then !RelationIsStrict(c.rel)
      else if cp > 0.0 then c.rel == GEQ || c.rel == GT || c.rel == NEQ
      else c.rel == LEQ || c.rel == LT || c.rel == NEQ
    else false
  }

  function IsTrivialFalse(c: Constraint): bool
  {
    if c.lhs.IsConstant() then
      var cp := c.lhs.constantPart;
      if cp == 0.0 then RelationIsStrict(c.rel)
      else if cp > 0.0 then c.rel == LEQ || c.rel == LT || c.rel == EQ
      else c.rel == GEQ || c.rel == GT || c.rel == EQ
    else false
  }

  /** A non-constant left-hand side is never trivially decided. */
  lemma NonConstantUndecided(c: Constraint)
    requires !c.lhs.IsConstant()
    ensures !IsTrivialTrue(c) && !IsTrivialFalse(c)
  {
  }

  /** For a constant left-hand side, trivially true means the relation holds of the constant. */
  lemma TrivialTrueIsSound(c: Constraint)
    requires c.lhs.IsConstant()
    ensures IsTrivialTrue(c) <==> Holds(c.rel, c.lhs.constantPart)
  {
  }

  /** For a constant left-hand side, trivially false means the relation fails on the constant. */
  lemma TrivialFalseIsSound(c: Constraint)
    requires c.lhs.IsConstant()
    ensures IsTrivialFalse(c) <==> !Holds(c.rel, c.lhs.constantPart)
  {
  }

  /** For a constant left-hand side exactly one of the two tests succeeds. */
  lemma ExactlyOneTrivial(c: Constraint)
    requires c.lhs.IsConstant()
    ensures IsTrivialTrue(c) != IsTrivialFalse(c)
  {
    TrivialTrueIsSound(c);
    TrivialFalseIsSound(c);
  }

  /** The table row for a zero constant part. */
  lemma ZeroConstantRow(c: Constraint)
    requires c.lhs.IsConstant() && c.lhs.constantPart == 0.0
    ensures IsTrivialTrue(c) <==> !RelationIsStrict(c.rel)
    ensures IsTrivialFalse(c) <==> RelationIsStrict(c.rel)
  {
  }

  /** `Constraint(true)` is trivially true and `Constraint(false)` trivially false. */
  lemma FromBoolDecided(v: bool)
    ensures IsTrivialTrue(FromBool(v)) == v
    ensures IsTrivialFalse(FromBool(v)) == !v
  {
  }

  /** `operator==`: the relations and the left-hand sides are equal, which is equality of the constraints. */
  function Equal(a: Constraint, b: Constraint): (r: bool)
    ensures r <==> a == b
  {
    a.rel == b.rel && a.lhs == b.lhs
  }

  /** `operator!=`: the negation of `operator==`. */
  function NotEqual(a: Constraint, b: Constraint): (r: bool)
    ensures r <==> a != b
  {
    !Equal(a, b)
  }

  /**
   * `std::hash<Constraint>`: the hash of the left-hand side shifted left by
   * two bits, or-ed with the hash of the relation.  Both component hashes are
   * supplied by the library and are parameters here.
   */
  function Hash(c: Constraint, lhsHash: Lhs -> bv64, relHash: Relation -> bv64): bv64
  {
    (lhsHash(c.lhs) << 2) | relHash(c.rel)
  }

  /** Equal constraints hash equally, whatever the component hashes are. */
  lemma EqualHashEqually(a: Constraint, b: Constraint, lhsHash: Lhs -> bv64, relHash: Relation -> bv64)
    requires Equal(a, b)
    ensures Hash(a, lhsHash, relHash) == Hash(b, lhsHash, relHash)
  {
  }
}
