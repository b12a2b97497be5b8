# carl core, modelled in Dafny

This project models six pieces of the carl computer-algebra library and proves
what they promise:

- the **formula pool** (`FormulaPool.h`): the hash-consing table of formula
  nodes, where every node lives next to its negation, usage counts sit on a
  pair's base polarity, a pair is deleted once only the pool itself uses it,
  and two cross-linked maps tie formulas to their Tseitin placeholder
  variables; plus the small canonicalising `create` overloads;
- the **dense tree** (`carlTree.h`, the `USE_DENSE_MEMORY` branch): a vector of
  nodes linked by index (parent, siblings, first/last child, depth), its
  in-place insert/erase operations and its cursor iterators;
- the **string parser** (`stringparser.h`): polynomials and rational functions
  read from text split at `/`, `+`, `*` and `^`, with the parser's exact
  rejection cases;
- the **trivial-truth tests** of `Constraint.h`;
- **monomial substitution** (`Monomial_substitute.h`), both overloads;
- the native-integer **`mod`** overloads (`operations_native.h`).

Files:

| file | module | content |
|---|---|---|
| wrappers.dfy | Wrappers | `Option`, `Result`, and `MapAll` (apply a failing function left to right, first error wins) |
| native_mod.dfy | NativeMod | C++ truncated `/` and `%`, the four `mod` overloads on 32/64-bit machine integers |
| constraint.dfy | Constraints | `Constraint`, `isTrivialTrue`/`isTrivialFalse`, `==`, `!=`, hash |
| terms.dfy | Terms | variable-exponent pairs, monomials, terms, and their normal form (coefficient times a multiset of variables) |
| polynomials.dfy | Polynomials | polynomials as sums of terms in normal form (`+=` and `isZero`) |
| monomial_substitute.dfy | MonomialSubstitute | both `Monomial::substitute` overloads |
| text.dfy | Text | `boost::split`, `boost::trim`, `lexical_cast<unsigned>`, `std::list::sort` + `unique` on names |
| string_parser.dfy | Parser | `StringParser` and the shared variable pool |
| tree_nodes.dfy | TreeNodes | the node record, link shape and child-list invariants, the pointwise effect of each tree update |
| tree_iterators.dfy | TreeIterators | pre-order, post-order, children and path iterators; `is_valid`, `is_leftmost`, `is_rightmost`, `get_parent` |
| tree.dfy | CarlTree | class `Tree` with `setRoot`, `clear`, `insert`, `newNode`, `erase`, `eraseChildren`, `eraseNode` |
| pool_state.dfy | PoolStates | the pool state as a value, its invariants, and each pool operation as a function of the old state |
| formula_pool.dfy | FormulaPools | class `FormulaPool`, with methods proved equal to those functions, and the `create` overloads |

Design:

- The state-changing code is imperative Dafny. That covers the pool, the tree, the parser object and the substitution loop.
- Each method's `ensures` ties the new state, or the result, to a specification function of the old state. Lemmas then prove what the source promises about those functions.
- Parsing, splitting and the tree iterators only read their inputs. Where the source loops, they are methods proved equal to pure functions; where it does not, they are functions.

Parameters instead of code:

- The library code this model does not include is passed in as parameters:
  - constraint negation and consistency in the pool;
  - `rationalize` in the parser;
  - the component hashes of a constraint.
- Nothing here does I/O.

## Model

| member | source | states |
|---|---|---|
| NativeMod.TruncDiv | src/carl/numbers/operations_native.h:42-53 | the C++ quotient has magnitude \|n\| / \|m\| (rounded toward zero) |
| NativeMod.TruncRem | src/carl/numbers/operations_native.h:42-53 | C++ `%`: n == q*m + r with q the truncated quotient, \|r\| < \|m\|, r is 0 or has the sign of n |
| NativeMod.DivisionIdentity | src/carl/numbers/operations_native.h:42-53 | the truncated quotient times m, plus or minus \|n\| mod \|m\| by the sign of n, gives n back |
| NativeMod.ModLong | src/carl/numbers/operations_native.h:42-44 | `mod(long,long)` on 64 bits: the division identity, \|r\| < \|m\|, sign of the dividend |
| NativeMod.ModULong | src/carl/numbers/operations_native.h:45-47 | `mod(unsigned long, unsigned long)`: r < m and n ≡ r (mod m) |
| NativeMod.ModUnsigned | src/carl/numbers/operations_native.h:48-50 | `mod(unsigned, unsigned)`: r < m and n ≡ r (mod m) |
| NativeMod.ModInt | src/carl/numbers/operations_native.h:51-53 | `mod(int,int)` on 32 bits: the division identity, \|r\| < \|m\|, sign of the dividend |
| NativeMod.AgreesWithEuclidean | src/carl/numbers/operations_native.h:42-53 | for n ≥ 0 and m > 0 the C++ remainder equals the mathematical one |
| NativeMod.TruncRemFromEuclidean | src/carl/numbers/operations_native.h:42-53 | in general the C++ remainder is the Euclidean one, shifted down by \|m\| for a negative dividend that m does not divide |
| NativeMod.EuclideanUnique | src/carl/numbers/operations_native.h:42-53 | the Euclidean quotient and remainder are the only pair with remainder in [0, \|m\|) |
| NativeMod.MultipleOfModulus | src/carl/numbers/operations_native.h:45-50 | subtracting the remainder leaves a multiple of the modulus |
| NativeMod.UnsignedIsEuclidean | src/carl/numbers/operations_native.h:45-47 | on unsigned operands C++ `%` and the Euclidean remainder coincide |
| Constraints.FromBool | src/carl/core/Constraint.h:17 | `Constraint(true)` is `0 = 0`, `Constraint(false)` is `1 = 0` |
| Constraints.Make | src/carl/core/Constraint.h:18-19 | the constructor stores exactly the given lhs and relation |
| Constraints.NonConstantUndecided | src/carl/core/Constraint.h:24-54 | a non-constant lhs is neither trivially true nor trivially false |
| Constraints.TrivialTrueIsSound | src/carl/core/Constraint.h:24-38 | for a constant lhs, `isTrivialTrue` holds iff the relation holds between the constant and 0 |
| Constraints.TrivialFalseIsSound | src/carl/core/Constraint.h:40-54 | for a constant lhs, `isTrivialFalse` holds iff the relation fails between the constant and 0 |
| Constraints.ExactlyOneTrivial | src/carl/core/Constraint.h:24-54 | for a constant lhs exactly one of the two tests succeeds |
| Constraints.ZeroConstantRow | src/carl/core/Constraint.h:28-29 | with constant 0: trivially true iff the relation is not strict, trivially false iff it is |
| Constraints.FromBoolDecided | src/carl/core/Constraint.h:17 | `Constraint(v)` is trivially true exactly when v and trivially false exactly when not v |
| Constraints.Equal | src/carl/core/Constraint.h:61-65 | `==` (same relation and same lhs) is equality of the constraints |
| Constraints.NotEqual | src/carl/core/Constraint.h:67-71 | `!=` is the negation of equality |
| Constraints.EqualHashEqually | src/carl/core/Constraint.h:85-93 | equal constraints hash equally, for any component hashes |
| Terms.Repeat | src/carl/core/Monomial_substitute.h:29 | `v^e` as occurrences: v exactly e times and nothing else |
| Terms.DegreeIsSize | src/carl/core/Monomial_substitute.h:19 | the total degree counts the variable occurrences |
| Terms.MulExpsOccurrences | src/carl/core/Monomial_substitute.h:71 | merging two exponent lists multiplies the monomials (occurrences add up) |
| Terms.PowExpsOccurrences | src/carl/core/Monomial_substitute.h:57 | scaling every exponent by e takes every occurrence e times |
| Terms.MulMonomialOccurrences | src/carl/core/Monomial_substitute.h:71 | the monomial product holds the occurrences of both factors |
| Terms.DenoteTermMul | src/carl/core/Monomial_substitute.h:58 | the product of two terms denotes the product of their values |
| Terms.DenoteTermPow | src/carl/core/Monomial_substitute.h:57 | the power of a term denotes the power of its value |
| MonomialSubstitute.CollectValueSubstitution | src/carl/core/Monomial_substitute.h:18-32 | the loop keeps exactly the unsubstituted pairs, lowers the degree by the substituted exponents, and factor times the kept pairs is the instantiated monomial |
| MonomialSubstitute.SubstituteValues | src/carl/core/Monomial_substitute.h:15-40 | the result denotes factor times the monomial under the substitution; it is constant iff nothing is kept; otherwise it is a valid monomial of the kept pairs in order |
| MonomialSubstitute.SubstituteNothing | src/carl/core/Monomial_substitute.h:15-40 | with no variable of the monomial substituted, every pair is kept, the degree is unchanged and the coefficient is `factor` |
| MonomialSubstitute.KeptResult | src/carl/core/Monomial_substitute.h:33-38 | the remaining degree is 0 exactly when nothing is kept (the source's assertion), else the kept pairs form a valid monomial |
| MonomialSubstitute.KeptMembers | src/carl/core/Monomial_substitute.h:20-26 | a pair is kept iff it is a pair of the monomial whose variable is not substituted |
| MonomialSubstitute.KeptAll | src/carl/core/Monomial_substitute.h:20-26 | with no variable substituted all pairs are kept |
| MonomialSubstitute.DegreeSplit | src/carl/core/Monomial_substitute.h:19-30 | the degree is the kept degree plus the substituted degree |
| MonomialSubstitute.KeptPositive | src/carl/core/Monomial_substitute.h:20-26 | kept exponents stay positive |
| MonomialSubstitute.KeptEmptyAtDegreeZero | src/carl/core/Monomial_substitute.h:33-35 | no kept pairs when the kept degree is 0 |
| MonomialSubstitute.KeptSorted | src/carl/core/Monomial_substitute.h:20-26 | the kept pairs stay in the monomial's strict variable order |
| MonomialSubstitute.KeptKeysOnly | src/carl/core/Monomial_substitute.h:22-23 | what is kept depends only on which variables the map has |
| MonomialSubstitute.InstantiateUnsubstituted | src/carl/core/Monomial_substitute.h:20-26 | instantiating unsubstituted pairs only appends them |
| MonomialSubstitute.CollectTermSubstitution | src/carl/core/Monomial_substitute.h:45-62 | the loop of the term overload: kept pairs, remaining degree, and factor times kept pairs is the instantiated monomial |
| MonomialSubstitute.ProductDenotes | src/carl/core/Monomial_substitute.h:69-71 | `coeff * factor.coeff()` with `m * factor.monomial()` denotes coeff times the accumulated product |
| MonomialSubstitute.SubstituteTerms | src/carl/core/Monomial_substitute.h:42-77 | as written: correct while a variable is kept; once all are substituted, only the coefficient `coeff * factor.coeff()` survives |
| MonomialSubstitute.SubstituteTermsCorrected | src/carl/core/Monomial_substitute.h:42-77 | the result always denotes coeff times the monomial under the substitution |
| MonomialSubstitute.SubstituteTermsDropsFactor | src/carl/core/Monomial_substitute.h:63-67 | substituting y for x in `x` keeps nothing, yet the instantiated monomial is y, not a constant |
| Polynomials.AddTermCoefficients | src/carl/util/stringparser.h:163 | `result += term` adds the term's coefficient to its monomial only and keeps normal form |
| Polynomials.SumCoefficients | src/carl/util/stringparser.h:152-176 | the parsed polynomial's coefficient on each monomial is the sum of its terms' coefficients on it |
| Polynomials.SumZero | src/carl/util/stringparser.h:135 | `isZero`: the sum is zero iff on every monomial the coefficients cancel |
| Text.Split | src/carl/util/stringparser.h:125 | `boost::split` yields one piece more than there are separators |
| Text.SplitPieces | src/carl/util/stringparser.h:125 | no piece contains the separator |
| Text.SplitJoin | src/carl/util/stringparser.h:125 | joining the pieces gives the input back |
| Text.SplitNone | src/carl/util/stringparser.h:199 | text without the separator is one piece |
| Text.SplitFirst | src/carl/util/stringparser.h:193 | a separator-free prefix is the first piece |
| Text.JoinSplit | src/carl/util/stringparser.h:156 | separator-free pieces come back from splitting their join |
| Text.TrimTrimmed | src/carl/util/stringparser.h:160 | `boost::trim` leaves no white space at either end |
| Text.TrimBounds | src/carl/util/stringparser.h:160 | trimming removes white space at the ends and nothing else |
| Text.TrimPadded | src/carl/util/stringparser.h:160 | trimming a padded text gives the text |
| Text.LexicalCastUnsigned | src/carl/util/stringparser.h:219 | a successful `lexical_cast<unsigned>` is below 2^32 |
| Text.CastShowNat | src/carl/util/stringparser.h:219 | a decimal exponent below 2^32 reads back as itself |
| Text.CastNegated | src/carl/util/stringparser.h:219 | a minus sign wraps: "-n" reads as 2^32 - n |
| Text.BelowTotal | src/carl/util/stringparser.h:83 | `std::string` `<` is total on distinct strings |
| Text.BelowTransitive | src/carl/util/stringparser.h:83 | `std::string` `<` is transitive |
| Text.InsertNameMembers | src/carl/util/stringparser.h:83-84 | inserting a name adds exactly that name |
| Text.InsertNameAscending | src/carl/util/stringparser.h:83-84 | inserting keeps the list strictly ascending |
| Text.SortUniqueMembers | src/carl/util/stringparser.h:83-84 | sort + unique keeps exactly the names given |
| Text.SortUniqueAscending | src/carl/util/stringparser.h:83-84 | sort + unique gives a strictly ascending list, so no duplicates |
| Parser.ParenthesesStripped | src/carl/util/stringparser.h:262-268 | a coefficient in one pair of parentheses converts as the text inside |
| Parser.CollectFactorsError | src/carl/util/stringparser.h:190-232 | a term fails with error e iff e is the error of its first factor that fails |
| Parser.CollectAll | src/carl/util/stringparser.h:190-232 | when every factor reads, the term is their left-to-right combination |
| Parser.ReadFactorErrorKinds | src/carl/util/stringparser.h:192-231 | a factor's error is never about division and carries no input text yet |
| Parser.TermErrorKinds | src/carl/util/stringparser.h:180-245 | the same for a whole term, corrected or as written; as written a term is never rejected for a repeated variable |
| Parser.ReadPower | src/carl/util/stringparser.h:211-226 | `name^e` of a known name with e < 2^32 reads as the pair (name, e) |
| Parser.CombinePowers | src/carl/util/stringparser.h:199-220 | a coefficient then powers combine to that coefficient and those pairs in order |
| Parser.TermRoundTrip | src/carl/util/stringparser.h:180-256 | printing `c*x^e*...` and reading it gives back c and the pairs as its factors; the corrected parseTerm returns them unless a variable repeats (then "Variable occurs twice" with the text), and parseTerm as written returns them sorted and rewritten by `std::unique` |
| Parser.SortDescendingSorted | src/carl/util/stringparser.h:239 | `std::sort` with `p1.first > p2.first` orders the pairs by descending variable (and is a permutation), keeping distinct variables distinct |
| Parser.SortOccurrences | src/carl/util/stringparser.h:239 | sorting does not change the monomial the pairs denote |
| Parser.UniqueRunsKeepsAll | src/carl/util/stringparser.h:241 | `std::unique` keeps every pair when no two neighbours are equal |
| Parser.AsWrittenWithoutRepeats | src/carl/util/stringparser.h:239-252 | without a repeated variable, the pairs after the sort and `std::unique` are the sorted pairs and denote the monomial the text spells |
| Parser.ParseTermAgreement | src/carl/util/stringparser.h:179-256 | parseTerm as written and corrected fail alike, agree on the term's value when the corrected one accepts, and differ exactly on terms that repeat a variable |
| Parser.RepeatedVariableAsWritten | src/carl/util/stringparser.h:239-252 | "x*y*y" (x before y) reads as written as x^2*y, not x*y^2, while the corrected parseTerm rejects it |
| Parser.PolynomialFirstError | src/carl/util/stringparser.h:158-170 | with either parseTerm (as written or corrected): the first failing term's error is rethrown with the whole polynomial as input |
| Parser.PolynomialAll | src/carl/util/stringparser.h:152-176 | with either parseTerm: when every trimmed term reads, the polynomial is their sum |
| Parser.PolynomialRoundTrip | src/carl/util/stringparser.h:152-176 | with either parseTerm: terms joined with `+` parse as the polynomial whose coefficients are the sums of the terms' coefficients |
| Parser.PolynomialErrors | src/carl/util/stringparser.h:150-177 | a polynomial's error is never about division and carries the polynomial text; as written it is never about a repeated variable |
| Parser.ReaderNoDivisionErrors | src/carl/util/stringparser.h:150-177 | `parseMultivariatePolynomial`, with either parseTerm, never reports a division error |
| Parser.MultipleDivisionsIff | src/carl/util/stringparser.h:125-130 | "Multiple divisions" is reported iff the text has two or more `/`, with the text as substring and input |
| Parser.DenominatorZeroIff | src/carl/util/stringparser.h:131-140 | "Denominator is zero" is reported iff there is one `/`, both sides read, and the right one is zero |
| Parser.PolynomialOnlyIff | src/carl/util/stringparser.h:141-146 | the result has no denominator iff there is no `/` and the text reads as a polynomial, which is then the result |
| Parser.PolynomialZeroIff | src/carl/util/stringparser.h:135 | with either parseTerm: a sum of terms is the zero polynomial iff its terms read and cancel on every monomial |
| Parser.MapAllAgree | src/carl/util/stringparser.h:158-170 | the loop over terms keeps the relation between the two parseTerms: the corrected reading fails when the one as written does, fails alike unless it rejects a repeated variable, and otherwise gives terms of the same values |
| Parser.PolynomialAgreement | src/carl/util/stringparser.h:149-177 | `parseMultivariatePolynomial` as written and corrected: equal wherever the corrected one accepts; the corrected one fails whenever the source fails; they differ only where the corrected one rejects a repeated variable |
| Parser.DivideAgreement | src/carl/util/stringparser.h:121-147 | the `/` cases keep that relation between two polynomial readers |
| Parser.RationalFunctionAgreement | src/carl/util/stringparser.h:121-147 | the same relation for `parseRationalFunction` |
| Parser.RepeatedVariablePolynomial | src/carl/util/stringparser.h:149-177 | "x*y*y+(-1)*x*x*y" (x before y) reads as written as the zero polynomial, both terms being x^2*y; the corrected reader rejects its first term |
| Parser.RepeatedVariableDenominator | src/carl/util/stringparser.h:121-147 | "x/x*y*y+(-1)*x*x*y" is rejected as written with "Denominator is zero" and by the corrected reader with "Variable occurs twice" |
| Parser.RegisterKeys | src/carl/util/stringparser.h:85-93 | registering binds the known and the given names, keeps old bindings, and binds new names to fresh variables |
| Parser.RegisterPositions | src/carl/util/stringparser.h:85-93 | over distinct names, a new name gets the variable of its position |
| Parser.AllShortMembers | src/carl/util/stringparser.h:82-91 | the single-symbol flag over the sorted names is the flag over the given names |
| Parser.ImplicitModeAcceptsLongNames | src/carl/util/stringparser.h:96-107 | as written, implicit mode is accepted for multi-symbol names and refused for single-symbol ones |
| Parser.ImplicitModeCorrectedKeepsSingle | src/carl/util/stringparser.h:96-107 | with the guard corrected, the mode is accepted iff names are single-symbol, so it is only on for them |
| Parser.VariablePool.GetFreshVariable | src/carl/util/stringparser.h:92 | every variable handed out is new: the counter moves on by one |
| Parser.StringParser.constructor | src/carl/util/stringparser.h:68-73 | implicit mode off, sum-of-terms form on, no variables |
| Parser.StringParser.SetVariables | src/carl/util/stringparser.h:80-94 | each distinct name, in sorted order, takes a fresh variable and a known one keeps its own; the single-symbol flag is true iff every name has length ≤ 1; a longer name turns implicit mode off |
| Parser.StringParser.SetImplicitMultiplicationMode | src/carl/util/stringparser.h:96-107 | as written: changes the mode and returns true only when the names are not single-symbol; nothing else changes |
| Parser.StringParser.SetImplicitMultiplicationModeCorrected | src/carl/util/stringparser.h:96-107 | the corrected guard, which keeps "implicit mode only with single-symbol names" |
| Parser.StringParser.SetSumOfTermsForm | src/carl/util/stringparser.h:115-119 | sets the form, nothing else changes |
| Parser.StringParser.ReadFactors | src/carl/util/stringparser.h:182-233 | the loop over `*`-factors computes `FactorsOf` (first failing factor decides the error) |
| Parser.StringParser.ParseTerm | src/carl/util/stringparser.h:179-256 | as written: the factors, then the pairs sorted by descending variable and rewritten in place by `std::unique`, never rejected (`ParseTermAsWrittenOf`) |
| Parser.StringParser.ParseTermCorrected | src/carl/util/stringparser.h:179-256 | with the check corrected: a term that repeats a variable is rejected with "Variable occurs twice" and the term text (`ParseTermOf`) |
| Parser.StringParser.ReadTerm | src/carl/util/stringparser.h:160-163 | one summand: the term parseTerm as written reads from the trimmed piece |
| Parser.StringParser.ParseMultivariatePolynomial | src/carl/util/stringparser.h:149-177 | the loop over `+`-pieces computes `PolynomialOf` with parseTerm as written (sum of the terms, error rethrown with the input) |
| Parser.StringParser.ParseRationalFunction | src/carl/util/stringparser.h:121-147 | computes `RationalFunctionOf` with parseTerm as written: the `/` cases and their errors |
| TreeIterators.Leftmost | src/carl/util/carlTree.h:566-570 | the descent along first-child links ends at a leaf |
| TreeIterators.Rightmost | src/carl/util/carlTree.h:558-562 | the descent along last-child links ends at a leaf |
| TreeIterators.ClimbNext | src/carl/util/carlTree.h:160-163 | the climb ends at the end or at a node with a next sibling |
| TreeIterators.ClimbPrev | src/carl/util/carlTree.h:238-241 | the climb ends at the end or at a node with a previous sibling |
| TreeIterators.PreorderNextOf | src/carl/util/carlTree.h:156-169 | pre-order `next` stays on a node or the end |
| TreeIterators.PreorderPreviousOf | src/carl/util/carlTree.h:170-182 | pre-order `previous` stays on a node or the end |
| TreeIterators.PostorderNextOf | src/carl/util/carlTree.h:218-230 | post-order `next` stays on a node or the end |
| TreeIterators.PostorderPreviousOf | src/carl/util/carlTree.h:231-248 | post-order `previous` stays on a node or the end |
| TreeIterators.DescendFirst | src/carl/util/carlTree.h:566-570 | the loop of `begin_postorder` reaches the leftmost leaf |
| TreeIterators.DescendLast | src/carl/util/carlTree.h:558-562 | the loop of `rbegin_preorder` reaches the rightmost leaf |
| TreeIterators.PreorderNext | src/carl/util/carlTree.h:156-169 | the loop computes the pre-order successor (first child, else next sibling of the nearest ancestor-or-self having one, else end) |
| TreeIterators.PreorderPrevious | src/carl/util/carlTree.h:170-182 | the loop computes the pre-order predecessor |
| TreeIterators.PostorderNext | src/carl/util/carlTree.h:218-230 | the loop computes the post-order successor |
| TreeIterators.PostorderPrevious | src/carl/util/carlTree.h:231-248 | the loop computes the post-order predecessor |
| TreeIterators.NodeQueries | src/carl/util/carlTree.h:667-697 | on a live non-root node: `is_valid` holds, `get_parent` names the node listing it, `is_leftmost`/`is_rightmost` hold iff it is first/last in that list |
| TreeIterators.RootQueries | src/carl/util/carlTree.h:667-697 | the root is valid, has the null parent and is both leftmost and rightmost |
| TreeIterators.ChildrenSteps | src/carl/util/carlTree.h:445-460 | children `next`/`previous` step along the child list |
| TreeIterators.ChildrenFromEnd | src/carl/util/carlTree.h:433-447 | from the end, children iteration enters at the first child (forward) or last child (reverse) |
| TreeIterators.PathToRoot | src/carl/util/carlTree.h:498-503 | a path iterator visits depth + 1 nodes, one level up each step, ending at the root |
| TreeIterators.PreorderRoundTrip | src/carl/util/carlTree.h:156-182 | pre-order `previous` undoes `next` at every position of a non-empty tree, end included |
| TreeIterators.PostorderRoundTrip | src/carl/util/carlTree.h:218-248 | post-order `previous` undoes `next` at every position, end included |
| CarlTree.Tree.constructor | src/carl/util/carlTree.h:525 | an empty tree satisfying the invariants |
| CarlTree.Tree.SetRoot | src/carl/util/carlTree.h:704-708 | on an empty tree exactly one node (id 0, null parent, depth 0); otherwise only the root's data changes; returns the end |
| CarlTree.Tree.Clear | src/carl/util/carlTree.h:712-715 | no nodes and no child lists left, invariants hold |
| CarlTree.Tree.NewNode | src/carl/util/carlTree.h:812-836 | with the free list empty: a new leaf at index `nodes.size()`, appended as the parent's last child with the sibling links set; the reuse branch returns 0 |
| CarlTree.Tree.InsertAt | src/carl/util/carlTree.h:731-735 | a new last child of the position, one level deeper; the child lists stay encoded |
| CarlTree.Tree.Insert | src/carl/util/carlTree.h:721-724 | a new last child of the root, after creating a root in an empty tree |
| CarlTree.Tree.EraseNode | src/carl/util/carlTree.h:848-852 | a leaf's sibling links are set to the free-list head and null |
| CarlTree.Tree.EraseChildren | src/carl/util/carlTree.h:837-847 | every child (a leaf) is detached and the node has no children afterwards; the invariants hold |
| CarlTree.Tree.Erase | src/carl/util/carlTree.h:777-794 | as written: the root clears the tree and returns the end; another node loses its children and is spliced out of its sibling chain (`EraseOf`), and the result is the position after it (`ErasePosition`) |
| CarlTree.Tree.SpliceOut | src/carl/util/carlTree.h:786-792 | the neighbours' links bypass the node, which is detached |
| CarlTree.Tree.EraseCorrected | src/carl/util/carlTree.h:777-794 | erase with the parent's first/last child relinked: the node leaves its parent's child list and the links stay well formed |
| CarlTree.Tree.SpliceOutCorrected | src/carl/util/carlTree.h:786-792 | the corrected splice removes exactly the node from its parent's child list |
| CarlTree.TwoChildrenLinked | src/carl/util/carlTree.h:812-836 | a root with two leaves encodes the child list [1, 2] |
| CarlTree.EraseOrphansLaterSiblings | src/carl/util/carlTree.h:784-792 | erasing the first child as written leaves the root's first-child link on the erased node, and walking the children no longer reaches child 2 |
| CarlTree.EraseCorrectedKeepsSibling | src/carl/util/carlTree.h:784-792 | the corrected erase leaves the root with the child list [2] |
| CarlTree.EraseAsWrittenUnlinks | src/carl/util/carlTree.h:784-792 | after the as-written erase the links encode no child lists at all |
| PoolStates.RegUsageGrows | src/carl/formula/FormulaPool.h:537-541 | `reg` adds 2 iff a constraint's count was 0, and adds 1 otherwise |
| PoolStates.HandleLifecycle | src/carl/formula/FormulaPool.h:459-542 | after publication and n registrations the count is n + 1, so of n frees exactly the last brings it to 1 |
| PoolStates.FreeTimesCount | src/carl/formula/FormulaPool.h:466 | k frees take k uses away |
| PoolStates.InitialValid | src/carl/formula/FormulaPool.h:35-47 | the pool with TRUE and FALSE only satisfies every invariant |
| PoolStates.BaseFormulaOfPair | src/carl/formula/FormulaPool.h:134-167 | `getBaseFormula`: both polarities share one base, which is one of the pair, is its own base and is never a NOT; for constraints it is the smaller constraint |
| PoolStates.AddValid | src/carl/formula/FormulaPool.h:198-199 | interning keeps the invariants and returns a node with the content: the existing one unchanged, or a new pair with nothing else touched |
| PoolStates.AddOfInterned | src/carl/formula/FormulaPool.h:198-199 | a live content is returned at its node and nothing changes |
| PoolStates.RegValid | src/carl/formula/FormulaPool.h:529-542 | `reg` keeps the invariants and raises only the base's count, by 1, or by 2 for a constraint at its first use |
| PoolStates.DeletedValid | src/carl/formula/FormulaPool.h:476-478 | deleting an unlinked non-constant base pair keeps the invariants and every other node |
| PoolStates.UnlinkedValid | src/carl/formula/FormulaPool.h:494-496 | erasing a Tseitin entry and its back link keeps the maps mutually inverse |
| PoolStates.FreeTseitinValid | src/carl/formula/FormulaPool.h:483-527 | `freeTseitinVariable` keeps the invariants, returns true iff the link is still held, and otherwise unmaps d and deletes its partner's pair |
| PoolStates.ReleaseBothValid | src/carl/formula/FormulaPool.h:469-473 | releasing both polarities reports a hold iff either was held, and the pair survives |
| PoolStates.FreeAtOneFrame | src/carl/formula/FormulaPool.h:467-480 | at count 1 the pair goes iff neither polarity is held; nothing is added |
| PoolStates.FreeValid | src/carl/formula/FormulaPool.h:459-481 | `free` keeps the invariants |
| PoolStates.FreeDeletes | src/carl/formula/FormulaPool.h:459-481 | `free` deletes the base's pair iff its count was 2 and neither polarity is held; otherwise only the base's count drops by one |
| PoolStates.GetTseitinVarSpec | src/carl/formula/FormulaPool.h:111-119 | `getTseitinVar` is TRUE iff f has no Tseitin variable, else a live Boolean variable |
| PoolStates.CreateTseitinVarValid | src/carl/formula/FormulaPool.h:121-132 | `createTseitinVar` keeps the invariants, links the variable both ways, and changes nothing when one exists |
| PoolStates.CreatedTseitinVarShape | src/carl/formula/FormulaPool.h:121-132 | a new Tseitin variable is a new pair holding the next fresh Boolean variable with f's difficulty, entered in both maps |
| PoolStates.CreateTseitinVarIdempotent | src/carl/formula/FormulaPool.h:121-132 | asking again returns the same variable and changes nothing |
| PoolStates.RegFreeInverse | src/carl/formula/FormulaPool.h:459-542 | a `free` undoes a `reg` while the count stays at 2 or more |
| FormulaPools.UEqualityCanonical | src/carl/formula/FormulaPool.h:410-447 | simplified, an equality does not depend on argument order, is decided iff both sides are the same, and otherwise stores the arguments in canonical order |
| FormulaPools.RunCount | src/carl/formula/FormulaPool.h:386-402 | a run of equal operands adds its length to that operand's count |
| FormulaPools.ClosedOdd | src/carl/formula/FormulaPool.h:394-406 | closing a run keeps the operand iff its count is odd |
| FormulaPools.ClosedAscending | src/carl/formula/FormulaPool.h:396 | the kept operands stay strictly ascending |
| FormulaPools.RunMultiset | src/carl/formula/FormulaPool.h:386-402 | a run of one value is that value with multiplicity its length |
| FormulaPools.FormulaPool.constructor | src/carl/formula/FormulaPool.h:35-47 | the pool holds TRUE and FALSE only |
| FormulaPools.FormulaPool.Add | src/carl/formula/FormulaPool.h:198-199 | `add` changes the pool as `AddOf` says and keeps the invariants |
| FormulaPools.FormulaPool.Reg | src/carl/formula/FormulaPool.h:529-542 | the new state is `RegOf` of the old, and the invariants hold |
| FormulaPools.FormulaPool.FreeTseitinVariable | src/carl/formula/FormulaPool.h:483-527 | the new state and the result are `FreeTseitinOf` of the old state |
| FormulaPools.FormulaPool.Free | src/carl/formula/FormulaPool.h:459-481 | the new state is `FreeOf` of the old, and the invariants hold |
| FormulaPools.FormulaPool.GetTseitinVar | src/carl/formula/FormulaPool.h:111-119 | TRUE iff f has no Tseitin variable, else the variable mapped back to f |
| FormulaPools.FormulaPool.CreateTseitinVar | src/carl/formula/FormulaPool.h:121-132 | the new state and the result are `CreateTseitinVarOf` of the old state |
| FormulaPools.FormulaPool.CreateConstant | src/carl/formula/FormulaPool.h:188-191 | TRUE and FALSE are the pool's constant nodes |
| FormulaPools.FormulaPool.CreateVariable | src/carl/formula/FormulaPool.h:198-200 | the interned node of the Boolean variable |
| FormulaPools.FormulaPool.CreateConstraint | src/carl/formula/FormulaPool.h:206-222 | consistency 0 gives FALSE, 1 gives TRUE, with the pool unchanged; otherwise the node of exactly that constraint, interned through its base polarity |
| FormulaPools.FormulaPool.CreateVariableComparison | src/carl/formula/FormulaPool.h:223-230 | a comparison that is a constraint is created as that constraint: FALSE or TRUE with the pool unchanged when simplification decides it, otherwise that constraint's node with the pool as `create(Constraint)` leaves it; any other comparison gets its own node, with the pool as `add` leaves it |
| FormulaPools.FormulaPool.CreateTheoryAtom | src/carl/formula/FormulaPool.h:231-236 | the moved-in theory atoms are interned as they are |
| FormulaPools.FormulaPool.CreateBitvector | src/carl/formula/FormulaPool.h:238-247 | a bit-vector constraint that always holds is TRUE and one that never holds is FALSE; otherwise its node |
| FormulaPools.FormulaPool.CreateUnary | src/carl/formula/FormulaPool.h:259-294 | NOT gives the partner node, AND/OR/XOR of one operand the operand, IFF TRUE; every other type is rejected |
| FormulaPools.FormulaPool.CreateQuantifier | src/carl/formula/FormulaPool.h:361-368 | no bound variables gives the body, otherwise the interned quantifier |
| FormulaPools.FormulaPool.CreateMultiset | src/carl/formula/FormulaPool.h:374-408 | empty gives FALSE, one operand itself; otherwise the XOR operands are exactly the formulas of odd multiplicity, strictly ascending |
| FormulaPools.FormulaPool.CreateUEquality | src/carl/formula/FormulaPool.h:410-447 | the equality is decided or interned in canonical order, as `UEqualityShape` says |
| FormulaPools.FormulaPool.CreateEquality | src/carl/formula/FormulaPool.h:449-452 | the moved-in equality is interned as given |
| FormulaPools.BaseAtom | src/carl/formula/FormulaPool.h:135-137 | the stored polarity of a constraint is the smaller of it and its negation |

## Left out

Formula pool:

- Locking (`std::recursive_mutex`), `print`, the logging calls and the `Singleton` base. The model is single-threaded and does no I/O.
- `add`, `insert`, `createNAry`, `createImplication`, `createITE` and `formulasInverse` are in `FormulaPool.tpp`, which is not part of this model. `add` is specified abstractly:
  - it returns the live node with the requested content;
  - or it publishes a new pair at the next two ids.
- FormulaPools.FormulaPool.CreateMultiset returns the operands it would hand to the n-ary XOR create; that create is not modelled.
- The n-ary `create` (FormulaPool.h:302-341) is also left out, because it forwards to `createNAry`, `createImplication` and `createITE`. For the same reason, OR/AND flattening is not proved.
- Formula handles are not modelled, because `Formula.h` is not part of this model:
  - their constructor calls `reg`, so creating a handle is a separate call here;
  - the recursive release of sub-formula handles on delete is not modelled either.
- The pool constructor is not part of this model. TRUE and FALSE are taken to be nodes 0 and 1, with counts pinned at 2.
- PoolStates.Freeable: beyond `tmp->mUsages > 0`, `free` requires that a constant keep a count of at least 2. The source relies on the constructor's pinning for this.
- FormulaPools.FormulaPool.CreateTseitinVar requires that neither f nor its negation already takes part in another Tseitin link (`Tieable`), because the pool invariant of this model keeps the links of a pair apart. Calls outside that case are not modelled.
- `createTseitinVar` inserts a null entry and fills it in afterwards. The model does both in one update.
- A node's difficulty starts at 0, because the `FormulaContent` constructors are not part of this model.
- FormulaPools.FormulaPool.Reg: the `size_t` overflow that `reg` asserts against is not modelled; counts are unbounded.
- Supplied as parameters:
  - constraint negation and `isConsistent`;
  - `VariableComparison::asConstraint`;
  - the bit-vector constant tests;
  - whether `SIMPLIFY_FORMULA` is defined.
- `freshBooleanVariable` is the counter `freshBoolean`. FormulaPools.FormulaPool.CreateVariable requires a variable drawn from it.
- FormulaPools.FormulaPool.CreateConstant accepts only TRUE and FALSE, as the source asserts.
- Two `create` branches exist only as asserts, so the model leaves them out:
  - the `assert(false)` cases of the unary create become `None`;
  - a quantifier of another type is not modelled.

Dense tree:

- The non-dense `#else` tree is not modelled, because it is compiled out.
- Several dense-branch members do not compile or are ill-defined, so they are left out:
  - `append`;
  - `is_leaf`;
  - `max_depth`;
  - the leaf and depth iterators;
  - `replace`;
  - `operator<<`.
- The increment after erasing the root reads `nodes[0]` after `clear`. CarlTree.Tree.Erase returns the end there instead.
- CarlTree.Tree.SetRoot returns the end (`MAXINT`), as the code does, although its comment promises the root.
- Indices are unbounded naturals. `MAXINT` is 2^64 - 1, and insertions require room below it.
- CarlTree.Tree.EraseChildren and CarlTree.Tree.Erase require that every child be a leaf, which the source asserts in `eraseNode`.
- CarlTree.Tree.Erase and CarlTree.Tree.EraseChildren are modelled only on well-linked trees (`WellLinked`) and, for `erase`, at a live position. The source also runs them on a tree that an earlier `erase` left with a parent link on the erased node (CarlTree.EraseAsWrittenUnlinks). There `eraseChildren` walks the sibling chain from the dead node, and a second `erase` splices relative to it. Such sequences are not modelled, because the model's proofs rest on the child lists that `WellLinked` ties to the links.

String parser:

- `rationalize<C>` is a parameter, and polynomial arithmetic is the normal form in polynomials.dfy.
- `VariablePool` is a counter.
- The text of `what()` is not modelled; an error carries its kind, substring and input.
- Parser.ParseTermOf: in implicit multiplication mode every term reads as the constant 1. The source has no code for that mode.
- Outside sum-of-terms form the polynomial is zero. The source logs "not implemented" there.
- Parser.ParseTermAsWrittenOf: `std::sort` leaves the order among pairs of one variable open; the model keeps their reading order. Behind the range `std::unique` keeps, the model keeps the old pairs, because no element is written there; the standard calls those values unspecified.
- Parser.ParseTermAsWrittenOf: `createMonomial` is taken to build the product of the pairs it is given, duplicates included, because `Monomial.h` is not part of this model. Variables are ordered by their index in the pool.
- Parser.ParseTermOf: the corrected parseTerm keeps the factors in reading order instead of sorting them. A term's value does not depend on that order.
- Parser.PolynomialOf and Parser.RationalFunctionOf take the parseTerm to use as a `TermMode`. The parser's methods use parseTerm as written, as the source does. The corrected mode is the intended behaviour, and Parser.PolynomialAgreement and Parser.RationalFunctionAgreement relate the two.
- The value of `mSingleSymbVariables` before the first `setVariables` is uninitialised in the source. It is a constructor parameter here.
- The asserts in `constructCoefficient` (a non-empty text, a closing parenthesis) are not preconditions. A lone "(" converts the empty text.

Constraints:

- `CompareRelation.h` is not part of this model. The strict relations are taken to be LT, GT and NEQ.
- The left-hand side is abstracted to its constant part plus opaque non-constant terms.
- The component hashes are parameters.

Monomial substitution:

- `Term::pow` and the monomial product are modelled on the normal form (coefficient times a multiset of variables). Their implementations in `Term.h` and `Monomial.h` are not part of this model.
- Coefficients are real numbers.

Native `mod`:

- NativeMod.ModLong and NativeMod.ModInt require `m != 0` and exclude `MIN % -1`. Both are undefined behaviour in C++.
- The unsigned overloads require `m != 0`.
- `toDouble`, `floor` and `ceil` are floating point and are not modelled.

## Findings

| source | as written | input that shows it | evidently intended | confidence | as-written member | corrected member |
|---|---|---|---|---|---|---|
| src/carl/util/carlTree.h:784-792 | `erase` of a non-root node relinks its siblings but never moves the parent's `firstChild`/`lastChild` off the erased node | a root with children 1 and 2; erase node 1: the root's first child is still 1, whose next sibling is now null, so children iteration never reaches 2 | a node without a previous (next) sibling hands the parent's first (last) child link to its next (previous) sibling | high (not executed) | CarlTree.Tree.Erase, CarlTree.EraseOrphansLaterSiblings | CarlTree.Tree.EraseCorrected, CarlTree.EraseCorrectedKeepsSibling |
| src/carl/core/Monomial_substitute.h:63-67 | when every variable is substituted, the term overload returns `coeff * factor.coeff()` and drops `factor.monomial()` | the monomial `x` with x ↦ the term `y`: nothing is kept, the result is the constant 1, but x[x := y] is y | return `coeff * factor.coeff()` with `factor.monomial()` | high (not executed) | MonomialSubstitute.SubstituteTerms, MonomialSubstitute.SubstituteTermsDropsFactor | MonomialSubstitute.SubstituteTermsCorrected |
| src/carl/util/stringparser.h:239-245 | `std::unique`'s result is discarded, so the size check never fires and the pairs it rewrote in place become the monomial | "x*y*y" with x registered before y: the sorted pairs (y,1),(y,1),(x,1) become (y,1),(x,1),(x,1), so the term is x^2*y instead of x*y^2; "x*y*y+(-1)*x*x*y" then reads as zero | reject a term in which a variable occurs twice, with "Variable occurs twice" | high (not executed) | Parser.StringParser.ParseTerm, Parser.RepeatedVariableAsWritten, Parser.RepeatedVariablePolynomial, Parser.RepeatedVariableDenominator | Parser.StringParser.ParseTermCorrected, Parser.ParseTermAgreement, Parser.PolynomialAgreement, Parser.RationalFunctionAgreement |
| src/carl/util/stringparser.h:98 | `setImplicitMultiplicationMode` accepts only when the variables are NOT single-symbol | after `setVariables({"xy"})`, enabling the mode returns true; after `setVariables({"x"})` it returns false | accept only for single-symbol variables, which `parseTerm` asserts (line 236) and `setVariables` enforces (line 90) | medium (not executed) | Parser.StringParser.SetImplicitMultiplicationMode, Parser.ImplicitModeAcceptsLongNames | Parser.StringParser.SetImplicitMultiplicationModeCorrected, Parser.ImplicitModeCorrectedKeepsSingle |
