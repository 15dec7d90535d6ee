# Verified core of the zkc constraint compiler

This project models the parts of zkc on which the correctness of its arithmetisation rests, and
proves what they are meant to guarantee.

* **Lowering** (`PrimeField.dfy` to `AirLowering.dfy`). Row constraints built from and, or, not,
  if-then-else with optional branches, `==` and `!=` are compiled to polynomials which must vanish
  over a prime field. `Terms`, `Builders`, `Simplify`, `Ranges` and `Interval` hold the arithmetic,
  `Logic` and `Expand` the constraints, `Packing` and `LowerTerms` what is combined into one
  polynomial, `Normalise`, `PseudoInverses` and `BatchInvert` the inverses. `Reach` says how far a
  term still reaches once simplified, `Pieces` what a constraint is going to be tested as, `Realise`
  why the lowered terms do just that, and `Lower` and `AirLowering` put everything together. The main
  theorem is the contract of `AirLowering.Lower`, proved by `AirLowering.LoweringDecides`; `Alignment`
  is about the constraints for which tests and constraint come to the same, `Columns` about what the
  simplest constraints say of the cells of a table, `NormalForms` about what simplification leaves.
* **Propositions** (`SortedSets.dfy`, `Equality.dfy`, `Conjunctions.dfy`, `DnfSimplification.dfy`,
  `UnitConsensus.dfy`, `Propositions.dfy`, `OrCollapse.dfy`, `AndCollapse.dfy`). Conjunctions of
  equalities are closed in place, which decides them over the integers; disjunctions of clauses are
  simplified by unit propagation, absorption and consensus.
* **Polynomials** (`Monomial.dfy`, `ArrayPoly.dfy`, `ZeroTest.dfy`, `Equation.dfy`). Canonical
  polynomials, their operations, and why the test for zero is complete.
* **Trace expansion** (`TraceModules.dfy`, `Expander.dfy`, `TraceExpansion.dfy`). Assignments are run
  one by one or in waves as their dependencies permit; every run which gets through ends in the same
  trace.
* **Trace encoding** (`Encoding.dfy`, `Buffers.dfy`). The binary trace format reads back as written.

`dafny verify dfyconfig.toml` verifies all of it.

## How the system is modelled

* A field is the integers modulo a prime. Elements are canonical naturals below the prime.
* A table gives each register a column of the table's height and a padding value. Reading outside of the
  table yields padding. Both cells and padding respect the declared width of their register; the
  source relies on separate range constraints for this (pkg/ir/mir/lower.go:671). Accesses use the
  declared width of their register, so no masking ever takes place.
* `Pow2(fieldBandwidth) <= p` holds throughout: the field bandwidth is the number of bits the field is
  sure to carry.
* A term is well-shaped when operators have operands, constants are canonical, and accesses name declared
  registers. These are what the constructors of the source produce. Evaluation of such terms never
  raises an error.
* The bounds of a term or constraint say on which rows it is defined. A global constraint is tested on
  all rows within its bounds, a local one on the row of its domain regardless of bounds
  (pkg/schema/constraint/checker/vanishing_constraint.go:51-120).
* The tests of a constraint (`RowTests.TestsOf`) are what it is lowered to in the terms of the upper level: for
  each lowered term a goal, which is a constraint over the source registers, and the bounds within
  which it is tested. They depend on the optimisation settings, the field, the source registers and the constraint, but
  neither on other constraints nor on which inverse registers happen to be allocated.
* Within its bounds, a test of a global constraint asks for its goal to hold. On the row of a local
  constraint, which is tested regardless of bounds, it asks for the goal to hold without taking an
  inverse from outside of the table (`Pieces.Met`). A constraint is tested directly (`RowTests.Direct`) if it is
  global and each test has its bounds, or local and reads all of its inverses within the table.
* Inverse registers are native, with a padding of 0. A completed trace holds the pseudo-inverse of the
  inverted expression on every row of the table.
* Shifts and bounds fit a machine integer (`FitsInt`), as they do in the source.
* Ranges of the source are objects updated in place. They are modelled by the class `Interval`, proved
  against values of type `Range`.
* Variables of propositions and polynomials are naturals, their values integers.
* An assignment is modelled by the columns it reads, writes and expands, together with what it computes
  from the columns it reads. So it cannot depend on anything else, such as the height of a module. No
  two assignments write the same column.
* A run of the scheduler ends in an expanded trace, a failure (an error, or a column which cannot be
  filled), or stuck, where the scheduler panics.

## What was found

* Simplifying a difference can change its value. `simplifySum` merges constants before flattening
  (pkg/ir/term/add.go:119-123), so the flattened subtrahend can hold several, of which all but one are
  lost (pkg/ir/term/sub.go:160-166). `Simplify.SimplifySubExact` says exactly when,
  `Simplify.SimplifyLosesConstant` gives an input, `RowTests.ConstantLostInCore` the constraint it changes. All
  theorems on simplification carry the matching condition (`FoldsExactly`), and those on lowering its
  consequence (`LowersExactly`).
* With shift normalisation, an inequality whose difference reads no register is never checked: there is no
  access to take a shift from (pkg/ir/term/util.go:105-116), so the inverse is accessed with a shift of
  -2^63, whose bounds admit no row (`Normalisation.InequalityWithoutAccess`). So `1 - 5 != 1 - 5` is accepted on
  every table (`Alignments.NeverChecked`). Where such an inequality is checked regardless of bounds, as a
  local constraint, it fails whatever the value (`Normalisation.NormalisedWithoutAccess`). `Lowerable` therefore
  asks for an access in this case.
* `consensus` can resolve two complementary unit clauses, which leaves a clause without atoms
  (pkg/util/logical/proposition.go:239-282) that is then read as false (lines 107-109).
  `Propositions.OrExact` and `Propositions.And` say exactly when this affects a disjunction or conjunction,
  `Propositions.OrLosesOnly` that it takes operands which cover all cases and clash on some atom.
  `OrCollapse.OrCollapses` gives a disjunction which holds everywhere and is simplified to false,
  `AndCollapse.AndCollapses` such a conjunction.
* An equation `c == 0` for a constant other than 0 is never recognised as false, since the constant ends
  up on the right-hand side while only the left one is looked at (pkg/util/logical/equation.go:81, 126-138);
  see `Equations.VanishesNeverFalse`.
* The polynomial interface says that `Add`, `Sub` and `Mul` update their receiver
  (pkg/util/poly/poly.go:49-59). `ArrayPoly` returns fresh polynomials instead, and so does the model.
* Accepting the lowered constraints is in general stronger than satisfying the source ones, as a lowered
  term is tested on all rows on which it is defined itself. `Alignments.SatisfiedButRejected` gives a
  constraint and tables which satisfy it and are rejected. What acceptance comes down to exactly is passing the tests
  of all constraints (`AirLowering.LoweringDecides`). That these are carried out on just the rows of the constraint
  can be told beforehand (`AirLowering.AlignedIffSameRows`), and follows if all of its parts reach equally far
  (`Alignments.LeavesAlignTests`).
* A local constraint can hold on its row and yet be rejected, if that row is so close to an end of the table, or
  so far outside, that an inverse is read from padding, as 0. `Alignments.LocalSatisfiedButRejected` gives
  `x != 0` on any row outside of the table, such as row 0 of an empty one. `RowTests.LocalPasses` says exactly
  when a local constraint is accepted: it must hold with every inequality which reads its inverse outside of
  the table counted as failing. On a row within the bounds of the constraint there are none
  (`Alignments.CoveredDirect`). Of the constraints to which lowering applies, none is ever accepted without
  being satisfied (`AirLowering.Enforces`).
* Terms are summed when their bounds agree, but only simplified afterwards (pkg/ir/mir/lower.go:230-238, 401-405).
  If simplification drops accesses from some terms of a packet, all of them are tested only where the rest of
  the packet is defined (`Reaches.SumReach`). The goals of a packet therefore share one test.

## Model

| member | source | states |
|---|---|---|
| AirLowering.Lower | pkg/ir/mir/lower.go:93-149 | from source constraints to a module: whatever its inverse registers hold, an accepted trace satisfies all constraints on every row they are tested on, padding rows of local ones included; a trace of the source registers, completed with pseudo-inverses, is accepted if and only if it passes the tests of each constraint, which for each one tested directly is if and only if it satisfies it |
| AirLowering.LoweringDecides | pkg/ir/mir/lower.go:125-149 | a completed trace of any height is accepted by the lowered module if and only if every test of every source constraint succeeds: the goal holds on every row within the bounds of the test or, on the row of a local constraint, holds without taking an inverse from outside of the table |
| AirLowering.LoweringDecidesDirect | pkg/ir/mir/lower.go:125-149 | if and only if it satisfies each constraint which is tested directly and passes the tests of each other one, so none of them affects what is asked by the others |
| AirLowering.AlignedIffSameRows | pkg/ir/mir/lower.go:381-405 | being aligned, which is known before lowering, is equivalent to all lowered terms being defined on the rows of the constraint |
| Alignments.SatisfiedButRejected | pkg/ir/mir/lower.go:381-405 | x == 0 and (next y) == 0, on a table of one row: holds for any x, being defined nowhere, and is rejected by any module it is lowered to unless x is 0 |
| Alignments.LeavesAlignTests | pkg/ir/mir/lower.go:381-405 | a constraint is aligned if each of its equalities, inequalities and packets of checks reaches as far as the whole |
| Alignments.TestsReach | pkg/ir/mir/lower.go:381-405 | no test leaves out a row on which its constraint is defined, so passing is at least as strong as satisfying |
| Alignments.PassesSatisfies | pkg/ir/mir/lower.go:188-201 | a table which passes the tests of a constraint satisfies it |
| Alignments.UnshiftedAligned | pkg/ir/mir/lower.go:401-405 | constraints without shifts are aligned |
| RowTests.TestsMean | pkg/ir/mir/lower.go:230-238 | on every row, all tests of a constraint succeed if and only if it holds |
| RowTests.DirectPasses | pkg/schema/constraint/checker/vanishing_constraint.go:51-120 | on whole tables, passing is satisfying for global constraints with aligned tests and for local ones which find all of their inverses within the table |
| RowTests.LocalPasses | pkg/schema/constraint/checker/vanishing_constraint.go:51-81 | a local constraint passes its tests if and only if, on its row, it holds the way it is lowered with each inequality in need of an inverse reading that within the table; equalities and binary or ternary inequalities need none |
| Alignments.CoveredDirect | pkg/schema/constraint/checker/vanishing_constraint.go:51-81 | a local constraint whose row is within its bounds finds all of its inverses within the table |
| Alignments.LocalInequalityPasses | pkg/ir/mir/lower.go:486-500 | as a local constraint, x != 0 is accepted if and only if it is satisfied and its row is one of the table |
| Alignments.LocalSatisfiedButRejected | pkg/ir/mir/lower.go:486-500 | on any row outside of the table, such as row 0 of an empty one, x != 0 is satisfied if the padding of x is not 0, and is rejected by any module it is lowered to |
| Alignments.NeverChecked | pkg/ir/mir/lower.go:486-500 | 1 - 5 != 1 - 5 holds nowhere; with shift normalisation and without eliminating inverses by range, what it is lowered to is accepted on every table |
| Columns.ColumnDecided | pkg/ir/mir/lower.go:125-149 | from a constraint to the cells of an accepted trace: with x a register of any width read any number of rows ahead or behind, whatever x == c is lowered to accepts a completed trace if and only if every cell so read is c |
| Columns.ImplicationDecided | pkg/ir/mir/lower.go:125-149 | the same for if x == 0 then y == c, whose lowering takes an inverse: under any settings and for registers of any width, a completed trace is accepted if and only if y is c on each row on which x is 0 |
| Columns.ColumnSatisfies | pkg/schema/constraint/checker/vanishing_constraint.go:83-105 | a table satisfies x == c on all rows if and only if all cells of that column, but those too close to an end to be read, are c |
| Columns.CellSatisfies | pkg/schema/constraint/checker/vanishing_constraint.go:51-81 | as a local constraint, if and only if the cell on its row is c, counting from the end for a negative row, and the padding is where that row is outside of the table |
| RowTests.ConstantLostInCore | pkg/ir/term/sub.go:157-170 | where simplification drops a constant the constraint changes: 5 - (x+1) - 2 == 0 is lowered as 4 - x == 0 |
| PieceMeanings.PiecesMean | pkg/ir/mir/lower.go:353-473 | on every row, the goals of all lowered terms are met if and only if the constraint holds: through summing, packing of checks and cross products |
| PieceMeanings.PiecesAttained | pkg/ir/mir/lower.go:353-473 | the same where inverses can only be read within the table: all goals are met if and only if the constraint is, with the inequalities it is lowered to guarded by where their inverses are read |
| PieceMeanings.SummedMeans | pkg/ir/mir/lower.go:381-405 | grouping by bounds and packing loses no goal |
| PieceMeanings.ChoicesMean | pkg/ir/mir/lower.go:721-746 | the goals of a cross product are all met if and only if those of one operand are |
| PieceMeanings.RegroupedMeans | pkg/ir/mir/lower.go:439-473 | splitting off checks and packing them keeps a disjunction |
| AirLowering.Lowering.LowerModule | pkg/ir/mir/lower.go:125-149 | every accepted trace satisfies each source constraint on all rows it is tested on; each constraint has terms, on its own domain, which express it and carry out its tests, and nothing else is added but inverse proofs; source registers stay as they are |
| AirLowering.Lowering.LowerVanishing | pkg/ir/mir/lower.go:188-201 | the terms added for one constraint have its domain, express it on every row within its bounds, and are each tested on exactly the rows given by its tests; earlier constraints are kept |
| AirLowering.Lowering.LowerAndSimplify | pkg/ir/mir/lower.go:230-238 | expanding, simplifying, lowering and simplifying again yields terms which all vanish on a row if and only if the constraint holds there, and whose bounds and goals are those of its tests |
| AirLowering.Lowering.LowerLogical | pkg/ir/mir/lower.go:353-368 | the same for an expanded constraint, whose terms match its pieces one by one |
| AirLowering.Lowering.LowerLogicals | pkg/ir/mir/lower.go:370-379 | each constraint of a list keeps being expressed while later ones add inverse registers |
| AirLowering.Lowering.LowerConjunct | pkg/ir/mir/lower.go:381-405 | the sums of all conjuncts vanish if and only if all conjuncts hold |
| AirLowering.Lowering.LowerDisjunct | pkg/ir/mir/lower.go:439-473 | packed non-zero checks together with the cross product of the other disjuncts express the disjunction |
| AirLowering.Lowering.LowerNonEquality | pkg/ir/mir/lower.go:486-500 | 1 - norm(l - r) vanishes on a row within the bounds if and only if l and r differ there |
| AirLowering.Lowering.Normalise | pkg/ir/mir/lower.go:559-590 | under every optimisation setting the result is 0 where the argument vanishes and 1 elsewhere, and binary or ternary arguments need no inverse register |
| AirLowering.Lowering.NormaliseByInverse | pkg/ir/mir/lower.go:570-590 | the general case, by multiplication with a pseudo-inverse that may be read on a shifted row; nothing is added to the module if the same expression has been inverted before |
| AirLowering.Lowering.PseudoInverseOf | pkg/ir/mir/lower.go:584-587 | an inverse register is reused if its expression was inverted before, and otherwise added together with the constraint proving it |
| NonZeroChecks.SplitChecks | pkg/ir/mir/lower.go:439-456 | splitting off non-zero checks loses no disjunct: one side or the other holds exactly when some disjunct does |
| AirLowering.FaithfulEnforces | pkg/ir/mir/lower.go:188-201 | terms which express a constraint and are defined wherever it is enforce it on all of its rows, whatever the inverse registers hold and also on padding rows of local constraints |
| AirLowering.SimplifiedLowered | pkg/ir/mir/lower.go:593-601 | simplifying each lowered term preserves what they express together, and gives each the bounds of its test |
| Realisations.PacketRealised | pkg/ir/mir/lower.go:390-405 | wherever the simplified sum of a packet is tested all of its terms are defined, so it vanishes there if and only if all goals of the packet are met |
| Realisations.SumsRealised | pkg/ir/mir/lower.go:381-405 | the sums of all groups match the summed pieces one by one |
| Realisations.ProductExpresses | pkg/ir/mir/lower.go:721-746 | wherever a simplified product is tested both factors are, unless one has been recognised as zero; so it vanishes there if and only if either goal is met |
| Realisations.ChoicesRealised | pkg/ir/mir/lower.go:721-746 | the cross product matches the choices of pieces one by one |
| Realisations.InequalityRealised | pkg/ir/mir/lower.go:486-500 | 1 - norm(l - r) is tested where norm(l - r) is, and vanishes there if and only if l and r differ; on any row of any trace, it vanishes only if they do |
| Realisations.InverseNormal | pkg/ir/mir/lower.go:570-590 | multiplication with an inverse normalises on all rows within bounds if the inverse satisfies its proof, and on all rows where the simplified product is tested if the inverse has been filled in; it vanishes where the term does whatever the inverse holds, and with filled inverses is 1 on any other row if and only if the inverse is read within the table |
| Realisations.FilledNormalIff | pkg/ir/mir/lower.go:570-590 | with inverses filled in, normalisation works on a row if and only if the inverse is read within the table or the argument vanishes |
| Reaches.SumReach | pkg/ir/term/add.go:116-137 | a simplified sum is defined exactly where all of its simplified terms are |
| Reaches.SubtractReach | pkg/ir/term/sub.go:118-177 | the same for differences, in all the ways they are rebuilt |
| Reaches.ProductReach | pkg/ir/term/mul.go:111-141 | a product simplifies to zero if and only if a factor does, and otherwise is defined exactly where all of its simplified factors are |
| Outlines.OutlineSimplified | pkg/ir/term/util.go:144-194 | simplification does not depend on which registers are read |
| Outlines.OutlineRange | pkg/ir/mir/lower.go:748-808 | neither do ranges, so packets are known before inverse registers are allocated |
| Expansion.ExpandHolds | pkg/ir/mir/lower.go:240-351 | expansion under either sign preserves truth, or negates it, on every row, including absent branches of conditionals and empty junctions |
| Expansion.ExpandIteHolds | pkg/ir/mir/lower.go:309-351 | both readings of a conditional, each with either branch absent |
| Expansion.ExpandCore | pkg/ir/mir/lower.go:240-351 | an expanded constraint has neither conditionals nor negations left, so lowering never meets one |
| Expansion.ExpandShaped | pkg/ir/mir/lower.go:240-351 | expansion keeps accesses within the bounds of the constraint |
| LogicProperties.SimplifyLogicalHolds | pkg/ir/term/ite.go:189-237 | simplification preserves the truth of a constraint on every row, provided no difference drops constants |
| LogicProperties.SimplifyIteHolds | pkg/ir/term/ite.go:189-237 | the case of conditionals, whose condition may be decided, negated or moved into a junction |
| LogicProperties.SimplifyLogicalCore | pkg/ir/term/conjunct.go:124-144 | simplification introduces neither conditionals nor negations |
| LogicProperties.SimplifyLogicalShaped | pkg/ir/term/disjunct.go:124-144 | simplification never reaches beyond the bounds of a constraint |
| NormalForms.SimplifiedTidy | pkg/ir/term/ite.go:189-237 | in a simplified constraint, no comparison is between constants, no junction is nested in one of its kind, has a single operand or a trivial one, and no conditional has a trivial condition or nothing to decide |
| NormalForms.SimplifiedTermTidy | pkg/ir/term/add.go:116-137 | in a simplified term, no sum or product is nested in one of its kind or has a single operand, nothing is multiplied by 0 or 1, neither 0 nor a sum is subtracted, and the first constant subtracted from another is one which exceeds it |
| NormalForms.ConstantsFolded | pkg/ir/term/sub.go:118-177 | how constants are folded: c + d, c * d, c - d, c - (d - x) and c - (x + d), where nothing goes below zero |
| Logic.SimplifyLogical | pkg/ir/term/ite.go:189-237 | never grows the size of a constraint, which is what makes simplifying a negated condition well-founded |
| Logic.NegatedHolds | pkg/ir/term/ite.go:94-110 | pushing a negation inwards negates the truth value, whichever branches a conditional has |
| Logic.NegatedSize | pkg/ir/term/ite.go:94-110 | pushing a negation inwards never grows the size, with an absent branch counting as one |
| Logic.TestAt | pkg/ir/term/conjunct.go:87-101 | left-to-right testing with early exit computes the truth of a constraint |
| Logic.LogicalShapedBounds | pkg/ir/term/equals.go:55-62 | the bounds of a constraint are the least which admit all of its accesses |
| Logic.ConjunctionHolds | pkg/ir/term/conjunct.go:50-58 | a conjunction holds when all its terms do, the empty one always |
| Logic.DisjunctionHolds | pkg/ir/term/disjunct.go:50-58 | a disjunction holds when any of its terms does, the empty one never |
| Packing.NextSumConjunct | pkg/ir/mir/lower.go:603-635 | takes at least one term; two or more only if none can be negative and their maxima total less than 2^fieldBandwidth; and never stops early |
| Packing.UnsignedIff | pkg/ir/mir/lower.go:603-635 | a term counts as unsigned if and only if its range is finite and holds nothing negative, and its maximum is the greatest member |
| Packing.PackedVanishes | pkg/ir/mir/lower.go:603-635 | a packet below the field size sums to zero exactly when each of its members is zero |
| Packing.GroupTermsByBounds | pkg/ir/mir/lower.go:409-437 | the groups are exactly the terms with each bound, in order of first occurrence |
| Packing.SumByBounds | pkg/ir/mir/lower.go:390-405 | the sums vanish together exactly when all terms do, on every row and on whole tables of any height; every term is in exactly one sum, which is of terms sharing their bounds |
| Packing.PacketEquivalent | pkg/ir/mir/lower.go:390-405 | one sum is equivalent to its packet, row by row and table by table |
| NonZeroChecks.IsNonZeroCheckHolds | pkg/ir/mir/lower.go:672-717 | x != 0 and x != 2^w-1 hold exactly where the check term they become is not zero |
| NonZeroChecks.IsNonZeroCheckSound | pkg/ir/mir/lower.go:672-717 | that term is an integer in 0..2^w-1 |
| NonZeroChecks.IsNonZeroCheckIff | pkg/ir/mir/lower.go:672-717 | checks are exactly the inequalities, either way round, between a register of declared width and the least or greatest value it can hold |
| NonZeroChecks.NextNonZeroCheck | pkg/ir/mir/lower.go:637-653 | takes at least one check, two or more only if their maxima total less than 2^fieldBandwidth, and never stops early |
| NonZeroChecks.PackedCheckHolds | pkg/ir/mir/lower.go:457-473 | a packed check holds in the field exactly when one of its checks does |
| NonZeroChecks.PackChecks | pkg/ir/mir/lower.go:457-473 | the packets tile the list of checks, each as long as it can be, and together are equivalent to it |
| CrossProducts.DisjunctionVanishes | pkg/ir/mir/lower.go:721-746 | all products of the cross product vanish exactly when all terms of one operand do, as a prime field has no zero divisors |
| CrossProducts.DisjunctionShaped | pkg/ir/mir/lower.go:721-746 | the products stay within the bounds of their factors and simplify without loss |
| TermLowering.LowerTermEval | pkg/ir/mir/lower.go:526-546 | a lowered term has the value of the original one on every row |
| NormalForms.LoweredBuilt | pkg/ir/mir/lower.go:526-546 | lowering rebuilds terms such that no sum or product is nested in one of its kind or has a single operand, nothing is multiplied by 0 or 1, and no 0 is added or subtracted |
| TermLowering.DifferenceVanishes | pkg/ir/mir/lower.go:475-484 | the difference of two lowered sides vanishes exactly where they are equal, whichever way round it is taken |
| TermLowering.OrientedSubtractRange | pkg/ir/mir/lower.go:510-522 | the chosen orientation has a non-negative range if either one has |
| Lowerability.PacketLowerable | pkg/ir/mir/lower.go:457-473 | packed checks never stand in the way of exact lowering |
| ExactFolding.BuiltExact | pkg/ir/term/add.go:30-46 | sums of terms which simplify without loss do so too |
| ExactFolding.NormalisedExact | pkg/ir/mir/lower.go:584-590 | so do normalised terms |
| Normalisation.NormalisedEval | pkg/ir/mir/lower.go:559-590 | in any trace whose inverse registers satisfy their proofs, a term multiplied by its inverse is 0 where it vanishes and 1 elsewhere, with or without shifting |
| Normalisation.InvertedEval | pkg/ir/mir/lower.go:570-583 | the inverted expression has, on the shifted row, the value of the original, and is defined there wherever the original is |
| Normalisation.NormalisingShiftInBounds | pkg/ir/mir/lower.go:570-583 | the shift stays within the bounds of a term that reads some register |
| Normalisation.NormalisingShiftIs | pkg/ir/mir/lower.go:571-582 | the shift is the least one with which any register is read if all are positive, the greatest if all are negative, and 0 otherwise or if shifts are not normalised |
| Normalisation.InvertedShared | pkg/ir/mir/lower.go:570-590 | the law behind it: if neither of a term and a shifted copy reads backwards, or neither reads ahead, the same expression is inverted for both |
| Normalisation.WithoutInverseIff | pkg/ir/mir/lower.go:560-570 | terms are taken as binary or ternary if and only if inverses are to be eliminated and all values in their range are in 0..1 or -1..1 |
| Normalisation.BinaryIsNormal | pkg/ir/mir/lower.go:560-566 | a term in 0..1 is its own normal form |
| Normalisation.SquareIsNormal | pkg/ir/mir/lower.go:567-570 | a term in -1..1 is normalised by squaring |
| Normalisation.InequalityWithoutAccess | pkg/ir/mir/lower.go:570-590 | with shift normalisation, an inequality whose difference reads no register and is not recognised as zero is accepted on every table: the bounds of the shifted inverse admit no row |
| Normalisation.NormalisedWithoutAccess | pkg/ir/mir/lower.go:570-590 | on the row of a local constraint, the normal form of such a term is 0 whatever its value: the inverse is read from padding |
| Modules.InverseAt | pkg/ir/mir/lower.go:584-587 | the proof of an inverse forces its product with the expression to be 0 or 1 |
| PseudoInverses.Invert | pkg/ir/assignment/pseudo_inverse.go:148-174 | evaluates the expression on every row and inverts the results in place |
| PseudoInverses.InverseAccepted | pkg/ir/assignment/pseudo_inverse.go:148-174 | the column so filled satisfies the constraint proving it |
| PseudoInverses.CompletedHolds | pkg/ir/assignment/pseudo_inverse.go:60-73 | every trace of the source registers can be completed such that all inverses hold |
| PseudoInverses.CompletedFilled | pkg/ir/assignment/pseudo_inverse.go:148-174 | and such that every inverse register holds the pseudo-inverse of its expression on every row |
| PseudoInverses.EvalExtended | pkg/ir/assignment/pseudo_inverse.go:148-174 | adding registers does not affect terms over the earlier ones |
| BatchInversion.BatchInvert | pkg/util/field/batch_invert.go:20-71 | every slot ends up with the pseudo-inverse of its old value, zeros anywhere staying zero |
| BatchInversion.AccumulateProducts | pkg/util/field/batch_invert.go:35-51 | accumulates products of the units from the back, recording where the zeros were |
| BatchInversion.PeelUnit | pkg/util/field/batch_invert.go:53-70 | peeling one unit off an inverted product yields both its inverse and that of the remaining product |
| Terms.EvalAt | pkg/ir/term/mul.go:65-81 | computes the value of a term, whatever its form; for an access, that is the cell of the column on the row accessed, or padding outside of the table |
| Terms.AccessEval | pkg/ir/term/register_access.go:118-139 | what reading a register of any width yields on any row: the cell there, or its padding where there is none |
| Terms.OperatorsEval | pkg/ir/term/sub.go:60-76 | one more operand is added to, subtracted from or multiplied with the value of those before it, modulo the prime |
| Terms.EvalProduct | pkg/ir/term/mul.go:65-81 | multiplying left to right, and stopping at a zero factor, computes the product modulo p |
| Terms.ShapedBounds | pkg/ir/term/register_access.go:108-115 | the bounds of a term are the least which admit all of its accesses |
| Builders.SumEval | pkg/ir/term/add.go:30-46 | flattening sums and removing zeros keeps the value |
| Builders.SumBounds | pkg/ir/term/add.go:30-46 | a sum is defined where all of its operands are |
| Builders.ProductEval | pkg/ir/term/mul.go:30-50 | flattening products, removing ones and stopping at zeros keeps the value |
| Builders.SubtractEval | pkg/ir/term/sub.go:31-45 | removing zero operands keeps the value of a difference |
| Builders.ApplyShiftEval | pkg/ir/term/util.go:118-126 | a shifted term has on row k the value of the original on row k + shift |
| Builders.ShiftRangeInBounds | pkg/ir/term/util.go:105-116 | the shift range of a term lies within its bounds and is met by every access |
| Builders.ShiftRangeExact | pkg/ir/term/util.go:105-116 | and is made of the least and the greatest shift with which any register is read |
| Builders.ShiftedReads | pkg/ir/term/util.go:118-126 | shifting a term shifts each of its accesses by as much |
| Builders.ShiftRangeOfConstants | pkg/ir/term/util.go:105-116 | without accesses the range is the inverted one from the largest to the smallest machine integer |
| Simplify.SimplifyEval | pkg/ir/term/add.go:116-137 | simplification preserves the value of a term on every row, for nested sums, products and differences, provided no difference drops constants |
| Simplify.SimplifySubExact | pkg/ir/term/sub.go:118-177 | simplifying a difference is exact if and only if no constants are dropped, that is unless a constant minuend is at least the first constant of the flattened subtrahend and the others there do not cancel out |
| Simplify.SimplifyLosesConstant | pkg/ir/term/sub.go:157-170 | 5 - (x+1) - 2 simplifies to 4 - x, which never has the same value |
| Simplify.NestedDifference | pkg/ir/term/sub.go:137-156 | c - (d - x1 - ... - xn) = (c - d) + x1 + ... + xn |
| Simplify.SimplifyShaped | pkg/ir/term/mul.go:111-141 | simplification never reaches beyond the bounds of a term |
| Simplify.MergedSum | pkg/ir/term/util.go:172-194 | merging the constants of a sum into the first keeps its value |
| Simplify.MergedProduct | pkg/ir/term/util.go:172-194 | the same for products |
| Simplify.MergedOnce | pkg/ir/term/util.go:172-194 | merging keeps all other terms in their order, next to no more than one constant |
| Simplify.MergeConstantsInPlace | pkg/ir/term/util.go:172-194 | compacting in place leaves exactly the merged list in front |
| Simplify.SimplifyTerms | pkg/ir/term/util.go:144-167 | folding constants while simplifying computes the merged list |
| Ranges.EvalIsIntEval | pkg/ir/mir/lower.go:748-808 | the value of a term in the field is its integer value modulo the prime |
| Ranges.RangeSound | pkg/ir/mir/lower.go:748-808 | the integer value of a term lies within its range on every row |
| Ranges.RangeOfOperators | pkg/ir/mir/lower.go:748-808 | the range of a constant is that constant, that of an access all values of its declared width, and each further operand has its range added, subtracted or multiplied |
| Ranges.RangeIsProper | pkg/ir/mir/lower.go:748-808 | every range is either finite and non-empty or holds all integers |
| Ranges.RangeOfDifference | pkg/ir/term/sub.go:102-115 | the range of a difference of two terms is that of the first less that of the second |
| Ranges.ValueRangeOf | pkg/ir/mir/lower.go:748-808 | computed by updating intervals in place |
| Intervals.PlusSound | pkg/util/math/interval.go:158-165 | sums of members are members of the sum, infinities included |
| Intervals.MinusSound | pkg/util/math/interval.go:168-175 | differences of members are members of the difference |
| Intervals.PlusTight | pkg/util/math/interval.go:158-165 | every member of a sum is a sum of members |
| Intervals.MinusTight | pkg/util/math/interval.go:168-175 | every member of a difference is a difference of members |
| Intervals.TimesSound | pkg/util/math/interval.go:178-194 | products of members are members of the product |
| Intervals.TimesLeast | pkg/util/math/interval.go:178-194 | a product is the least interval which holds all products of members, for finite factors |
| Intervals.UnionSound | pkg/util/math/interval.go:197-199 | a union holds the members of both |
| Intervals.UnionLeast | pkg/util/math/interval.go:197-199 | and is the least interval which does |
| Intervals.WithinExact | pkg/util/math/interval.go:145-147 | the containment test decides containment |
| Intervals.MinusOriented | pkg/util/math/interval.go:168-175 | turning around a difference which cannot be positive finds a non-negative one, if there is one |
| Intervals.Interval.Add | pkg/util/math/interval.go:158-165 | in place, the sum |
| Intervals.Interval.Sub | pkg/util/math/interval.go:168-175 | in place, the difference |
| Intervals.Interval.Mul | pkg/util/math/interval.go:178-194 | in place, the least and greatest of the four products of ends |
| Intervals.Interval.Insert | pkg/util/math/interval.go:150-155 | in place, the union |
| Intervals.Interval.Normalise | pkg/util/math/interval.go:205-213 | an interval with one infinite end gets both |
| PrimeField.NoZeroDivisors | pkg/ir/mir/lower.go:721-746 | a product vanishes modulo a prime only if a factor does |
| PrimeField.BezoutInverts | pkg/util/field/batch_invert.go:53-53 | every non-zero element has an inverse |
| PrimeField.InverseUnique | pkg/util/field/batch_invert.go:53-53 | and only one |
| Conjunctions.Conjunction.Simplify | pkg/util/logical/proposition.go:450-497 | terminates for every sorted set of proper atoms; returns false exactly when no assignment of integers satisfies them all; otherwise leaves an equivalent, sorted, closed conjunction which is empty only if it was, and leaves closed ones alone |
| Conjunctions.Conjunction.CloseRow | pkg/util/logical/proposition.go:462-483 | closing one atom over all others keeps the meaning, and either leaves it unaffected by them or gets closer to a fixpoint |
| Conjunctions.Step | pkg/util/logical/proposition.go:450-497 | one rewrite in place preserves meaning, keeps some atom that will survive, and lowers the number of inequalities or else the total distance from the top |
| Conjunctions.Contradiction | pkg/util/logical/proposition.go:481-483 | a false closure refutes the conjunction |
| Conjunctions.TidyUp | pkg/util/logical/proposition.go:485-496 | dropping trivial atoms and duplicates keeps meaning and closedness, and never empties the conjunction |
| Equalities.AtomMeans | pkg/util/logical/equality.go:26-31 | an atom says whether a variable has the value of another one, or a constant |
| Equalities.CloseOverSound | pkg/util/logical/equality.go:72-92 | closing over an atom which holds does not affect the meaning of another |
| Equalities.CloseOverPreserves | pkg/util/logical/equality.go:72-92 | replacing an atom by its closure over another one preserves the conjunction |
| Equalities.CloseOverProgress | pkg/util/logical/equality.go:72-138 | a changed atom is no longer an inequality, or got closer to the top, where constants are above all variables |
| Equalities.CloseOverProper | pkg/util/logical/equality.go:94-138 | proper equalities never become trivial, and inequalities only in the presence of a proper equality |
| Equalities.BoundOnce | pkg/util/logical/equality.go:72-92 | in a closed conjunction, a variable which stands for another one is mentioned nowhere else |
| Equalities.ClosedSatisfiable | pkg/util/logical/equality.go:72-92 | a closed conjunction without contradictory atoms has a solution |
| Equalities.CmpIsOrder | pkg/util/logical/equality.go:141-155 | the order of atoms is total |
| Equalities.CmpFirst | pkg/util/logical/equality.go:141-155 | equalities come before all others, then lower variables, then variables before constants |
| Propositions.OrSound | pkg/util/logical/proposition.go:137-152 | a disjunction means what it should, or is false although the operands cover all cases |
| Propositions.OrExact | pkg/util/logical/proposition.go:137-152 | a disjunction means what it should if and only if simplifying the clauses of its operands does not resolve two unit clauses (or comes across a complementary pair later on) |
| Propositions.OrLosesOnly | pkg/util/logical/proposition.go:137-152 | it takes operands which cover all cases and hold some atom together with its negation for that to happen |
| Propositions.OrNotices | pkg/util/logical/proposition.go:136-164 | a disjunction whose clauses include both P and not P is true |
| UnitConsensus.LosesAtomsExact | pkg/util/logical/proposition.go:200-282 | resolving two unit clauses is the only way in which clauses with atoms can end up as one without |
| UnitConsensus.LosesAtomsClash | pkg/util/logical/proposition.go:239-282 | this takes an atom in one clause and its negation in another |
| OrCollapse.OrCollapses | pkg/util/logical/proposition.go:137-152 | the disjunction of not-S with PQ or R(not P) or S(not Q) or S(not R) holds everywhere and is simplified to false |
| OrCollapse.UnitsResolved | pkg/util/logical/proposition.go:239-282 | because consensus on the unit clauses P and not-P, which only appear during the pass, leaves a clause without atoms |
| OrCollapse.RightBuilt | pkg/util/logical/proposition.go:137-152 | its right-hand side is what disjunction makes of its clauses one by one |
| AndCollapse.AndCollapses | pkg/util/logical/proposition.go:112-134 | the conjunction of R or not-R with P or Q or not-Q or (not-P and not-R), both of which hold everywhere, is simplified to false |
| Propositions.Or | pkg/util/logical/proposition.go:137-152 | computes that disjunction, with the same exact condition; no rule of simplification applies to the result, unless one operand is false and the other returned as it is |
| Propositions.And | pkg/util/logical/proposition.go:112-134 | a conjunction means what it should if and only if no clause is lost to consensus as the combinations are joined, or the clauses which remain hold everywhere; it takes two operands which hold everywhere to lose any; without equalities to close over, it is the disjunction of all combinations of clauses |
| Propositions.JoinedMeans | pkg/util/logical/proposition.go:112-134 | what joining the combinations of clauses one after the other means, namely the conjunction of those not lost with the other operand |
| Propositions.NegateProposition | pkg/util/logical/proposition.go:155-175 | negation always means what it should |
| Propositions.NegateConjunct | pkg/util/logical/proposition.go:341-355 | the negation of a clause is the disjunction of its negated atoms |
| Propositions.AndConjunctProposition | pkg/util/logical/proposition.go:357-377 | distributing a clause over a proposition keeps meaning, and leaves out only what is contradictory |
| Propositions.NewPropositionSound | pkg/util/logical/proposition.go:56-72 | a proposition made of one atom means that atom |
| Propositions.NormalSatisfiable | pkg/util/logical/proposition.go:101-109 | a proposition other than false can be satisfied |
| DnfSimplification.SimplifiedSound | pkg/util/logical/proposition.go:200-232 | simplification preserves the disjunction of clauses of any number; the result has clauses without atoms only if it consists of those, and then the disjunction holds everywhere |
| DnfSimplification.SimplifiedReduced | pkg/util/logical/proposition.go:200-232 | simplification goes on until nothing is left to do: no two clauses differ in a single atom which one of them negates, no unit clause meets its negation in a longer one, and no clause contains another |
| DnfSimplification.SettledReduced | pkg/util/logical/proposition.go:208-232 | although absorption does not count as a change, one pass without any other change leaves nothing to propagate or absorb |
| DnfSimplification.PassSpares | pkg/util/logical/proposition.go:208-219 | in such a pass, a minimal clause survives and has no effect on any clause left by it |
| DnfSimplification.SimplifiedNotices | pkg/util/logical/proposition.go:309-322 | clauses which include both P and not P are always found to cover all cases |
| DnfSimplification.PassNotices | pkg/util/logical/proposition.go:208-219 | a pass which has yet to compare two complementary unit clauses ends as a tautology, whatever it changes before |
| DnfSimplification.PassSound | pkg/util/logical/proposition.go:208-219 | a pass over all pairs preserves the disjunction; early exit happens only when it holds everywhere; and any reported change lowers the total number of atoms |
| DnfSimplification.PassSpreads | pkg/util/logical/proposition.go:284-307 | a clause without atoms subsumes all others within one pass |
| DnfSimplification.PassKeepsAtoms | pkg/util/logical/proposition.go:208-219 | no pass takes the last atom of a clause |
| DnfSimplification.PropagatedSound | pkg/util/logical/proposition.go:309-339 | unit propagation preserves the disjunction of two clauses and removes one atom |
| DnfSimplification.SubsumedSound | pkg/util/logical/proposition.go:296-304 | absorption preserves the disjunction of two clauses and never adds atoms |
| DnfSimplification.PairStepSound | pkg/util/logical/proposition.go:284-307 | both together preserve the whole disjunction |
| DnfSimplification.ResolventSound | pkg/util/logical/proposition.go:259-282 | two satisfiable clauses are together equivalent to their resolvent, which has one atom less |
| DnfSimplification.ResolventIff | pkg/util/logical/proposition.go:259-282 | clauses of any length are resolved if and only if they are equally long and differ in one atom which the other negates, and then just that atom goes; in either order |
| DnfSimplification.ConsensusSound | pkg/util/logical/proposition.go:239-255 | a consensus step preserves the disjunction and lowers the number of atoms |
| DnfSimplification.Disjunction.UnitPropagation | pkg/util/logical/proposition.go:309-339 | in place, exactly that |
| DnfSimplification.Disjunction.SimplifyConjuncts | pkg/util/logical/proposition.go:284-307 | in place, unit propagation followed by absorption |
| DnfSimplification.Disjunction.ApplyConsensus | pkg/util/logical/proposition.go:239-255 | the first applicable step, in the order in which pairs are searched |
| DnfSimplification.Disjunction.Simplify | pkg/util/logical/proposition.go:200-232 | terminates with no rule left to apply and the specified result, sorted and without duplicates |
| DnfSimplification.Resolve | pkg/util/logical/proposition.go:259-282 | computed by counting the atoms the other clause lacks |
| DnfSimplification.Remove | pkg/util/logical/proposition.go:400-408 | removes exactly the given atom, if it is there |
| DnfSimplification.CmpClauseIsOrder | pkg/util/logical/proposition.go:394-396 | the order of clauses is total |
| DnfSimplification.CmpClauseFirst | pkg/util/logical/proposition.go:394-396 | shorter clauses come first, and among equally long ones the first difference decides |
| SortedSets.Find | pkg/util/collection/set/any_sorted_set.go:80-93 | bisection finds an element if and only if it is there |
| SortedSets.InsertAllSorts | pkg/util/collection/set/any_sorted_set.go:126-143 | merging sorted sets yields the sorted set of the elements of both |
| SortedSets.SortedUnique | pkg/util/collection/set/any_sorted_set.go:59-71 | a sorted set is determined by its elements, so it does not matter how it was sorted |
| SortedSets.CompareOrders | pkg/util/collection/array/util.go:34-47 | comparing arrays by length, then element by element, is a total order if that of the elements is |
| SortedSets.CompareFirst | pkg/util/collection/array/util.go:34-47 | shorter arrays come first, and among equally long ones the first difference decides |
| ZeroTest.ZeroIffEmpty | pkg/util/logical/equation.go:140-143 | a canonical polynomial is 0 for all integers if and only if it has no terms |
| ZeroTest.EqualIffSame | pkg/util/poly/array_poly.go:95-107 | two canonical polynomials have the same value everywhere if and only if they are structurally equal |
| ZeroTest.NonZeroSomewhere | pkg/util/logical/equation.go:140-143 | gives an assignment under which a polynomial with terms is not 0: powers so far apart that no two monomials interfere |
| ZeroTest.CodeUnique | pkg/util/poly/monomial.go:35-42 | sorted lists of variables are determined by their codes |
| Polynomials.ArrayPoly.AddTerm | pkg/util/poly/array_poly.go:200-219 | keeps terms sorted, with distinct variables and no zero coefficients, and adds exactly one term |
| Polynomials.ArrayPoly.SubTerm | pkg/util/poly/array_poly.go:222-241 | the same for subtraction |
| Polynomials.AddToCanonical | pkg/util/poly/array_poly.go:200-219 | adding a term keeps the canonical form, whether it is merged, cancelled or inserted |
| Polynomials.AddToEval | pkg/util/poly/array_poly.go:200-219 | and adds its value |
| Polynomials.AddToCoefficient | pkg/util/poly/array_poly.go:200-219 | and affects just the coefficient of its own variables |
| Polynomials.ArrayPoly.Add | pkg/util/poly/array_poly.go:145-153 | a fresh canonical polynomial whose value is the sum |
| Polynomials.ArrayPoly.AddScalar | pkg/util/poly/array_poly.go:156-162 | the value grows by the scalar |
| Polynomials.ArrayPoly.Sub | pkg/util/poly/array_poly.go:165-173 | a fresh canonical polynomial whose value is the difference |
| Polynomials.ArrayPoly.Mul | pkg/util/poly/array_poly.go:176-186 | a fresh canonical polynomial whose value is the product |
| Polynomials.ArrayPoly.MulScalar | pkg/util/poly/array_poly.go:189-197 | the value is multiplied by the scalar |
| Polynomials.ArrayPoly.Negate | pkg/util/poly/array_poly.go:134-142 | the value is negated |
| Polynomials.ArrayPoly.Shr | pkg/util/poly/array_poly.go:244-265 | p = 2^n * quotient + remainder with both canonical and every coefficient of the remainder below 2^n in magnitude |
| Polynomials.ShrEval | pkg/util/poly/array_poly.go:244-265 | the division equation for all assignments |
| Polynomials.RemaindersSmall | pkg/util/poly/array_poly.go:244-265 | the bound on the remainder |
| Polynomials.ProductsEval | pkg/util/poly/array_poly.go:176-186 | all pairwise products sum to the product |
| Polynomials.ArrayPoly.Eval | pkg/util/poly/poly.go:86-95 | accumulating term by term computes the value, which for a variable on its own is what is assigned to it |
| Polynomials.VariableEval | pkg/util/poly/poly.go:86-111 | the polynomial made of a single variable has the value assigned to it |
| Polynomials.EvalSnoc | pkg/util/poly/poly.go:86-95 | each further term adds its value |
| Monomials.EvalTerm | pkg/util/poly/poly.go:97-111 | accumulating variable by variable computes the value of a term |
| Monomials.EvalConstant | pkg/util/poly/poly.go:97-111 | the value of a monomial without variables is its coefficient |
| Monomials.EvalNext | pkg/util/poly/poly.go:97-111 | each further variable multiplies the value of a monomial with its own, negative ones included |
| Monomials.MulSound | pkg/util/poly/monomial.go:167-175 | the value of a product is the product of the values |
| Monomials.MergeSortedSound | pkg/util/collection/array/util.go:472-499 | merging sorted lists of variables yields a sorted one with the variables of both |
| Monomials.ShiftSound | pkg/util/poly/monomial.go:203-226 | shifting rounds towards zero, and what is shifted out is smaller than 2^n and has the same sign |
| Monomials.CmpIsOrder | pkg/util/poly/monomial.go:74-84 | the order of monomials is total |
| Monomials.CmpFirst | pkg/util/poly/monomial.go:74-84 | fewer variables come first, then lower ones, then lower coefficients |
| Monomials.Matches | pkg/util/poly/monomial.go:188-200 | decides whether two monomials have the same variables |
| Polynomials.CmpIgnoresCoefficients | pkg/util/poly/monomial.go:74-84 | a coefficient can change without affecting the position of its monomial |
| Equations.VanishesSound | pkg/util/logical/equation.go:32-41 | the equation of a polynomial holds exactly where it is 0, and both sides have positive coefficients only |
| Equations.VanishesIsTrue | pkg/util/logical/equation.go:72-82 | an equation is recognised as true if and only if it holds everywhere |
| Equations.VanishesNeverFalse | pkg/util/logical/equation.go:72-82 | no equation made from a polynomial is ever recognised as false: a lone constant always ends up on the other side |
| Equations.ConstantNotRefuted | pkg/util/logical/equation.go:145-147 | for example 5 == 0, which has no solution |
| Equations.ConstantSides | pkg/util/logical/equation.go:72-82 | a constant other than 0 makes an equation unsolvable on either side, and is recognised on the left only |
| Equations.Vanishes | pkg/util/logical/equation.go:32-41 | computes that equation |
| Equations.Normalise | pkg/util/logical/equation.go:108-124 | negates a polynomial with more negative than positive terms |
| Equations.VanishesOriented | pkg/util/logical/equation.go:108-138 | positive terms are on one side and negated negative ones on the other, with the fewer on the left |
| Equations.Split | pkg/util/logical/equation.go:126-138 | separates negative from positive terms |
| Equations.SideEval | pkg/util/logical/equation.go:126-138 | the two sides differ by the polynomial |
| TraceExpansion.RunsAgree | pkg/ir/builder/expansion.go:29-115 | sequential and parallel runs with any positive batch size agree: one expands the trace if and only if the other does, which is whenever an expansion exists, and to the very same trace |
| TraceExpansion.ExpansionUnique | pkg/ir/builder/expansion.go:29-115 | there is at most one trace in which all assignments have been computed from each other |
| TraceExpansion.SequentialTraceExpansion | pkg/ir/builder/expansion.go:49-71 | expands the trace whenever that is possible, and gets stuck only on cyclic dependencies |
| TraceExpansion.ParallelTraceExpansion | pkg/ir/builder/expansion.go:78-115 | the same for waves of any positive size; waves of size 0 get stuck at once |
| TraceExpansion.ProgressStep | pkg/ir/builder/expansion.go:57-67 | running a ready assignment keeps: each assignment is done once, all it read is final, all others are untouched |
| TraceExpansion.ProgressEnds | pkg/ir/builder/expansion.go:57-70 | a run with nothing pending is an expansion, and its order shows dependencies to be acyclic |
| TraceExpansion.StepSucceeds | pkg/ir/builder/expansion.go:57-67 | where an expansion exists, neither computing nor filling ever fails |
| TraceExpansion.WaveReads | pkg/ir/builder/expansion.go:88-108 | within a wave, each assignment sees what it would see if run on its own |
| TraceExpansion.WaveStep | pkg/ir/builder/expansion.go:88-108 | filling in the results of a wave one by one is a sequence of steps |
| Assignments.SomeReady | pkg/ir/builder/expander.go:82-118 | with acyclic dependencies, some remaining assignment is always ready, so the scheduler never gives up |
| Assignments.ReadyIff | pkg/ir/builder/expander.go:123-146 | an assignment is ready if and only if everything it reads which is still to be written is expanded by itself |
| Scheduling.Expander.constructor | pkg/ir/builder/expander.go:43-64 | marks exactly the columns written by some assignment |
| Scheduling.Expander.Next | pkg/ir/builder/expander.go:82-118 | takes up to n ready assignments off the worklist, and fewer only if no others are ready; afterwards exactly the columns written by what remains are marked |
| Scheduling.Expander.TakeUnmarked | pkg/ir/builder/expander.go:82-108 | swapping to the back and truncating loses and duplicates nothing |
| Scheduling.Expander.IsReady | pkg/ir/builder/expander.go:123-146 | whether no marked column is read, those being expanded aside |
| Scheduling.UnmarkedMeans | pkg/ir/builder/expander.go:123-146 | an assignment passes that test exactly when nothing it waits for is still to be written |
| Scheduling.StillWritten | pkg/ir/builder/expander.go:109-113 | with single writers, unmarking a batch leaves marked what the rest writes |
| TraceModules.FillComputedColumns | pkg/ir/builder/expansion.go:132-143 | fills columns one after the other |
| TraceModules.FillSound | pkg/ir/builder/expansion.go:132-143 | just those columns change, all of which were missing before, and modules keep equally high columns |
| TraceModules.FillSucceeds | pkg/ir/builder/expansion.go:132-143 | filling succeeds if some final trace has those columns and agrees on all others |
| TraceModules.ExpandEven | pkg/trace/module.go:65-87 | expanding a column keeps all columns equally high |
| TraceModules.NewModule | pkg/trace/module.go:40-62 | a module is constructed exactly when its columns match in number and height |
| TraceModules.SameColumns | pkg/trace/module.go:65-99 | the height of a module is determined by its columns, so order does not matter |
| ColumnRefs.IndexRoundTrip | pkg/trace/ref.go:66-71 | a column is recovered from its number |
| ColumnRefs.IndexInjective | pkg/trace/ref.go:87-89 | no two columns of existing modules share a number |
| ColumnRefs.IndexCollides | pkg/trace/ref.go:87-89 | with a module out of range they can |
| TraceCodec.TraceRoundTrip | pkg/trace/encoding.go:30-89 | for any column codec that round-trips, every trace with at least one shard and shards of equal width is read back from its encoding, of which exactly the rest remains |
| TraceCodec.EncodingInjective | pkg/trace/encoding.go:30-54 | different traces have different encodings |
| TraceCodec.ShardsRoundTrip | pkg/trace/encoding.go:75-87 | the same for all shards of a trace |
| TraceCodec.ModuleRoundTrip | pkg/trace/encoding.go:91-136 | the same for a module |
| TraceCodec.ColumnsRoundTrip | pkg/trace/encoding.go:125-132 | the same for its columns |
| TraceCodec.OneColumn | pkg/trace/encoding.go:124-132 | a column is written and read at its declared width, or at 2^64-1 where none is declared |
| TraceCodec.HeaderRoundTrip | pkg/trace/encoding.go:112-117 | a module is read as replicated if and only if its metadata is not 0 |
| TraceCodec.AssembledIff | pkg/trace/module.go:40-62 | a module is assembled if and only if there is one column per descriptor and all are equally high, and has their height |
| TraceCodec.EncodedSmallModule | pkg/trace/encoding.go:91-106 | the bytes of a module with one column: name, descriptors, metadata, height and column, in this order |
| TraceCodec.EncodedSmallTrace | pkg/trace/encoding.go:30-54 | the bytes of a trace with one module: header, number of shards, number of modules, and the module |
| TraceCodec.DecodedHeader | pkg/trace/encoding.go:64-69 | nothing which does not start with the header is read |
| TraceCodec.EmptyModuleLosesHeight | pkg/trace/encoding.go:108-136 | a module without columns is read back with height 0, whatever was written |
| Encodings.UvarintRoundTrip | pkg/trace/encoding.go:264-280 | every 64-bit number is read back, and exactly its encoding is consumed |
| Encodings.EncodedDigits | pkg/trace/encoding.go:264-269 | a number is written as its digits to base 128, least significant first, each but the last with the top bit set, and without leading zeros |
| Encodings.EncodedByte | pkg/trace/encoding.go:264-269 | a number below 128 is written as that one byte |
| Encodings.DecodedDigits | pkg/trace/encoding.go:271-280 | bytes up to the first without the top bit are read as such digits, unless they exceed 64 bits |
| Encodings.DecodedUnfinished | pkg/trace/encoding.go:271-280 | ten bytes with the top bit set are refused as too large, and fewer at the end of the input as incomplete |
| Encodings.DecodedBelow | pkg/trace/encoding.go:271-280 | no number beyond 64 bits is ever read |
| Encodings.StringRoundTrip | pkg/trace/encoding.go:232-241 | the same for strings |
| Encodings.DecodedString | pkg/trace/encoding.go:232-241 | a string is read if and only if at least as many bytes remain as announced |
| Encodings.OptionRoundTrip | pkg/trace/encoding.go:223-262 | the same for options |
| Encodings.DecodedOption | pkg/trace/encoding.go:243-262 | an option is refused if and only if it starts with neither 0 nor 1, or its value cannot be read |
| Encodings.DescriptorsRoundTrip | pkg/trace/encoding.go:157-182 | the same for lists of descriptors |
| Buffers.RoundTrip | pkg/trace/encoding.go:30-89 | marshalling followed by unmarshalling yields the same trace |
| Buffers.MarshalBinary | pkg/trace/encoding.go:30-54 | encodes a trace, unless it has no shards or they differ in width; what it returns starts with the bytes 114, 116, 114, 97, 99, 101, 0, 2 |
| Buffers.UnmarshalBinary | pkg/trace/encoding.go:57-89 | decodes a trace, or returns the first error, which is that of a bad header unless the input starts with those bytes |
| Buffers.MarshalModule | pkg/trace/encoding.go:91-106 | appends exactly the encoding of a module |
| Buffers.UnmarshalModule | pkg/trace/encoding.go:108-136 | consumes exactly one module, or returns the first error |
| Buffers.Buffer.WriteUvarint | pkg/trace/encoding.go:264-269 | appends seven bits at a time |
| Buffers.Buffer.ReadUvarint | pkg/trace/encoding.go:271-280 | consumes exactly one number, or returns an error |
| Buffers.Buffer.ReadString | pkg/trace/encoding.go:232-241 | consumes exactly one string, and refuses lengths beyond the buffer |
| Buffers.Buffer.ReadOption | pkg/trace/encoding.go:243-262 | consumes exactly one option, and refuses unknown tags |
| Buffers.Buffer.WriteDescriptors | pkg/trace/encoding.go:211-216 | appends the length and each descriptor |
| Buffers.Buffer.ReadDescriptors | pkg/trace/encoding.go:167-182 | consumes exactly that many descriptors, or stops at the first error |
| Buffers.Reader.Uvarint | pkg/trace/encoding.go:195-207 | a sticky reader keeps its first error, reads nothing more and yields zero |
| Buffers.Reader.Str | pkg/trace/encoding.go:195-208 | the same for strings |
| Buffers.Reader.OptionUint | pkg/trace/encoding.go:195-209 | the same for options |
| Buffers.Reader.Descriptors | pkg/trace/encoding.go:195-205 | the same for lists of descriptors |

## Left out

- AirLowering.Lowering.LowerModule: does not model constraints other than vanishing ones
- AirLowering.Lowering.PseudoInverseOf: finds an existing inverse register by its expression, where the gadget behind pkg/ir/mir/lower.go:587 (which is not part of this model) goes by the name derived from it
- AirLowering.Lowering.LowerLogical: takes constraints which are lowered without loss (`Lowerable`), as others do change their meaning
- LogicProperties.SimplifyLogicalHolds: takes constraints in which no difference drops constants, as others do change their meaning
- Setting a polynomial from terms or a 64-bit constant is covered by `Equations.FromTerms` and `Polynomials.ArrayPoly.AddTerm`; reinterpreting 64-bit constants as signed is not modelled
- Conjunctions.Conjunction.Simplify: decides conjunctions over all integers; with registers of bounded width, a conjunction it keeps may still be unsatisfiable
- TraceExpansion.ParallelTraceExpansion: a wave computes all of its assignments and then fills in their columns; goroutines and performance statistics are not modelled
- ColumnRefs.IndexInjective: numbers are unbounded, so overflow of 64-bit column numbers is not modelled
- TraceCodec.TraceRoundTrip: columns are encoded by an abstract codec; the representations of arrays are not modelled
- Lookup, bus and range constraints, and the bitwidth gadget: vectors are carried over unchanged, or go to gadgets outside of this model
- Constraints which initialise constant registers, static modules and the assignments of the source schema
- Conditional and normalised terms, vector accesses and other sugar removed before this level
- Padding strategies, registers wider than the field, and splitting of registers into limbs
- Corset's parser, resolver and type checker, and all input, output and printing
- Sharing of big-integer storage, and concrete field representations
