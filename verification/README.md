# A verified model of the LART abstraction toolkit

LART rewrites a program so that chosen values become abstract, links it with a domain that computes on the abstract
values, and explores the rewritten program by forking at every choice. This project models its hardest parts in Dafny
and proves what they are for. `dafny verify dfyconfig.toml` checks everything.

## What is modelled

**Intervals and their backward refinement** (`Bounds`, `Intervals`, `Backward`, `History`, `Relational`). Bounds are
64-bit integers whose two extremes are infinities; arithmetic saturates. An interval stands for the integers strictly
between `-max` and `max` that it includes. A choice takes its value from a script of answers, reduced modulo the number
of alternatives, so that "over all choices" is a quantifier over scripts; `__lart_cancel` ends the branch, which then
has no outcome. `Backward` states each operation as a function on the intervals of numbered nodes, in the order in
which the code reads and writes them, so that a node used twice behaves as in the code. `Relational` has the same
operations as methods on shared, mutable nodes with child pointers, each proved equal to its function. `Splits`,
`Products`, `SignedProducts`, `BestChoices` and `Orders` say what the case splits keep and lose, for all bounds.
`Keeping` has the exact condition under which each whole operation keeps a pair of operand values; `Propagation` and
`Runs` lift this to assumptions over a history and to whole programs: no execution is lost. `Precision` and `Narrowing`
are the other direction: nothing else is kept, and nothing is ever gained. `Explanation` says how far an assumption is
pushed down: what is left in the operands of every node that it reaches is explained by the node. `SelfOperands` has
operations of a node with itself, and `Losses` inputs where the code does lose solutions.

**The type analysis** (`Onions`, `LayerVectors`, `Solutions`, `Dataflow`). Onions of pointer layers form a semilattice
across different nestings; `LayerVectors` is their vector form with the loops of the code. `Dataflow` is the worklist
algorithm over maps and a queue; it ends, within a budget known from the initial types, with the least assignment above
the roots that is closed under all edges that leave an active value. `Orderings` shows the same for every order in which
waiting edges can be taken, and `Coverage` that the solution instruments what the abstraction needs, in programs with
memory as well: whatever depends on an input, through any stores and loads.

**Exploration by forking** (`Exploration`, `Enumeration`). Processes are a state machine with `fork`, `wait`, `exit` and
one shared flag; steps of any process may come in any order. Runs are proved to be the depth-first search that the code
intends, with the depth bound and the accounting of the trace.

**Shadow memory** (`Terms`, `Shadow`, `Melting`, `ShadowRuntime`). Bytes carry labels, frames own bytes, and reads
assemble abstract values; what a read means is stated against little-endian memory.

**Generated code.** `Dispatch` generates the taint test and the lifter around an abstracted instruction, `Simulation`
proves that straight-line programs are simulated over any sound domain, and `IntervalPrograms` instantiates it with the
intervals above. `Gep` lowers address computations to arithmetic, and `Rpn` is the byte form of symbolic expressions.
Generators take run-time contents as ghost parameters: what they emit is the same for all contents, and right for each.

## Where the code differs from what one would expect

- The early return of `badd_` and `bsub_` compares intervals with a three-valued `==`, so it is taken only for two equal
  constants (`lava/include/lava/interval.hpp:208`, `lava/include/lava/support/interval.hpp:550-555`).
- `bop_mul` lacks a semicolon after `return`, which swallows the first intersection
  (`lava/include/lava/interval.hpp:308-310`); the model does the same.
- Solutions are lost, exactly where `Precision.BackExact` says for different operands: `beq_impl` chooses among one
  value too few (`Orders.EqualExact`), counts of starts are cut to 32 bits (`Losses.CountTruncated`), the number of
  shared values of wide intervals wraps around (`Losses.WideOrderLost`), a sum that reaches the infinity of its result
  cancels (`Losses.SumCancels`), a bound next to an infinity saturates (`Losses.UnsharedSumLost`), and factors that can
  be zero or negative are divided by and rounded as if they were positive (`Losses.ZeroFactorLost`,
  `Losses.NegativeFactorLost`, `BestChoices.NegativeFactorsKept`). A node added to itself loses solutions as well
  (`SelfOperands.AddExact`).
- `exclude` wraps around when it steps off the wrong infinity, which turns an interval of no value into one of all
  (`Narrowing.DifferentWidens`; the exact conditions are `Narrowing.GreaterNarrows` and `Narrowing.DifferentNarrows`).
- `check_terminate` exits with a raw wait status, which the system reduces to code 0
  (`runtime/native/choose.cpp:28-32`), so that exploration can skip leaves; `Enumeration.ExploreExact` says when it does
  not.
- `read_shadow_label` steps by a label's full size from wherever it meets the label (`Melting.MiddleRead`,
  `Melting.StaleRead`).
- Variable numbers wrap at 16 bits (`Rpn.AnyDistinct`), and conversions to and from floats have no operand in the table
  of traits (`Rpn.ConversionDetached`).

## Model

| member | source | states |
|---|---|---|
| Bounds.SumOverflow | lava/include/lava/support/interval.hpp:65-89 | whether a 64-bit sum overflows, and to which side, decided without computing anything outside 64 bits |
| Bounds.ProductOverflow | lava/include/lava/support/interval.hpp:97-129 | whether a 64-bit product overflows, and to which side, decided by divisions that stay in 64 bits |
| Bounds.Bound.AddAssign | lava/include/lava/support/interval.hpp:65-89 | `+=` leaves the saturated mathematical sum; it cancels exactly on opposite infinities, and then the bound is as it was |
| Bounds.Bound.SubAssign | lava/include/lava/support/interval.hpp:91-95 | `-=` is addition of the negated bound, with the lowest value negating to the highest |
| Bounds.Bound.MulAssign | lava/include/lava/support/interval.hpp:97-129 | `*=` leaves the product clamped to 64 bits, zero absorbing an infinity, with no intermediate overflow |
| Bounds.Bound.DivAssign | lava/include/lava/support/interval.hpp:131-145 | `/=` truncates toward zero, divides an infinity by sign and anything finite by an infinity to zero, and cancels exactly on two infinities |
| Intervals.MeetJoinExact | lava/include/lava/support/interval.hpp:395-411 | the meet stands for exactly the common values; the join holds both sides and lies within every interval that does |
| Intervals.PlusSound | lava/include/lava/support/interval.hpp:433-436 | addition of inhabited intervals never cancels and holds every in-range sum, infinities and saturation included |
| Intervals.MinusSound | lava/include/lava/support/interval.hpp:438-441 | the same for subtraction |
| Intervals.TimesSound | lava/include/lava/support/interval.hpp:443-451 | every in-range product lies between the least and greatest of the four saturated corner products, infinities included |
| Intervals.OverSound | lava/include/lava/support/interval.hpp:453-476 | for a divisor without zero, division is alive if and only if one of the operands is finite, and then holds every truncated quotient |
| Intervals.PlusTight | lava/include/lava/support/interval.hpp:433-436 | addition is as narrow as an interval can be: for any inhabited operands, infinities included, both its bounds are saturated sums of integers that the operands span |
| Intervals.MinusTight | lava/include/lava/support/interval.hpp:438-441 | the same for a difference |
| Intervals.SumMonotone | lava/include/lava/support/interval.hpp:433-441 | narrower operands have a narrower sum and difference, saturation and infinities included |
| Intervals.TimesMonotone | lava/include/lava/support/interval.hpp:443-451 | the same for a product, for all signs |
| Intervals.TimesTight | lava/include/lava/support/interval.hpp:443-451 | the same for a product |
| Intervals.OverTight | lava/include/lava/support/interval.hpp:453-476 | the same for a quotient, wherever division is alive |
| Intervals.ComparisonSound | lava/include/lava/support/interval.hpp:550-601 | the three-valued `==`, `<` and `>` cover the truth for all values of their operands |
| Intervals.NotSound | lava/include/lava/support/tristate.hpp:72-77 | three-valued negation covers the negated truth |
| Intervals.ComparisonDecides | lava/include/lava/support/interval.hpp:550-601 | exactly when each answer is given, for inhabited operands: `<` is true if and only if every integer on the left is less than every one on the right, false if and only if every one is greater or both are the same constant, and `>` likewise; `==` is true for the same constant only, and false if and only if no integer is common |
| Intervals.NotDecides | lava/include/lava/support/tristate.hpp:72-77 | negation is undecided for an undecided value only |
| Splits.CorrectSound | lava/include/lava/interval.hpp:213-224 | one correction keeps only pairs that make up for the gap, in every branch, and narrows both operands |
| Splits.CorrectKeeps | lava/include/lava/interval.hpp:213-224 | every pair that makes up for the gap is in some branch of the correction |
| Splits.SplitSound | lava/include/lava/interval.hpp:205-247 | for all bounds: every branch of `badd_` / `bsub_` only narrows, holds no pair unless no correction saturates, and with small gaps only pairs with a sum / difference the result can have |
| Splits.SplitKeeps | lava/include/lava/interval.hpp:205-247 | for all bounds: every pair whose sum / difference the result can have is left by explicit answers, whatever answers follow, where no correction saturates, even when a correction exceeds 200 |
| Splits.SplitExact | lava/include/lava/interval.hpp:205-247 | for all bounds: with small gaps the union over all choices is exactly the pairs whose sum / difference lies in the result, if no bound saturates before it is corrected, and otherwise empty |
| Splits.SplitLosesNothing | lava/include/lava/interval.hpp:205-247 | without any limit on bounds or gaps, an agreeing pair survives if and only if result and forward result share no infinity and no corrected bound saturates |
| Keeping.NarrowKeeps | lava/include/lava/interval.hpp:288-300 | for all bounds the intersections of `bop_add` / `bop_sub` keep every agreeing pair, and the infinities that result and forward result share |
| Keeping.AddableFits | lava/include/lava/interval.hpp:288-300 | a condition on the bounds alone, monotone in them, under which what the intersections leave can be split: no shared infinity, and the bounds of the second operand finite or far enough from infinity |
| Keeping.SumKeeps | lava/include/lava/interval.hpp:288-300 | `bop_add` and `bop_sub` keep every agreeing pair where what the intersections leave can be split |
| Losses.SplitCancels | lava/include/lava/interval.hpp:205-247 | a split sum or difference of inhabited nodes is cancelled if and only if result and forward result share an infinity |
| Losses.SumCancels | lava/include/lava/interval.hpp:288-300 | the whole of `bop_add` / `bop_sub`, on operands with a solution, is cancelled under exactly the same condition on the intervals before it |
| Losses.UnboundedSumLost | lava/include/lava/interval.hpp:205-300 | so `any + 1 > 5` has no surviving branch although it has solutions |
| Losses.UnsharedSumLost | lava/include/lava/interval.hpp:288-293 | an input next to an infinity that is not shared: every script leaves a branch, and none holds the solution |
| SelfOperands.SumExact | lava/include/lava/interval.hpp:205-225 | for all bounds, which values of a node added to itself survive `badd_`: exactly those that make up for a whole gap alone |
| SelfOperands.AddExact | lava/include/lava/interval.hpp:288-293 | the same for the whole of `bop_add`, with the gaps its intersections leave |
| SelfOperands.DifferenceExact | lava/include/lava/interval.hpp:227-247 | for all bounds, a node subtracted from itself keeps all its values if it is as wide as both corrections together, and otherwise none |
| SelfOperands.SubExact | lava/include/lava/interval.hpp:295-300 | the same for the whole of `bop_sub`, on what its intersections leave |
| Losses.SelfSumLost | lava/include/lava/interval.hpp:288-293 | an input for which `bop_add` loses a solution of `x + x` |
| Losses.SaturatedSplitLost | lava/include/lava/interval.hpp:213-218 | `badd_` alone loses every pair where a corrected bound saturates; on the same input the whole `bop_add`, which intersects first, loses nothing |
| Precision.ForwardDecides | lava/include/lava/interval.hpp:158-181 | a forward comparison makes a constant, the right one, if and only if its operands have no integer in common or are the same constant |
| Precision.NarrowExact | lava/include/lava/interval.hpp:288-300 | the two intersections before a split leave exactly the operand values that take part in some solution, and cancel exactly when there is none |
| Precision.SumSurvives | lava/include/lava/interval.hpp:288-300 | for all bounds, a solution of a sum / difference survives some choice of the whole operation if and only if what the intersections leave can be split |
| Precision.SumExact | lava/include/lava/interval.hpp:288-300 | for all bounds, where the remaining gaps are small: a pair survives some choice if and only if it is a solution and no correction saturates |
| Precision.ProductSurvives | lava/include/lava/interval.hpp:302-313 | for all bounds, a solution survives some choice of the whole of `bop_mul` if and only if: with an infinite operand the right one excludes zero, and it or the result is finite; with finite ones the left one excludes zero, and a start and an end that can be chosen keep the pair |
| Precision.FiniteProductExact | lava/include/lava/interval.hpp:302-313 | finite factors of any sign: with fewer than 2^31 choices a solution survives if and only if one start and one end, given by the signs of the bounds, keep it |
| Precision.UncorrectedSurvives | lava/include/lava/interval.hpp:302-313 | where no correction is due, every solution survives, whatever the signs |
| Precision.ProductLostExactly | lava/include/lava/interval.hpp:302-313 | a solution in positive numbers survives the whole of `bop_mul` if and only if the 32-bit count of starts reaches it |
| SignedProducts.SplitKeeps | lava/include/lava/interval.hpp:249-285 | for finite factors of any sign, a pair that some start and some end keep is left by explicit answers |
| SignedProducts.SplitSound | lava/include/lava/interval.hpp:249-285 | and no other pair is left by any |
| BestChoices.BestStartWorks | lava/include/lava/interval.hpp:263-271 | if any start keeps a solution, then for a positive bound the last one up to its value does, and for a negative one the first one or 1 |
| BestChoices.BestEndWorks | lava/include/lava/interval.hpp:275-281 | if any end keeps a value, then for a positive bound the first one from it on does, and otherwise the last one |
| BestChoices.KeptIffBest | lava/include/lava/interval.hpp:255-285 | so a solution is kept if and only if the best start and the best end, where corrections are due, keep it |
| BestChoices.NegativeFactorsKept | lava/include/lava/interval.hpp:249-271 | of two negative factors below a corrected positive bound only those are kept whose product is that bound |
| Products.ProductSound | lava/include/lava/interval.hpp:255-285 | in every branch of `bmul_` on positive intervals, a lower correction in 1..200 forces the least product up to the result and an upper one forces the greatest down to it |
| Products.ProductKeeps | lava/include/lava/interval.hpp:250-285 | every pair with its product in the result that the 32-bit count of starts reaches is left by explicit answers |
| Products.ProductExact | lava/include/lava/interval.hpp:250-285 | with small corrections the union over all choices is exactly the pairs with their product in the result that the count reaches |
| Products.CountReaches | lava/include/lava/interval.hpp:265-271 | fewer than 2^31 starts are all reached |
| Losses.ZeroFactorLost | lava/include/lava/interval.hpp:302-313 | a left factor that can be zero ends every branch of `bop_mul`, because its interval is divided by |
| Losses.UnboundedProductLost | lava/include/lava/interval.hpp:302-313 | a product and a right factor that both reach an infinity end every branch of `bop_mul` |
| Losses.NegativeFactorLost | lava/include/lava/interval.hpp:249-271 | an input with a negative factor on which every branch ends although it has a solution: `div_up` rounds a quotient of different signs past its value |
| Losses.CountTruncated | lava/include/lava/interval.hpp:302-313 | with 2^32 + 1 starts the `int` count is 1, and `bop_mul` loses a solution |
| Keeping.MulKeeps | lava/include/lava/interval.hpp:302-313 | `bop_mul`, including the statement its bare `return` swallows, keeps every pair with its product in the result for which it fits, for all bounds and signs |
| Propagation.PositiveKept | lava/include/lava/interval.hpp:255-285 | for positive factors starts and ends keep a pair if and only if the count of starts reaches it |
| Propagation.MultipliableFits | lava/include/lava/interval.hpp:302-313 | positive factors with a finite product fit when the left one is below 2^31 - 200 or the right one is a constant |
| Orders.GreaterSound | lava/include/lava/interval.hpp:355-374 | for all bounds and all numbers of shared values: every branch of `bgt_` only narrows, and holds only pairs of the parts that the bounds leave, in the assumed order wherever the shared part is cut |
| Orders.GreaterKeeps | lava/include/lava/interval.hpp:355-374 | and every such pair that a cut reaches is left by explicit answers |
| Orders.OrderedLeft | lava/include/lava/interval.hpp:355-374 | a pair in order is reached unless a cut that is made starts at the lower infinity or its 32-bit number of places ends below the lesser value |
| Orders.GreaterExact | lava/include/lava/interval.hpp:355-374 | so the union over all choices is exactly the pairs in order that a cut reaches, or all pairs of the two parts where nothing is cut |
| Orders.ExcludeExact | lava/include/lava/interval.hpp:196-203 | `exclude` removes exactly the named value when it is a bound and nothing otherwise; an infinity on its own side removes no value |
| Orders.DifferentKeeps | lava/include/lava/interval.hpp:342-353 | every pair that `bne_impl` can leave is left by explicit answers |
| Orders.DifferentSound | lava/include/lava/interval.hpp:342-353 | every branch of `bne_impl` only narrows and holds no other pair, and no pair of equal values where both shared parts are cut |
| Orders.DifferentExact | lava/include/lava/interval.hpp:342-353 | for all bounds, the union over all choices of `bne_impl`: all pairs without a common value, those of different values with a constant at an end, and otherwise what one order or the other leaves |
| Orders.UnequalLeft | lava/include/lava/interval.hpp:342-353 | two different values are left when fewer than 2^63 are shared |
| Orders.EqualExact | lava/include/lava/interval.hpp:330-340 | a pair survives `beq_impl` if and only if it is among the common values, equal when there are 2 to 201 of them, and not the greatest of those: the choice is one short |
| Losses.EqualityLost | lava/include/lava/interval.hpp:330-340 | `x == y` over 0..1 loses the solution 1 |
| Losses.WideOrderLost | lava/include/lava/interval.hpp:367-371 | with 2^63 + 1 shared values `bgt_` loses an ordered pair |
| Keeping.OrderKeeps | lava/include/lava/interval.hpp:382-394 | the four signed comparisons keep every pair that a known outcome leaves, for all bounds; what is left of settled operands is within the order alone |
| Keeping.EqualityKeeps | lava/include/lava/interval.hpp:376-389 | the two equality operations keep every pair that a known outcome leaves |
| Precision.OrderExact | lava/include/lava/interval.hpp:382-394 | a settled comparison leaves, over all choices, exactly the pairs that the order split leaves |
| Precision.BackExact | lava/include/lava/support/relational.hpp:119-160 | any of the nine operations on different nodes, for all bounds: operand values that explain the value of the result survive some choice if and only if the operation fits them |
| Narrowing.ExcludeNarrows | lava/include/lava/interval.hpp:196-203 | `exclude` narrows if and only if it does not step off the top from a lower bound or off the bottom from an upper one |
| Narrowing.GreaterNarrows | lava/include/lava/interval.hpp:355-374 | `bgt_` on different nodes narrows if and only if it does not exclude an infinity on its wrong side |
| Narrowing.DifferentNarrows | lava/include/lava/interval.hpp:342-353 | `bne_impl` on different nodes narrows if and only if they are not the same infinity |
| Narrowing.OrderWidens | lava/include/lava/interval.hpp:355-374 | an input on which strict `bgt_` turns a single infinity into everything above it |
| Narrowing.DifferentWidens | lava/include/lava/interval.hpp:342-353 | an input on which `bne_impl` turns an interval of no value into one of all |
| Narrowing.BackShrinks | lava/include/lava/support/relational.hpp:119-160 | an arithmetic operation widens no node, even if result and operands coincide; a comparison of different nodes does so if and only if it wraps around |
| Narrowing.PropagateShrinks | lava/include/lava/support/relational.hpp:92-203 | a propagation over any shared history that meets no comparison which wraps around widens no node, whatever the answers |
| Narrowing.ArithmeticUnwrapped | lava/include/lava/support/relational.hpp:119-126 | a propagation through arithmetic meets none |
| Narrowing.AssumeShrinks | lava/include/lava/support/relational.hpp:84-88 | after such an assumption the assumed node can only have the assumed value, and no node a value it could not have before |
| Explanation.ProductNarrows | lava/include/lava/interval.hpp:302-313 | what `bop_mul` rules out, for all bounds and signs: with an infinite operand every value left in the left one lies between two quotients of the result by the right one; with finite operands every value left in the right one lies between two quotients by the left one |
| Explanation.BackExplains | lava/include/lava/support/relational.hpp:119-160 | any of the nine operations, in every branch that leaves its operands values: each value left in an operand has a partner in the other one with which it gives a result that the node can have, or for a product lies between quotients; no other node changes |
| Explanation.PropagateExplains | lava/include/lava/support/relational.hpp:92-203 | how far a propagation reaches: afterwards the operands of every node on either side, down to the oldest and over shared histories, are explained by what the node itself is left with, and no other node has changed |
| Explanation.AssumeExplains | lava/include/lava/support/relational.hpp:84-88 | so after an assumption the assumed node has the assumed value, and every value left in an operand of any node below it is explained |
| Explanation.StepExplains | lava/include/lava/support/relational.hpp:84-88 | the same for the step of a program that makes the assumption |
| Keeping.BackKeeps | lava/include/lava/support/relational.hpp:119-160 | whatever the operation of a node, where it fits some answers narrow its operands and keep their values |
| Keeping.SettleMonotone | lava/include/lava/interval.hpp:330-374 | what a settled comparison leaves of its operands shrinks with them |
| Propagation.SplittableFits | lava/include/lava/support/relational.hpp:119-160 | what is asked of the ranges of an operation is enough for it to fit |
| Propagation.SplittableNarrowed | lava/include/lava/support/relational.hpp:119-160 | and it is still met by narrower intervals |
| Propagation.PropagateKeeps | lava/include/lava/support/relational.hpp:92-203 | propagation through a history with shared nodes ends, on some answers, uncancelled with every node still holding its value; it recurses to older nodes only |
| Propagation.AssumeKeeps | lava/include/lava/support/relational.hpp:84-88 | assuming what is true of an execution loses nothing of it in any node, and brings the operands of a comparison within what its outcome says of their ranges; below the assumed node only these ranges are asked about |
| Runs.ForwardTracks | lava/include/lava/interval.hpp:158-181 | the forward operation on tracked operands is alive, holds a result that does not overflow, and stays within the operation on their ranges |
| Runs.StepKeeps | lava/include/lava/support/history.hpp:58-90 | making, combining or assuming a value keeps an execution tracked on some answers |
| Runs.RunKeeps | lava/include/lava/support/relational.hpp:34-203 | the same over a whole program, by chaining the answers of its steps |
| Runs.NoExecutionLost | lava/include/lava/support/relational.hpp:84-203 | the main theorem: for every program, whatever ranges it declares, and every execution that does not overflow and whose operands can be told apart below its assumptions, some branch of the abstract run reaches the end through all assumptions with every value inside its interval |
| Relational.Domain.Intersect | lava/include/lava/interval.hpp:135-142 | in place; the branch is cancelled exactly when nothing is left |
| Relational.Domain.Exclude | lava/include/lava/interval.hpp:196-203 | in place, with the check for validity |
| Relational.Domain.Correct | lava/include/lava/interval.hpp:213-246 | one correction on shared nodes, in the order of the reads and writes of the code, is the specified one even when operands coincide |
| Relational.Domain.SplitSum | lava/include/lava/interval.hpp:205-225 | `badd_` on nodes refines the specified split, for every aliasing of its arguments |
| Relational.Domain.SplitDifference | lava/include/lava/interval.hpp:227-247 | `bsub_` likewise |
| Relational.Domain.BackAdd | lava/include/lava/interval.hpp:288-293 | `bop_add` likewise |
| Relational.Domain.BackSub | lava/include/lava/interval.hpp:295-300 | `bop_sub` likewise |
| Relational.Domain.SplitProduct | lava/include/lava/interval.hpp:255-285 | `bmul_` likewise |
| Relational.Domain.BackMul | lava/include/lava/interval.hpp:302-313 | `bop_mul` as written, with the swallowed statement |
| Relational.Domain.BackGreater | lava/include/lava/interval.hpp:355-374 | `bgt_` likewise |
| Relational.Domain.BackEqual | lava/include/lava/interval.hpp:330-340 | `beq_impl` likewise |
| Relational.Domain.BackDifferent | lava/include/lava/interval.hpp:342-353 | `bne_impl` likewise |
| Relational.Domain.BackwardPropagate | lava/include/lava/support/relational.hpp:92-203 | recursion through stored child pointers refines propagation over the numbered history and ends because children are older |
| Relational.Domain.AssumeThat | lava/include/lava/support/relational.hpp:84-88 | narrowing the assumed node and propagating refines the specified assumption |
| Relational.Domain.Make | lava/include/lava/support/history.hpp:83-98 | a new node records its operands and leaves every older node alone |
| Relational.Domain.Apply | lava/include/lava/support/history.hpp:83-90 | an operation computes forward and appends a node with both children, or the branch is cancelled |
| Onions.JoinCommutes | lartcc/include/cc/dfa.hpp:150-166 | onion join is commutative for any two nestings |
| Onions.JoinAssociates | lartcc/include/cc/dfa.hpp:150-166 | onion join is associative across different nestings |
| Onions.JoinIdempotent | lartcc/include/cc/dfa.hpp:150-166 | onion join is idempotent |
| Onions.TristateSemilattice | lartcc/include/cc/tristate.hpp:23-53 | the three-valued join is a semilattice |
| Onions.JoinIsLub | lartcc/include/cc/dfa.hpp:150-166 | in the induced order the join is the least upper bound |
| Onions.JoinLayerwise | lartcc/include/cc/dfa.hpp:150-166 | counted from the outside, layers that both onions have are joined with each other; where nestings differ the core may be a pointer or not and takes in all content that is left of either |
| Onions.ContentOfJoin | lartcc/include/cc/dfa.hpp:150-166 | the join of all layers' contents is a homomorphism: nothing abstract is lost or made up where nestings differ |
| Onions.FreshConcrete | lartcc/include/cc/dfa.hpp:71-80 | a new value of any nesting has that many pointer layers above its core and nothing abstract in any |
| Onions.WrapHomomorphism | lartcc/include/cc/dfa.hpp:120-125 | `wrap` is a join homomorphism and `peel` undoes it |
| Onions.PeelMonotone | lartcc/include/cc/dfa.hpp:127-138 | `peel` is monotone on onions of any nesting |
| Onions.SoundKept | lartcc/include/cc/dfa.hpp:127-166 | joining, wrapping and peeling keep every outer layer a possible pointer, so the assertion in `peel` cannot fail |
| Onions.WeightDrops | lartcc/include/cc/dfa.hpp:150-166 | an onion that grows strictly loses weight: layers plus fields that are not yet `maybe` |
| LayerVectors.ViewInjective | lartcc/include/cc/dfa.hpp:71-80 | vectors of layers and onions correspond one to one |
| LayerVectors.MakeAbstractPointer | lartcc/include/cc/dfa.hpp:96-102 | on vectors, as on onions |
| LayerVectors.Wrap | lartcc/include/cc/dfa.hpp:120-125 | on vectors, as on onions |
| LayerVectors.Peel | lartcc/include/cc/dfa.hpp:127-138 | on vectors, as on onions; the assertion holds |
| LayerVectors.JoinInPlace | lartcc/include/cc/dfa.hpp:150-166 | the swap, the fold of the extra front layers and the loop over the rest compute the join of the onions |
| Solutions.CarriedMonotone | lartcc/dfa.cpp:285-295 | what an edge carries over is monotone in the type of its source |
| Solutions.RootLayers | lartcc/include/cc/dfa.hpp:186-198 | a root becomes abstract in its outermost layer alone; a root that is a pointer also becomes anything in its core |
| Solutions.StoreStep | lartcc/dfa.cpp:282-294 | processing a store joins the stored type into what the pointer points to, one layer in, and the pointer itself stays as concrete as it was |
| Solutions.LoadStep | lartcc/dfa.cpp:282-294 | processing a load joins what the pointer points to, without its outermost layer, into the loaded value |
| Solutions.UniformStep | lartcc/dfa.cpp:282-298 | any other edge joins the type itself, or for a comparison the outermost layers |
| Solutions.StoredIsLoaded | lartcc/dfa.cpp:270-299 | in every solution what is stored lies within what the pointer points to, and that within what is loaded |
| Solutions.StepKeepsInvariant | lartcc/dfa.cpp:270-299 | processing an edge keeps the assignment above the base, below every solution, sound, and closed under all edges that do not wait |
| Solutions.StepUsesWeight | lartcc/dfa.cpp:275-280 | every change of a type uses up some of the total weight |
| Solutions.LeastIsUnique | lartcc/dfa.cpp:245-268 | there is one least solution, whatever order edges and roots come in |
| Orderings.TakeKeepsInvariant | lartcc/dfa.cpp:263-299 | processing any waiting edge, not only the oldest, keeps the invariant, and the assertion in `peel` holds |
| Orderings.RunIsShort | lartcc/dfa.cpp:263-268 | every run that takes waiting edges in any order has a bounded length |
| Orderings.RunReachesLeast | lartcc/dfa.cpp:263-268 | and holds the least solution when none waits |
| Orderings.RunGoesOn | lartcc/dfa.cpp:263-268 | until then it can go on with any waiting edge |
| Orderings.RunsAgree | lartcc/dfa.cpp:245-268 | any two finished runs, with roots and edges listed and taken in any order, end in the same types |
| Dataflow.Analysis.Get | lartcc/include/cc/dfa.hpp:200-209 | an unknown value enters the map with the type of its pointer nesting, and nothing else does |
| Dataflow.Analysis.Add | lartcc/include/cc/dfa.hpp:186-198 | a root becomes abstract or an abstract pointer |
| Dataflow.Analysis.PushValue | lartcc/dfa.cpp:69-85 | the edges that leave a value are appended in order |
| Dataflow.Analysis.Pop | lartcc/dfa.cpp:87-93 | the oldest edge is taken |
| Dataflow.Analysis.Process | lartcc/dfa.cpp:270-299 | exactly the target changes, to the join with what is carried, and exactly then its edges are queued |
| Dataflow.Analysis.AddRoots | lartcc/dfa.cpp:258-261 | roots in any order establish the invariant within the budget |
| Dataflow.Analysis.RunFrom | lartcc/dfa.cpp:245-268 | the worklist empties after at most three changes per layer of the initial types, and then holds the least solution |
| Exploration.ReturnCounts | runtime/native/choose.cpp:45-90 | taking value `v` among `n` adds exactly `n - v` to the depth and `n - v` entries to the trace |
| Exploration.OnlyOneEnabled | runtime/native/choose.cpp:45-57 | only the last process of the chain, or its parent once it has exited, can take a step |
| Exploration.NeverStuck | runtime/native/choose.cpp:45-57 | until the first process has exited, some process can take a step |
| Exploration.StepHolds | runtime/native/choose.cpp:28-90 | every step keeps the waiting processes one chain and what is still to come unchanged |
| Exploration.StepUsesWork | runtime/native/choose.cpp:45-57 | every step uses up some of the work left |
| Exploration.OneAtATime | runtime/native/choose.cpp:45-57 | in every reachable state at most one process is neither waiting nor gone, and at most one can take a step |
| Exploration.RunExplores | runtime/native/choose.cpp:28-90 | every run ends within a bound known from the tree, and its visits, error flag and exit code are those of the recursive exploration |
| Enumeration.ListingExact | runtime/native/choose.cpp:38-57 | the listing holds exactly the leaves every non-maximal alternative of whose path was taken below the bound |
| Enumeration.ListingDistinct | runtime/native/choose.cpp:45-57 | and each of them once |
| Enumeration.ExploreComplete | runtime/native/choose.cpp:28-57 | in a complete tree exploration visits the listing up to and including its first failing leaf, and ends with the code of its last alternative |
| Enumeration.ExploreExact | runtime/native/choose.cpp:28-57 | exploration visits that search if and only if the tree is complete: at each choice reached before the first failure and below the bound, all but the last alternative end their process with code 0 |
| Enumeration.ExitsWellComplete | runtime/native/choose.cpp:28-57 | a tree whose leaves exit with 0, cancel or fail is complete |
| Enumeration.RunSearches | runtime/native/fault.cpp:71-86 | a finished run of forking processes visits the listing up to and including the first failing leaf if and only if the tree is complete, and then the shared flag says whether there is one |
| Enumeration.RunVisitsAll | runtime/native/choose.cpp:28-90 | without a failing leaf the visits are exactly the admitted leaves, each once, if and only if the tree is complete |
| Enumeration.UnboundedAdmits | runtime/native/choose.cpp:38-42 | without a bound every leaf is admitted |
| Enumeration.NonzeroExitHidesFailure | runtime/native/choose.cpp:28-32 | a tree in which a leaf that exits with another code hides a failing sibling, because `exit` of a raw wait status exits with 0 |
| Shadow.CreateLabelFresh | runtime/native/shadow.cpp:73-78 | a new label was never used, by the table or by a byte |
| Shadow.StepValid | runtime/native/shadow.cpp:51-108 | every operation keeps frames duplicate-free, disjoint and together equal to the allocated bytes, shadowed bytes allocated and inside the span of their label, and earlier labels as recorded |
| Shadow.RunValid | runtime/native/shadow.cpp:51-108 | the same over every nested program |
| Shadow.StartValid | runtime/native/shadow.cpp:69-71 | start-up enters the global frame into a valid state |
| Shadow.CallBalanced | runtime/native/shadow.cpp:51-108 | entering a frame, running any nested program and leaving gives back the same frames and owners, leaves nothing tainted that was not allocated, and every outer byte with the label last written |
| ShadowRuntime.Runtime.constructor | runtime/native/shadow.cpp:69-71 | as specified |
| ShadowRuntime.Runtime.EntryFrame | runtime/native/shadow.cpp:51-54 | pushes an empty frame |
| ShadowRuntime.Runtime.ExitFrame | runtime/native/shadow.cpp:56-63 | the loop over the frame erases exactly its bytes from both maps |
| ShadowRuntime.Runtime.CreateShadowLabel | runtime/native/shadow.cpp:73-78 | as specified |
| ShadowRuntime.Runtime.SetShadowLabel | runtime/native/shadow.cpp:80-90 | the loop labels each byte and gives unowned ones to the innermost frame |
| ShadowRuntime.Runtime.EraseShadow | runtime/native/shadow.cpp:92-96 | the loop removes exactly the labels of the range and keeps its allocation |
| ShadowRuntime.Runtime.Poke | runtime/native/shadow.cpp:98-108 | labels the range freshly, or uncovers it for a null value |
| ShadowRuntime.Runtime.TestTaint | runtime/native/shadow.cpp:138-148 | true if and only if some byte of the range is labelled |
| ShadowRuntime.Runtime.Peek | runtime/native/shadow.cpp:114-136 | the stepping loop yields the specified pieces and ends |
| ShadowRuntime.Runtime.Melt | lamp/wrapper.hpp:385-416 | the loop over the pieces assembles the specified value, with its two early returns |
| ShadowRuntime.Runtime.Freeze | lamp/wrapper.hpp:379-383 | stores through `poke`, so that `Melting.FreezeMelt` and `Melting.PokeMeans` apply |
| Melting.PeekTiles | runtime/native/shadow.cpp:114-136 | a tiled range is read whole piece by piece in address order, and the byte counts sum to the request |
| Melting.MeltMeans | lamp/wrapper.hpp:385-416 | reading a tiled range yields a value of its width that denotes the little-endian number of its bytes, for all abstract and concrete contents |
| Melting.MeltPrefix | lamp/wrapper.hpp:402-405 | a shorter read from the first byte of a label denotes its value modulo 256 to the number of bytes |
| Melting.PokeMeans | runtime/native/shadow.cpp:98-108 | storing changes the meaning of exactly the stored bytes; a null value uncovers the concrete ones |
| Melting.PokeSized | lamp/wrapper.hpp:379-383 | storing values of the stored width keeps every label as wide as its value |
| Melting.PokeTiles | runtime/native/shadow.cpp:98-108 | the stored range is tiled afterwards, and a tiled range elsewhere stays so |
| Melting.FreezeMelt | lamp/wrapper.hpp:379-416 | what was frozen melts to the same value, whole or with the width left open, and truncated for a shorter read |
| Melting.MiddleBytes | lamp/wrapper.hpp:402-405 | a read from the middle of a value yields its low bytes |
| Melting.MiddleRead | lamp/wrapper.hpp:402-405 | so a read within a stored value is right for all contents if and only if it starts at the first byte |
| Melting.StaleWhole | lamp/wrapper.hpp:397-400 | a value whose tail was overwritten is still read whole |
| Melting.StaleRead | lamp/wrapper.hpp:397-400 | so such a read is right for all contents if and only if no byte was overwritten |
| Rpn.WalkExact | lava/include/lava/support/smt.hpp:401-412 | the iterator stops exactly at the end if and only if the bytes are a list of operations with their immediates, and then meets just those |
| Rpn.DecodeEncode | lava/include/lava/expr.hpp:27-46 | walking an encoded tree meets its operations in postfix order and a stack reader returns exactly that tree, whatever the immediate bytes |
| Rpn.DecodeExact | lava/include/lava/support/smt.hpp:79-187 | bytes decode to a tree if and only if they are its encoding |
| Rpn.EncodeInjective | lava/include/lava/expr.hpp:27-46 | distinct expressions have distinct encodings |
| Rpn.ConversionDetached | lava/include/lava/support/smt.hpp:121-124 | a conversion between integers and floats, recorded with arity zero, leaves its operand behind as a second expression |
| Rpn.ImmediateRoundTrip | lava/include/lava/support/smt.hpp:346-352 | an immediate of `k` bytes is read back modulo 256 to the `k` |
| Rpn.AnyDistinct | lava/include/lava/expr.hpp:85-90 | two variables of a type coincide if and only if their counters agree modulo 65536 |
| Rpn.LiftReadBack | lava/include/lava/expr.hpp:75-81 | a constant of any arithmetic type and value is one operation whose encoding reads back as that operation, of the type's width, with the value that went in: operation search, trait table and stored bytes agree |
| Rpn.LiftInjective | lava/include/lava/expr.hpp:75-81 | constants of different types or values have different encodings |
| Rpn.FreshReadBack | lava/include/lava/expr.hpp:85-90 | a variable of any arithmetic type reads back as one operation of the type's width with the counter modulo 65536 |
| Rpn.BuiltReadBack | lava/include/lava/expr.hpp:103-188 | for every operation with a builder, the bytes that the builder puts together read back as the operation on exactly the given operands |
| Rpn.Expression.ApplyAtom | lava/include/lava/support/smt.hpp:431-438 | appends the operation and its immediates |
| Rpn.Expression.ApplyExpression | lava/include/lava/support/smt.hpp:440-446 | appends all bytes of another expression |
| Rpn.Expression.Atoms | lava/include/lava/support/smt.hpp:401-412 | an iterator from begin to end meets the walk, or overruns |
| Rpn.Combine | lava/include/lava/expr.hpp:123-159 | a binary builder turns encodings of its operands into the encoding of the operation |
| Rpn.Resize | lava/include/lava/expr.hpp:103-107 | a resize builder likewise, with the width as immediate |
| Gep.Canonicalize | lartcc/preprocess.cpp:123-135 | every sequential index is brought to pointer width with its signed value kept modulo that width |
| Gep.AccumulateByteOffset | lartcc/preprocess.cpp:142-160 | the sum of the field offsets in 64 bits, with the first field skipped |
| Gep.LowerToArithmetic | lartcc/preprocess.cpp:162-218 | shifts, multiplications and additions, with zero indices and unit sizes skipped, compute base, indices and offset modulo the pointer width |
| Gep.LowerPointerArithmetic | lartcc/preprocess.cpp:221-227 | for every type, path, base and register contents the emitted code computes the address modulo the pointer width; base and registers are ghost, so the code cannot depend on them |
| Gep.AddressSplits | lartcc/preprocess.cpp:142-218 | summing field offsets apart from scaled indices does not change the address |
| Dispatch.LowerTestTaint | lartcc/backend/native/native.cpp:29-106 | the generated test is an or over all taints, and what it passes on are the arguments that were not only tested, at the right positions |
| Dispatch.Generate | lartcc/lifter.cpp:157-238 | the generated lifter passes every argument in its final form and lifts only when several carry taints |
| Dispatch.Synthesize | lartcc/backend/native/native.cpp:29-176 | both generated functions together, for any list of argument kinds and all actual arguments |
| Simulation.BinaryStands | lartcc/lifter.cpp:179-237 | after a binary operation the cell stands for the original result, and no null value was passed |
| Simulation.CastStands | lartcc/lifter.cpp:220-237 | the same for a cast, whose single argument is not lifted |
| Simulation.AbstractionSimulates | lartcc/shadow.cpp:177-191 | for every straight-line program, sound domain and placeholder contents: no null value reaches a domain operation, untainted values are the original ones and tainted ones contain the original value |
| Coverage.SolutionCovers | lartcc/shadow.cpp:93-108 | the values whose outermost layer a solution of the dataflow equations marks as abstract are every source and every use of such a value |
| Coverage.TaintCovered | lartcc/dfa.cpp:100-232 | in every run of a program with allocations, copied pointers, stores and loads, every value that depends on an input, through whatever memory, is instrumented by any solution, and every pointer to an object that holds such a value has abstract content |
| Coverage.AnalysisSimulates | lartcc/shadow.cpp:93-108 | so a program instrumented as the least solution says is simulated |
| IntervalPrograms.IntervalsSound | lava/include/lava/interval.hpp:158-168 | intervals are such a domain for additions, subtractions, multiplications and value-keeping casts without overflow |
| IntervalPrograms.IntervalsSimulate | lava/include/lava/interval.hpp:158-168 | so every tainted value of such a run lies in its computed interval |

## Left out

- Runs.NoExecutionLost: covers programs of ranged values, constants, `+`, `-`, `*`, the signed comparisons and `==` / `!=`. Its conditions are on ranges, so that they can be read off a program, and only below assumptions: operands are different nodes; sums and differences share no infinity with their result and have a second operand that is finite or far enough from infinity; factors are positive with a finite product, and the left one is below 2^31 - 200 or the right one a constant; compared ranges share fewer than 2^63 values and are not both unbounded below; tests for equality are between different values or with a constant. Each is enough; what is exact, `Precision.BackExact`, depends on the intervals that earlier choices leave and is not kept by narrowing them.
- Propagation.PropagateKeeps: under the same conditions as the theorem above.
- BestChoices.KeptIffBest: fewer than 2^31 starts and ends; with more, `SignedProducts.SplitKeeps` and `SignedProducts.SplitSound` are exact in terms of those that the 32-bit count reaches.
- Precision.NarrowExact: finite bounds; next to an infinity a value can be left whose only partners make the sum overflow.
- Narrowing.BackShrinks: comparisons of a node with itself, or with their own result, are not covered.
- Splits.SplitExact: different nodes; `SelfOperands.SumExact` and `SelfOperands.DifferenceExact` are for coinciding operands. A result that is its own operand cannot be built.
- Products.ProductExact: positive finite intervals; `SignedProducts` has all signs, and `Precision.ProductSurvives` the infinite ones.
- Melting.MeltMeans: overlapping partial stores are excluded by the tiling; `Melting.StaleRead` and `Melting.MiddleRead` say when such reads are right.
- Coverage.SolutionCovers: straight-line programs of scalars, to fit the simulation, which has no loads and stores; `Coverage.TaintCovered` covers those, for pointers to scalars.
- Coverage.TaintCovered: pointers to pointers are in the analysis and its equations, but not in these programs; the edges are assumed to include one to every object that is written.
- Explanation.AssumeExplains: branches in which some node is left without a value, or in which a comparison wraps around (`Narrowing.GreaterNarrows`), are not described.
- Simulation.AbstractionSimulates: straight-line binary operations and casts; phi nodes, loads, stores, calls and the faultable divisions are not modelled.
- Dispatch.LowerTestTaint: argument kinds `unpack` (handled like a tainted argument) and `abstract` are not modelled, nor are faultable operations with their stash and the function pointer cast of the lifter; a lift block with its merge is one instruction.
- Rpn.DecodeEncode: the stack reader is a reference definition; the repository prints and stores the bytes.
- Gep.LowerPointerArithmetic: vector types and bases that are not instructions are not modelled; pointers are at most 64 bits wide.
- Dataflow.Analysis.RunFrom: the graph is given and does not change; the preparation of functions that `push` runs, and the alias analysis that yields the edges, are not modelled.
- Exploration.RunExplores: the increasing choice, which returns its greatest value in every process, interactive choices and processes killed by signals are not modelled; a choice among fewer than one alternative is excluded.
- A choice among fewer than one value inside the interval operations has no outcome in the model. The exact conditions for products and wide orders count such a choice as keeping nothing; none of the inputs in `Losses` depends on it.
- A division by zero in the bound arithmetic ends the branch, as the machine fault does.
- Interval remainder, shifts and bitwise operations, whose corner values are not extremes; `bop_sdiv`, the unsigned comparisons (which forward to the signed ones) and backward casts.
- Addresses are natural numbers: wrap-around at the end of memory and the pointers of `allocated` into the growing vector of frames (only their presence is read) are not modelled; an owner is a frame number.
- Sign, zero, unit, constant, float and term domains, storage, reference counts and operator tags: finite tables, stubs or forwarding.
- Passes over intermediate code, alias analysis, solvers, tracing streams, configuration parsing and the competition scripts: foreign code and input or output.
