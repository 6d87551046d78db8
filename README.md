# Argument factorisation of monomial sums (TSFC `coffee_mode`)

This project is a Dafny model of the loop optimiser in TSFC's COFFEE mode
(`tsfc/coffee_mode.py`), with proofs about it. The optimiser receives, for
each GEM expression of a form, a sum of *monomials*. A monomial is a triple
of sum indices, an ordered tuple of factorable *atomics* (the factors that
depend on the argument indices) and a `rest` factor. It rewrites each sum so
that common atomics are pulled out of as many terms as possible:

- `find_optimal_atomics` is a branch-and-bound search for a smallest set of
  atomics that hits every monomial. Ties are broken towards a larger total
  `index_extent`. The iterator `it` yields 4096 values, so the 4097th
  complete solution is still compared with the best, and then `next(it)`
  raises `StopIteration` and ends the search.
- `factorise_atomics` groups the monomials by the first chosen atomic they
  contain and strips that atomic from every member of its group. It then
  re-optimises each group recursively and rebuilds one monomial per group.
- `optimise_monomials` asserts that all its monomials have one sum-index
  set, then runs the search and `factorise_atomics`. It does no grouping of
  its own.
- `optimise_monomial_sum` groups the monomials by their set of sum indices
  and calls `optimise_monomials` on each group. `monomial_sum_to_expression`
  groups them the same way and builds one `IndexSum` per group.
- `optimise_expressions` leaves its input alone if any `Failure` node is
  present.

Modules:

- `Wrappers`: `Option` and `Result`.
- `Seqs`: order-preserving deduplication (`OrderedDict.fromkeys`), filtering,
  products and integer sums.
- `Groups`: `groupby` as an order-preserving partition.
- `Gem`: indices, expression nodes, monomials, and an integer reading of
  expressions that stands in for the numbers the generated code computes.
  The values bound to indices so far are a finite map from indices to
  integers. An `IndexSum` adds up its body over every value of its indices.
- `Cost`: `index_extent` and the cost pair.
- `Search`: the search written as functions over an explicit search state,
  with its proofs.
- `SearchImpl`: the search as the source writes it. It is a class with the
  mutable `solution` and `optimal_solution` sets, a `while` loop, a `for`
  loop and a step counter. Each method is proved equal to the `Search`
  functions.
- `Factorise`: the rewrite and the drivers. The source has three `assert`
  statements. Two of them become `Err` results: the one in `group_key`
  (line 170) and the one on sum indices in `optimise_monomials` (lines
  236-237). The third (line 174) says that grouping drops no monomial; it
  is proved (`Groups.GroupByPartition`, `Factorise.GroupAtomsPartition`).
- `Value`: the rewrite preserves the value of every sum.
- `Outcome`: when the rewrite succeeds and how it can fail.

Take two monomials `(∅,[A,B],1)` and `(∅,[A,C],1)`. The code
(`tsfc/coffee_mode.py:203-206`) turns them into `(∅,[A,B+C],one)` when
`B+C` has a free argument index, and into `(∅,[A],B+C)` otherwise.
`Factorise.Rebuild` models both branches.

Now take monomials whose atomics are pairwise disjoint. Each becomes a
group of one, and the chosen atomic of each is moved to the front of its
atomics (`Outcome.SingletonGroup`). The result is the input only when every
chosen atomic is already first.

## Model

| member | source | states |
|---|---|---|
| Cost.IndexExtent | tsfc/coffee_mode.py:92-100 | `index_extent` is zero exactly when some free argument index of the factor has extent 0 |
| Cost.ProdExtentsZero | tsfc/coffee_mode.py:100 | the `numpy.prod` of extents is zero exactly when one of the extents is zero |
| Cost.IndexExtentNoArguments | tsfc/coffee_mode.py:92-100 | a factor with no free argument index has index extent 1 (the empty `numpy.prod`) |
| Cost.IndexExtentAllArguments | tsfc/coffee_mode.py:92-100 | when every free index is an argument index, the index extent is the product of all free extents |
| Cost.IndexExtentSplit | tsfc/coffee_mode.py:92-100 | the index extent over two disjoint argument sets is the product of the two index extents |
| Cost.IndexExtentPositive | tsfc/coffee_mode.py:92-100 | with positive extents the index extent is at least 1 |
| Cost.ExtentSumAdd | tsfc/coffee_mode.py:115-116 | adding a new candidate to a solution adds exactly its index extent to the extent sum |
| Cost.ExtentSumEmpty | tsfc/coffee_mode.py:115-116 | the empty solution has extent 0 |
| Cost.ExtentSumIsSetSum | tsfc/coffee_mode.py:115-116 | for a solution drawn from the duplicate-free candidates, the model's extent sum is the sum of `index_extent` over the set, as `sum(map(..., solution))` computes it |
| Cost.CostOf | tsfc/coffee_mode.py:115-118 | for such a solution, `cost` is the pair of its size and minus its set extent sum |
| Cost.LessIsStrictTotal | tsfc/coffee_mode.py:115-118 | tuple `<` on `(len, -extent)` is irreflexive and transitive, and costs that are not comparable are equal |
| Cost.SmallerIsCheaper | tsfc/coffee_mode.py:115-118 | a solution with fewer atomics is strictly cheaper, whatever the extents |
| Search.Solve | tsfc/coffee_mode.py:126-140 | `solve` never increases the step counter, and it stops only with the counter spent (its full frame contract is `Search.SolveFrame`) |
| Search.Branch | tsfc/coffee_mode.py:132-135 | the same for the `for` loop (full frame contract: `Search.BranchFrame`) |
| Search.Leaf | tsfc/coffee_mode.py:136-140 | a complete solution: `solution` is unchanged; the best becomes the solution exactly when it is strictly cheaper, so the new best costs no more than either; the search stops exactly when the counter is already spent, otherwise it consumes one step |
| Search.CandidatesMembers | tsfc/coffee_mode.py:113 | the candidate tuple has no duplicates, contains every atomic of every monomial, and contains nothing else |
| Search.CandidatesOrder | tsfc/coffee_mode.py:113 | the candidates come from the chained atomics, in the order of their first occurrence |
| Search.HitsIntersection | tsfc/coffee_mode.py:127 | a monomial is hit exactly when `solution.intersection(monomial.atomics)` is non-empty |
| Search.Skip | tsfc/coffee_mode.py:127-128 | the `while` loop stops at the first monomial from `idx` on that the partial solution misses, having skipped only hit ones |
| Search.SolveFrame | tsfc/coffee_mode.py:126-140 | one `solve` call never increases the counter and stops only with the counter spent. A normal return restores `solution`. The best solution stays, or is replaced by a strictly cheaper hitting set of candidates |
| Search.BranchFrame | tsfc/coffee_mode.py:132-135 | the same for the `for` loop over the atomics of the first missed monomial |
| Search.SolveOptimal | tsfc/coffee_mode.py:126-140 | if `solve` returns normally, its best solution costs no more than any hitting set containing the partial solution (pruning at 131 loses nothing) |
| Search.BranchOptimal | tsfc/coffee_mode.py:131-135 | the same for the `for` loop: every hitting set that extends the partial solution through one of the remaining atomics is matched |
| Search.SolveBudget | tsfc/coffee_mode.py:123-140 | a run that finishes within a budget gives the same result with any larger budget |
| Search.BranchBudget | tsfc/coffee_mode.py:132-140 | the same for the `for` loop |
| Search.SolveNoLeaf | tsfc/coffee_mode.py:126-135 | if some monomial ahead has no atomics, no leaf is reached and the state is unchanged |
| Search.BranchNoLeaf | tsfc/coffee_mode.py:132-135 | the same for the `for` loop |
| Search.RunProgress | tsfc/coffee_mode.py:120-146 | starting from the all-atomics solution, the final best is a set of candidates, and it is the start or a strictly cheaper hitting set |
| Search.ResultIsBest | tsfc/coffee_mode.py:148 | the returned tuple holds exactly the final best solution |
| Search.OptimalAtomicsOrdered | tsfc/coffee_mode.py:148 | the result has no duplicates and is a subsequence of the first-seen candidate order |
| Search.OptimalAtomicsHitting | tsfc/coffee_mode.py:120-140 | if every monomial has an atomic, every monomial contains a returned atomic, even when the counter ran out |
| Search.OptimalAtomicsMinimal | tsfc/coffee_mode.py:115-146 | when the counter did not run out, the result costs no more than any hitting set (lexicographic minimum) |
| Search.OptimalAtomicsImprovesOnAll | tsfc/coffee_mode.py:120-139 | the result is all candidates, or a strictly cheaper hitting set |
| Search.OptimalAtomicsBudget | tsfc/coffee_mode.py:123-146 | the 4096-step budget only truncates the search: a run that finishes gives the same result under any larger budget |
| Search.OptimalAtomicsNoSolution | tsfc/coffee_mode.py:120-135 | if some monomial has no atomics, no complete solution exists: the result is every candidate and is not reported as interrupted |
| SearchImpl.AtomicSearch.constructor | tsfc/coffee_mode.py:120-124 | the search starts with the empty solution, all atomics as best, the given step count (4096 from `FindOptimalAtomics`) and not stopped |
| SearchImpl.AtomicSearch.Solve | tsfc/coffee_mode.py:126-140 | the recursive method with its `while` loop leaves the state the `Search.Solve` function gives |
| SearchImpl.AtomicSearch.TryAtomics | tsfc/coffee_mode.py:132-135 | the `for` loop with add, recurse and remove leaves the state `Search.Branch` gives, and leaves early on `StopIteration` |
| SearchImpl.AtomicSearch.Complete | tsfc/coffee_mode.py:136-140 | a complete solution replaces the best only if strictly cheaper, then `next(it)` stops the search or advances the counter |
| SearchImpl.FindOptimalAtomics | tsfc/coffee_mode.py:103-148 | the imperative search returns exactly `Search.OptimalAtomics`: a duplicate-free subsequence of the candidates, hitting every monomial when every monomial has an atomic, and, when not interrupted, costing no more than any hitting set |
| Groups.GroupByMembers | tsfc/coffee_mode.py:171 | every group is non-empty, and each member is an input element with that group's key |
| Groups.GroupByPartition | tsfc/coffee_mode.py:171-174 | as a multiset the groups hold exactly the input, so group sizes add up to the input length (no monomial is dropped) |
| Groups.GroupByOrder | tsfc/coffee_mode.py:171 | group keys are input keys, in the order of their first occurrence |
| Groups.GroupsOfBlocks | tsfc/coffee_mode.py:219-223 | regrouping a concatenation of blocks with distinct keys gives back the blocks in order |
| Factorise.FirstCovering | tsfc/coffee_mode.py:166-170 | `group_key` returns the first chosen atomic the monomial contains, or nothing when it contains none |
| Factorise.CoverKeys | tsfc/coffee_mode.py:166-171 | every monomial gets its `group_key`, and the error arises exactly when some monomial contains no chosen atomic |
| Factorise.CoverGroupsOk | tsfc/coffee_mode.py:166-178 | every group is non-empty and each member contains the group's key |
| Factorise.RemoveFirst | tsfc/coffee_mode.py:182-183 | `list.remove` drops exactly the first occurrence and keeps the other elements in order, so the length falls by one and the multiset loses that element |
| Factorise.Strip | tsfc/coffee_mode.py:181-184 | a sub-monomial has no sum indices, the same `rest`, and the atomics with the first occurrence of the key removed and the rest in their original order |
| Factorise.TotalAtomicsStrip | tsfc/coffee_mode.py:180-186 | stripping a group lowers its total atomic count by the group size (why the recursion terminates) |
| Factorise.GroupAtomsPartition | tsfc/coffee_mode.py:171-174 | grouping keeps the total atomic count |
| Factorise.BySumIndicesNonEmpty | tsfc/coffee_mode.py:83 | each sum-index group is non-empty, and all its members have the group's sum-index set |
| Factorise.BySumIndicesUniform | tsfc/coffee_mode.py:218-219 | each group that `optimise_monomial_sum` passes on has a single sum-index set |
| Factorise.MonomialSumToExpression | tsfc/coffee_mode.py:74-89 | the result is one `IndexSum` per distinct sum-index set, in first-seen order, each over exactly that set; a single group is not wrapped in a sum |
| Factorise.Rebuild | tsfc/coffee_mode.py:187-206 | the rebuilt monomial carries the group's sum indices and has the group key as its first atomic |
| Factorise.OptimiseMonomials | tsfc/coffee_mode.py:226-240 | the mixed-sum-indices error happens exactly when the monomials have different sum-index sets. On success the result is empty only for empty input and keeps the sum indices |
| Factorise.FactoriseAtomics | tsfc/coffee_mode.py:151-207 | no chosen atomics, or at most one monomial, returns the input unchanged. The only error is an uncovered monomial. A changed result keeps the input's sum indices on every monomial |
| Factorise.FactoriseGroups | tsfc/coffee_mode.py:176-207 | one output monomial per group, in group order, each with the original sum indices and its group key first |
| Factorise.FactoriseGroup | tsfc/coffee_mode.py:178-206 | a group fails only through an uncovered monomial in the recursive call |
| Factorise.OptimiseGroups | tsfc/coffee_mode.py:218-222 | the loop succeeds exactly when `optimise_monomials` succeeds on every group; when every group has one sum-index set, the only failure is an uncovered monomial |
| Factorise.OptimiseMonomialSum | tsfc/coffee_mode.py:210-223 | the only failure is an uncovered monomial: the mixed-sum-indices assertion (236-237) never fires from here |
| Factorise.OptimiseSums | tsfc/coffee_mode.py:71 | the list succeeds exactly when every monomial sum is optimised, and element `i` is then the optimised sum `i` |
| Factorise.OptimiseExpressions | tsfc/coffee_mode.py:55-71 | a `Failure` anywhere gives back the input expressions, otherwise each monomial sum is optimised |
| Outcome.NoAtomicsNoCandidates | tsfc/coffee_mode.py:113-148 | monomials without atomics give no candidates and an empty result |
| Outcome.HittingCovers | tsfc/coffee_mode.py:166-170 | a hitting set of chosen atomics gives every monomial a group key |
| Outcome.FactoriseAtomicsShape | tsfc/coffee_mode.py:171-207 | after regrouping, output monomial `i` has the `i`-th distinct group key (first-seen order) as its first atomic. That key is one of the chosen atomics, and the original sum indices are kept |
| Outcome.SingletonGroup | tsfc/coffee_mode.py:187-194 | a one-member group comes back as that monomial with the key moved to the front: same atomics as a multiset, same `rest` |
| Outcome.OkOptimiseMonomials | tsfc/coffee_mode.py:226-240 | monomials with one sum-index set and the same number of atomics each are always factorised without an assertion failure |
| Outcome.OkFactoriseGroups | tsfc/coffee_mode.py:178-207 | groups whose members all have `n > 0` atomics factorise without failure (the sub-monomials have `n - 1` each) |
| Outcome.OkOptimiseMonomialSum | tsfc/coffee_mode.py:210-223 | a monomial sum whose monomials all have the same number of atomics is optimised without failure, whatever its sum indices |
| Outcome.UncoveredOptimiseMonomials | tsfc/coffee_mode.py:166-170 | a monomial with no atomics beside one with atomics makes `group_key` reach its assertion |
| Outcome.OkOptimiseSums | tsfc/coffee_mode.py:71 | every sum with uniform atomic counts is optimised |
| Outcome.OkOptimiseExpressions | tsfc/coffee_mode.py:55-71 | with uniform atomic counts `optimise_expressions` succeeds: one expression per sum without `Failure`, the input with it |
| Outcome.IndexedFailureSkips | tsfc/coffee_mode.py:64-66 | a `Failure` buried inside an opaque leaf under a product is still found, and the input comes back untouched |
| Gem.EvalMakeSum | tsfc/coffee_mode.py:87-89 | `make_sum` denotes the sum of its operands |
| Gem.FreeIndices | tsfc/coffee_mode.py:100 | the free indices of every node, as `index_extent` iterates them, never repeat |
| Gem.EvalMonomialProduct | tsfc/coffee_mode.py:87 | `make_product(atomics + (rest,))` denotes the product of the monomial's factors |
| Gem.SumOverCongruent | tsfc/coffee_mode.py:88 | index sums of bodies equal under every assignment are equal |
| Gem.SumOverAdd | tsfc/coffee_mode.py:88 | an index sum of a sum of two bodies is the sum of their index sums |
| Gem.SumOverPermutation | tsfc/coffee_mode.py:81-88 | an index sum over a duplicate-free tuple depends only on the set of its indices, so summing a group over its first member's tuple is right for every member |
| Value.ProdRemoveFirst | tsfc/coffee_mode.py:182-183 | removing one occurrence of an atomic divides its value out of the product |
| Value.StripAllValue | tsfc/coffee_mode.py:180-184 | the key times the stripped sub-monomials equals the group's value |
| Value.GroupPolyValPartition | tsfc/coffee_mode.py:171-174 | grouping preserves the total value |
| Value.GroupBodyValue | tsfc/coffee_mode.py:87-88 | the `make_sum` of a group's products denotes the group's value |
| Value.FlatValue | tsfc/coffee_mode.py:74-89 | sub-monomials without sum indices rebuild to an expression of their value |
| Value.RebuildValue | tsfc/coffee_mode.py:187-206 | each of the three ways of rebuilding a group denotes the key times the value of the sub-monomials |
| Value.OptimiseMonomialsValue | tsfc/coffee_mode.py:226-240 | a successful `optimise_monomials` preserves the value of the monomials |
| Value.FactoriseAtomicsValue | tsfc/coffee_mode.py:151-207 | a successful `factorise_atomics` preserves the value, for any chosen atomics |
| Value.FactoriseGroupsValue | tsfc/coffee_mode.py:176-207 | the rebuilt groups have the value of all the groups' members |
| Value.FactoriseGroupValue | tsfc/coffee_mode.py:178-206 | one rebuilt monomial has the value of its group |
| Value.RegroupBlocks | tsfc/coffee_mode.py:219-223 | regrouping the optimised result by sum indices gives the optimised groups back in order |
| Value.IndexSumsValue | tsfc/coffee_mode.py:85-89 | index sums over the optimised groups add up to the index sums over the original groups |
| Value.IndexSumLinear | tsfc/coffee_mode.py:86-88 | an index sum of the `make_sum` of products is the sum of the products' index sums |
| Value.GroupTermsValue | tsfc/coffee_mode.py:84-88 | one group's `IndexSum` is the sum of its members each summed over its own sum indices |
| Value.IndexSumsTermsValue | tsfc/coffee_mode.py:83-88 | the same for all groups together |
| Value.MonomialSumToExpressionValue | tsfc/coffee_mode.py:74-89 | `monomial_sum_to_expression` denotes the sum over the monomials of each one's product summed over its own sum indices, when no monomial repeats a sum index |
| Value.OptimiseMonomialSumValue | tsfc/coffee_mode.py:210-223 | the optimised expression has, under every index assignment, the value of the unfactorised rebuild |
| Value.OptimiseMonomialSumTermsValue | tsfc/coffee_mode.py:210-223 | the optimised sum denotes the same monomial-by-monomial sum |
| Value.OptimiseExpressionsValue | tsfc/coffee_mode.py:55-71 | when each monomial sum denotes its expression, every optimised expression has the value of the original |

## Left out

- `flatten` (`tsfc/coffee_mode.py:23-49`) is not part of this model: it registers a citation, calls the external `unconcatenate`, and yields data produced outside this file.
- `tsfc/coffee.py`, `tsfc/finatinterface.py` and `tsfc/parameters.py` are not part of this model. They are the translation to the COFFEE syntax tree, the dispatch to FInAT element constructors, and a parameter table.
- `collect_monomials` and `spectral.classify` are external. `OptimiseExpressions` takes the monomial sums they return as a parameter, and `OptimiseExpressionsValue` assumes that each sum denotes its expression.
- `traversal` is external. The Failure scan is the predicate `ContainsFailure` over the expression tree. An opaque `Leaf` carries a flag saying whether a `Failure` lies inside it (for instance `Indexed(Failure(...), ...)`), and the scan reads that flag.
- `gem.utils.groupby` is not shown in the source. It is modelled as an order-preserving partition: keys in first-seen order, members in input order.
- `make_sum`, `make_product` and the `IndexSum` constructor of GEM simplify their arguments (zeros, ones, an empty index tuple, and so on). The model keeps only the collapse of a single operand. Free indices are computed structurally, not by GEM's own rules; like GEM's `free_indices` they never repeat, so a leaf's listed free indices are taken without duplicates.
- `logger.warning` is replaced by the `exhausted` flag of `SearchResult`, and the callers of `find_optimal_atomics` do not pass it on: `OptimiseMonomials` keeps only the atomics, so no driver observes whether a nested search was interrupted.
- The search's inner state is an object in `SearchImpl`. In Python the closure `solve` captures the sets `solution` and `optimal_solution` and mutates them in place (lines 133, 135, 138-139); `cost` takes the solution as its argument. The iterator `it` is a counter of steps left.
- Numbers are read over the integers (a commutative ring). Floating-point rounding in the generated code, and the `numpy.int64` range of `numpy.prod`, are not modelled.
- The `for` loop and the leaf branch of `solve` are separate methods (`TryAtomics`, `Complete`) of `SearchImpl.AtomicSearch`. The method `Solve` keeps the `while` loop and calls them where the source has the loop and the leaf code.
