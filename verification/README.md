# Verified model of NICE-SAT and its solver kernel

NICE-SAT turns a shared Boolean formula (a dag of AND, if-then-else and equivalence nodes with signed
edges) into clauses, and hands them to a SAT solver. This project models that compiler, the parts of
the PicoSAT kernel it is shipped with that carry invariants, and the bit streams beside them, and proves:

- **The compiler is correct.** For every dag and every root, an assignment of the input variables
  satisfies the root exactly when it can be extended to the proxy variables so that all emitted
  clauses hold (`Compiler.Add`). Below it: the smart constructors keep the meaning through all
  simplifications and ITE matching; the expansion of each polarity keeps the meaning, terminates and
  counts uses exactly; the depth-first search consumes each use once and leaves nothing behind;
  proxies are constrained in one direction only and reused across complements; the CNF algebra
  denotes conjunction and disjunction with exact totals; and in memory the literal vectors, the
  linked clause lists and the node table do what their values say.
- **The search is correct.** For any clauses, whatever their literals, adding them and running the solver
  up to a decision limit terminates with answers that are right in both directions
  (`Originals.SolveClauses`, `Search.Solve`), and left open only when all decisions were made. Below it:
  first-UIP analysis, with the UIP unique and what minimisation removes characterised exactly, drive, undo and force; propagation over head and tail lists with parking of satisfied clauses, after which no
  clause is falsified or unit; restarts; decisions from a heap that always has every open variable, or
  from a random walk.
- **Both together**: a formula that is compiled and searched is called satisfiable only with an assignment
  that satisfies it, and unsatisfiable only when there is none (`Answers.Decide`).
- **The pieces beside it**: the antecedent chains, the 32-bit soft floats, and the round trip of the bit
  writer and reader.

How to read it. Values are modelled by datatypes and functions (`LitVectors`, `CnfFormulas`, `Dags`),
state that the program updates in place by classes (`LitArrays.LitVector`, `CnfExpressions.CnfExp`,
`GlobalTables.GlobalTable`, `CnfPasses.CnfPass`, `Propagation.Propagator`, and others) whose methods
are proved against those functions. An assignment is the set of variables it makes true. Nodes are
numbered in order of creation, which makes the dag acyclic; their addresses are arbitrary but distinct.
Flags in nodes and variables are sets. `dafny verify dfyconfig.toml` checks everything.

Facts about the program that shape the model:

- Two counters are decremented inside `assert` (`src/Passes/CnfPass.C:59` and `:228`); the model
  decrements them always.
- `src/Passes/CnfPass.C:61` and `:63` assert binary ANDs; the model covers any number of arguments.
- Copying a shared expression into one without listed clauses leaves the first clause out of both
  totals (`src/ADTs/CnfExp.C:118-122`). The model copies it as written, states exactly when the totals
  stay right (`CnfFormulas.ConjoinSharedCounts`), and shows that the pass never gets there with
  literals (`CnfPasses.CnfPass.ConjoinArg`).
- `crossProductWith` writes matches back over the singletons it reads, and asserts that it stays within
  the vector (`src/ADTs/LitVector.H:128-136`). The model returns whether that holds. It holds, and the
  result is right, exactly when no first part of the singletons has more matches on the other side than
  literals (`CnfExpressions.CnfExp.CrossSingles`, `WriteBacks.WithinIff`); in the pass it always does
  (`CnfPasses.CnfPass.DisjoinOperand`), and `WriteBacks.DuplicatesOverwrite` is an input where it does not.
- Before two expansions are linked it is asserted that neither is linked (`src/Passes/CountAndExpandPass.C:56-57`).
  The model returns whether that has held and replaces the links in any case, as a build without assertions
  does; meaning, counts and links are right then too. It holds exactly when no expansion is shared by edges
  that are both expanded in both polarities (`CountAndExpand.CountAndExpandPass.Run`), always when matching is
  off (`SemanticLinks.UnmatchedOnce`), and `SharedExpansions.FailingRun` is a formula for which it fails. The
  assertions at `:24`, `:46` and `:55` always hold.
- `uNode` asserts that its table is not full after growing (`src/ADTs/GlobalTable.C:125`);
  `GlobalTables.GlobalTable.UNode` returns whether that holds, with its exact condition.
- The bound that decides between a proxy and a cross product counts the clauses of the accumulator twice and
  those of the operand not at all (`src/Passes/CnfPass_disjunction.C:51`); the model has it as written.
- A literal vector keeps only its first five literals sorted (the configured merging length), so
  duplicates and complements behind the window stay. All meanings are proved without assuming otherwise.
- `finish` on an empty buffer writes a word of zeros (`src/Support/BitWriter.C:41-43`).
- `packflt` gives the smallest normal number the code of zero, and the largest one the code of infinity
  (`libs/picosat-913/picosat.c:652-661`), and `mulflt` tests for underflow before it normalises (`:745-753`).
  `SoftFloats.MulBoundsIff` and `SoftFloats.MulUnderflowsIff` say exactly where this matters, with
  `SoftFloats.SquareCollides` and `SoftFloats.FlushedEarly` as inputs. `packflt` asserts that the exponent
  is in range; `SoftFloats.Base2Flt` returns whether that holds.
- No emitted clause holds a zero literal, which would end it where clauses are handed over (`Solvers`).

## Model

| member | source | states |
|---|---|---|
| `Compiler.Add` | src/NiceSat.C:60-79 | For every dag and root: an assignment of the input variables satisfies the root exactly when it extends to the proxy variables so that every emitted clause holds; no clause holds a zero and the clause counter is their number; whether the assertions about linked expansions held is returned, with its exact condition |
| `Compiler.Equisatisfiable` | src/NiceSat.C:60-79 | The emitted clauses are satisfiable exactly when the formula is |
| `Compiler.ModelsSatisfy` | src/NiceSat.C:60-79 | Any model of the emitted clauses satisfies the formula |
| `CnfPasses.CnfPass.Run` | src/Passes/CnfPass.C:152-229 | The pass, for a constant, a variable or a node root: the clauses decide the root, and for a node all use counts end at zero and no expression is left over but constants |
| `CnfPasses.CnfPass.Walk` | src/Passes/CnfPass.C:172-209 | The depth-first search terminates, finishes every wanted use, and consumes every use but the one of the root exactly once |
| `CnfPasses.CnfPass.VisitNode` | src/Passes/CnfPass.C:177-208 | One round of the search keeps the order of the queue, the books on uses and the meaning of all annotations, and gets nearer to the end |
| `CnfPasses.CnfPass.EmitRoot` | src/Passes/CnfPass.C:211-229 | Asserting the root, by the one literal of its proxy or clause by clause, decides it in both directions, and spends its last use |
| `CnfPasses.CnfPass.ProduceCnf` | src/Passes/CnfPass.C:108-150 | A node whose arguments are finished has both polarities finished; the annotations keep their meaning, exactly the uses of its arguments are consumed, and one polarity is constant if and only if the other is the opposite constant |
| `CnfPasses.CnfPass.ProduceConjunction` | src/Passes/CnfPass_conjunction.C:7-32 | The positive expression represents the node and consumes each argument once |
| `CnfPasses.CnfPass.ProduceDisjunction` | src/Passes/CnfPass_disjunction.C:14-61 | The negative expression, with proxies for large operands, represents the complement and consumes each argument once; it never has more than three singletons |
| `CnfPasses.CnfPass.DisjoinOperand` | src/Passes/CnfPass_disjunction.C:47-59 | An operand with literals is at its last use. It is crossed, without new clause or variable, exactly when it has at most three clauses and the product estimate is within the bound, and then the result has at most as many literals as the bound says; any other gets a proxy, found or new, whose constraint has the literals and clauses of the operand as literals. Either way the accumulator represents one argument more, with room for the singletons written back |
| `CnfPasses.CnfPass.OpenDisjunction` | src/Passes/CnfPass_disjunction.C:14-30 | The accumulator starts with the largest expression that can be taken over, behind a proxy exactly when it has more than three clauses, and without any new clause otherwise |
| `CnfPasses.CnfPass.DisjoinArg` | src/Passes/CnfPass_disjunction.C:33-59 | One argument more is represented and its use consumed; variables, proxies, constants and small operands cost neither clause nor variable |
| `CnfFormulas.CrossProductSize` | src/ADTs/CnfExp.C:256-434 | A cross product has at most as many clauses as there are pairs of clauses, and at most the literals that the estimate of the pass counts for them |
| `CnfFormulas.DisjoinLitSize` | src/ADTs/CnfExp.C:134-202 | Disjoining a literal adds at most one literal to every clause |
| `Solvers.ImplicationSize` | src/Solvers/FileSolver.C:81-112 | A constraint has as many clauses as the expression and one literal more in each |
| `CnfPasses.CnfPass.FillArgs` | src/Passes/CnfPass.C:12-67 | The arguments are gathered but for one expression that leaves its owner with its last use; none of the others that could be taken over is larger |
| `CnfPasses.CnfPass.CollectArgs` | src/Passes/CnfPass.C:15-56 | No argument is lost, and none whose expression can be taken over is larger than the one set aside |
| `CnfPasses.CnfPass.SaveCnf` | src/Passes/CnfPass.C:69-83 | A single literal becomes the proxy, a shared or forced expression gets a proxy, found or new, with its constraint, any other expression is kept as it is without a clause; no other annotation changes, and all keep their meaning |
| `CnfPasses.CnfPass.PropagateFits` | src/Passes/CnfPass.C:85-106 | A constant found for one polarity is right for the other |
| `CnfPasses.CnfPass.PropagateConstants` | src/Passes/CnfPass.C:135-135 | A constant in one polarity makes the other the opposite constant, wanted or not; otherwise both stay as they are |
| `CnfPasses.CnfPass.IntroProxy` | src/Passes/CnfPass.C:231-270 | The proxy is the one of the other polarity, complemented; while that is not finished, the complemented one of the same polarity of the complementary node, or its one of the other polarity while the same is not finished; only where none of these exists, the next new variable. Constrained in one direction it stands for the use in the log, and earlier facts persist |
| `CnfStates.ReusedProxyMirrors` | src/Passes/CnfPass.C:237-255 | A literal is found exactly when one of the three lookups has a proxy, and then it is that proxy with the sign under which it mirrors this use |
| `CnfPasses.CnfPass.ConjoinArg` | src/Passes/CnfPass_conjunction.C:17-30 | One argument more is represented; an expression with literals is at its last use, so it is handed over with the exact totals and its annotation is given up: the shared way that forgets the totals is never taken with literals |
| `CnfInvariants.FreshMirrors` | src/Passes/CnfPass.C:257-259 | A new variable can be given the meaning of any use |
| `CnfInvariants.ConstrainedProxyRepresents` | src/Passes/CnfPass.C:261-267 | The one-sided clauses of a proxy keep the log sound and complete |
| `CnfInvariants.ConstantPropagates` | src/Passes/CnfPass.C:85-106 | An expression that is constant for a use is the opposite constant for its complement |
| `CnfInvariants.OneMoreRepresented` | src/Passes/CnfPass_conjunction.C:13-31 | Conjoining or disjoining one argument extends what the accumulator represents by that argument |
| `CnfInvariants.NodeRepresented` | src/Passes/CnfPass_conjunction.C:7-32 | An accumulator for all arguments of a use represents the use |
| `CnfInvariants.AssertedRootDecides` | src/Passes/CnfPass.C:211-222 | A sound and complete log plus the asserted root decide the root |
| `CnfInvariants.ResolveEquivalent` | src/Passes/CnfPass.C:29-32 | Going through the expansion of an ITE or IFF keeps the meaning |
| `CnfWalks.NothingUnfinished` | src/Passes/CnfPass.C:172-209 | When the queue is empty no wanted use is unfinished |
| `CnfWalks.OnlyRootIsLeft` | src/Passes/CnfPass.C:211-228 | When all is finished, every count is zero but that of the root, which is one |
| `CnfWalks.LeftoversAreConstant` | src/Passes/CnfPass.C:211-228 | What is left in annotations at the end has no literals |
| `CnfWalks.BagIsReady` | src/Passes/CnfPass.C:202-207 | A marked node on top of the queue has all arguments finished, with counts that cover its uses |
| `CnfWalks.MarkRound` | src/Passes/CnfPass.C:194-201 | Marking a node and pushing its arguments keeps the walk in order |
| `CnfWalks.FinishRound` | src/Passes/CnfPass.C:202-208 | Producing the top node keeps the walk in order and the counts conserved |
| `CnfWalks.ExpandRound` | src/Passes/CnfPass.C:181-186 | Replacing an ITE or IFF by its expansions in the queue loses no wanted use |
| `CountAndExpand.CountAndExpandPass.Run` | src/Passes/CountAndExpandPass.C:5-72 | The pass terminates; afterwards the expansions keep the meaning, the counts are exactly the argument occurrences in the wanted ANDs plus the root, and the links between expansions are between complements. Every assertion that an expansion is not linked yet has held if and only if no node is the expansion of two edges that are both expanded in both polarities, which is always so without matching |
| `SharedExpansions.FailingRun` | src/Passes/CountAndExpandPass.C:53-57 | The pass, run on the equivalence of two ITEs built through the constructors, fails an assertion |
| `SharedExpansions.SharingFails` | src/Passes/CountAndExpandPass.C:53-57 | Whatever else is in the table and however its nodes lie in memory, an equivalence of two such ITEs makes an assertion fail: the negative expansions of both are one node |
| `SharedExpansions.BothSidesNeeded` | src/Passes/CountAndExpandPass.C:30-50 | An equivalence has both of its sides expanded in both polarities |
| `SemanticLinks.SecondOfTwo` | src/Passes/CountAndExpandPass.C:52-63 | Once the second expansion of a node is there, exactly the expansions of what is expanded in both polarities are linked; none of them is shared if and only if none was before and neither of the two was linked |
| `SemanticLinks.UnmatchedOnce` | src/Passes/CountAndExpandPass.C:36-57 | Without matching no two edges have the same expansion, so no assertion fails |
| `Expansions.ExpansionIsBuilt` | src/Passes/CountAndExpandPass.C:36-43 | Which nodes an expansion consists of: the AND of the complements of the two conjunctions, each of which is plain or the one that matching makes |
| `CountAndExpand.CountAndExpandPass.Visit` | src/Passes/CountAndExpandPass.C:15-71 | One round keeps the balance of counted and queued uses and makes the queue lighter |
| `CountAndExpand.CountAndExpandPass.Expand` | src/Passes/CountAndExpandPass.C:36-45 | The expansion of a signed ITE or IFF is a positive AND node of the same value, lighter than the edge |
| `CountAndExpand.CountAndExpandPass.ExpandFirst` | src/Passes/CountAndExpandPass.C:30-63 | The first visit of an ITE or IFF keeps all invariants and links the two expansions once both exist, whatever they were linked to; whether neither was linked is returned |
| `Expansions.ExpansionIsGood` | src/Passes/CountAndExpandPass.C:36-46 | The conjunction of the two complemented inner conjunctions is never simplified away, means the edge, and is lighter than it, although the inner ones may match into ITEs |
| `Expansions.BranchesDiffer` | src/Passes/CountAndExpandPass.C:38-46 | The two inner conjunctions are never constant nor the same node up to sign |
| `Expansions.ExpansionWeight` | src/Passes/CountAndExpandPass.C:33-47 | The weight that bounds the pass strictly drops |
| `Expansions.ExpansionValue` | src/Passes/CountAndExpandPass.C:36-43 | The expansion has the value of the signed edge under every assignment |
| `Counting.BalancedAgain` | src/Passes/CountAndExpandPass.C:19-28 | Counting an edge met again keeps counted plus queued uses equal to occurrences |
| `Counting.BalancedFirst` | src/Passes/CountAndExpandPass.C:29-31 | Counting an AND for the first time and queueing its arguments keeps the balance |
| `Counting.BalancedMoves` | src/Passes/CountAndExpandPass.C:36-47 | Replacing an ITE by its expansion moves its occurrences to the expansion on both sides of the balance |
| `Counting.BalancedEnd` | src/Passes/CountAndExpandPass.C:15-71 | With an empty queue the counts are exactly the occurrences |
| `ExpandStates.OppositeExpansions` | src/Passes/CountAndExpandPass.C:49-63 | The expansions of the two polarities of one node are complements of each other |
| `ExpandStates.FirstIteRound` | src/Passes/CountAndExpandPass.C:30-63 | The round that expands an ITE keeps the state of the pass |
| `ExpandStates.EndExpand` | src/Passes/CountAndExpandPass.C:15-71 | What the invariants say at the end is what CNF generation requires |
| `Construction.NiceSat.CreateVar` | src/NiceSat.H:83-83 | A variable of the solver that no edge uses yet |
| `Construction.NiceSat.CreateAnd` | src/NiceSat_construction.C:63-93 | The result is the conjunction under every assignment through swapping, simplification and ITE matching, and exactly one edge: an operand, false, the one plain AND node, or the complement of the one ITE, equivalence or branch that matching finds; its weight is bounded, which makes the recursion with createIte terminate; the table stays free of duplicates, with arguments in address order |
| `Construction.NiceSat.CreateProperAnd` | src/NiceSat_construction.C:72-92 | Two operands that no simplification applies to: the plain node, or the complement of a matched ITE |
| `Construction.NiceSat.CreateIte` | src/NiceSat_construction.C:134-168 | The result chooses between the branches under every assignment; which edge it is is fixed for all operands |
| `Construction.NiceSat.CreatePositiveIte` | src/NiceSat_construction.C:145-164 | All eight cases of if-then-else with test and branch uncomplemented |
| `Construction.NiceSat.CreateIff` | src/NiceSat_construction.C:118-132 | The result is the equivalence under every assignment, and exactly the constant, the other side, or the one IFF node, complemented when the signs differ |
| `Construction.OrMeans` | src/NiceSat_construction.C:95-100 | The edge that createOr returns is the disjunction under every assignment |
| `Construction.ImplMeans` | src/NiceSat_construction.C:111-116 | The edge that createImpl returns is the implication under every assignment |
| `Construction.NiceSat.CreateAndAll` | src/NiceSat_construction.C:7-61 | The n-ary conjunction of any array of edges, and which edge it is: false for false or a complementary pair; else, of the distinct edges other than true in address order, true for none, the one, what the binary constructor makes of two, the AND node of more; no result above 65535 arguments |
| `Construction.NiceSat.CreateOrAll` | src/NiceSat_construction.C:102-109 | The n-ary disjunction, as the complement of exactly the edge for the complements |
| `Construction.NiceSat.CreateAndSorted` | src/NiceSat_construction.C:17-60 | A sorted stretch without leading true: trivial cases, duplicates, complements, matching for two, node for more, with the exact edge |
| `Construction.NiceSat.Compact` | src/NiceSat_construction.C:26-33 | In-place compaction keeps the set of edges, strictly sorted and with distinct nodes, or reports a complementary pair that exists |
| `Construction.MatchMeans` | src/NiceSat_construction.C:79-87 | A match found in two complemented binary ANDs is an ITE whose complement is their conjunction, and lighter |
| `Construction.KeptAreProper` | src/NiceSat_construction.C:26-35 | What compaction leaves satisfies what nodes require of their arguments |
| `Construction.TaggedInjective` | src/ADTs/Edge.H:46-89 | Tagged pointers of nodes, variables and constants are distinct for distinct edges |
| `Construction.OneOrder` | src/NiceSat_construction.C:64-66 | Of the two orders of writing the arguments of an AND or IFF at most one is in the table, and once |
| `Construction.MatchCommutes` | src/NiceSat_construction.C:78-87 | Exchanging the operands finds a match exactly when there was one, and one and the same ITE |
| `Construction.ExactProper` | src/NiceSat_construction.C:134-168 | Of operands that nothing simplifies, an if-then-else is a branch, an equivalence or the ITE node, up to complements |
| `Construction.AndAllSame` | src/NiceSat_construction.C:7-35 | True operands, order and repetition do not change which edge an n-ary conjunction is |
| `Construction.InternValid` | src/ADTs/GlobalTable.C:123-139 | Sharing a node or adding it keeps the table valid and only extends it |
| `Dags.ValueExtends` | src/ADTs/GlobalTable.C:123-178 | Adding nodes changes the value of no existing edge |
| `Dags.ValueOfInputs` | src/Passes/CnfPass.C:167-169 | The value of an edge depends on the input variables only |
| `Sorting.Sort` | src/ADTs/Sort.H:52-75 | The slice is a permutation of what it was, in order; nothing outside changes |
| `Sorting.SelectionSort` | src/ADTs/Sort.H:34-48 | Selection sort of a slice |
| `Sorting.Partition` | src/ADTs/Sort.H:58-70 | Both recursive calls get a proper part, separated by the pivot |
| `Sorting.ScansMeet` | src/ADTs/Sort.H:63-70 | When the scans have met, everything is on its side of the pivot |
| `LitVectors.AddLitMerges` | src/ADTs/LitVector.C:125-147 | Adding a literal is the union, or empty on its complement; the window stays strictly sorted |
| `LitVectors.AppendMerges` | src/ADTs/LitVector.C:149-182 | Appending to a full window is the union, or empty only for complementary vectors |
| `LitVectors.MergeMerges` | src/ADTs/LitVector.C:184-227 | The window merge is the union with a sorted window, or empty only for complementary vectors |
| `LitVectors.PlusMerges` | src/ADTs/LitVector.C:229-250 | `+=` of a vector, whichever way it takes |
| `LitVectors.CombineMerges` | src/ADTs/LitVector.C:81-109 | A vector made from two others, whichever of the three ways |
| `LitVectors.PairMerges` | src/ADTs/LitVector.C:43-60 | A vector made from two literals of different variables |
| `LitVectors.AddLitExact` | src/ADTs/LitVector.C:125-147 | Adding a literal gives the empty vector if its complement is in the window, the same vector if it is itself there, and one literal more otherwise |
| `LitVectors.AppendExact` | src/ADTs/LitVector.C:149-182 | Appending is empty exactly when the windows hold a complementary pair, and otherwise leaves out exactly what both windows have |
| `LitVectors.MergeExact` | src/ADTs/LitVector.C:184-227 | Merging is empty exactly when the windows hold a complementary pair, and otherwise leaves out exactly one copy of what both windows have |
| `LitVectors.PlusExact` | src/ADTs/LitVector.C:229-250 | Whichever way `+=` takes: empty exactly on a complementary pair in the windows, otherwise all of both less one copy of what both windows have |
| `LitVectors.CombineExact` | src/ADTs/LitVector.C:81-109 | Whichever of the three ways makes a vector from two others: empty exactly on a complementary pair in the windows, otherwise all of both less one copy of what both windows have |
| `LitVectors.MergedSorted` | src/ADTs/LitVector.C:193-216 | Whatever position the merge is at, what is still to come is sorted as far as the window reaches |
| `LitArrays.LitVector.AddLit` | src/ADTs/LitVector.C:111-147 | In memory, with growth: the contents become those of the specification |
| `LitArrays.LitVector.AppendVector` | src/ADTs/LitVector.C:149-182 | In memory: window walk and block copy |
| `LitArrays.LitVector.MergeVector` | src/ADTs/LitVector.C:184-227 | In memory: merging with literals that wait in the same buffer never overwrites an unread one |
| `LitArrays.LitVector.PlusVector` | src/ADTs/LitVector.C:229-250 | In memory: capacity, overlapping move, merge |
| `LitArrays.LitVector.InitTwo` | src/ADTs/LitVector.C:81-109 | In memory: three ways to fill a vector from two others |
| `LitArrays.LitVector.InitPair` | src/ADTs/LitVector.C:43-60 | In memory: two literals in order of their variables |
| `LitArrays.Capacity` | src/ADTs/LitVector.C:84-90 | Once doubled, the larger capacity holds both vectors |
| `CnfFormulas.ConjoinLitMeans` | src/ADTs/CnfExp.C:33-48 | Conjoining a literal is conjunction under every assignment, with exact totals and unambiguous constants |
| `CnfFormulas.ConjoinExpMeans` | src/ADTs/CnfExp.C:68-115 | Conjoining an expression that is handed over is conjunction, with exact totals |
| `CnfFormulas.ConjoinSharedCounts` | src/ADTs/CnfExp.C:116-132 | Conjoining a shared expression keeps the totals exact if and only if not (literals, no listed clause, listed clauses to copy, no contradiction) |
| `CnfFormulas.SharedClauseMissing` | src/ADTs/CnfExp.C:118-122 | A literal and a shared clause of two literals: the clause is in neither total |
| `CnfFormulas.DisjoinLitMeans` | src/ADTs/CnfExp.C:134-202 | Disjoining a literal is disjunction, with exact totals and clauses of two literals or more, for any singletons; up to five of them stay sorted |
| `CnfFormulas.DisjoinExpMeans` | src/ADTs/CnfExp.C:235-254 | Disjoining an expression is disjunction, with exact totals and clauses of two literals or more, for any singletons; up to five of them on either side stay sorted |
| `CnfFormulas.CrossProductMeans` | src/ADTs/CnfExp.C:256-434 | The cross product is the disjunction of both expressions under every assignment, for any singletons |
| `CnfFormulas.CrossListedMeans` | src/ADTs/CnfExp.C:267-385 | The listed clauses of one side against all of the other |
| `CnfFormulas.PushAllPairsMean` | src/ADTs/CnfExp.C:408-426 | Singletons against singletons: matches stay, others pair up |
| `CnfFormulas.JoinMeans` | src/ADTs/CnfExp.C:259-262 | A joined clause is a tautology and empty, or has at least two literals and means the disjunction |
| `CnfFormulas.MakeHolds` | src/ADTs/CnfExp.C:429-433 | With nothing left the expression is true, otherwise it means its parts |
| `CnfExpressions.CnfExp.CrossProductWith` | src/ADTs/CnfExp.C:256-434 | On the linked list, for all expressions: the call succeeds exactly when no first part of the singletons has more matches than literals; then the value is the specified cross product, the other expression is unchanged, the list is well formed and the totals are exact |
| `CnfExpressions.CnfExp.CrossSingles` | src/ADTs/CnfExp.C:408-427 | In place over the singleton vector: the loop stays within the vector exactly when no first part of it has more matches than literals, and then it leaves the matches and pushes all pairs |
| `CnfExpressions.CnfExp.CrossLists` | src/ADTs/CnfExp.C:257-385 | Pushed rows and the row joined in place, spliced with head and tail right |
| `CnfExpressions.CnfExp.KeepRow` | src/ADTs/CnfExp.C:316-340 | Joining a list where it stands, unlinking tautologies, with the surviving tail |
| `CnfExpressions.CnfExp.PushRow` | src/ADTs/CnfExp.C:275-293 | A row of joined clauses pushed at the head, none for tautologies |
| `CnfExpressions.CnfExp.Rejoin` | src/ADTs/CnfExp.C:145-179 | Disjoining a literal with the listed clauses, totals updated by differences |
| `CnfExpressions.CnfExp.PairSingles` | src/ADTs/CnfExp.C:181-196 | Singletons become pairs in place, totals updated by differences |
| `CnfExpressions.CnfExp.Conjoin` | src/ADTs/CnfExp.C:68-132 | On the linked list, handed over or shared, as written; a shared argument is unchanged |
| `CnfExpressions.CnfExp.ConjoinLit` | src/ADTs/CnfExp.C:33-48 | On the singleton vector, with the constants |
| `CnfExpressions.CnfExp.Disjoin` | src/ADTs/CnfExp.C:235-254 | On the linked list, handed over or shared, as specified unless both sides have literals and the singletons lack room; a shared argument is unchanged |
| `CnfExpressions.CnfExp.DisjoinLit` | src/ADTs/CnfExp.C:134-202 | On the linked list, with the singletons |
| `CnfExpressions.CnfExp.CopyExp` | src/ADTs/CnfExp.C:204-233 | Taking over a list, or copying it in reverse |
| `CnfExpressions.CnfExp.Adopt` | src/ADTs/CnfExp.C:101-113 | Appending another list with head and tail right |
| `WriteBacks.WithinIff` | src/ADTs/CnfExp.C:408-427 | For any two singleton vectors: the whole loop writes within the vector if and only if no first part of it has more matches than literals |
| `WriteBacks.LoopRight` | src/ADTs/CnfExp.C:408-427 | With that room, the loop that reads what it has overwritten computes the matches and the pairs of the vector it started with |
| `WriteBacks.IntactIff` | src/ADTs/CnfExp.C:408-426 | Distinct singletons are all read as they were if and only if no proper first part of them has more matches than literals |
| `WriteBacks.StaysAhead` | src/ADTs/CnfExp.C:408-426 | Once the writer is ahead of the reader it stays ahead: what is read is a match again |
| `WriteBacks.DistinctIsRoomy` | src/ADTs/CnfExp.C:408-426 | Without duplicates on the other side there always is room |
| `WriteBacks.DuplicatesOverwrite` | src/ADTs/CnfExp.C:408-426 | Conjoining a literal a second time behind the sorted window gives well-formed expressions for which the cross product fails, after overwriting an unread singleton |
| `Solvers.FileSolver.AddExp` | src/Solvers/FileSolver.C:55-79 | The emitted clauses are those of the expression, a contradiction for false, and the counter follows; no clause holds a zero, which would end it |
| `Solvers.FileSolver.Constrain` | src/Solvers/FileSolver.C:81-112 | The emitted clauses are the implication from the literal, without zeros, and the counter follows |
| `Solvers.ImplicationMeans` | src/Solvers/FileSolver.C:81-112 | The clauses of a constraint hold exactly when the literal implies the expression |
| `Solvers.AssertionMeans` | src/Solvers/FileSolver.C:55-79 | The clauses of an assertion hold exactly when the expression does |
| `GlobalTables.GlobalTable.UNode` | src/ADTs/GlobalTable.C:123-178 | The assertion that the table is not full after growing holds if and only if the largest capacity has room; then the open-addressing table returns what hash-consing specifies: the existing node, or a new one |
| `GlobalTables.GlobalTable.Lookup` | src/ADTs/GlobalTable.C:55-121 | Probing ends; it finds the node, or a free slot behind an unbroken occupied probe path and then the node is not stored |
| `GlobalTables.GlobalTable.Grow` | src/ADTs/GlobalTable.C:21-53 | Every node stays reachable from its hash along an occupied path, and there is room when a larger prime is left |
| `GlobalTables.GlobalTable.Rehash` | src/ADTs/GlobalTable.C:36-47 | Reinsertion places every stored node in the new table |
| `GlobalTables.GlobalTable.FirstFree` | src/ADTs/GlobalTable.C:40-44 | The probe loop of rehashing ends at a free slot |
| `GlobalTables.Canonical` | src/ADTs/GlobalTable.C:123-178 | Over any sequence of requests, two get the same edge if and only if operator and arguments agree |
| `GlobalTables.TakenFew` | src/ADTs/GlobalTable.C:24-52 | No more slots are taken than there are nodes |
| `GlobalTables.NotStored` | src/ADTs/GlobalTable.C:55-121 | A free slot on the probe path proves absence |
| `Probing.ProbesDiffer` | src/ADTs/GlobalTable.C:70-71 | Modulo a prime, the first half of the odd-increment probes hits pairwise different slots |
| `Probing.FreeSlot` | src/ADTs/GlobalTable.C:24-30 | With at most half of the slots taken, one of the first probes is free |
| `Probing.ProbeStep` | src/ADTs/GlobalTable.C:42-42 | Adding the next odd number leads from square to square |
| `NumberTheory.PrimeDividesFactor` | src/ADTs/GlobalTable.C:42-42 | A prime that divides a product divides a factor |
| `Answers.Decide` | src/NiceSat.H:153-153 | For every dag and root: compiling it and searching the clauses up to a decision limit answers satisfiable only with an assignment that satisfies the formula, unsatisfiable only if none does, and unknown only after as many decisions as the limit allows |
| `Originals.SolveClauses` | libs/picosat-913/picosat.c:6445-6547 | For any clauses of nonzero literals, added one by one and searched up to a decision limit: satisfiable comes with a model of them, unsatisfiable only when there is none, unknown only after as many decisions as the limit allows |
| `Search.Solve` | libs/picosat-913/picosat.c:5685-5790 | With any decision limit, a negative one standing for the largest integer, and restarts whenever the schedule likes, the search terminates; satisfiable comes with a trail that satisfies every original clause, unsatisfiable only without any model, and unknown only when exactly as many decisions were made as the limit allows, everything is propagated and some variable is open |
| `Search.Resume` | libs/picosat-913/picosat.c:4430-4443 | After a conflict everything taken back is in the decision heap again; no model is lost or gained |
| `Search.Restart` | libs/picosat-913/picosat.c:4768-4826 | Starting over from level zero keeps everything propagated, all clauses, and the heap complete |
| `Search.Backtrack` | libs/picosat-913/picosat.c:4430-4443 | One conflict: the learned clause is the minimised first-UIP clause, sorted by level; it follows and is asserting; the trail is cut to the driven level and exactly its open literal is assigned; models are unchanged, and none exists on level zero |
| `Search.Decide` | libs/picosat-913/picosat.c:5661-5683 | A decision opens a level with an unassigned variable, taken from the heap or a random walk, and keeps everything propagated and the heap complete |
| `Originals.AddOriginal` | libs/picosat-913/picosat.c:2569-2626 | Any clause on level zero, with repeated, complementary or assigned literals, or none: it is added with its literals not false, dropped when it is true for good, and refused exactly when all its literals are false; the models are those of the clauses with this one |
| `Originals.TrivialClause` | libs/picosat-913/picosat.c:2569-2601 | The scan of the sorted literals finds the clause trivial if and only if a literal is true for good or occurs with both signs; otherwise it keeps every literal once |
| `Originals.FixedForModels` | libs/picosat-913/picosat.c:2458-2489 | What is assigned on level zero has that value in every model of the clauses |
| `Deciding.StaticDecide` | libs/picosat-913/picosat.c:5591-5616 | The loop ends at an unassigned variable with the greatest score, the smallest one among equals; only assigned ones leave the heap |
| `Deciding.PutBack` | libs/picosat-913/picosat.c:2949-2952 | Putting the variables of undone literals back leaves every unassigned variable in the heap |
| `Deciding.CoversLonger` | libs/picosat-913/picosat.c:2946-2952 | Assigning leaves every unassigned variable in the heap |
| `Search.AttachForced` | libs/picosat-913/picosat.c:2325-2420 | A learned clause with its second-highest literal watched is settled once its open literal is forced |
| `Search.OpenLiteral` | libs/picosat-913/picosat.c:4381-4415 | The loop finds the one undefined literal |
| `Search.FullTrailModels` | libs/picosat-913/picosat.c:3387-3395 | A full trail without conflict satisfies every clause |
| `Search.SomeUnassigned` | libs/picosat-913/picosat.c:5661-5683 | Fewer assignments than variables leave one to decide on |
| `ConflictAnalysis.Kernel.Analyze` | libs/picosat-913/picosat.c:3478-3725 | The learned clause is the false literal of the first UIP and, of the lower variables met, those from which a path back through reasons, past no other of them, ends at a decision or at a level that cannot do; it follows from the clauses, is false under the trail, has exactly one literal on the conflict level and none on level zero; the marks are cleared |
| `ConflictAnalysis.Kernel.FirstUip` | libs/picosat-913/picosat.c:3504-3592 | Resolving backwards ends with the first UIP: the variable of the conflict level that, with lower ones, forces all resolved away, none of which was the only one of the level met when its turn came; only variables of the conflict and of the reasons resolved are marked |
| `ConflictAnalysis.FirstUipUnique` | libs/picosat-913/picosat.c:3504-3592 | A conflict has one first UIP, and it determines what is resolved away and which lower variables are left |
| `ConflictAnalysis.Kernel.Minimize` | libs/picosat-913/picosat.c:3613-3661 | Every marked variable is tried: afterwards it is forced by marked variables, or a path back through reasons past no mark ends where the search stops; all marks added are forced by marked variables and do not stop the search |
| `ConflictAnalysis.Kernel.TryResolve` | libs/picosat-913/picosat.c:3625-3659 | One depth-first search: either all it reached stays marked, is forced by marked variables and does not stop it, or no mark is added and the path to where it stopped exists |
| `ConflictAnalysis.RedundantIff` | libs/picosat-913/picosat.c:3613-3698 | A variable is removed from the learned clause if and only if no path from it back through reasons, past no other variable of the clause, ends at a decision or at a level below all others or with another hash |
| `ConflictAnalysis.NotedStops` | libs/picosat-913/picosat.c:3536-3548 | Minimum level and level hashes noted during the search tell where minimisation stops |
| `ConflictAnalysis.Kernel.FindResolved` | libs/picosat-913/picosat.c:3663-3698 | Exactly the variables with covered reasons are resolved |
| `ConflictAnalysis.Kernel.Collect` | libs/picosat-913/picosat.c:3700-3725 | The other literals go into the clause, all marks are taken back |
| `ConflictAnalysis.Kernel.Drive` | libs/picosat-913/picosat.c:4210-4242 | The second highest level of the clause, or zero |
| `ConflictAnalysis.LearnedImplied` | libs/picosat-913/picosat.c:3478-3725 | The learned clause holds in every model of the clauses |
| `ConflictAnalysis.HighestIsOpen` | libs/picosat-913/picosat.c:3556-3565 | The next marked variable down the trail is of the conflict level |
| `ConflictAnalysis.OpenNeedsReason` | libs/picosat-913/picosat.c:3569-3577 | While variables of the level are open, the next one has a reason |
| `ConflictAnalysis.LearningKeepsModels` | libs/picosat-913/picosat.c:4430-4443 | Learning changes no model, and the empty clause leaves none |
| `ConflictAnalysis.DriveTarget` | libs/picosat-913/picosat.c:4210-4242 | The driven level is below the conflict, in use, and above all other literals of the clause |
| `ConflictAnalysis.OneUndefined` | libs/picosat-913/picosat.c:4381-4415 | After the undo the first literal is undefined and the others are false |
| `Trails.ForcedAgree` | libs/picosat-913/picosat.c:3478-3725 | A model that agrees with the unforced variables of a closed set agrees with all of it |
| `Propagation.Propagator.Bcp` | libs/picosat-913/picosat.c:4170-4204 | Propagation ends with every assignment propagated and no clause falsified or unit, or with a falsified clause that has a literal of the current level |
| `Propagation.Complete` | libs/picosat-913/picosat.c:4170-4204 | When all is propagated without conflict, no clause is falsified and none is unit, whatever its length |
| `Propagation.UndoneUnits` | libs/picosat-913/picosat.c:3028-3069 | Undoing never takes back a clause of one literal: it is true on level zero |
| `Propagation.Propagator.PropLong` | libs/picosat-913/picosat.c:3856-3999 | Visiting the list of a falsified literal keeps clauses permuted, listed and settled |
| `Propagation.Propagator.Visit` | libs/picosat-913/picosat.c:3870-3998 | One clause of the list: unit conflict, true partner, new head, conflict, or forced partner |
| `Propagation.Propagator.Rotate` | libs/picosat-913/picosat.c:3947-3974 | The shifting search for a new head permutes the clause, or restores it and proves all other literals false |
| `Propagation.Propagator.PropBinary` | libs/picosat-913/picosat.c:3731-3829 | Propagation through binary clauses, on past a conflict |
| `Propagation.Propagator.Undo` | libs/picosat-913/picosat.c:3028-3069 | Taking back to a level keeps every clause watched and settled, without a search |
| `Propagation.Propagator.Unpark` | libs/picosat-913/picosat.c:2954-2981 | Unassigning a literal puts its parked clauses back on their other list |
| `PropagationSteps.RelocateStep` | libs/picosat-913/picosat.c:3990-3996 | A new head moves the clause to another list |
| `PropagationSteps.ParkStep` | libs/picosat-913/picosat.c:3924-3938 | Parking with a true partner keeps the clause settled |
| `PropagationSteps.AssignStep` | libs/picosat-913/picosat.c:3985-3986 | Forcing the partner settles the clause |
| `PropagationSteps.BeginProcessed` | libs/picosat-913/picosat.c:3856-3866 | Parked clauses need no visit: their true partner settles them |
| `Watches.RelocateKeeps` | libs/picosat-913/picosat.c:3990-3996 | Lists stay exact when a clause changes its head |
| `Watches.ParkKeeps` | libs/picosat-913/picosat.c:3924-3938 | Lists stay exact when a clause is parked |
| `Propagation.UnparkKeeps` | libs/picosat-913/picosat.c:2954-2981 | Lists stay exact when a clause is put back |
| `Propagation.UndoneProcessed` | libs/picosat-913/picosat.c:3028-3069 | What remains below the level undone is settled there |
| `Attaching.SortedLearned` | libs/picosat-913/picosat.c:1685-1736 | Sorting by level keeps the learned clause and puts a literal of the next level second |
| `Attaching.ForcedSettled` | libs/picosat-913/picosat.c:4381-4415 | Which makes the watches right once the first literal is forced |
| `Attaching.ConnectKeeps` | libs/picosat-913/picosat.c:2087-2112 | Connecting head and tail of a new clause keeps the lists exact |
| `DecisionHeap.Heap.Up` | libs/picosat-913/picosat.c:1804-1836 | Rising restores the order, keeps members, and positions stay the inverse of the heap |
| `DecisionHeap.Heap.Down` | libs/picosat-913/picosat.c:2687-2737 | Sinking restores the order, keeps members, and positions stay the inverse of the heap |
| `DecisionHeap.Heap.Push` | libs/picosat-913/picosat.c:2772-2782 | One member more |
| `DecisionHeap.Heap.Pop` | libs/picosat-913/picosat.c:2749-2769 | The result is above all other members, and the only one missing |
| `DecisionHeap.Heap.Raise` | libs/picosat-913/picosat.c:3412-3437 | Raising a score keeps the heap |
| `DecisionHeap.RootGreatest` | libs/picosat-913/picosat.c:2740-2746 | The root of an ordered heap is above every other slot |
| `StrideWalk.ComputeGcd` | libs/picosat-913/picosat.c:5525-5548 | Greatest, common, and a combination of both numbers |
| `StrideWalk.Stride` | libs/picosat-913/picosat.c:5565-5571 | The largest stride up to the one drawn that is coprime to the number of variables |
| `StrideWalk.WalkCovers` | libs/picosat-913/picosat.c:5573-5579 | The walk comes by every variable within as many strides |
| `StrideWalk.RandomVariable` | libs/picosat-913/picosat.c:5551-5580 | A random decision is the variable drawn if that is unassigned, and otherwise the first unassigned one on the walk from it with the largest coprime stride up to the one drawn |
| `Chains.RoundTrip` | libs/picosat-913/picosat.c:2145-2196 | Decoding an encoded chain gives back the indices |
| `Chains.OnlyTheEndIsZero` | libs/picosat-913/picosat.c:2144-2186 | No byte before the end is zero |
| `Chains.FiveGroups` | libs/picosat-913/picosat.c:2145-2154 | Numbers of 32 bits take at most five groups |
| `Chains.Buffer.AddChain` | libs/picosat-913/picosat.c:2166-2196 | The buffer holds the specified encoding |
| `Chains.Decode` | libs/picosat-913/picosat.c:5853-5872 | The decoding loop reads what the specification says |
| `SoftFloats.AddBounds` | libs/picosat-913/picosat.c:698-730 | A sum is never too large and short by less than one unit in the last place |
| `SoftFloats.AddSaturatesIff` | libs/picosat-913/picosat.c:698-730 | A sum saturates if and only if the exact one is beyond the largest exponent |
| `SoftFloats.AddCommutes` | libs/picosat-913/picosat.c:698-730 | Addition commutes |
| `SoftFloats.MulBounds` | libs/picosat-913/picosat.c:733-777 | Multiplication never exceeds the exact product and is short of it by less than one unit in the last place, for operands other than zero unless it overflows, underflows, or takes the code of zero |
| `SoftFloats.MulBoundsIff` | libs/picosat-913/picosat.c:733-777 | Without underflow, these bounds hold if and only if it neither overflows nor takes the code of zero |
| `SoftFloats.MulZeroIff` | libs/picosat-913/picosat.c:733-777 | Operands other than zero give the code of zero if and only if the exponents underflow or the product is the smallest normal number |
| `SoftFloats.MulSaturatesIff` | libs/picosat-913/picosat.c:745-766 | The product saturates if and only if the exact product is beyond the largest exponent |
| `SoftFloats.MulUnderflowsIff` | libs/picosat-913/picosat.c:745-753 | The product is flushed to zero if and only if it is below the smallest normal number, or only normalisation would bring its exponent into range |
| `SoftFloats.SquareCollides` | libs/picosat-913/picosat.c:652-661 | A product in range that takes the code of zero |
| `SoftFloats.FlushedEarly` | libs/picosat-913/picosat.c:745-766 | A product not below the smallest normal number that is flushed to zero |
| `SoftFloats.MulCommutes` | libs/picosat-913/picosat.c:733-777 | Multiplication commutes |
| `SoftFloats.OrderAgrees` | libs/picosat-913/picosat.c:652-661 | Unsigned order of codes is the order of values |
| `SoftFloats.Base2Flt` | libs/picosat-913/picosat.c:663-695 | For any 32-bit mantissa and any exponent: packing succeeds exactly when the exponent is in range after as much shifting as the mantissa needs; then the result is exact or cut off by less than one unit, zero or saturated at the ends of the range |
| `SoftFloats.CannotPack` | libs/picosat-913/picosat.c:651-661 | A mantissa and an exponent too large for packing, and another pair too small |
| `BitStreams.WriteThenRead` | src/Support/BitWriter.C:19-43 | Writing any fields of 1 to 31 bits, finishing, and reading the same widths gives back the low bits of the values, across words |
| `BitStreams.BitWriter.PutBits` | src/Support/BitWriter.C:19-26 | The stream grows by exactly the bits of the field |
| `BitStreams.BitWriter.PutBitsH` | src/Support/BitWriter.C:28-39 | Within one word, flushing a full one |
| `BitStreams.BitWriter.Finish` | src/Support/BitWriter.C:41-43 | The last word is filled with zeros; a whole word of zeros when nothing is pending |
| `BitStreams.BitReader.GetBits` | src/Support/BitReader.C:19-27 | The value read has exactly the bits taken off the stream |
| `BitStreams.BitReader.GetBitsH` | src/Support/BitReader.C:29-38 | Within one word, fetching the next one first |
| `BitStreams.FieldFits` | src/Support/BitWriter.C:28-32 | A field below what the buffer holds does not disturb it |

## Left out

- `CnfPasses.CnfPass`: holds values of CNF expressions in its annotations rather than the linked objects of `CnfExpressions`, so the pass over disjoint linked lists, and that no two annotations share one, is not stated; each operation it uses is proved for both.
- `CnfPasses.CnfPass.Walk`: null entries of the work queue, which the program skips, do not arise in the model, because expansions are looked up only where they exist.
- `CnfPasses.CnfPass.DisjoinOperand`: counts the use off after the proxy is introduced instead of before; introducing a proxy does not read the count.
- `Compiler.Add`: one formula for a fresh solver, without the literal for backtracking, which deletes the root expression twice; a second formula that shares nodes already consumed is not covered.
- `CountAndExpand.CountAndExpandPass.Run`: after a failed assertion the model goes on as a build without assertions does, and so do `Compiler.Add` and `Answers.Decide`; a build with assertions ends there.
- `Construction.NiceSat.UNode`: uses hash-consing by its specification, for a table that never fills; `GlobalTables.GlobalTable.UNode` is the table that meets it.
- `CnfExpressions.CnfExp.CrossSingles`: when the assertion on the index fails the call gives up; what a build without assertions writes beyond the vector is not modelled.
- `CnfExpressions.CnfExp`: clause literals are values; `LitArrays` shows that the in-memory operations compute them. The pool of free clauses is not modelled.
- `GlobalTables.GlobalTable`: the hash function is a parameter, and the list of primes too, with its members required to be prime and increasing; removal, which nothing calls, is left out.
- `Search.Solve`: clause reduction, simplification, assumptions, failed literals and all-different constraints are left out; scores, phases, the moments of restarts and of random decisions are arbitrary.
- `Originals.AddOriginal`: the clause as given, which the program keeps beside the one it resolves from it and never visits again, is not stored; adding happens on level zero, to which the program goes back first.
- `Search.AttachForced`: the learned clause is put on its lists after the undo instead of before, which changes only its place on them; literals of one level keep their order instead of being sorted by activity, and a binary clause is not sorted by address.
- `Propagation.Propagator`: lists are sequences of clause numbers instead of links inside the clauses, and a reason is the clause as it was when it forced its literal.
- `ConflictAnalysis.Kernel`: activities, statistics and the antecedents recorded for traces.
- `Answers.Decide`: the clauses are handed over at the end instead of one by one; the clauses of the PicoSAT interface are those of the file solver.
- `DecisionHeap.Heap`: rescoring of all variables, after which ties may be ordered differently; the comparison of addresses is one of indices.
- `SoftFloats.AddFlt`: exponents 32 or more apart, where the shift is undefined.
- `Chains.Decode`: 32-bit wrap-around, which `Chains.FiveGroups` shows not to occur for 32-bit indices.
- `BitStreams`: fields of 32 bits, for which the mask is undefined, and the byte order of words.
- Files, processes and text: paging and decimal output of the file solver, the readers, options, logging, statistics and drawing.
- Memory: allocation, capacity of argument vectors, relocation.
