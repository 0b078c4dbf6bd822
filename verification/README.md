# Verified models of the hypergraph algorithms

A weighted hypergraph has arcs from a sequence of tail states to a head state. Axioms (the start state and
the states with a terminal label) need no derivation; every other state is derived by an arc and derivations
of the arc's tails. Grammars, lattices, acceptors and transducers are all hypergraphs. This project models the
algorithms that build and search them, as classes and loops over the same fields that the C++ code updates,
and proves what they compute against definitions that do not mention the algorithms: derivation trees with
their yield and cost, paths with their word and weight, accepted words, sums over all paths.

| file | what it models |
|---|---|
| `Hypergraph.dfy` | states, arcs, labels, derivation trees, cost and yield |
| `Transducer.dfy`, `EarleyItems.dfy`, `EpsilonPlaces.dfy`, `CompositionMeaning.dfy`, `ElseArcs.dfy`, `Compose.dfy` | composition of a weighted grammar with a weighted transducer by an agenda-driven chart |
| `Fsa.dfy`, `LetterOptions.dfy`, `SubsetTable.dfy`, `Determinize.dfy` | subset construction for acceptors with "else" (rho) arcs |
| `Walks.dfy`, `Derivability.dfy`, `ReachCounting.dfy`, `ForwardSearch.dfy`, `GraphUse.dfy`, `Empty.dfy`, `EmptinessExamples.dfy`, `Counting.dfy` | bottom-up reachability by counters, the forward shortcut for graphs, usefulness, emptiness |
| `StateOrder.dfy`, `GraphPaths.dfy`, `AcyclicBest.dfy`, `UnseenCycle.dfy`, `InsideCosts.dfy`, `BuildDerivation.dfy`, `BestPath.dfy` | the best path of an acyclic graph from both ends, inside costs, and the best derivation |
| `PathSums.dfy`, `AllPairs.dfy`, `FloydWarshall.dfy` | sums over all paths in a semiring; the quadratic and the cubic all-pairs algorithm |
| `SplitArc.dfy`, `Binarize.dfy` | left-branching binarization |
| `FsmEmpty.dfy`, `Concat.dfy` | concatenation of two finite-state machines, either of which may be empty |
| `SingleDerivation.dfy`, `DerivationHg.dfy` | a derivation as a hypergraph and back |
| `FeatureWeights.dfy` | copy-on-write feature weights and the expectation semiring |

`dafny verify dfyconfig.toml` checks the whole project.

## How the model relates to the code

- Arcs are named by their place in the hypergraph's list of arcs, as the code names them by address. A state's
  in- and out-arcs are index lists into it. Hash sets and unordered maps that the code iterates over are sets,
  taken in an arbitrary order, so the results hold for every iteration order.
- Costs are integers (naturals in composition), probabilities and features are reals; there is no rounding.
- Exceptions and early returns are values of result types.
- A copy-on-write map is shared between weights on the heap; whether it may be written is decided by looking
  at all the weights that exist, which is what the reference count stands for.

## Where the code and its own documentation differ

The model follows the code in each case.

- `binarize-when: always` is documented as "#tails becomes at most 2" (sdl/Hypergraph/Binarize.hpp:40-42). The
  policy splits from the fourth tail on (line 50), so the first piece keeps up to three.
- `one-lexical` is documented as "at most one lexical per arc". The first tail's label is never looked at
  (lines 113-124), so an arc whose first tail is lexical can keep two. `LeftBranchingBinarize` states exactly when.
- A graph is documented as having no labelled first tail (sdl/Hypergraph/Properties.hpp:37-41). The test
  (sdl/Hypergraph/src/IsGraphArc.ipp:33-85) lets any arc through that has other than two tails and whose further
  tails are labelled. The search for graphs never finds what such an arc with a labelled first tail derives.
- The same search takes lists of all tails as they are (sdl/Hypergraph/HypergraphCopyBasic.hpp:278-282). From a
  labelled start state it then follows arcs that have the start state as a further tail, whether their first tail has
  a derivation or not. `ShortcutMissesNothing`, `ShortcutInventsNothing`, `UsefulExactly` and `IsEmptyExactly` state
  when either of the two matters.
- `prunedEmpty` (sdl/Hypergraph/src/HypergraphBase.cpp:196-207) calls a hypergraph that is no graph, stored by
  out-arcs only and with an idle start state, empty even if its final state has a derivation. It also takes a lone
  labelled final state for nothing, so `singleDerivation` returns null for the derivation that is only a label.
- No epsilon attaches in front of an arc's first tail when that is the start state (sdl/Hypergraph/Compose.hpp:475-477).
  If the start state reads an ordinary symbol, pairs whose epsilons have no other place are lost; `BuildChart`
  states exactly which.
- `kAcyclic` is documented as "if set, it's definitely acyclic" (sdl/Hypergraph/Properties.hpp:105-106). The best-path
  search sets it for what it has seen: a cycle that the start state does not reach, or that does not lead to the final
  state, goes unnoticed, and the search from in-arcs does not count self-loops (sdl/Hypergraph/AcyclicBest.hpp:99-111,
  205-232). `Compute` states exactly when the mark is right; `UnseenCycleIsMarked` is an input where it is not.
- With epsilon taken as a letter, determinization still joins several accepting subsets by epsilon arcs
  (sdl/Hypergraph/Determinize.hpp:320-324), which are then letters too. `DeterminizeAlways` states exactly when that
  changes the language.
- Adding an impossible weight that still carries features drops them; the comment says they "must all be zero"
  (sdl/Hypergraph/ExpectationWeight.hpp:119-121). `PlusBy` and `TimesBy` state exactly when the result is the sum
  or product.
- `checkTopoSort` compares an arc's target with the row's source, not with the arc's own source
  (sdl/Hypergraph/AllPairsShortestDistance.hpp:215-220, 247). It nevertheless rejects exactly the unsorted graphs.

## Model

| member | source | states |
|---|---|---|
| `Compose.EarleyParser.BuildChart` | sdl/Hypergraph/Compose.hpp:727-756 | The agenda always runs dry, and stops early exactly when an item has come to a grammar leaf labelled sigma, phi or rho. Each final item costs what some derivation of the grammar's final state and some start-to-final path that reads its yield cost together, and this pair is one the item stands for. Every pair that an item stands for has its item, and the item's cost is the least of them. For each root rule and cost: a final item of at most that cost exists if and only if some accepted pair does in which every epsilon arc has a place to attach. The same is stated with every sigma, phi and rho arc replaced by plain arcs over the grammar's symbols. Where start states do no harm, that is every accepted pair |
| `Compose.EarleyParser.ProcessHead` | sdl/Hypergraph/Compose.hpp:731-755 | One turn of the loop keeps every promise and leaves the chart closed under all rules up to what is queued; the items not yet charted, the chart's total cost or the queue length goes down, in that order of importance |
| `Compose.EarleyParser.AddConsequentsToAgenda` | sdl/Hypergraph/Compose.hpp:712-725 | Applies every rule that has the item as a premise, as either partner of a pair; fails just at a special grammar leaf |
| `Compose.EarleyParser.ChartItem` | sdl/Hypergraph/Compose.hpp:734-752 | The chart keeps the cheaper of its own and the agenda's cost, and reports a change exactly when there is one; a change adds an item or lowers the total |
| `Compose.EarleyParser.EnterChart` | sdl/Hypergraph/Compose.hpp:738-751 | The two indexes and the list of final items keep describing exactly the chart |
| `Compose.EarleyParser.PushAgendaItem` | sdl/Hypergraph/Compose.hpp:406-414 | A queued item keeps the better of two costs, is queued once, and is only ever queued with a cost that a derivation and a path justify |
| `Compose.EarleyParser.Init` | sdl/Hypergraph/Compose.hpp:416-427 | All rules of the final state are predicted at the transducer's start |
| `Compose.EarleyParser.Predict` | sdl/Hypergraph/Compose.hpp:429-461 | Every rule for the awaited state is known at the item's end, now or from an earlier call; the start state derives itself; a repeated call adds nothing |
| `Compose.EarleyParser.ScanEps` | sdl/Hypergraph/Compose.hpp:466-499 | Exactly where epsilon may attach, every epsilon arc of the item's end is attached; stopping at the first other arc misses none |
| `Compose.EarleyParser.Scan` | sdl/Hypergraph/Compose.hpp:504-580 | All the arcs that read the leaf lead on: sigma, named, and phi or rho when nothing else matched; fails just for a special leaf |
| `Compose.EarleyParser.ScanSigma` | sdl/Hypergraph/Compose.hpp:525-541 | Sigma arcs match whatever is there, and count as matches only when the option says so |
| `Compose.EarleyParser.ScanNamed` | sdl/Hypergraph/Compose.hpp:543-557 | Binary search finds every arc that names the leaf and no other |
| `Compose.EarleyParser.ScanElse` | sdl/Hypergraph/Compose.hpp:559-579 | Only when nothing matched: phi arcs lead on without reading, rho arcs read |
| `Compose.EarleyParser.Complete` | sdl/Hypergraph/Compose.hpp:586-598 | A finished constituent has met every charted item that waits for it |
| `Compose.EarleyParser.FindComplete` | sdl/Hypergraph/Compose.hpp:604-615 | An item has met every charted finished constituent it waits for, so pairs meet whichever comes second |
| `Compose.LowerBound` | sdl/Hypergraph/Compose.hpp:543-549 | The first position whose label is not below the one sought |
| `EarleyItems.PromisedConstituent` | sdl/Hypergraph/Compose.hpp:586-598 | Advancing over a finished constituent joins how the two items came about; the costs add up |
| `EarleyItems.PromisedConsume` | sdl/Hypergraph/Compose.hpp:525-557 | Reading the leaf after the dot is one more step by an arc that reads it |
| `EarleyItems.PromisedSkip` | sdl/Hypergraph/Compose.hpp:484-497 | So is epsilon where it may attach, or phi when the next symbol matches nothing |
| `EarleyItems.PoppedKeepsKnown` | sdl/Hypergraph/Compose.hpp:731-736 | Moving an item from agenda to chart forgets nothing that was known, even when its cost does not improve |
| `EarleyItems.StoryIsCharted` | sdl/Hypergraph/Compose.hpp:466-615 | In a closed chart whatever can come about from a charted beginning is charted, at no greater cost, whatever the order of the steps was; so every final item is charted at the least cost at which it can come about |
| `CompositionMeaning.StoryWitness` | sdl/Hypergraph/Compose.hpp:466-615 | However an item came about, derivations of the tails before the dot and a path that reads their yield, with phi and rho read as 'else', cost exactly as much; no path relied on a symbol that did not come |
| `CompositionMeaning.StoryPlaces` | sdl/Hypergraph/Compose.hpp:466-483 | And on that path every epsilon arc stands where one can attach |
| `CompositionMeaning.StoryExists` | sdl/Hypergraph/Compose.hpp:466-615 | Conversely, any derivations of the remaining tails and any path that reads their yield with its epsilons in place come about by steps of the chart, although each epsilon attaches at one place only |
| `CompositionMeaning.CoveredIffAttachable` | sdl/Hypergraph/Compose.hpp:466-483 | A pair of derivation and path belongs to some final item exactly when it is accepted and every epsilon arc right before an ordinarily labelled start state in first position has a silent leaf or the end of a constituent, and no phi arc, since the last symbol read |
| `EpsilonPlaces.AfterRun` | sdl/Hypergraph/Compose.hpp:466-483 | A run over the leaves of a constituent leaves nothing but epsilons for what comes behind it |
| `ElseArcs.ReadsAlike` | sdl/Hypergraph/Compose.hpp:525-579 | A path reads a string, with sigma, phi and rho and under all the options, if and only if it does by plain arcs, which read their own symbol or nothing: sigma stands for every symbol of a finite alphabet, rho for those that no arc of its state names (none if a sigma arc counts as a match or the option is off), and phi is silent but settles which of those comes next |
| `ElseArcs.AcceptedAlike` | sdl/Hypergraph/Compose.hpp:525-579 | So the accepted pairs of derivation and path are the same without them |
| `CompositionMeaning.HarmlessIsAttachable` | sdl/Hypergraph/Compose.hpp:475-477 | Epsilons always have a place when the transducer has no epsilon arc, or the start state reads nothing, or no arc begins with it |
| `CompositionMeaning.LabelledStartMissesEpsilon` | sdl/Hypergraph/Compose.hpp:475-477 | Otherwise a pair can be lost: a grammar with a labelled start state as first tail and a transducer with an epsilon arc, for which the closed chart has no final item although a pair is accepted |
| `Transducer.RunJoin` | sdl/Hypergraph/Compose.hpp:586-598 | Two runs meet when the first did not rely on a symbol to come |
| `Transducer.RunSplit` | sdl/Hypergraph/Compose.hpp:466-483 | A run over two strings can be cut so that the second half does not begin with epsilon, which is why epsilons need attach only next to leaves |
| `Determinize.DeterminizeAlways` | sdl/Hypergraph/Determinize.hpp:301-328 | Refuses exactly the inputs with a phi arc and no option for it, or a sigma arc and no option for it. Otherwise at most two to the power of the input's states plus one states; and the result accepts the same words, over any alphabet and with rho read as 'any symbol not named on this state' on both sides (and also with rho arcs replaced by plain arcs over any finite alphabet), has at most one arc a label, and silent epsilon only into the added final state. With epsilon taken as a letter this holds if and only if there are no two accepted words that lead to different subsets; if there are, every word of the result ends in an epsilon more than a word of the input |
| `Determinize.DeterminizeFsa.Run` | sdl/Hypergraph/Determinize.hpp:301-328 | The whole construction, from the letters of each state to the joined final states; fails exactly at a phi or sigma arc whose option is not set |
| `Determinize.DeterminizeFsa.InitRhos` | sdl/Hypergraph/Determinize.hpp:475-502 | Each state's letters, arcs and rho targets, or failure exactly at a phi or sigma arc whose option is not set |
| `Determinize.AddLetter` | sdl/Hypergraph/Determinize.hpp:475-493 | One arc is filed as a letter or as a rho target, or dropped (epsilon, unless it counts as a letter); refused exactly for phi and sigma when their own option is not set |
| `LetterOptions.OptionMakesLetter` | sdl/Hypergraph/Determinize.hpp:150-162 | A special symbol (epsilon, sigma, phi or rho) whose option is set behaves like any letter: renamed to a symbol that does not occur, with its option cleared, the machine accepts the same words up to the renaming and is refused as before |
| `LetterOptions.AcceptsAlike` | sdl/Hypergraph/Determinize.hpp:475-493 | A word over a finite alphabet is accepted if and only if it is by plain arcs: rho replaced by an arc for each symbol that its state does not name, silent epsilon by an arc that reads nothing |
| `Determinize.DeterminizeFsa.SubsetId` | sdl/Hypergraph/Determinize.hpp:338-403 | A subset is looked up by what it holds: one key and one state for each, scheduled once; different subsets have different states. The keys are sets on the heap, and no known key is touched |
| `Determinize.DeterminizeFsa.GenOut` | sdl/Hypergraph/Determinize.hpp:425-465 | The arcs of a subset state lead to exactly the subset reached by each named letter, with the rho targets of members that do not name it, and by every unnamed one. The sets gathered for them grow only before they become keys: no key ever changes |
| `Determinize.DeterminizeFsa.Gather` | sdl/Hypergraph/Determinize.hpp:427-444 | Letters and else-targets of all members, each letter in a new set of its own, the alphabet complete before rho is treated |
| `Determinize.DeterminizeFsa.WithElse` | sdl/Hypergraph/Determinize.hpp:445-453 | In place: a letter that some members do not name also leads where their rho arcs lead |
| `Determinize.KeyedAfterAdding` | sdl/Hypergraph/Determinize.hpp:367-386 | A set that holds what no key holds can become a key: the keys stay different, and the agenda refers to keys only |
| `Determinize.DeterminizeFsa.FinishAgenda` | sdl/Hypergraph/Determinize.hpp:467-473 | Terminates: each subset is expanded once and there are at most two to the power of n |
| `Determinize.DeterminizeFsa.StatesBounded` | sdl/Hypergraph/Determinize.hpp:354-361 | No more states than subsets of the input's states |
| `Determinize.DeterminizeFsa.JoinFinals` | sdl/Hypergraph/Determinize.hpp:313-327 | No accepting subset gives the empty machine, one is final itself, more lead to a new final state by epsilon |
| `SubsetTable.UnnamedMovesElse` | sdl/Hypergraph/Determinize.hpp:431-444 | By a symbol that no member names, a subset moves exactly to its else-targets |
| `SubsetTable.SameLanguage` | sdl/Hypergraph/Determinize.hpp:301-328 | A finished table with silently joined final states accepts a word exactly when the input does |
| `SubsetTable.JoinedByLetter` | sdl/Hypergraph/Determinize.hpp:320-324 | Where the joining epsilon arcs count as letters, an accepted word is a word of the input and an epsilon |
| `SubsetTable.ElseReached` | sdl/Hypergraph/Determinize.hpp:441-444 | If a word reaches a subset, a word reaches its else-targets: some letter is named nowhere. So only subsets that words reach are made |
| `Determinize.EndingsExactly` | sdl/Hypergraph/Determinize.hpp:313-327 | With epsilon as a letter there are several accepting subsets if and only if two accepted words lead to different subsets |
| `Determinize.EpsilonAsLetterFails` | sdl/Hypergraph/Determinize.hpp:320-324 | An input for which that is so |
| `SubsetTable.OutputIsInput` | sdl/Hypergraph/Determinize.hpp:425-465 | Any path of the output, rho arcs and the last epsilon included, ends in the subset the word reaches |
| `SubsetTable.InputIsOutput` | sdl/Hypergraph/Determinize.hpp:425-465 | Every non-empty subset a word reaches is the end of an output path that spells it |
| `Determinize.ResultRight` | sdl/Hypergraph/Determinize.hpp:313-327 | A finished table and the joined final states make a determinization |
| `StateOrder.ComputeStateOrder.Start` | sdl/Hypergraph/InArcs.hpp:231-235 | Reports no back edge exactly when what the root reaches has no cycle but self-loops; then every arc but self-loops leads to an earlier place of the order. Counts at most one back edge more than the limit, and completes exactly when it counts no more than that; then the order lists each reachable state once |
| `StateOrder.ComputeStateOrder.Open` | sdl/Hypergraph/InArcs.hpp:238-275 | A visit closes what it reaches and keeps the ordering right; it gives up exactly at the first back edge above the limit |
| `Walks.OrderedIsAcyclic` | sdl/Hypergraph/InArcs.hpp:366-374 | An order with targets first shows that there is no cycle, and contains all that is reachable |
| `AcyclicBest.AcyclicBest.Compute` | sdl/Hypergraph/AcyclicBest.hpp:131-232 | Each exception and early return happens exactly under its condition. The costs and pointers are untouched unless a path is searched, and the acyclic mark is set only on success. On success the final state's cost is the least weight of a start-to-final path, infinite when there is none, whichever index is used; following pi from the final state visits a best path backwards, with prefix costs, and stops at the start state with an empty pi. The acyclic mark is set by the in-arc branch always, and by the out-arc branch exactly when what the start state reaches has no cycle, self-loops included. As a claim about the whole graph it is right if and only if the graph has no cycle, or the out-arc branch has reached a self-loop |
| `UnseenCycle.UnseenCycleIsMarked` | sdl/Hypergraph/AcyclicBest.hpp:231-240 | A graph with a cycle beside its only path: the search from either end finds the path and sets the mark |
| `Walks.CyclefreeExactly` | sdl/Hypergraph/AcyclicBest.hpp:169-171 | What a root reaches has no cycle exactly when no two states reach each other and none has a self-loop |
| `AcyclicBest.AcyclicBest.RelaxOut` | sdl/Hypergraph/AcyclicBest.hpp:196-204 | After all states are tried in topological order nothing is left to improve, and self-loops were counted exactly |
| `AcyclicBest.AcyclicBest.RelaxIn` | sdl/Hypergraph/AcyclicBest.hpp:205-213 | The same from the final state over in-arcs |
| `AcyclicBest.AcyclicBest.RecoverPath` | sdl/Hypergraph/AcyclicBest.hpp:214-229 | The pointer reversal in place: afterwards pi leads from the final state back along exactly the best path, mu there is the prefix cost, and the final state's mu is what the start state's was; fails exactly when there is no path |
| `AcyclicBest.AcyclicBest.Improve` | sdl/Hypergraph/AcyclicBest.hpp:66-97 | The head takes the cost through its tail exactly when that is strictly better; self-loops are counted |
| `AcyclicBest.AcyclicBest.ImproveTopDown` | sdl/Hypergraph/AcyclicBest.hpp:99-111 | The tail takes the cost through its head exactly when that is strictly better |
| `AcyclicBest.AcyclicBest.OrderFrom` | sdl/Hypergraph/AcyclicBest.hpp:178-186 | No back edge is reported exactly when what the root reaches is acyclic |
| `GraphPaths.RelaxedIsLeast` | sdl/Hypergraph/AcyclicBest.hpp:196-204 | A table that nothing can improve and whose pointers are right holds the least costs, for every state and costs of any sign |
| `GraphPaths.TryKeeps` | sdl/Hypergraph/AcyclicBest.hpp:91-96 | Trying one more arc of the current state keeps every pointer right and undoes no earlier relaxation |
| `GraphPaths.PiChain` | sdl/Hypergraph/AcyclicBest.hpp:91-96 | The pointers of a finite entry spell out a path of exactly that weight |
| `GraphPaths.ChainReversed` | sdl/Hypergraph/AcyclicBest.hpp:205-213 | Read backwards, a path leads the other way at the same weight |
| `BestPath.BestDerivation` | sdl/Hypergraph/BestPath.hpp:1302-1358 | Search, then build: the result unfolds to a derivation of the final state whose cost is the least of all its derivations |
| `BestPath.ThreeCosts` | sdl/Hypergraph/AcyclicBest.hpp:196-230 | On a graph without cycles and with start and final state different, the out-arc search, the in-arc search and either branch of the inside costs find the same cost at the final state, the least of all start-to-final paths; the in-arc search fails exactly when there is none |
| `BestPath.TreeIsPath` | sdl/Hypergraph/BestPath.hpp:1308-1358 | Every derivation in a graph is a start-to-state path of the same cost, so least path and least derivation are one |
| `BestPath.BackIsTree` | sdl/Hypergraph/BestPath.hpp:1308-1358 | Pointers that lead back to the start state describe a derivation that costs what mu says |
| `BuildDerivation.BuildDerivation.Derivation` | sdl/Hypergraph/BestPath.hpp:1318-1327 | Terminates even on pointers with cycles, with at most one node a state; the finished memo unfolds to the tree that pi describes whenever pi describes one |
| `BuildDerivation.BuildDerivation.BuildOneNode` | sdl/Hypergraph/BestPath.hpp:1330-1357 | One step off the stack makes the node if it is new and fills the waiting slot; every other slot stays right or pending |
| `BuildDerivation.FinishedUnfolds` | sdl/Hypergraph/BestPath.hpp:1335-1356 | With nothing pending, the shared nodes unfold to the tree that pi describes |
| `InsideCosts.InsideCosts` | sdl/Hypergraph/InsideCosts.hpp:50-93 | For every unlabelled state but the start state, the least cost from the start state; the start state's own entry stays infinite. The branch for immutable graphs, which skips one state, gives the same |
| `InsideCosts.ReverseTopological` | sdl/Hypergraph/InsideCosts.hpp:32-47 | In an acyclic graph without self-loops the states come out targets first, each once, although the start state is never marked as opened |
| `InsideCosts.PassOver` | sdl/Hypergraph/InsideCosts.hpp:66-77 | The heads of all arcs out of one state are lowered in place |
| `InsideCosts.LastHasNoArcs` | sdl/Hypergraph/InsideCosts.hpp:78-90 | The state that the immutable branch never looks at has no arcs |
| `Empty.Reach.constructor` | sdl/Hypergraph/Empty.hpp:81-102 | Without early stop, reached are exactly the derivable states or, in what the code takes for a graph, exactly those that the out-lists lead to from the start state, whichever of the two kinds they are; the recorded edges are exactly those of the usable arcs or, in a graph, of all arcs seen. Stopping at the final state does not change whether it is reached, and nothing listed under it is then followed |
| `Empty.Reach.UsefulFor` | sdl/Hypergraph/Empty.hpp:60-73 | Exactly the states that occur in some derivation of the goal. In a graph: if and only if first tails serve the goal in the sense of `UsefulExactly`; where the start state has no label or only first tails are listed, if and only if the arcs with a labelled first tail serve it, as in `ServedByLooseArcs` |
| `Empty.Reach.ReachState` | sdl/Hypergraph/Empty.hpp:143-154 | Counting down once for each mention of a state, repeated tails included, an arc counts as usable exactly when all its tails are reached |
| `Empty.Reach.ReachGraph` | sdl/Hypergraph/Empty.hpp:121-132 | Every arc listed under a reached state is followed and recorded |
| `Empty.DfsColor` | sdl/Util/GraphDfs.hpp:48-58 | Exactly the vertices the start vertex can reach |
| `Empty.IsEmpty` | sdl/Hypergraph/Empty.hpp:166-174 | Empty exactly when the quick test says so or the search does not find the final state; right if and only if the input is not one of those that are misjudged |
| `Empty.IsEmptyExactly` | sdl/Hypergraph/Empty.hpp:166-174 | When the answer is wrong, by arcs alone. In a graph: exactly for a final state that first tails do not lead to from the start state, and that either is labelled or derived from an arc with labelled tails only, or, where all tails are listed, is led to from an arc that has the start state as a further tail, but not both. Otherwise only if final and start state differ: with in-arcs, exactly for a labelled final state that is the head of no arc; without, exactly for a final state with a derivation (with one that does without the start state, where all tails are listed) although the start state is the first tail (any tail) of no arc |
| `Empty.PrunedByArcs` | sdl/Hypergraph/src/HypergraphBase.cpp:196-207 | When the quick test fires, by arcs alone, for each kind of storage |
| `Empty.PrunedByInArcs` | sdl/Hypergraph/src/HypergraphBase.cpp:196-207 | Where in-arcs are stored, the quick test rejects a derivable final state only if it is labelled |
| `Empty.PrunedByOutArcs` | sdl/Hypergraph/src/HypergraphBase.cpp:196-207 | Where all tails are listed, it rejects a derivable final state exactly if that has a derivation without the start state |
| `Empty.PrunedGraph` | sdl/Hypergraph/src/HypergraphBase.cpp:196-207 | In a graph it rejects nothing that the search would find |
| `EmptinessExamples.LooseArcIsMissed` | sdl/Hypergraph/src/IsGraphArc.ipp:48-85 | An arc with one tail, a labelled one, makes a graph for the code. The final state is then derivable but counts as not reached, and the hypergraph as empty |
| `EmptinessExamples.LaterStartIsFollowed` | sdl/Hypergraph/HypergraphCopyBasic.hpp:278-282 | An arc over an underivable state and a labelled start state, listed under both: the final state has no derivation but counts as reached, and the hypergraph as not empty |
| `EmptinessExamples.LaterStartIsNoUse` | sdl/Hypergraph/Empty.hpp:60-73 | And a state that no derivation uses counts as useful |
| `EmptinessExamples.LooseTailIsMissed` | sdl/Hypergraph/Empty.hpp:60-73 | The goal is found along one arc, but the label that another one needs does not count as useful |
| `EmptinessExamples.PrunedEmptyCanBeWrong` | sdl/Hypergraph/src/HypergraphBase.cpp:196-207 | A hypergraph that is no graph, stored by out-arcs, whose start state is idle: it has a derivation and is called empty |
| `EmptinessExamples.PrunedStartIsNeeded` | sdl/Hypergraph/src/HypergraphBase.cpp:196-207 | Listed under first tails only: called empty although the start state is even needed for the derivation |
| `Derivability.UsefulIffConnected` | sdl/Hypergraph/Empty.hpp:134-141 | A state occurs in some derivation of the goal exactly when the edges of usable arcs lead from the goal to it |
| `ReachCounting.AllCounted` | sdl/Hypergraph/Empty.hpp:143-154 | When every mention of a reached state is counted, the reached set is closed under the arcs, so it is the least fixpoint |
| `ReachCounting.CountedDownIsUsable` | sdl/Hypergraph/Empty.hpp:113-116 | A counter at zero means that every tail is derivable |
| `ReachCounting.IsGraphArcImpl` | sdl/Hypergraph/src/IsGraphArc.ipp:33-85 | The way through the tails decides: the head unlabelled, all tails but the first labelled, and with two tails the first one not; the mark for finite-state machines stays only for those with two tails |
| `ForwardSearch.ForwardReached` | sdl/Hypergraph/Empty.hpp:121-132 | When every mention of a reached state has been followed, all that the lists lead to has been reached |
| `ForwardSearch.MeetsExactly` | sdl/Hypergraph/Empty.hpp:121-132 | In a graph the search meets what first tails lead to from the start state and, where all tails are listed, from an arc that has the start state as a further tail; nothing else |
| `ForwardSearch.GraphDerivable` | sdl/Hypergraph/src/IsGraphArc.ipp:33-85 | In what the code takes for a graph a state is derivable exactly when it is labelled or first tails lead to it from the start state or from an arc all of whose tails are labelled |
| `ForwardSearch.ShortcutMissesNothing` | sdl/Hypergraph/src/IsGraphArc.ipp:33-85 | The shortcut reaches every derivable unlabelled state if and only if it reaches the head of every arc with a labelled first tail |
| `ForwardSearch.ShortcutInventsNothing` | sdl/Hypergraph/HypergraphCopyBasic.hpp:278-282 | All it reaches is derivable if and only if the heads of the arcs that list the start state as a further tail are, and all arcs it sees are usable if and only if their first tails are derivable, by labels and first tails alone |
| `GraphUse.UsefulExactly` | sdl/Hypergraph/Empty.hpp:60-73 | In a graph the states taken for useful are the useful ones if and only if, following first tails: a labelled goal is the start state; a goal led to from an arc with a labelled first tail is met; of the arcs that lead to the goal, those with the start state as a listed further tail have a supported first tail; and the tails of those that labels alone make usable are tails of arcs that are seen and lead to the goal |
| `GraphUse.ServedByLooseArcs` | sdl/Hypergraph/Empty.hpp:60-73 | Where the start state has no label or only first tails are listed, that comes to: each arc with a labelled first tail that leads to the goal has a head that first tails reach, and its tails are tails of arcs followed from there that lead to the goal |
| `GraphUse.ConnectedIffShown` | sdl/Hypergraph/Empty.hpp:134-141 | Recorded edges lead from the goal to exactly the tails of those recorded arcs from which first tails lead to the goal |
| `AllPairs.AllPairsSortedDag.Compute` | sdl/Hypergraph/AllPairsShortestDistance.hpp:222-255 | Succeeds exactly when every arc leads to a greater state, although targets are compared with the row's source only; then every entry is the semiring sum over all paths of the products of their arcs, and each row's last non-zero state is reported |
| `AllPairs.AllPairsSortedDag.From` | sdl/Hypergraph/AllPairsShortestDistance.hpp:229-253 | One row, in place: complete sums in a sorted graph, otherwise a failure at the latest in the row of the offending arc's source |
| `AllPairs.AllPairsSortedDag.Via` | sdl/Hypergraph/AllPairsShortestDistance.hpp:241-251 | Extending the paths through one state never touches entries already final |
| `PathSums.OneListIsEnough` | sdl/Hypergraph/AllPairsShortestDistance.hpp:91-131 | The sum over all paths does not depend on the order in which they are listed |
| `PathSums.IntoEnumerates` | sdl/Hypergraph/AllPairsShortestDistance.hpp:229-253 | The order in which the rows grow lists every path exactly once |
| `FloydWarshall.FloydWarshall` | sdl/Hypergraph/AllPairsShortestDistance.hpp:98-106 | With no negative cycle every entry ends as the least weight of a path from row to column state |
| `FloydWarshall.FloydWarshallOverMatrix` | sdl/Hypergraph/AllPairsShortestDistance.hpp:69-89 | The same from any seeded matrix, updated in place |
| `FloydWarshall.RelaxRow` | sdl/Hypergraph/AllPairsShortestDistance.hpp:75-87 | One row by way of one state, while the row is read and rewritten: the entries are the better of old and detour over the old matrix, and no other row changes |
| `FloydWarshall.FloydWarshallInit` | sdl/Hypergraph/AllPairsShortestDistance.hpp:44-58 | Ones on the diagonal, then every arc's weight added: each entry is the weight of a path and no more than any single arc |
| `FloydWarshall.RoundKeepsTriangle` | sdl/Hypergraph/AllPairsShortestDistance.hpp:69-89 | After round k no detour over the first k+1 states is shorter than the entry |
| `FloydWarshall.NegativeCycleHasNoLeast` | sdl/Hypergraph/AllPairsShortestDistance.hpp:69-89 | Where a negative cycle passes through a state there is no least cost to find, so the condition is needed |
| `FloydWarshall.BothOnSorted` | sdl/Hypergraph/AllPairsShortestDistance.hpp:222-255 | Runs both algorithms: the quadratic one succeeds exactly on topologically sorted graphs, and then, with costs of any sign, both fill in the same table of least costs |
| `FloydWarshall.SortedHasNoCycle` | sdl/Hypergraph/AllPairsShortestDistance.hpp:215-220 | A sorted graph has no negative cycle |
| `FloydWarshall.MinPlusIsLawful` | sdl/Hypergraph/AllPairsShortestDistance.hpp:75-87 | Least cost with addition is a semiring in the sense the sums need |
| `Binarize.Binarizer.LeftBranchingBinarize` | sdl/Hypergraph/Binarize.hpp:151-167 | Every original state has the same derivations before and after, one for one, with the same yield and cost; each fresh state has exactly one in-arc; every arc is stored once. Always: the first piece has at most three tails, later ones exactly two. One lexical: each later piece begins with the lexical tail it was cut off for and has no other; the first piece ends where, after the first tail, a second lexical one comes; every arc ends with at most one lexical tail if and only if no arc had a lexical first tail and another lexical one |
| `Binarize.Binarizer.BinarizeSingleArcDeferAdditional` | sdl/Hypergraph/Binarize.hpp:109-132 | Cutting up one arc in place: the arc keeps its weight and first tails, the further pieces have weight one, other arcs are untouched |
| `Binarize.CutKeeps` | sdl/Hypergraph/Binarize.hpp:121-131 | One more cut at a fresh state keeps all derivations and gives that state its single in-arc |
| `Binarize.LexicalAfterwards` | sdl/Hypergraph/Binarize.hpp:59-70 | The condition for at most one lexical tail per arc, both directions; the policy never looks at the first tail |
| `Binarize.BothStayLexical` | sdl/Hypergraph/Binarize.hpp:113-124 | An arc whose two lexical tails both stay |
| `SplitArc.SplitKeepsDerivations` | sdl/Hypergraph/Binarize.hpp:121-131 | Splitting an arc in two at a fresh state: derivations of the old states correspond one to one, with yields and costs |
| `SplitArc.FoldRight` | sdl/Hypergraph/Binarize.hpp:121-131 | A derivation goes over to the split hypergraph and comes back unchanged |
| `SplitArc.UnfoldRight` | sdl/Hypergraph/Binarize.hpp:121-131 | A derivation of an old state in the split hypergraph comes from one of the original |
| `Concat.Concat.Inplace` | sdl/Hypergraph/Concat.hpp:70-101 | The result accepts a word at a cost exactly when the word is one of the left machine followed by one of the right and the costs add up, also when either machine is empty; when one is seen to be empty the result has no arcs. Fails exactly when the right machine lacks a start state and has not been seen to be empty |
| `Concat.Concat.InplaceFsm` | sdl/Hypergraph/Concat.hpp:85-101 | With start and final states given: the result's arcs are the left machine's, the bridge if there is one, and copies of the right machine's; there is none exactly when the option is set and not both kinds of arcs are there |
| `FsmEmpty.EmptyIffNoPath` | sdl/Hypergraph/Concat.hpp:75-84 | For finite-state machines, with lists of either kind, the emptiness test is right: it fires exactly when no path leads from start to final state; the quick test fires only then |
| `Concat.Concat.MeetStart` | sdl/Hypergraph/Concat.hpp:92-98 | States are merged exactly when the option is set and not both the left final state has out-arcs and the right start state in-arcs; otherwise an epsilon arc is added |
| `Concat.JoinedPaths` | sdl/Hypergraph/Concat.hpp:92-101 | The accepting paths are exactly: a path of the left machine, the bridge, a path of the right machine; words and weights are put together |
| `Concat.SplitsOnce` | sdl/Hypergraph/Concat.hpp:92-101 | Each accepting path splits in one way only, so path counts multiply as well |
| `Concat.UnsafeMergeAddsPaths` | sdl/Hypergraph/Concat.hpp:92-96 | Merging where both kinds of arcs can be used gives an accepting path that is no concatenation: the test is needed |
| `Concat.Concat.StateFor` | sdl/Hypergraph/StateIdTranslation.hpp:271-286 | A state of the right machine is named once, by a fresh state |
| `Concat.Concat.CopyArcs` | sdl/Hypergraph/HypergraphCopy.hpp:58-73 | Every arc of the right machine is copied between the names of its states; earlier arcs stay |
| `Concat.Concat.TransferLabels` | sdl/Hypergraph/StateIdTranslation.hpp:357-373 | Every labelled state of the right machine is named and has its label; labels of old states stay |
| `Concat.Concat.AddArcFsa` | sdl/Hypergraph/IMutableHypergraph.hpp:298-302 | An arc over a new state labelled epsilon |
| `Concat.CountOutArcs` | sdl/Hypergraph/Adjacency.hpp:36-45 | The number of arcs with the state as first tail, zero exactly when there is none |
| `Concat.CountInArcs` | sdl/Hypergraph/Adjacency.hpp:25-33 | The number of arcs that lead to the state, zero exactly when there is none |
| `DerivationHg.RoundTrip` | sdl/Hypergraph/Derivation.hpp:858-953 | Translating an acyclic, possibly sharing derivation and reading it back never throws and finds no second derivation; the result is the original's one unfolding with equal labels, arc weights, total cost and yield. Only a lone axiom without a final state is refused. Read as a whole hypergraph the result is the same, except null exactly for a lone axiom whose hypergraph has different start and final states |
| `DerivationHg.RejectedExactly` | sdl/Hypergraph/Derivation.hpp:936-940 | The quick test that comes first rejects the new hypergraph exactly for such a lone axiom |
| `DerivationHg.ToSingleDerivationHypergraph.ComputeOnceDfs` | sdl/Hypergraph/Derivation.hpp:771-791 | Each node is visited once, so sharing is kept; what stands for a child has one in-arc, the copy of its arc |
| `DerivationHg.ToSingleDerivationHypergraph.TranslateToSingleDerivationHypergraph` | sdl/Hypergraph/Derivation.hpp:858-877 | Final and start state of the new hypergraph stand for the derivation's root and the old start state; fails exactly for a lone axiom without a final state |
| `DerivationHg.ToSingleDerivationHypergraph.Open` | sdl/Hypergraph/Derivation.hpp:827-833 | A node met for the first time gets a state of its own |
| `DerivationHg.ToSingleDerivationHypergraph.Close` | sdl/Hypergraph/Derivation.hpp:840-842 | The finished arc is added when all its tails stand for the children |
| `DerivationHg.ToSingleDerivationHypergraph.AxiomState` | sdl/Hypergraph/Derivation.hpp:817-822 | Each axiom of the old hypergraph has one state, with its label |
| `DerivationHg.ReadBack` | sdl/Hypergraph/Derivation.hpp:858-877 | Any derivation in the new hypergraph is the old derivation's unfolding, up to names |
| `DerivationHg.FinishedIsTame` | sdl/Hypergraph/Derivation.hpp:890-914 | In the new hypergraph every state that is no axiom has exactly one in-arc, and the arcs have no cycle |
| `DerivationHg.IsomorphicCost` | sdl/Hypergraph/Derivation.hpp:213-227 | Isomorphic derivations have equal cost and yield |
| `SingleDerivation.Reader.ReadState` | sdl/Hypergraph/Derivation.hpp:890-914 | For any hypergraph: what is returned is the only derivation of the state. Reading succeeds exactly when of the states that only in-arcs lead down to none is the head of no arc or of two, or leads down to itself; and each exception names what one of them is |
| `SingleDerivation.ReadFinal` | sdl/Hypergraph/Derivation.hpp:936-953 | Stored by in-arcs: what is returned is the only derivation of the final state. Null when the quick test says empty; otherwise each failure means what it means for `ReadState`, and null or a cycle that the final state has no derivation |
| `SingleDerivation.FailureMeansNone` | sdl/Hypergraph/Derivation.hpp:890-914 | A state below without in-arcs, or one that leads down to itself: nothing derives the state above |
| `FeatureWeights.PlusBy` | sdl/Hypergraph/ExpectationWeight.hpp:115-155 | In probability space every branch gives (p+q, r+s) for a feature, if and only if the operand that is skipped as impossible has no expectation for it; nothing seen through any other weight changes |
| `FeatureWeights.ImpossibleIsDropped` | sdl/Hypergraph/ExpectationWeight.hpp:117-124 | An impossible summand's expectation is lost, so the sum is not the semiring's |
| `FeatureWeights.TimesBy` | sdl/Hypergraph/ExpectationWeight.hpp:163-203 | Every branch gives (pq, ps+qr) for a feature under the analogous condition, both directions; nothing seen through any other weight changes |
| `FeatureWeights.ImpossibleIsKept` | sdl/Hypergraph/ExpectationWeight.hpp:163-170 | An impossible factor's expectation is not multiplied |
| `FeatureWeights.Multiply` | sdl/Hypergraph/ExpectationWeight.hpp:171-201 | The general case, with the two maps shared, aliased or separate |
| `FeatureWeights.Plus` | sdl/Hypergraph/ExpectationWeight.hpp:206-212 | A new weight with the sum, for a feature exactly under that condition and so for all features of proper weights; the summands do not change |
| `FeatureWeights.Times` | sdl/Hypergraph/ExpectationWeight.hpp:216-222 | A new weight with the product, likewise; the factors do not change |
| `FeatureWeights.ExpectationIsLawful` | sdl/Hypergraph/ExpectationWeight.hpp:60-85 | The pure operations form a commutative semiring |
| `FeatureWeights.TakeMinTimesBy` | sdl/Hypergraph/FeatureWeightTpl.hpp:310-315 | Costs add and features add pointwise in every branch, the shared and the self-aliased map included; nothing seen through any other weight changes |
| `FeatureWeights.FeatureWeight.OwnMap` | sdl/Hypergraph/FeatureWeightTpl.hpp:384-389 | The map is copied only if another weight holds it; afterwards no other weight holds this map, and every feature reads as before |

## Left out

- Compose.EarleyParser.BuildChart: costs are naturals with min and plus, so weights of other semirings are not covered. The grammar has a final state, which the caller has checked (sdl/Hypergraph/Compose.hpp:900-906), and it is not an axiom.
- AcyclicBest.AcyclicBest.Compute: with no back edges allowed; for a positive limit on a cyclic graph the pointers need not lead back to the start state. Negative self-loops are excluded, because the code does not count self-loops as back edges. Entries of labelled states are not described. The start and final state and all first tails are unlabelled, as documented for graphs; so too in the inside costs and the best derivation.
- AcyclicBest.AcyclicBest.RecoverPath: the rounding check that compares the recovered cost with the search's is exact equality here.
- InsideCosts.InsideCosts: acyclic graphs without self-loops; the colours share the float buffer in the code and are an array of their own here.
- Empty.Reach.UsefulFor: boost's depth-first search is replaced by `DfsColor`, stated as plain reachability.
- AllPairs.AllPairsSortedDag.Compute: keeps all paths (`KeepAll`); other keep functions cut sums off early.
- FloydWarshall.FloydWarshallOverMatrix: least cost only; in semirings where adding twice matters the code counts some paths twice.
- Binarize.Binarizer.LeftBranchingBinarize: the variant that gives one-tail arcs an epsilon tail, and the copying of alignment features to later pieces, are not modelled.
- Concat.Concat.Inplace: machines, not grammars, which get a new rule over both final states instead; rho arcs have no meaning of their own here, and nonterminal labels are not kept.
- DerivationHg.RoundTrip: derivations with a child for every tail, read through in-arcs; reading a graph's derivation through out-arcs gives nodes with one child only, whose further tails the translation leaves unrenamed.
- FeatureWeights.TakeMinTimesBy: finite costs; the reference count is a look at all weights.
- Determinize.DeterminizeAlways: inputs without silent epsilon arcs. The closure loop for epsilon nests its loops the wrong way round (sdl/Hypergraph/Graph.hpp:63-69), and whether a subset accepts is looked up before it is closed (sdl/Hypergraph/Determinize.hpp:385), so nothing is claimed for it. Label states are folded into the arcs; the shortcut that copies an input that already looks deterministic is left out.
- Back pointers of the chart and the result grammar built from them.
- Lazy n-best derivations, Knuth's best-first search and the inside-outside algorithm: they rest on code outside the repository.
- Reading and writing text formats, configuration, databases, vocabularies, memory pools and logging.
