# Circular-fragment validator, modelled in Dafny

This project models the validator in `core/utils.py` of a GraphQL server. The validator rejects a query document
whose named fragments spread each other in a circle. Expanding such fragments would never end.
It works in two stages:

1. **Dependency extraction** (`_build_fragment_dependencies`, with its inner `collect_spreads`).
   It maps each fragment definition's name to the names of the fragment spreads found anywhere in its selection tree, in document order.
   It descends into fields and inline fragments, never into spreads.
   A later definition of the same name replaces an earlier one.
2. **Cycle detection** (`_detect_cycle_dfs` and the loop in `detect_circular_fragments`).
   This is a depth-first search over that map with two sets.
   `visited` holds fully explored names.
   `stack` holds the names on the current search path.
   The search fails on the first name it meets again while that name is on `stack`.
   A spread of an undefined name counts as a name with no dependencies.

Files and modules:

- `wrappers.dfy`: `Wrappers.Outcome`, the model of "returns normally / raises". `Errors.ValidationError` is the syntax error or the circular-fragment error.
- `ast.dfy`: `Ast`, the parsed document (`Selection`, `SelectionSet`, `Definition`, `Document`) and a pre-order listing of a selection tree.
- `dependencies.dfy`: `Dependencies`, the extractor. The methods `CollectSpreads` and `BuildFragmentDependencies` are the source's loops. They are proved equal to the functions `SpreadsOf` and `FragmentDependencies`, and the lemmas there say what those functions mean.
- `graph.dfy`: `Graph`, the dependency graph. It defines edges, paths, cycles and reachability, plus lemmas about ranked, successor-closed sets of names.
- `cycle_detector.dfy`: `CycleDetector`. The class `DfsState` holds `visited` and `stack` as fields that its methods update in place. `Dfs` is `_detect_cycle_dfs`, and `DetectCycles` is the loop over the map's keys.
- `validator.dfy`: `Validator.DetectCircularFragments`, the entry point.
- `examples.dfy`: `Examples`, concrete documents: a self-spread, a two-cycle through a field and an inline fragment, a three-cycle beside an unrelated chain, and a dangling spread.

The main result is the contract of `DetectCycles`, repeated by `DetectCircularFragments`.
The detector fails exactly when the dependency graph has a cycle.
When it fails, the reported path ends with a name that also appears earlier in it, and that name lies on a cycle made only of reported names.
The proof uses ghost state in `DfsState`.
`path` lists the stack's names in the order they were entered, so from it one can read off the cycle at the moment of failure.
`finish` records the order in which names were marked visited.
Every dependency of a visited name is visited and was finished earlier, so no cycle can run through visited names.

The source reports `list(stack)` followed by the repeated name.
A Python set's iteration order is unspecified, so the model reports the stack's names once each, in an arbitrary order, then the repeated name.
When it raises, the source does not pop `stack`, because the whole search is abandoned; the model does the same.

## Model

| member | source | states |
|---|---|---|
| Dependencies.CollectSpreads | core/utils.py:34-43 | the result is the spread names of the selection set, depth first and left to right; a missing or empty selection set gives `[]` |
| Dependencies.SpreadsInPreorder | core/utils.py:34-43 | the collected names are exactly the names of the spread nodes in a depth-first, left-to-right pre-order walk of the whole selection tree, in that order |
| Dependencies.SpreadMembership | core/utils.py:38-42 | a name is collected if and only if a spread of that name occurs somewhere in the tree |
| Dependencies.SpreadsOfAppend | core/utils.py:38-43 | the spreads of two consecutive runs of selections are the first run's spreads followed by the second's (the `append`/`extend` loop) |
| Dependencies.SpreadNamesMembership | core/utils.py:39-40 | a name is among a node list's spread names if and only if a spread node of that name is in the list |
| Dependencies.BuildFragmentDependencies | core/utils.py:45-51 | the map built by the loop over definitions equals `FragmentDependencies` of the document's definitions |
| Dependencies.DependencyKeys | core/utils.py:45-50 | the map's keys are exactly the names of the fragment definitions; other definitions add nothing |
| Dependencies.LastDefinitionWins | core/utils.py:46-50 | a name defined several times maps to the spreads of its last definition |
| Graph.CycleNamesAreKeys | core/utils.py:68 | every name on a cycle is a key of the map, since a name that is not a key has no dependencies |
| Graph.DanglingNotOnCycle | core/utils.py:68 | a spread of an undefined name lies on no cycle, so it never causes an error by itself |
| Graph.SuffixIsCycle | core/utils.py:60-62 | closing a path of the graph back onto one of its own names gives a cycle from that name, made of names of the path |
| Graph.RankDecreasesAlongPath | core/utils.py:64-72 | along any path that starts in a successor-closed set whose ranks drop along every edge, the path stays in the set and the ranks keep dropping |
| Graph.ClosedContainsReachable | core/utils.py:67-72 | every name reachable from a member of such a set is in the set |
| Graph.RankedCoverAcyclic | core/utils.py:21-26 | a successor-closed, ranked set that covers every key rules out any cycle |
| Graph.CycleWithinHasCycle | core/utils.py:60-62 | a name on a cycle of reported names witnesses that the graph has a cycle |
| CycleDetector.ListNames | core/utils.py:61 | `list(stack)`: every member of the set, each exactly once, in some order |
| CycleDetector.PushKeepsPath | core/utils.py:67 | pushing a dependency of the last stacked name keeps the stack a path of the graph |
| CycleDetector.FinishKeepsOrder | core/utils.py:70-72 | marking a name visited once all its dependencies are visited keeps every visited name's dependencies visited and finished earlier |
| CycleDetector.PrefixStaysVisited | core/utils.py:68-69 | after each recursive call, every dependency explored so far is visited |
| CycleDetector.MeasureDrops | core/utils.py:67-69 | pushing a name that is neither visited nor stacked shrinks the set of unexplored names, so the recursion terminates |
| CycleDetector.DfsState.constructor | core/utils.py:21 | a fresh search state: empty `visited`, empty stack, invariant established |
| CycleDetector.DfsState.ReportCycle | core/utils.py:60-62 | the raised error lists exactly the stacked names, then the repeated name, and that name lies on a cycle of stacked names |
| CycleDetector.DfsState.Enter | core/utils.py:67 | `stack.add`: the stack gains the name, `visited` is unchanged, the invariant holds |
| CycleDetector.DfsState.Leave | core/utils.py:70-72 | `stack.remove` then `visited.add`: the stack is as before the push, `visited` gains the name, and everything reachable from it is visited |
| CycleDetector.DfsState.Dfs | core/utils.py:54-72 | on normal return, the stack is as on entry, `visited` has only grown and holds the name and all it reaches; a visited name returns at once with both sets untouched; on failure, the report holds the entry stack's names and ends with a repeated name on a cycle |
| CycleDetector.DetectCycles | core/utils.py:21-26 | the search over all keys passes if and only if the dependency graph has no cycle; a failure reports a repeated name on a cycle of reported names |
| Validator.DetectCircularFragments | core/utils.py:6-26 | empty or non-string input passes; a syntax error propagates unchanged; any other parse failure passes; a parsed document fails if and only if its fragment graph has a cycle |
| Validator.NoFragmentsNoCycle | core/utils.py:17-19 | a document without fragment definitions yields an empty, acyclic map, so it always passes |
| Examples.SelfSpreadIsCycle | core/utils.py:60-69 | `fragment A { ...A }` maps `A` to `[A]`, and `A` lies on a cycle, so it is rejected |
| Examples.TwoCycleDependencies | core/utils.py:34-51 | spreads under a field and under an inline fragment are collected; an operation between the fragments adds nothing; `A` lies on the cycle `A -> B -> A`, so the document is rejected |
| Examples.TwoCycleReportNamesBoth | core/utils.py:60-62 | every report for `A -> B -> A` names both `A` and `B` |
| Examples.LongCycleOnlyThroughABC | core/utils.py:23-26 | with `A -> B -> C -> A` beside `D -> E`, `A` is on a cycle while `D` and `E` are not |
| Examples.DanglingSpreadAcyclic | core/utils.py:68 | a spread of an undefined fragment, with no real cycle elsewhere, gives an acyclic graph, so it passes |
| Graph.NotOnCycleWhenRankedBelow | core/utils.py:64-72 | a name inside a successor-closed, ranked set of names lies on no cycle |

## Left out

- Parsing (`graphql.parse`) is a foreign library call. `DetectCircularFragments` takes it as a function parameter `parse: string -> ParseOutcome`. The outcome is a parsed document, a syntax error with its message, or any other failure.
- The graphql AST classes and the `hasattr(sel, "selection_set")` test are replaced by the `Selection` datatype. A field carries a possibly absent selection set, an inline fragment always carries one, and a spread carries none.
- The Python argument is modelled as `Text(s)` or `NotText`. Every non-string value behaves alike at the guard.
- The error message text: the model reports the names themselves, not the `" -> "`-joined message.
- The order of `list(stack)` is unspecified in Python, and `ListNames` picks an arbitrary order.
- Dict iteration order in the driver loop: `DetectCycles` visits keys in an arbitrary order. This changes which cycle is reported, never whether one is.
- The contents of `visited` and `stack` after an error are not stated. The search is abandoned then, as in the source.
- The fresh `set()` per start (core/utils.py:25) is modelled by resetting the detector's `stack` field in place. The stack is already empty at that point.
- Python's recursion-depth limit on very deep acyclic chains is not modelled.
