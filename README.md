# Graph-colouring CSP solvers in Dafny

This project models the two solvers of a graph-colouring constraint
satisfaction program. A problem has N variables `0..N-1`, K colours `0..K-1`
and a list of constraints `(a, b)`, each saying that `a` and `b` must get
different colours.

- `dfsb.py` has two backtracking searches over a shared partial assignment:
  - plain DFS-B, which assigns the variables in index order and tries the
    colours in increasing order;
  - DFS-B++, which picks the most constrained variable, orders its colours
    least-constraining first, and forward checks every tentative value, with a
    snapshot of the domains restored on backtrack.
- `minconflicts.py` has min-conflicts local search:
  - a conflict scan and a best-colour choice;
  - a bounded repair loop;
  - a restart controller that adds up the steps of all runs.

## Layout

- `wrappers.dfy`, module `Wrappers`: `Option`, standing for Python's `None` results.
- `graph.dfy`, module `Graph`: constraints, proper and total colourings,
  solutions, solvability and the lexicographic order.
- `stable_sort.dfy`, module `StableSort`: `list.sort(key=...)` as a stable
  insertion sort, with its stability proved.
- `dfsb.dfy`, module `Dfsb`: the neighbour sets, `consistent`,
  `mostConstrainedVariable` and `leastConstrainingValue`.
- `dfsb_search.dfy`, module `DfsbSearch`: class `Csp`, which owns `assignment`
  and `domains` and updates them in place; `forwardChecking`, `dfs_backtrack`,
  `dfs_backtrack_plus_plus` and the lemmas behind them.
- `minconflicts.dfy`, module `MinConflicts`: the neighbour lists,
  `conflicting_vars`, `min_conflict_color`, `min_conflicts_basic` and
  `min_conflicts_restart`.

## How the state is modelled

- The assignment dictionary is a `map<int, int>` field of `Csp`. The domains
  dictionary is a `map<int, seq<int>>` field. The searches change both in
  place, as the source does (`assignment[var] = val`, `del assignment[var]`,
  `domains[xj].remove(g)`, and the restore loop).
- The constraint list, N, K and the neighbour sets are constant fields.
- `min_conflicts_basic` works on an `array<int>`, updated in place.
  - Its meaning is the function `Walk`, which replays the loop on a sequence.
  - `Repair` is proved to leave the array holding exactly `Walk`'s final
    assignment.
- Random choices come in as oracles.
  - `init` gives the initial assignment of each run, standing for the
    `random.randint` list.
  - `pick(step)` (`pick(restart)(step)` under restarts) is taken modulo
    `len(bad)` to stand for `random.choice(bad)`.
  - Every property below holds for every oracle.

## Results worth knowing

- **DFS-B** (`Csp.Backtrack`, `SolveBasic`):
  - It is sound.
  - It is complete: it answers None exactly when no solution extends the
    entry assignment.
  - On failure it restores the assignment exactly.
  - The solution it finds is the lexicographically least solution.
- **DFS-B++** (`Csp.BacktrackPlus`, `SolvePlus`) is sound, and also complete
  when started from the initial domains.
  - `forwardChecking` answers None in the middle of a prune. The caller then
    skips the restore, so the domains stay partly pruned while the next
    colour is tried. The model keeps this behaviour: `Csp.ForwardCheck` and
    `Csp.Descend` state the exact half-pruned domains (`DeadEndPrune`), and
    `Csp.Descend` and `Csp.TryValue` state that after a failure the domains
    are back as they were exactly when no constraint emptied a domain
    (`NoEmpties`), a dead-end prune always changing them (`DeadEndChanges`).
  - This partial prune cannot make a solution be missed:
    - From the initial domains, every unassigned variable's domain holds,
      once each, exactly the colours that no assigned neighbour has taken
      (`DomainsExact`).
      Forward checking keeps this true (`PrunedExact`).
    - With exact domains, removing colour `c` can only empty a neighbour's
      domain if that neighbour had `c` as its only colour.
    - The variable being coloured was chosen with the smallest domain, so
      its domain has at most one colour too (`EmptiesNeedsSingleton`).
    - So a dead end always happens on the last colour of the loop, and the
      half-pruned domains are never seen by a sibling value.
    - The caller one level up restores its own snapshot.
  - `BacktrackPlus` therefore states: a failure from exact domains means no
    solution extends the assignment. `SolvePlus` states: None exactly when the
    problem has no solution.
- **Min-conflicts.** The conflict check runs before the reassignment in each
  iteration.
  - So a run whose last allowed reassignment removes the last conflict is
    still reported as a failure.
  - `LastStepNotChecked` shows this on a two-variable problem.

## Behaviour worth knowing

- **Forward checking on a dead end.** On a dead end, `forwardChecking` leaves
  the domains partly pruned (dfsb.py:166-168 with 206-208). The prune stops at
  the first constraint that empties a domain, and `DeadEndPrune` states
  exactly the domains it leaves. The section above explains why this does not
  cost completeness.
- **The min-conflict colour.** `min_conflict_color` does not prefer the
  current colour on a tie (minconflicts.py:48-52). It starts from the sentinel
  count `N + 1`, replaces the best colour only on a strictly smaller count,
  and so takes the lowest colour with the fewest conflicts, which may be the
  current one. The sentinel decides only when no colour has at most N
  conflicts: then the current colour is kept (`ChosenColourSpec`).

## Model

| member | source | states |
|---|---|---|
| Graph.OneColourUnsolvable | dfsb.py:26-30 | with a single colour, a problem with any constraint has no solution |
| Graph.TriangleTwoColoursUnsolvable | dfsb.py:26-30 | the triangle 0-1-2 has no two-colour solution |
| Graph.PathTwoColoursSolution | dfsb.py:26-30 | the path 0-1-2 is solved by the colours 0, 1, 0 |
| Graph.PathTwoColoursLeast | dfsb.py:66-79 | on the path 0-1-2 with two colours, the lexicographically least solution, which DFS-B answers, is exactly 0, 1, 0 |
| Dfsb.BuildNeighborSets | dfsb.py:50-53 | the neighbour map has a key for each variable 0..N-1; b is in a's set exactly when some constraint ties a and b in either order; the sets are symmetric and within 0..N-1 |
| Dfsb.IsConsistent | dfsb.py:57-65 | answers true exactly when no constraint, reading var as val, has both ends coloured with equal colours; false exactly when some constraint clashes |
| Dfsb.SelfLoopInconsistent | dfsb.py:57-65 | a self-loop (v, v) makes every colour for v inconsistent |
| Dfsb.ConsistentIffProperExtension | dfsb.py:73-74 | for a proper partial assignment without v, the consistency check accepts v := c exactly when the extended assignment is still proper |
| Dfsb.ProperRestrict | dfsb.py:57-65 | every partial assignment that a proper colouring extends is itself proper |
| Dfsb.UnassignedVars | dfsb.py:88-92 | the list holds every unassigned variable of 0..N-1 and nothing else, in strictly ascending order |
| Dfsb.MostConstrainedVariable | dfsb.py:85-104 | None exactly when all of 0..N-1 are assigned; otherwise an unassigned variable whose domain is no larger than any other unassigned variable's, and strictly smaller than those of the unassigned variables with lower index |
| Dfsb.CountConstrained | dfsb.py:130-132 | the count is the number of unassigned neighbours whose domain still holds the value |
| Dfsb.LeastConstrainingValue | dfsb.py:107-142 | the result is a permutation of domains[var], ascending by constraint count, and for every count the values with that count keep their order in domains[var] |
| Dfsb.LcvOrdering | dfsb.py:133-141 | the values read off the sorted (value, count) pairs are ascending by count and keep, for every count, the domain's order |
| Dfsb.SameClassesPermutation | dfsb.py:137-141 | two value lists that agree on the values of every count are permutations of each other |
| StableSort.SortIsStable | dfsb.py:137 | sorting by key gives a list ascending by key that is a permutation of the input, and the pairs with each key keep their input order |
| StableSort.SortSorted | dfsb.py:137 | the sorted list is ascending by key |
| StableSort.SortMultiset | dfsb.py:137 | the sorted list is a permutation of the input |
| StableSort.SortWithKey | dfsb.py:137 | for each key, the pairs with that key keep their input order |
| DfsbSearch.AssignedCount | dfsb.py:69 | len(assignment) is at most N, and equals N exactly when every variable 0..N-1 is assigned |
| DfsbSearch.WithoutMembers | dfsb.py:162-165 | removing every occurrence of a keeps exactly the other entries |
| DfsbSearch.RemoveFirstSkips | dfsb.py:165 | list.remove(a) drops the first occurrence of a only |
| DfsbSearch.PruneStep | dfsb.py:162-168 | one turn of the loop over the copy of domains[xj] either removes the occurrence of a it meets or keeps the entry, and an emptied domain means a was in it and nothing else was |
| DfsbSearch.Csp.constructor | dfsb.py:246-248 | nothing is assigned, every variable 0..N-1 has the domain list(range(K)), and those domains are exact |
| DfsbSearch.Csp.PruneColour | dfsb.py:161-168 | the domain of xj loses every occurrence of a and nothing else changes; it reports emptied exactly when a was there and nothing else was |
| DfsbSearch.Csp.PruneEdge | dfsb.py:154-168 | one turn of the constraint loop moves the domains from the prune through constraints 0..i-1 to the prune through 0..i, and reports emptied exactly when constraint i empties a domain |
| DfsbSearch.Csp.ForwardCheck | dfsb.py:147-169 | a snapshot comes back exactly when no constraint empties a domain, and then it equals the entry domains and the domains are pruned through every constraint; on None the domains are pruned up to and including the first constraint that empties one, and no further; domains only shrink |
| DfsbSearch.PrunedAt | dfsb.py:154-169 | after constraints 0..m-1, a is gone from exactly the domains those constraints reach from xi, and every other domain is unchanged |
| DfsbSearch.PrunedEffect | dfsb.py:151-169 | a full forward check removes a from the domain of every unassigned neighbour of xi and leaves every other domain unchanged, assigned variables included |
| DfsbSearch.PruneOutcome | dfsb.py:154-168 | one constraint's step prunes the variable it reaches, and empties its domain exactly when the dead-end condition holds for that constraint |
| DfsbSearch.PrunedInRange | dfsb.py:154-169 | forward checking only removes colours, so the domains stay within 0..N-1 and [0, K) |
| DfsbSearch.DeadEndPruneUnique | dfsb.py:154-168 | the domains a dead-end forward check leaves are determined by the entry domains, because only the first emptying constraint counts |
| DfsbSearch.DeadEndChanges | dfsb.py:165-168 | a dead-end prune never leaves the domains as they were: the domain it empties held the value |
| DfsbSearch.DeadEndAt | dfsb.py:166-168 | stopping at the first constraint that empties a domain leaves the dead-end prune, with domains that only shrank |
| DfsbSearch.ReachedIffAdjacent | dfsb.py:155-159 | with xi assigned, some constraint reaches the unassigned u from xi exactly when u is a neighbour of xi |
| DfsbSearch.Csp.Backtrack | dfsb.py:67-80 | with keys 0..len-1 assigned properly, true gives a solution extending the entry assignment that is lexicographically least among all of them; false restores the assignment and holds exactly when no solution extends it |
| DfsbSearch.UndoAssign | dfsb.py:74-79 | del assignment[var] after assignment[var] = val gives the entry assignment back |
| DfsbSearch.CompleteIsLeast | dfsb.py:69-70 | a complete assignment is the least solution extending itself |
| DfsbSearch.LexAfterFailures | dfsb.py:72-77 | when every colour below val leads nowhere, the least solution of the branch var := val is the least solution extending the assignment |
| DfsbSearch.LexFromChild | dfsb.py:72-77 | the least solution of branch var := val precedes every solution extending the assignment whose colour for var is at least val |
| DfsbSearch.ColoursFailed | dfsb.py:72-80 | a failed colour joins the colours already known to lead nowhere |
| DfsbSearch.SolvableSomeColour | dfsb.py:72-80 | if a solution extends the assignment, some colour in [0, K) for the next variable extends to one |
| DfsbSearch.SolvableConsistent | dfsb.py:73 | a colour the consistency check rejects leads to no solution |
| DfsbSearch.Csp.BacktrackPlus | dfsb.py:172-210 | true gives a solution extending the entry assignment; false leaves the assignment as on entry and, from exact domains, means that no solution extends it; domains only shrink |
| DfsbSearch.Csp.TryValue | dfsb.py:195-209 | one value of the loop: a success is a solution extending the assignment; a failure restores the assignment; the domains are unchanged exactly when val is inconsistent or no constraint empties a domain, and otherwise are the dead-end prune of var := val, left unrestored; from exact domains in which var's is smallest, a failure means var := val leads nowhere and the domains are restored unless var had at most one value |
| DfsbSearch.Csp.Descend | dfsb.py:199-208 | forward check, recursion and restore after var := val: on failure the domains are back as they were exactly when no constraint empties a domain, and are otherwise the dead-end prune, not restored |
| DfsbSearch.SolutionInDomain | dfsb.py:194-195 | from exact domains, every solution extending the assignment gives each unassigned variable a colour its domain still holds |
| DfsbSearch.SolvableSomeValue | dfsb.py:194-209 | from exact domains, if a solution extends the assignment, one of the values the heuristic order yields extends to one |
| DfsbSearch.SolvableNoEmpties | dfsb.py:166-168 | if var := val extends to a solution, forward checking from exact domains empties no domain |
| DfsbSearch.EmptiesNeedsSingleton | dfsb.py:166-168 | from exact domains, a forward check of the most constrained variable can only empty a domain when that variable had at most one value |
| DfsbSearch.DeadEnd | dfsb.py:199-209 | a dead-end forward check of the most constrained variable, from exact domains, means that value leads nowhere and the variable had at most one value |
| DfsbSearch.BlockedAfterAssign | dfsb.py:196 | after var := val, the colours taken from u's neighbours are the old ones, plus val when u is a neighbour of var |
| DfsbSearch.PrunedExact | dfsb.py:199-201 | forward checking from exact domains gives exact domains for the extended assignment |
| DfsbSearch.ValuesFailed | dfsb.py:194-209 | a failed value joins the values already known to lead nowhere |
| DfsbSearch.ShrunkTrans | dfsb.py:201 | domains that shrank twice have shrunk |
| DfsbSearch.SolveBasic | dfsb.py:232 | DFS-B from the empty assignment answers a solution exactly when one exists, and that solution is the lexicographically least one |
| DfsbSearch.SolvePlus | dfsb.py:246-255 | DFS-B++ from the empty assignment and the full domains answers a solution exactly when one exists |
| MinConflicts.BuildNeighborLists | minconflicts.py:30-33 | one list per variable 0..N-1, holding the other ends of that variable's constraints in constraint order |
| MinConflicts.NbrsMembers | minconflicts.py:30-33 | b is on a's list exactly when some constraint ties a and b |
| MinConflicts.NbrsSymmetric | minconflicts.py:30-33 | b occurs on a's list exactly as often as a occurs on b's list |
| MinConflicts.NbrsInRange | minconflicts.py:30-33 | every list entry is a variable 0..N-1 |
| MinConflicts.ConflictListSpec | minconflicts.py:36-44 | the conflict list holds exactly the variables that have a neighbour of the same colour, strictly ascending, so each once |
| MinConflicts.ConflictingVars | minconflicts.py:36-44 | the loops with their early break compute that conflict list |
| MinConflicts.ConflictFreeIffSolution | minconflicts.py:58-60 | an empty conflict list means exactly that the assignment is a solution of the constraints |
| MinConflicts.ConflictsBound | minconflicts.py:50 | a colour's conflict count is at most the length of the neighbour list |
| MinConflicts.ScanSpec | minconflicts.py:49-52 | the colour loop ends on the lowest colour with the fewest conflicts when that count beats the running best, and keeps the running best otherwise |
| MinConflicts.ChosenColourSpec | minconflicts.py:46-53 | if some colour has at most N conflicts, the choice is the lowest colour of [0, K) with the fewest conflicts; otherwise the current colour is kept |
| MinConflicts.ChosenColourChooses | minconflicts.py:46-53 | with K at least 1 and a neighbour list no longer than N, the choice is the lowest colour of [0, K) with the fewest conflicts |
| MinConflicts.ChosenColourInRange | minconflicts.py:46-53 | the chosen colour is in [0, K) whenever the current one is |
| MinConflicts.MinConflictColor | minconflicts.py:46-53 | the loop computes that choice |
| MinConflicts.ReassignSpec | minconflicts.py:61-62 | a step changes only the chosen variable's colour, keeps the length N and keeps every colour in [0, K) |
| MinConflicts.WalkSpec | minconflicts.py:57-63 | a run keeps length N and colours in [0, K); a success is conflict-free after fewer than max_steps reassignments; a failure has made all max_steps of them |
| MinConflicts.WalkSolves | minconflicts.py:57-60 | an assignment a run returns solves the problem |
| MinConflicts.LastStepNotChecked | minconflicts.py:57-63 | two adjacent variables coloured 0 with one step allowed: the step leaves them conflict-free, yet the run reports failure |
| MinConflicts.Repair | minconflicts.py:57-62 | the in-place loop leaves the array holding the run's final assignment and answers its outcome and step count |
| MinConflicts.MinConflictsBasic | minconflicts.py:55-63 | answers the run's assignment when it succeeds and None otherwise |
| MinConflicts.RestartsFirstSuccess | minconflicts.py:73-86 | when restart q is the first to succeed, the answer is its assignment and q * max_steps plus its own step count |
| MinConflicts.RestartsAllFail | minconflicts.py:95-97 | when every restart fails, the answer is None and max_restarts * max_steps |
| MinConflicts.MinConflictsRestart | minconflicts.py:68-97 | the loop answers what the restart controller specifies: the first successful run with the aggregated steps, or None with max_restarts * max_steps |

## Left out

- Command-line parsing, reading the input file and writing the output file
  (dfsb.py:13-39, 231-274; minconflicts.py:11-27, 101-134). N, K and the
  constraint list are parameters, and the constraint endpoints are required
  to lie in 0..N-1; the source would raise a KeyError on other endpoints.
- Timing with `time.perf_counter` (dfsb.py:251-259; minconflicts.py:114-119).
  This is wall-clock time and floating point.
- Memory measurement with `sys.getsizeof` (dfsb.py:214-226;
  minconflicts.py:70, 77-79, 90-93). It is a foreign runtime call with no
  effect on the search, so `min_conflicts_restart` answers only the solution
  and the step count.
- The `statesExplored` counter (dfsb.py:173-174). It does not affect the
  search.
- The random generator. `random.randint` and `random.choice` are oracle inputs
  (`init`, `pick`). With K = 0 `random.randint(0, -1)` raises; the oracle
  model does not capture that error.
- The default arguments `max_steps=500000` and `max_restarts=100`
  (minconflicts.py:55, 68). The bounds are the parameters `maxSteps` and
  `maxRestarts`, and every property holds for all values of them.
- Python's recursion limit is not modelled. `dfs_backtrack` and
  `dfs_backtrack_plus_plus` recurse once per variable (dfsb.py:74, 201), so
  the source raises RecursionError once N nears CPython's default limit of
  1000 frames; the model's recursion is unbounded and `SolveBasic` and
  `SolvePlus` answer for every N.
- Any claim that min-conflicts converges. It is probabilistic and does not
  follow from the code.
- DfsbSearch.Csp.BacktrackPlus: the `if var is None: return None` branch
  (dfsb.py:182-183) is not modelled. It cannot be taken, because the length
  test before it already returns when every variable is assigned.
- DfsbSearch.Csp.BacktrackPlus: completeness is stated only from exact
  domains. The initial domains are exact, so `SolvePlus` is complete.
- DfsbSearch.Csp.TryValue and DfsbSearch.Csp.Descend: they are the body of
  the value loop of `dfs_backtrack_plus_plus`, split into methods of their
  own. The order of operations is unchanged.
- MinConflicts.MinConflictsRestart: the source repeats the loop body of
  `min_conflicts_basic`, apart from the memory reads. The model runs the
  same `Repair` method for both.
- MinConflicts.Repair: the draws are read as `pick(step) % len(bad)`, which
  covers every choice `random.choice` can make. Uniformity is not modelled.
