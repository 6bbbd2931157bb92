# CSC384 assignments: Futoshiki CSP, propagators, Sokoban heuristics, checkers minimax

This project models, in Dafny, the core of a set of CSC384 assignment solutions
and proves properties of that model.

- **Futoshiki model builder** (`FutoshikiCsp`, specified by `Futoshiki`).
  - An n×(2n−1) grid becomes n·n variables in row-major order. A cell holding 0
    gets the domain 1..n and a cell holding v gets [v].
  - Model 1 adds one binary not-equal constraint per row or column and per pair
    j < k. Model 2 adds one all-different constraint per row and per column.
  - Both add a binary `<` or `>` constraint wherever the grid has that marker
    between two horizontally adjacent cells.
  - Every constraint is a list of allowed tuples. Each builder is a method that
    mutates the CSP through `AddConstraint`. It is proved to append exactly a
    constraint list given by a pure function. Lemmas describe the members of
    those lists. `Futoshiki.ModelsAgree` proves that the two models accept the
    same full assignments.
- **CSP interface** (`CspBase`). The library the propagators use is not part of
  this model, so its interface is rebuilt as one `Csp` class:
  - `dom`: the initial domains;
  - `live`: the values not yet pruned;
  - `asg`: the assignments;
  - `cons`: the constraints, referred to by index.

  The module also defines what `check`, `has_support`, `get_n_unasgn`,
  `get_unasgn_vars`, `get_cons_with_var` and `cur_domain` compute.
- **Propagators** (`Propagators` for `A3/propagators.py`, `Propagators2` for the
  `has_support`-based forward checking of `A3/propagators_2.py`).
  - They cover plain backtracking checking, forward checking, the GAC work-queue
    loop and the minimum-remaining-values ordering.
  - Every propagator is a method over the `Csp` object that prunes in place.
  - Each proves that its returned list is an exact, duplicate-free record of what
    it pruned (`CspBase.Exact`). Restoring that list gives back the domains
    (`CspBase.RestoreUndoesPruning`).
  - Each also proves which values it prunes and what holds when it returns.
- **Sokoban heuristics** (`Sokoban`): the goal test, the trivial heuristic, the
  Manhattan heuristic and the zero heuristic, with the relations between them.
- **Checkers agent** (`Agent`): the piece count, the utility, depth-limited
  minimax, and the alpha-beta nodes with their cutoffs. These take an abstract
  game with a successor function, a board, a heuristic and a move, and have
  caching off.

## Model

| member | source | states |
|---|---|---|
| CspBase.Csp.constructor | A3/futoshiki_csp.py:217 | a CSP over the given variables and their domains: no constraint, nothing pruned, nothing assigned |
| CspBase.Csp.AddConstraint | A3/futoshiki_csp.py:108 | the constraint is appended to the constraint list; domains, prunings and assignments are unchanged |
| CspBase.Csp.PruneValue | A3/propagators.py:29-35 | only a value still in the domain may be pruned (never twice); exactly that value leaves the variable's domain and the total number of live values falls |
| CspBase.ConsWithVar | A3/propagators.py:86 | get_cons_with_var: exactly the constraints whose scope holds the variable, each once |
| CspBase.AllUnassigned | A3/propagators.py:197 | get_all_unasgn_vars: exactly the unassigned variables |
| CspBase.AllUnassignedSorted | A3/propagators.py:197 | the unassigned variables come in variable order |
| CspBase.Filter | A3/propagators.py:131 | cur_domain: exactly the values of the initial domain that are still current, without duplicates |
| CspBase.UnassignedIn | A3/propagators.py:114 | get_unasgn_vars: exactly the scope variables without a value |
| CspBase.HasSupportWitness | A3/propagators.py:175 | has_support holds exactly when some allowed tuple gives the variable that value and every scope variable a current value |
| CspBase.ExactTrans | A3/propagators.py:29-35 | exact prune lists of two successive pruning phases concatenate to an exact list for both |
| CspBase.RestoreUndoesPruning | A3/propagators.py:29-32 | restoring the values of an exact prune list gives back the domains as they were before propagation |
| CspBase.TotalLiveUpdate | A3/propagators.py:178 | replacing one domain changes the total number of live values by the difference in that domain's size |
| Propagators.PropBT | A3/propagators.py:80-94 | never prunes; with no new variable it succeeds; otherwise it fails exactly when some constraint on the new variable is fully assigned and its assigned values fail check |
| Propagators.BtCheck | A3/propagators.py:87-93 | a constraint is violated exactly when it has no unassigned variable and its tuple of assigned values is not allowed |
| Propagators.BtViolatedNext | A3/propagators.py:86-93 | scanning one more constraint adds exactly that constraint's violation |
| Propagators.ScopeValues | A3/propagators.py:116-128 | builds the scope's assigned values with a hole at the lone unassigned variable; filling the hole with v gives the tuple that check is called on |
| Propagators.FcConstraint | A3/propagators.py:112-138 | forward-checks one constraint with one unassigned variable: exactly the current values whose filled tuple fails check are pruned, recorded exactly |
| Propagators.PruneFailing | A3/propagators.py:131-138 | prunes exactly the listed current values whose filled tuple fails check and records each once, in domain order |
| Propagators.PropFC | A3/propagators.py:96-146 | the prune list is exact; it succeeds exactly when no seed constraint, as it was handled, left its lone unassigned variable without values; on success the domains are the start domains minus every value some seed constraint with one unassigned variable rejects, and no seed's lone variable has an empty domain; on failure the domains are those after the first k seeds, seed k is the first to leave its variable without values, only rejected values were pruned, and some current domain is empty |
| Propagators.FcSeed | A3/propagators.py:111-144 | one round of the loop takes the domains one seed further and reports false exactly when the seed has one unassigned variable and leaves it without values; a round that reports true leaves every seed handled so far with values |
| Propagators.NoWipeOnlyAt | A3/propagators.py:112-142 | pruning the lone variable of one seed, when that variable keeps a value, empties no domain of a seed handled before |
| Propagators.FcLiveNext | A3/propagators.py:112-138 | one more seed constraint with one unassigned variable x removes from x exactly the values it rejects |
| Propagators.FcLiveSame | A3/propagators.py:143-144 | a seed constraint without exactly one unassigned variable changes nothing |
| Propagators.FcLiveShrinks | A3/propagators.py:111-138 | processing more seed constraints only shrinks the domains |
| Propagators.Requeue | A3/propagators.py:185-188 | the queue keeps its order, gains exactly the missing constraints on the pruned variable, and stays duplicate-free |
| Propagators.PruneUnsupported | A3/propagators.py:175-188 | prunes one unsupported value and records it; reports wipeout exactly when the current domain becomes empty; otherwise every constraint on the variable is queued without duplicates |
| Propagators.ReviseVar | A3/propagators.py:173-188 | revising one scope variable prunes only current values without support, records them exactly, lowers the live total when it prunes and queues every constraint on the variable; it reports a wipeout exactly when it pruned and left the variable without values; if nothing is pruned every current value is supported |
| Propagators.PropGAC | A3/propagators.py:148-190 | exact prune list; no solution is lost; it fails exactly when some variable that had current values at the start has none left; on failure some domain is empty; on success every seed constraint and every constraint already consistent is consistent, so with no new variable all constraints are; already consistent domains are left alone |
| Propagators.GacEnd | A3/propagators.py:169-190 | when the queue empties, every seed constraint and every constraint consistent at the start is generalised-arc-consistent |
| Propagators.GacPosDone | A3/propagators.py:169-188 | processing one queued constraint restores the loop invariant and lowers the termination measure: the live total falls, or it stays and the queue shrinks |
| Propagators.GacNoPrune | A3/propagators.py:173-178 | revising against a consistent constraint prunes nothing |
| Propagators.KeepsNonEmptyStep | A3/propagators.py:173-188 | a revision that prunes nothing, or leaves the revised variable a value, empties no current domain |
| Propagators.GacLostValues | A3/propagators.py:180-182 | at a wipeout the emptied variable had a current value when propagation started |
| Propagators.GacWipeout | A3/propagators.py:180-182 | at a wipeout the prune list is still exact, no solution was lost and the start domains were not all consistent |
| Propagators.ReviseKeepsSolutions | A3/propagators.py:175-178 | pruning values without support never removes the value of a solution |
| Propagators.SolutionSupported | A3/propagators.py:175 | the value of a solution has support in every constraint on its variable |
| Propagators.SupportOnlyAt | A3/propagators.py:173-178 | pruning other values of the variable being revised does not change whether a remaining value has support |
| Propagators.CoversStep | A3/propagators.py:184-188 | after a prune at x and the requeue, every tracked constraint (a seed, or one consistent at the start) is still queued or consistent |
| Propagators.OrdMrv | A3/propagators.py:192-204 | None exactly when every variable is assigned; otherwise an unassigned variable of least current-domain size, and the first one of that size (strict comparison) |
| Propagators.MrvFirst | A3/propagators.py:199-202 | the running minimum of the scan is minimal over all unassigned variables and strictly below every earlier one |
| Propagators2.PropFC | A3/propagators_2.py:96-131 | the prune list is exact; it succeeds exactly when no seed constraint, as it was handled, left its lone unassigned variable without values; on success the domains are the start domains after each seed constraint with one unassigned variable removed its unsupported values, and no seed's lone variable has an empty domain; on failure this holds for the first k seeds, seed k is the first to leave its variable without values, and some current domain is empty |
| Propagators2.FcSeed | A3/propagators_2.py:111-129 | one round of the loop takes the domains one seed further and reports false exactly when the seed has one unassigned variable and leaves it without values; a round that reports true leaves every seed handled so far with values |
| Propagators2.FcConstraint | A3/propagators_2.py:112-123 | the lone unassigned variable keeps exactly its values that have support |
| Propagators2.PruneUnsupported | A3/propagators_2.py:116-123 | prunes exactly the listed current values without support and records each once, in domain order |
| Propagators2.FcStateNext | A3/propagators_2.py:116-123 | one more seed constraint replaces the lone unassigned variable's domain by its supported values |
| Propagators2.HasSupportIffCheck | A3/propagators_2.py:116-123 | with one unassigned variable and assigned values live, has_support for v is the same as check on the assigned values with v filled in |
| Propagators2.SupportedIsKept | A3/propagators_2.py:116-123 | the values has_support keeps are exactly those the check-based forward checking keeps |
| Propagators2.FcStateAgrees | A3/propagators_2.py:111-127 | when assigned values are live, the has_support-based forward checking leaves the same domains as the check-based one of A3/propagators.py |
| Futoshiki.DomsAt | A3/futoshiki_csp.py:49-61 | the variable for cell (r, c) has the domain 1..n when the cell is 0 and [v] when it holds v |
| Futoshiki.VarArray | A3/futoshiki_csp.py:65 | n rows of n variables; row r, column c holds variable r·n + c |
| Futoshiki.VarOfInjective | A3/futoshiki_csp.py:49-65 | different cells get different variables |
| Futoshiki.LineScopeWf | A3/futoshiki_csp.py:127-139 | a row or column scope has no repeated variable |
| Futoshiki.PairsOfMembers | A3/futoshiki_csp.py:96-100 | the pair tuples are exactly the (a, b) from the two domains that stand in the relation |
| Futoshiki.ProductMembers | A3/futoshiki_csp.py:141 | the product holds exactly the tuples whose component k lies in domain k |
| Futoshiki.AllDiffMembers | A3/futoshiki_csp.py:141-143 | the all-different tuples are exactly the product members of full length with pairwise distinct components |
| Futoshiki.CombosFacts | A3/futoshiki_csp.py:80 | the index pairs are exactly j < k < n, each once, n(n−1)/2 of them |
| Futoshiki.BinaryConsMembers | A3/futoshiki_csp.py:78-105 | the binary constraints of one direction are exactly one not-equal constraint per line i and pair j < k |
| Futoshiki.BinaryCount | A3/futoshiki_csp.py:78-80 | there are n·C(n,2) binary constraints per direction |
| Futoshiki.NaryConsAt | A3/futoshiki_csp.py:118-151 | one all-different constraint per line, the i-th for line i |
| Futoshiki.NaryConMeaning | A3/futoshiki_csp.py:124-143 | its scope is the whole line in order, and its tuples are exactly the all-different members of the line's domain product |
| Futoshiki.IneqAtMeaning | A3/futoshiki_csp.py:157-196 | marker `<` gives one constraint on (left, right) whose tuples are exactly the pairs with left < right; `>` gives one with left > right; any other marker gives none |
| Futoshiki.IneqConsMembers | A3/futoshiki_csp.py:157-202 | the inequality constraints are exactly those of the markers of every row |
| Futoshiki.ModelsTyped | A3/futoshiki_csp.py:208-253 | in both models every tuple has its scope's length and each component lies in its variable's domain |
| Futoshiki.NeqSatisfied | A3/futoshiki_csp.py:96-100 | a full assignment within the domains satisfies a not-equal constraint exactly when its two values differ |
| Futoshiki.LineAgree | A3/futoshiki_csp.py:141-143 | a full assignment satisfies all the not-equal constraints of a line exactly when it satisfies the line's all-different constraint |
| Futoshiki.ModelsAgree | A3/futoshiki_csp.py:208-253 | Model 1 and Model 2 accept exactly the same full assignments within the domains |
| FutoshikiCsp.ExtractVariables | A3/futoshiki_csp.py:32-68 | the domain list and the variable array of the grid; the variable of cell (r, c) has that cell's domain |
| FutoshikiCsp.SatisfyingPairs | A3/futoshiki_csp.py:96-100 | the nested loops produce exactly the pair list specified by the relation |
| FutoshikiCsp.AllDiffTuples | A3/futoshiki_csp.py:141-143 | the loop keeps exactly the all-different members of the product, in product order |
| FutoshikiCsp.AddPair | A3/futoshiki_csp.py:94-108 | appends the binary constraint on (left, right) whose tuples are the pairs in the relation |
| FutoshikiCsp.AddNeqLine | A3/futoshiki_csp.py:80-108 | appends the not-equal constraints of one line, one per pair j < k |
| FutoshikiCsp.AddBinaryLines | A3/futoshiki_csp.py:74-108 | appends exactly the binary not-equal constraints of every row (or every column) |
| FutoshikiCsp.CurDomains | A3/futoshiki_csp.py:127-137 | the current domains of a line's variables, which before any pruning are their initial domains |
| FutoshikiCsp.AddNaryLine | A3/futoshiki_csp.py:119-151 | appends the all-different constraint of one line |
| FutoshikiCsp.AddNaryLines | A3/futoshiki_csp.py:114-151 | appends exactly one all-different constraint per row (or column) |
| FutoshikiCsp.AddRowInequalities | A3/futoshiki_csp.py:158-202 | appends exactly the inequality constraints of one row's markers |
| FutoshikiCsp.AddInequalities | A3/futoshiki_csp.py:153-202 | appends exactly the inequality constraints of every row |
| FutoshikiCsp.Model1 | A3/futoshiki_csp.py:208-229 | a fresh CSP over the grid's variables whose constraints are the row, then column, not-equal constraints, then the inequalities |
| FutoshikiCsp.Model2 | A3/futoshiki_csp.py:231-253 | a fresh CSP over the same variables whose constraints are the row, then column, all-different constraints, then the same inequalities |
| Sokoban.GoalState | final-a1/solution.py:19-26 | true exactly when every box is on a storage point |
| Sokoban.TrivialHeuristic | final-a1/solution.py:56-64 | the number of boxes not on storage |
| Sokoban.AllDistances | final-a1/solution.py:46-47 | the Manhattan distance from the box to each storage point, in storage order |
| Sokoban.Manhattan | final-a1/solution.py:47 | the distance is zero exactly between equal positions |
| Sokoban.MinOf | final-a1/solution.py:49-50 | the least element: one of the list's elements and at most every element |
| Sokoban.SortedHeadIsMin | final-a1/solution.py:49-50 | the first element of a sorted permutation of a non-empty list is its minimum |
| Sokoban.Nearest | final-a1/solution.py:45-50 | the distance to some storage point, and at most the distance to every storage point |
| Sokoban.HeurManhattanDistance | final-a1/solution.py:28-52 | the sum over boxes off storage of the nearest-storage distance; storage must be non-empty when a box is off storage |
| Sokoban.UnstoredZeroIffGoal | final-a1/solution.py:56-64 | the trivial heuristic is zero exactly at goal states |
| Sokoban.ManhattanZeroIffGoal | final-a1/solution.py:43-50 | the Manhattan heuristic is zero exactly at goal states |
| Sokoban.UnstoredBelowManhattan | final-a1/solution.py:43-50 | the trivial heuristic never exceeds the Manhattan heuristic |
| Sokoban.HeurZero | final-a1/solution.py:155-157 | heur_zero: a lower bound on the trivial heuristic, and on the Manhattan heuristic wherever that is defined |
| Sokoban.HeuristicOrder | final-a1/solution.py:155-157 | zero ≤ trivial ≤ Manhattan, and all vanish at a goal |
| Agent.GetTotalPieces | A2/agent.py:8-23 | the black and red material: a man counts 1, a king 2, anything else 0 |
| Agent.RowSumZero | A2/agent.py:12-21 | a row contributes nothing to a side exactly when it holds none of its pieces |
| Agent.BoardSumZero | A2/agent.py:8-23 | a side's material is zero exactly when the board holds none of its pieces |
| Agent.ComputeUtility | A2/agent.py:26-35 | red − black for red, black − red for black, 0 for any other colour |
| Agent.UtilityZeroSum | A2/agent.py:26-35 | red's utility is the negation of black's, and a positive red utility needs a red piece on the board |
| Agent.Opponent | A2/agent.py:198-201 | the opponent of a colour is the other colour |
| Agent.MaxScanMeaning | A2/agent.py:273-279 | the max scan's value is the greatest child min value, taken by the first child attaining it |
| Agent.MinScanMeaning | A2/agent.py:218-226 | the min scan's value is the least child max value, taken by the first child attaining it |
| Agent.MaxNodeMeaning | A2/agent.py:238-288 | no move exactly at depth 0 or without successors; otherwise the value is the greatest min value of a child and the move is the first child attaining it |
| Agent.MinNodeMeaning | A2/agent.py:183-235 | no move exactly at depth 0 or without successors; otherwise the value is the least max value of a child and the move is the first child attaining it |
| Agent.MaxScanStep | A2/agent.py:273-279 | one more child replaces the best so far only when strictly greater |
| Agent.MinScanStep | A2/agent.py:218-226 | one more child replaces the best so far only when strictly smaller |
| Agent.MinimaxMaxNode | A2/agent.py:238-288 | minimax_max_node with caching off computes the max-node value and move of the game tree |
| Agent.MinimaxMinNode | A2/agent.py:183-235 | minimax_min_node with caching off computes the min-node value and move |
| Agent.SelectMoveMinimax | A2/agent.py:291-312 | None exactly when the root has no best move; otherwise the move of the successor the max node picks, the first whose min value reaches the root's max value |
| Agent.AlphaBetaMaxNode | A2/agent.py:380-439 | fail-soft: a result inside (alpha, beta) is the exact minimax value of the heuristic tree; one at or above beta is a lower bound on it; one at or below alpha an upper bound; no move exactly at a leaf |
| Agent.AlphaBetaMinNode | A2/agent.py:316-377 | the same fail-soft guarantee for the min node |
| Agent.MaxCutoff | A2/agent.py:426-428 | returning a child value at or above beta at once is a correct lower bound on the max node |
| Agent.MinCutoff | A2/agent.py:364-366 | returning a child value at or below alpha at once is a correct upper bound on the min node |
| Agent.MaxWindowStep | A2/agent.py:422-430 | raising alpha to the child value keeps the window non-empty and the running maximum a correct bound |
| Agent.MinWindowStep | A2/agent.py:360-368 | lowering beta to the child value keeps the window non-empty and the running minimum a correct bound |

## Left out

- The CSP library the propagators use is not part of this model.
  - Its interface is rebuilt from how the code uses it: variables as indices, domains as sequences, current domains as live sets.
  - Names of variables and constraints are dropped.
  - `bt_search` and its restoration of pruned values are not modelled. Only the prune list's exactness and `CspBase.Restore` stand for that contract.
- CspBase.CurDomainOf: the current domain of an assigned variable is its value while that value is live, and empty otherwise. The usual library keeps an assigned variable's `cur_domain()` at `[value]` and `cur_domain_size()` at 1 even after that value was pruned. With that library, `prop_GAC` (A3/propagators.py:174-188) finds the assigned value unsupported again on every pass, prunes it and records the same pair again, and when every variable of the violated constraint is assigned it requeues that constraint forever. The model reports a wipeout there instead, so "a value is pruned at most once" and the termination of the GAC loop can be stated.
- The thread-safe `queue.Queue` is a sequence used as a FIFO. The duplicate test `c_prime not in queue_gac.queue` is a membership test on that sequence.
- `prop_BT`, `prop_GAC` and `ord_mrv` of A3/propagators_2.py are the same code as in A3/propagators.py. They are modelled once, in `Propagators`.
- Propagators2.FcStateAgrees: the two forward checkers agree only when every assigned value is still live. If an assigned value has been pruned, `has_support` finds no support while `check` may accept.
- FutoshikiCsp.ExtractVariables: requires a well-formed grid, that is, n ≥ 1 rows of 2n−1 cells with a number in every even column. Any integer is accepted there: 0 gives the domain 1..n and any other value v the domain [v], as in the source. With n = 0 the source's `range(0, 0, 0)` step raises an error.
- Sokoban: a state is reduced to its box positions and storage positions. The sort of the distance list is modelled by its minimum (`Sokoban.MinOf`), and `Sokoban.SortedHeadIsMin` proves the two agree.
- Sokoban: `heur_alternate`, the `fval_function` variants, `compare_weighted_astars` and the anytime searches are not modelled. They involve floating point, file I/O, wall-clock time and the search engine.
- Agent: the game is abstract.
  - The successor function, the board of a state, `compute_heuristic` and the move of a state are parameters.
  - The state cache is off. It is global mutable state keyed by a board rendering and ignores the depth limit.
  - Move ordering, `GameEngine`, numpy and `select_move_alphabeta` are not modelled.
- Agent.MaxNode: the `float('inf')` sentinels are the extended integers `Agent.Ext`. The depth limit is a natural number. Colours are only `'r'` and `'b'`, because for any other colour the source leaves `opponent` unbound.
- Agent.AlphaBetaMaxNode: requires alpha < beta. The source is only ever called with such a window, and the fail-soft bound says nothing about an empty window.
- Agent.AlphaBetaMinNode: requires alpha < beta, for the same reason.
