# A verified model of a binary CSP solver

This project models a small constraint-satisfaction library written in
Python and proves properties of the model. The library has four parts:

- **The problem object.** A mutable `ConstraintSatisfactionProblem`. Its
  variables are `0..n-1`, its domains are sets of integers, and each directed
  arc `(i, j)` may carry a compatibility table of allowed value pairs. Each
  variable also keeps a cached set of neighbours.
- **The solver.** AC-3 arc consistency, the MRV, degree and MRV+degree
  variable heuristics, least-constraining-value (LCV) ordering, the
  two-direction local consistency test, and recursive backtracking search.
- **Circuit-board layout.** Rectangular parts are placed on a `W x H` board
  without overlap. Each part is one variable, its values are placement ids,
  and every pair of parts carries a non-overlap table. There is also an
  ASCII renderer.
- **Map colouring.** Regions are variables and colours are `1..k`. Each
  border carries an all-different edge. The Australia example is included.

The Dafny modules follow the Python files:

| module | file | contents |
|---|---|---|
| `Wrappers` | `wrappers.dfy` | `Option`, `Result` and `Outcome` |
| `Collections` | `collections.dfy` | ranges, a set-to-sequence walk in arbitrary order, total domain size |
| `Csp` | `csp.dfy` | `Assignment`, the tables as values, and the class `Problem` |
| `Ac3` | `ac3.dfy` | AC-3 |
| `Heuristics` | `heuristics.dfy` | the heuristics |
| `Backtracking` | `backtracking.dfy` | the search |
| `CircuitBoard` | `circuit_board.dfy` | circuit-board layout |
| `MapColoring` | `map_coloring.dfy` | map colouring |

**The problem object.** `Problem` is a class with the same fields as the
Python object: `nVars`, `domains`, `allowed` and `neighbors`. Its methods
reassign those fields. `Valid()` is the representation invariant stated in
the class docstring:

- one domain per variable;
- table keys lie inside the variables;
- `neighbors[i]` holds exactly the variables `j` for which `(i, j)` or
  `(j, i)` has a table.

The docstring also lists "each domain is non-empty". `Valid()` leaves that
out on purpose: `revise` removes values in place and can empty a domain,
and AC-3 reports exactly that case by returning false. Non-emptiness is
checked where the source checks it, in `__init__` and `copy_with_domains`.

**Errors.** Errors the Python code raises become `Result`/`Outcome` values:

- the `assert`s and `ValueError`s of `__init__`;
- the self-constraint error;
- unknown strategy or inference names;
- a `KeyError` for an unknown region name.

**Iteration order.** Python iterates over sets and dicts in an order the
model does not fix. The model walks a set through `SetToSeq`, whose
contract only says that the result enumerates the set. Every property is
therefore proved for all iteration orders.

## Model

| member | source | states |
|---|---|---|
| Csp.Assignment.IsComplete | ConstraintSatisfactionProblem.py:45-46 | true iff every variable has a value; `Csp.WithPairCompletes` relates it to `WithPair` |
| Csp.Assignment.ValueOf | ConstraintSatisfactionProblem.py:48-49 | the value of `v`, or `None` while `v` is unassigned; defined for `v < n` only |
| Csp.Assignment.WithPair | ConstraintSatisfactionProblem.py:51-54 | the new assignment has `var` set to `val` and every other variable unchanged, with the same length |
| Csp.WithPairCompletes | ConstraintSatisfactionProblem.py:45-54 | after `with_pair(v, x)` the assignment is complete iff every other variable was already assigned |
| Csp.InitError | ConstraintSatisfactionProblem.py:75-82 | construction fails exactly when `n <= 0` (no variables), when the domain count differs from `n`, or when some domain is empty; the reported empty domain is the first one |
| Csp.FirstEmptyFrom | ConstraintSatisfactionProblem.py:80-82 | finds the first empty domain at or after `k`, or reports that none is empty |
| Csp.Problem.Create | ConstraintSatisfactionProblem.py:75-87 | fails exactly as `InitError` says, with its error; on success a fresh valid object with `n` variables, the given domains and no tables |
| Csp.Problem.Init | ConstraintSatisfactionProblem.py:75-87 | a valid object with the given domains, no tables and empty neighbour sets |
| Csp.Filter | ConstraintSatisfactionProblem.py:101-107 | the installed table holds exactly the given pairs whose two values lie in the current domains |
| Csp.FilterPairs | ConstraintSatisfactionProblem.py:101-107 | the pair-by-pair loop builds exactly `Filter` of the given pairs |
| Csp.Problem.AddBinaryConstraint | ConstraintSatisfactionProblem.py:92-112 | `i == j` fails and changes nothing; otherwise only arc `(i, j)` is replaced by the filtered table, `j` and `i` become neighbours of each other, and the invariant is kept |
| Csp.Problem.AddSymmetricBinaryConstraint | ConstraintSatisfactionProblem.py:114-122 | installs the filtered relation on `(i, j)` and the filtered swapped relation on `(j, i)`; the two tables are each other's swap |
| Csp.Swap | ConstraintSatisfactionProblem.py:122 | `(a, b)` is in the swap iff `(b, a)` is in the relation |
| Csp.SwapInvolution | ConstraintSatisfactionProblem.py:122 | swapping twice gives back the relation |
| Csp.FilterSwap | ConstraintSatisfactionProblem.py:114-122 | filtering the swapped relation against swapped domains equals swapping the filtered relation |
| Csp.AllDiff | ConstraintSatisfactionProblem.py:130 | a pair is in the table iff both values are in their domains and differ |
| Csp.SwapAllDiff | ConstraintSatisfactionProblem.py:130-131 | the reverse table of an all-different edge is the all-different table of the swapped domains |
| Csp.Problem.AddAllDiffEdge | ConstraintSatisfactionProblem.py:124-135 | installs `AllDiff` on both arcs, also when `i == j`, and adds the neighbours; the invariant is kept |
| Csp.IsPairAllowed | ConstraintSatisfactionProblem.py:169-174 | an arc without a table allows every pair; otherwise the pair must be in the arc's table |
| Csp.InstalledTableDecides | ConstraintSatisfactionProblem.py:169-174 | after a table is installed, an in-domain pair is allowed iff it was one of the given pairs |
| Csp.WellFormedAfterInstall | ConstraintSatisfactionProblem.py:67-72 | installing a table on `(i, j)` and recording the neighbours keeps the neighbour invariant |
| Csp.Problem.CopyWithDomains | ConstraintSatisfactionProblem.py:148-158 | the clone is a fresh object with equal domains, tables and neighbours; it fails, as re-running `__init__` does, iff some domain is empty |
| Csp.Problem.IsValueConsistentWith | ConstraintSatisfactionProblem.py:176-192 | true iff every assigned neighbour `j` allows `(var=val, j=vj)` on arc `(var, j)`, one direction only |
| Csp.Problem.RemoveFromDomain | ConstraintSatisfactionProblem.py:195-200 | reports whether `val` was present; the domain loses exactly `val` and nothing else changes |
| Csp.Revised | ConstraintSatisfactionProblem.py:213-218 | the revised domain keeps exactly the values of `Di` that have a support in `Dj` |
| Csp.Prune | ConstraintSatisfactionProblem.py:213-218 | the loop over a snapshot of `Di` yields `Revised` on a distinct arc; on a self arc, where `Di` and `Dj` alias, it keeps every self-supported value and leaves only supported values when the table is symmetric; it changes nothing iff every value was supported |
| Csp.PruneDone | ConstraintSatisfactionProblem.py:213-218 | the loop invariant at exit implies the facts stated for `Prune` |
| Csp.Problem.Revise | ConstraintSatisfactionProblem.py:202-219 | with no table nothing changes; otherwise only `Di` shrinks as `Revision` states; the result is true iff `Di` changed, and on false every kept value is supported |
| Ac3.RevisionKeepsConsistency | solver.py:36-41 | for converse tables, revising an arc and re-queueing `(xk, xi)` for the neighbours `xk != xj` keeps every arc outside the queue consistent |
| Ac3.RevisionKeepsSolutions | solver.py:36 | revision loses no value that belongs to a solution of the original domains |
| Ac3.Requeue | solver.py:39-41 | keeps the queue's prefix and appends exactly the arcs `(xk, xi)` for neighbours `xk != xj`, each once: one new arc per neighbour other than `xj`, no two equal |
| Ac3.AppendOnce | solver.py:39-41 | appending one more not-yet-queued neighbour keeps the appended arcs distinct and their count equal to the neighbours handled |
| Ac3.PendingInitially | solver.py:33 | the initial queue of all arcs satisfies the loop invariant |
| Ac3.ArcStep | solver.py:34-41 | one pop, revise and re-queue turn keeps the loop invariant |
| Ac3.RevisionShrinks | solver.py:36 | revision changes only `Di` and never increases the total domain size; a removal strictly decreases it |
| Ac3.PruningStep | solver.py:37-38 | when a revision removes values, no solution is lost and the original domains were not arc consistent |
| Ac3.PendingDone | solver.py:42 | with an empty queue and converse tables, every arc is consistent |
| Ac3.ProcessArc | solver.py:34-41 | one loop turn decreases (total domain size, queue length) lexicographically; an emptied domain is reported with its evidence; otherwise the invariant holds |
| Ac3.Ac3 | solver.py:28-42 | domains only shrink; tables and neighbours are unchanged; false means some domain is empty; true with converse tables means every arc is consistent; no solution is lost; already consistent domains come back unchanged with true |
| Ac3.Ac3Twice | solver.py:28-42 | for converse tables AC-3 is idempotent: a second run after a successful one returns true and changes nothing |
| Ac3.NonConverseCounterexample | solver.py:33-42 | for the one-directional tables `T10 = {(1, 2)}`, `T01 = {(1, 1)}` on `D0 = {1, 2}`, `D1 = {1}`: arc `(1, 0)` first removes nothing, arc `(0, 1)` then leaves `D0 = D1 = {1}` without re-queueing `(1, 0)`, so the run succeeds while `(1, 0)` is inconsistent, and revising it again empties `D1` |
| Heuristics.Unassigned | solver.py:54 | the unassigned variables in increasing order: exactly those `< n` that are not in the assignment |
| Heuristics.Keep | solver.py:72 | the filtered list keeps exactly the elements that satisfy the test, in their order |
| Heuristics.FirstMinIndex | solver.py:64-67 | the index of the first element with the least key, as Python's `min`/`max` with `key=` pick the first extreme |
| Heuristics.FirstMinIndexIsFirstMin | solver.py:64-67 | the chosen element has the least key, and every smaller element has a larger key |
| Heuristics.ParseStrategy | solver.py:58-80 | recognises exactly `"none"`, `"mrv"`, `"degree"` and `"mrv+degree"` |
| Heuristics.MrvThenDegree | solver.py:69-78 | the result has the smallest domain, and among the ties it has the most unassigned neighbours, the first such |
| Heuristics.ChooseVariable | solver.py:58-78 | `none` takes the first unassigned variable; `mrv` takes the first with the fewest values; `degree` the first with the most unassigned neighbours; `mrv+degree` takes the MRV set and then the first of maximal degree inside it |
| Heuristics.SelectUnassignedVariable | solver.py:45-80 | fails with "complete assignment" iff every variable is assigned, and with "unknown strategy" iff some variable is unassigned and the name is unknown; otherwise returns an unassigned variable chosen by the strategy |
| Heuristics.CountRuledOut | solver.py:98-100 | counts exactly the neighbour values that `var=val` disallows |
| Heuristics.LcvScore | solver.py:92-101 | the score is the number of (unassigned neighbour, value) pairs ruled out by `var=val` |
| Heuristics.InsertByKey | solver.py:103 | insertion keeps the multiset and keeps the list sorted by key |
| Heuristics.SortByKey | solver.py:103 | the result is a permutation of the input, sorted by key |
| Heuristics.WithKeySnoc | solver.py:103 | the sub-list of elements with a given key distributes over appending one element |
| Heuristics.WithKeyAppend | solver.py:103 | the sub-list of elements with a given key distributes over concatenation |
| Heuristics.PassLast | solver.py:103 | inserting before a last element with a larger key leaves the equal-key sub-lists as if that element were untouched |
| Heuristics.InsertByKeyStable | solver.py:103 | insertion puts the new element after every element of equal key: each equal-key sub-list is the old one, plus the new element at its end when the keys match |
| Heuristics.SortByKeyStable | solver.py:103 | the sort is stable, as Python's `sorted` is: for each key, the elements with that key keep their input order |
| Heuristics.OrderDomainValues | solver.py:82-103 | the values are a permutation of the domain; with LCV they are in non-decreasing order of conflict count |
| Backtracking.IsLocallyConsistent | solver.py:107-117 | `var=val` is allowed with every assigned variable on both arcs, `(var, nb)` and `(nb, var)`; an arc without a table allows everything |
| Backtracking.ExtendKeepsSatisfied | solver.py:107-117 | adding `var=val` to a consistent assignment keeps it consistent iff `is_locally_consistent` holds |
| Backtracking.AsAssignment | ConstraintSatisfactionProblem.py:35-49 | the tuple form of an assignment dict: position `k` holds `Some(a[k])` iff `k` is assigned |
| Backtracking.LocallyConsistentIsValueConsistent | solver.py:107-117 | the two-direction check implies the one-direction `is_value_consistent_with` |
| Backtracking.OneDirectionIsWeaker | ConstraintSatisfactionProblem.py:176-192 | a concrete table stored only on `(1, 0)` that `is_value_consistent_with` accepts and `is_locally_consistent` rejects |
| Backtracking.SolutionKeepsDomains | solver.py:152-154 | if a solution exists, inference that keeps solutions leaves no domain empty |
| Backtracking.GoalTest | solver.py:130 | for keys below `n`, `len(assignment) == n_vars` iff every variable is assigned |
| Backtracking.ChildState | solver.py:138-157 | fixing a consistent value and pruning keeps the search invariant for the child |
| Backtracking.SolutionGuidesChild | solver.py:133-157 | a solution extending the assignment picks a consistent in-domain value for the chosen variable and survives collapsing that variable |
| Backtracking.SolutionPicksValue | solver.py:134 | a solution below the node picks some value of the chosen variable |
| Backtracking.SolutionValueIsConsistent | solver.py:135 | a value with a solution below it passes the local consistency test |
| Backtracking.SolutionSurvives | solver.py:139-154 | solutions below the collapsed node survive inference, so no domain is empty |
| Backtracking.PopRestores | solver.py:161 | popping the variable after a failed child restores the assignment |
| Backtracking.Recurse | solver.py:128-163 | a returned solution is the final assignment and is sound; NoSolution restores the assignment; if a solution lies below the node the answer is not NoSolution; with a known configuration and non-empty domains no error is raised; with a variable left and an unknown strategy name the error is the unknown strategy; at the root, with a known strategy, an unknown inference name and non-empty domains, the error is the unknown inference |
| Backtracking.TryValues | solver.py:134-163 | the value loop: a solution is sound; NoSolution means no tried value had a solution below it; at the root, with an unknown inference name and non-empty domains, the first value already fails with the unknown inference |
| Backtracking.MakeChild | solver.py:139-154 | the child is a fresh clone with `var` fixed to `val` and pruned domains that keep every solution; with non-empty domains an unknown inference name fails with that error; with `"none"` the child's domains are the node's with `var` collapsed to `{val}`; with `"ac3"` and converse tables every arc of the child is consistent; a dead end only when no solution exists |
| Backtracking.TryValue | solver.py:138-161 | one value: push, recurse and pop; the same soundness and completeness facts as `Recurse`; an unknown inference name with non-empty domains fails with that error |
| Backtracking.BacktrackingSearch | solver.py:123-164 | every returned solution assigns each variable a value from its domain and meets every table between distinct variables; if any solution exists the search does not report NoSolution; an unknown strategy name is always an error, and with a known strategy and non-empty domains an unknown inference name is too; no error is raised only when both names are known and no domain is empty, as the source's `copy_with_domains` raises on an empty domain |
| CircuitBoard.MakePart | circuit_board.py:28-33 | the glyph is the given character, else the first letter of the name, else `'#'` |
| CircuitBoard.Fits | circuit_board.py:42-43 | the rectangle starts at non-negative coordinates and ends within the board's width and height |
| CircuitBoard.RectsOverlap | circuit_board.py:45-49 | two rectangles overlap unless one lies wholly left of, right of, below or above the other; `CircuitBoard.OverlapIffSharedCell` shows this means sharing a cell |
| CircuitBoard.RectsOverlapSymmetric | circuit_board.py:45-49 | overlap is symmetric |
| CircuitBoard.OverlapIffSharedCell | circuit_board.py:45-49 | for positive sizes, two rectangles overlap iff some cell lies in both |
| CircuitBoard.NoPlacementWhenTooLarge | circuit_board.py:64-73 | a part has no placement iff it is wider or taller than the board |
| CircuitBoard.PlaceColumn | circuit_board.py:68-71 | the `y` loop appends every fitting `(x, y)` in increasing `y` |
| CircuitBoard.EnumeratePlacements | circuit_board.py:65-72 | the placements are exactly the fitting positions, x-major and without repeats, numbered from 0 |
| CircuitBoard.Ids | circuit_board.py:73 | the domain is `0..count-1` |
| CircuitBoard.NonOverlap | circuit_board.py:80-84 | a pair of ids is allowed iff both are valid ids and their rectangles do not overlap |
| CircuitBoard.SwapNonOverlap | circuit_board.py:86-87 | the reverse table equals the non-overlap table of the swapped parts |
| CircuitBoard.NonOverlapRelation | circuit_board.py:80-84 | the nested loops build exactly `NonOverlap` |
| CircuitBoard.FilterKeepsInside | circuit_board.py:86-87 | filtering a table that already lies inside the domains changes nothing |
| CircuitBoard.TablesStep | circuit_board.py:78-87 | installing the tables of pair `(i, j)` extends the loop invariant to `j + 1` |
| CircuitBoard.ConstrainPair | circuit_board.py:80-87 | one pair adds both non-overlap tables |
| CircuitBoard.ConstrainPart | circuit_board.py:79-87 | the inner `j` loop constrains `i` against every later part |
| CircuitBoard.BuildBoardCsp | circuit_board.py:53-90 | fails iff there are no parts, or some part has no placement (the first such one, an empty domain); otherwise a valid problem with one variable per part, domains the placement ids, and the non-overlap table on every ordered pair of distinct parts |
| CircuitBoard.DecodeSolutionPositions | circuit_board.py:94-95 | the positions have exactly the solution's variables as keys, and each variable's position is the placement its id names |
| CircuitBoard.SolutionIsLayout | circuit_board.py:94-95 | a sound solution of the board model decodes to a layout that fits and does not overlap |
| CircuitBoard.LayoutMeetsTables | circuit_board.py:78-87 | the ids of a non-overlapping layout meet every non-overlap table |
| CircuitBoard.LayoutIsSolution | circuit_board.py:53-90 | every layout gives a solution of the board model |
| CircuitBoard.SolveBoard | circuit_board.py:53-95 | fails exactly as construction does; a returned layout is valid; "none" only when no layout exists |
| CircuitBoard.PaintedByOwner | circuit_board.py:100-106 | for non-overlapping parts each covered cell shows its owner's glyph, whatever the drawing order |
| CircuitBoard.LastIndexOf | circuit_board.py:107 | the last position of the character, or -1 |
| CircuitBoard.SplitJoinLines | circuit_board.py:107 | `"\n".join` is undone by splitting on newlines, for rows without newlines |
| CircuitBoard.FillRect | circuit_board.py:102-106 | exactly the cells of the rectangle, rows flipped so `y` counts from the bottom, get the glyph; all others are unchanged |
| CircuitBoard.PaintAll | circuit_board.py:98-106 | after painting in order, each cell holds the glyph of the last part covering it, else `'.'` |
| CircuitBoard.GridLines | circuit_board.py:107 | each row of the grid becomes one line of the same characters |
| CircuitBoard.RenderAscii | circuit_board.py:97-107 | the text is the newline-joined picture of the decoded layout, `H` rows of `W` characters |
| CircuitBoard.ExampleFromPrompt | circuit_board.py:110-126 | the example board, 10 x 3, with the four parts of the source and their glyphs |
| CircuitBoard.ExampleHasLayout | circuit_board.py:110-126 | the 10x3 example has a non-overlapping layout |
| CircuitBoard.SolveExample | circuit_board.py:110-126 | the search on the example returns a layout |
| MapColoring.Enumerate | map_coloring.py:41-42 | the dict comprehension `{name: base + k}` over the list; a name listed twice keeps its last number; `EnumerateKeys` and `EnumerateNumbers` state this |
| MapColoring.EnumerateKeys | map_coloring.py:41-42 | the name-to-number map has exactly the listed names as keys |
| MapColoring.EnumerateNumbers | map_coloring.py:41-42 | each name is numbered by the position of its last occurrence |
| MapColoring.EnumerateIsInjective | map_coloring.py:41-42 | distinct names get distinct numbers |
| MapColoring.Invert | map_coloring.py:23-25 | the inverted map is a two-sided inverse |
| MapColoring.MakeEncoding | map_coloring.py:19-25 | the encoding keeps the given maps and its inverse maps invert them |
| MapColoring.EncodeNames | map_coloring.py:41-42 | the regions are numbered from 0 and the colours from 1, with mutually inverse maps |
| MapColoring.Colors | map_coloring.py:45 | the domain is `1..k` |
| MapColoring.EdgeArcStep | map_coloring.py:49-56 | one more edge adds exactly its two arcs |
| MapColoring.BorderStep | map_coloring.py:49-56 | one more border keeps the loop invariant over the tables |
| MapColoring.AddBorder | map_coloring.py:49-56 | an unknown name (first `a`, then `b`) is reported; a self-border is skipped; otherwise an all-different edge is added with the smaller number first |
| MapColoring.BuildMapCsp | map_coloring.py:29-59 | fails with no regions or no colours, or with the first unknown border name; otherwise a valid problem with one variable per region, every domain `1..k`, an all-different table on both arcs of each border, and the name encoding |
| MapColoring.NameSolution | map_coloring.py:63-70 | fails iff some variable or colour number is unknown; otherwise names exactly the assigned regions, each with its colour |
| MapColoring.ColoringIsSolution | map_coloring.py:29-59 | every proper colouring is a solution of the map model |
| MapColoring.SolutionIsColoring | map_coloring.py:29-59 | every sound solution of the map model is a proper colouring |
| MapColoring.AustraliaNumbering | map_coloring.py:83 | the numbering of the seven regions |
| MapColoring.EnumerateSnoc | map_coloring.py:41 | appending a name numbers it by its position and overrides an earlier number |
| MapColoring.AustraliaBorderNumbers | map_coloring.py:84-87 | the numbers of the nine borders |
| MapColoring.AustraliaExample | map_coloring.py:78-89 | fails iff no colours are given; otherwise builds the map model of Australia |
| MapColoring.AustraliaThreeColoring | map_coloring.py:78-89 | Australia has a proper colouring with three colours |
| MapColoring.AustraliaNeedsThreeColors | map_coloring.py:84-85 | WA, NT and SA border each other, so every proper colouring uses at least three colours |
| MapColoring.AustraliaSolutions | map_coloring.py:78-89 | with at least three colours the model has a solution; every sound solution of the model needs at least three colours |
| MapColoring.SolveAustralia | map_coloring.py:78-89 | with three or more colours the search finds a proper colouring; with one or two it reports no solution; with none construction fails |

## Left out

- Ac3.Ac3: arc consistency on success is promised only when every table is the swap of its reverse table. For a one-directional table, the `xk != xj` exclusion in the re-queue step can leave an arc inconsistent. Example: `D0 = {1, 2}`, `D1 = {1}`, `T01 = {(1, 1)}`, `T10 = {(1, 2)}`, queue order `(1, 0), (0, 1)`. `Ac3.NonConverseCounterexample` traces this run.
- Ac3.PendingDone: the same converse-table condition as `Ac3.Ac3`.
- Ac3.Ac3Twice: idempotence is proved only for converse tables, and it fails without them. With `D0 = {1, 2}`, `D1 = {1}`, and `T10 = {(1, 2)}` installed before `T01 = {(1, 1)}`, the first run returns true with `D0 = D1 = {1}`. A second run revises arc `(1, 0)`, empties `D1` and returns false. `Ac3.NonConverseCounterexample` exhibits this.
- Backtracking.BacktrackingSearch: soundness covers tables between distinct variables. A self arc (from `add_all_diff_edge(i, i)`) is checked by the search only through AC-3's domain pruning, so the returned assignment is not claimed to satisfy it.
- Heuristics.OrderDomainValues: without LCV the order is any enumeration of the domain, because Python's set order is not modelled.
- CircuitBoard.RenderAscii: the drawing order of `pos.items()` is a parameter (`order`). Python's dict order is insertion order, which the model does not track. `CircuitBoard.PaintedByOwner` shows the order does not matter for non-overlapping layouts.
- CircuitBoard.RenderAscii: the preconditions cover only ids that exist and positions that fit. A Python `IndexError` from a position off the board, or wrap-around through a negative index, is not modelled.
- CircuitBoard.MakePart: `char` is a single character. The source accepts any string, and a longer one would widen a row.
- CircuitBoard.DecodeSolutionPositions: requires every solution id to exist; the source raises `KeyError` otherwise.
- MapColoring.MakeEncoding: requires injective maps. The maps the builder produces always are (`MapColoring.EnumerateIsInjective`).
- MapColoring.NameSolution: requires mutually inverse maps. Every encoding built by `EncodeNames` has them.
- MapColoring.AustraliaExample: the nine borders are listed in source order. The source keeps them in a set, whose order matters only for which unknown name is reported, and none occurs.
- `print_named_solution`, the `__main__` banner and the test drivers' printing and timing are output only and are not modelled.
- The circuit-board test driver retries with no heuristics when its first search fails (`test_circuit_board.py:23-25`); that fallback is not modelled. The map-colouring driver makes no retry. `CircuitBoard.SolveBoard` and `MapColoring.SolveAustralia` use a single configuration.
- `copy_with_domains` deep-copies every table. The model copies values, so the cost of copying and the absence of aliasing between a node and its child are not modelled.
- Python's `assert` and `raise` become `Result`/`Outcome` values or preconditions. A variable index is a `nat` below `n`, which is a precondition. This excludes more than Python's `IndexError` does. Python accepts `-n..-1` and wraps them on a list: `add_binary_constraint(-1, 0, ...)` installs key `(-1, 0)`, and `(-1, n-1)` names one variable twice yet passes the `i == j` check. Negative indices are not modelled.
- `arcs()`, `domain()` and `neighbors_of()` are field reads in the model.
