# MOproject core in Dafny

A model of the core of MOproject, a Python project about the shortest
path with stochastic, correlated link travel times. It covers two problems:

- The **mean-variance (m-v) problem**: an LP over one variable omega(a, b)
  per ordered pair of links. It has the flow balances (8.1)-(8.3), the
  exclusions (9a)/(9b) and the symmetry constraints (10).
- The **mean-standard-deviation (m-s) problem**: a bisection over a bracket
  [lb, ub] of the variance term eta. Each step solves a secant LP, picks
  the lower or the upper half at eta_star, and stops on a midpoint or a
  depth test.

The model covers these parts:

- The graph classes: nodes, links, hyperlinks, travels, and the conversion
  from and to an incidence matrix.
- The older graph class of `creazione_problema.py`.
- The matrix construction of `semplificazione_con_grafo.py`:
  - the hyperlink matrix;
  - the symmetry list J;
  - the blocks H_a and Hp;
  - the column map, the omega vector and the right-hand side h.
- The constraint generation and the solution extraction of both m-v solvers.
- The control flow of the three `branch_and_bound` versions and of their
  `resolve_ms_problem` drivers.

Modelling choices:

- **The LP solver is an oracle.** A function `solve(gamma, lb, ub)` either
  raises or returns four things: the solution (a value per pair of link
  labels), whether its status is optimal, and the two surrogate values
  `calc` compares.
- **Floats are reals.**
- **Links and nodes are their 1-based labels.**
- **Mutable objects stay classes.** `Graph`, the older `Graph` and `Travel`
  are classes whose fields the methods update. The hyperlink matrix is an
  `array2<bool>` filled in place (`true` while an entry is active).
- **Recursion becomes loops.** Each recursive `branch_and_bound` is a
  method with a loop, proved equal to a recursive specification function.

## Model

| member | source | states |
|---|---|---|
| GraphData.OutOfMembers | graph_classes.py:45-46 | a node's output list holds exactly the links whose origin it is |
| GraphData.InOfMembers | graph_classes.py:45-46 | a node's input list holds exactly the links whose destination it is |
| GraphData.AllPairsExactlyOnce | graph_classes.py:98-100 | the nested loops over the links visit each ordered pair of labels in 1..L exactly once, L*L pairs in all |
| GraphData.AllPairsMembers | graph_classes.py:98-100 | the pairs visited are exactly those with both labels in 1..L |
| Graphs.Graph.constructor | graph_classes.py:62-64 | a new graph has no nodes and no links |
| Graphs.Graph.AddNode | graph_classes.py:74-78 | the new node gets label len(nodes) + 1 and empty lists, is appended, and the links are unchanged |
| Graphs.Graph.AddLink | graph_classes.py:80-90 | the new link gets label len(links) + 1 and is appended; exactly its origin's output and its destination's input lists gain it |
| Graphs.Graph.GetNode | graph_classes.py:92-93 | nodes[label - 1] with Python indexing: labels 1..n and the negative indices -n+1..0 succeed, all others raise IndexError |
| Graphs.Graph.SetCorrelation | graph_classes.py:43 | setting rho of link a for link b changes only that entry of that link |
| Graphs.Graph.GetHyperlink | graph_classes.py:95-101 | succeeds exactly when every ordered pair has a correlation, and then returns the hyperlink table; otherwise it names a missing pair |
| Graphs.CollectHyperlinks | graph_classes.py:95-101 | the nested loops of get_hyperlink on the link list: they finish exactly when every ordered pair has a correlation, with the hyperlink of each pair in row-major order, and otherwise stop at a pair without one |
| Graphs.HyperlinkRow | graph_classes.py:99-101 | the inner loop for link a adds the hyperlink of every pair (a, b) in order, or stops at the first b that has no correlation entry |
| Graphs.HyperlinksSpec | graph_classes.py:95-101 | the table has one entry per ordered pair (L*L entries), each with rho_ab and phi = rho_ab * sigma_a * sigma_b |
| Graphs.HyperlinksSymmetric | graph_classes.py:95-101 | with symmetric correlations the whole get_hyperlink table is symmetric: each entry (a, b) has a mirror entry (b, a) with the same rho and phi |
| Graphs.PhiOfTable | ms_problem.py:86-91 | the phi weight resolve_ms_problem sums is, at each pair's position, the phi of that pair's table entry |
| Graphs.Graph.ToIncidenceMatrix | graph_classes.py:103-118 | column j holds -1 at the origin row and +1 at the destination row of link j + 1, and 0 elsewhere |
| Graphs.Graph.FromIncidenceMatrix | graph_classes.py:120-165 | it raises exactly when the checks fail, and with the first failing check; otherwise it builds one node per row and one link per column |
| Graphs.Graph.AddNodes | graph_classes.py:149-150 | after the first construction loop the graph still satisfies its invariant, has one node per row and no links |
| Graphs.Graph.AddColumnLinks | graph_classes.py:152-163 | after the second construction loop the graph still satisfies its invariant and its links are exactly those the columns describe, in column order |
| Graphs.Travel.constructor | graph_classes.py:171-175 | a travel records its origin and destination and starts with no links |
| Incidence.ValidateSpec | graph_classes.py:125-146 | the checks run in order: empty matrix, ragged rows, mu/sigma length, then the first column without exactly one -1 and one +1 |
| Incidence.FirstBadColumnSpec | graph_classes.py:142-146 | the column reported is the first column that fails the check, and none is reported when every column passes |
| Incidence.CheckMatrix | graph_classes.py:125-146 | the validation loops report exactly the error Validate specifies |
| Incidence.ColumnEnds | graph_classes.py:152-158 | the scan of a valid column finds the unique -1 row (origin) and the unique +1 row (destination) |
| Incidence.LinksFromSpec | graph_classes.py:148-163 | link j + 1 runs from the -1 row to the +1 row of column j, is never a self-loop, has mu and sigma from the lists (0.0 when absent) and no correlations |
| Incidence.RoundTrip | graph_classes.py:103-165 | to_incidence_matrix(from_incidence_matrix(m)) == m exactly when every entry of m lies in -1..1 |
| Incidence.Rebuild | graph_classes.py:103-165 | from_incidence_matrix(to_incidence_matrix(g)) rebuilds the links of g, except their correlations |
| Incidence.SelfLoopRejected | graph_classes.py:112-116 | a self-loop's column keeps only its +1, so from_incidence_matrix rejects the matrix |
| LegacyGraphs.LegacyGraph.constructor | creazione_problema.py:59-61 | a new graph has no nodes and no links |
| LegacyGraphs.LegacyGraph.AddNode | creazione_problema.py:70-74 | the new node gets label len(nodes) + 1 and is appended |
| LegacyGraphs.LegacyGraph.AddLink | creazione_problema.py:76-80 | the new link gets label len(link) + 1, is appended and registers with its endpoints |
| LegacyGraphs.LegacyGraph.GetHyperlink | creazione_problema.py:82-89 | the keys are every ordered pair of links exactly once, L*L of them |
| LegacyGraphs.LegacyGraph.FromIncidenceMatrix | creazione_problema.py:91-137 | the same checks and construction as graph_classes.py |
| LegacyGraphs.LegacyGraph.AddNodes | creazione_problema.py:121-122 | after the first construction loop the graph still satisfies its invariant, has one node per row and no links |
| LegacyGraphs.LegacyGraph.AddColumnLinks | creazione_problema.py:124-135 | after the second construction loop the graph still satisfies its invariant and its links are exactly those the columns describe, in column order |
| HyperlinkMatrix.Where | semplificazione_con_grafo.py:38 | np.where lists exactly the positions holding the value, ascending |
| HyperlinkMatrix.AllActive | semplificazione_con_grafo.py:31-33 | every entry starts active |
| HyperlinkMatrix.ZeroPairs | semplificazione_con_grafo.py:41-44 | exactly the entries (i, j) with i != j and both in the list are zeroed; nothing else changes |
| HyperlinkMatrix.GenerateHyperlinkMatrix | semplificazione_con_grafo.py:24-55 | it raises exactly when there are no node rows; otherwise entry (i, j) is active iff i == j, or the two links share no out-node and are not both entering the last node |
| HyperlinkMatrix.AsWrittenSymmetric | semplificazione_con_grafo.py:36-53 | the hyperlink matrix is symmetric and its diagonal stays active |
| HyperlinkMatrix.IntendedWithinAsWritten | semplificazione_con_grafo.py:47-53 | applying (9b) at every node zeroes at least the entries the code zeroes |
| HyperlinkMatrix.InPairOfInnerNodeStaysActive | semplificazione_con_grafo.py:47-48 | two links entering a node other than the last keep their hyperlink active, while (9b) zeroes it |
| HyperlinkMatrix.GenerateHyperlinkMatrixIntended | semplificazione_con_grafo.py:35-53 | with the (9b) test inside the node loop, entry (i, j) is active iff i == j or the links share neither an out-node nor an in-node |
| SymmetryPairs.GenerateJ | semplificazione_con_grafo.py:57-77 | J holds only off-diagonal active entries, in row-major order, never both orientations of a pair, at least one orientation of every such pair, and (min, max) when both are active |
| NodeBlocks.SelectNodesSpec | semplificazione_con_grafo.py:96-101 | the selected rows are, ascending, the nodes outside the OD pair plus (when kept) those the link touches |
| NodeBlocks.RowsToIncludeSpec | semplificazione_con_grafo.py:95-101 | the rows of H_a are the nodes outside the OD pair plus the OD nodes link a touches; both branches of the source agree |
| NodeBlocks.ColumnsToInclude | semplificazione_con_grafo.py:104 | the columns of H_a are exactly the active entries of row a |
| NodeBlocks.BlockAt | semplificazione_con_grafo.py:79-83 | block a of the list is H_a, and it is rectangular |
| NodeBlocks.BlockDiagShape | semplificazione_con_grafo.py:272-273 | block_diag is as tall and as wide as the blocks together |
| NodeBlocks.BlockDiagRow | semplificazione_con_grafo.py:272-273 | row r of block k sits at the block's row offset, padded with zeros left and right |
| NodeBlocks.HpWidth | semplificazione_con_grafo.py:272-273 | Hp has one column per active hyperlink, as many as omega has variables |
| NodeBlocks.RowVectorsJ | semplificazione_con_grafo.py:126-153 | one row per element of J, each as wide as Hp, with +1 at the column of x^y and -1 at that of y^x |
| NodeBlocks.JRowSpec | semplificazione_con_grafo.py:141-149 | when both orientations are active, the row has exactly one +1 and one -1, at distinct columns |
| HyperlinkColumns.ActiveBeforeMember | semplificazione_con_grafo.py:118-122 | the scan up to (i, j) has met exactly the active entries that come before (i, j) in row-major order |
| HyperlinkColumns.ActiveCellsMembers | semplificazione_con_grafo.py:118-122 | the whole scan meets exactly the active entries of the matrix |
| HyperlinkColumns.ActiveBeforeSorted | semplificazione_con_grafo.py:118-122 | the scan visits the active entries in strictly row-major order, so none repeats |
| HyperlinkColumns.ColumnMap | semplificazione_con_grafo.py:111-124 | the map numbers the active entries 0, 1, ... in scan order |
| HyperlinkColumns.ColumnMapSpec | semplificazione_con_grafo.py:111-124 | exactly the active entries are mapped, to distinct positions 0..k-1, and the position of the t-th active entry is t |
| HyperlinkColumns.OmegaVector | semplificazione_con_grafo.py:174-196 | omega lists one variable per active entry, in the column order of Hp |
| HyperlinkColumns.DiagonalVariables | semplificazione_con_grafo.py:187-192 | every link a has its variable omega_a^a |
| RhsVector.FillPart | semplificazione_con_grafo.py:228-234 | h_n has -1 for the source row, +1 for the sink row and 0 elsewhere |
| RhsVector.HPartMarks | semplificazione_con_grafo.py:228-234 | h_n holds a -1 exactly when the source row is listed, and a +1 exactly when the sink row is |
| RhsVector.BuildVectorH | semplificazione_con_grafo.py:198-245 | h is h_0 + ... + h_{n-1} followed by one 0 per J constraint |
| RhsVector.BlockRows | semplificazione_con_grafo.py:216-225 | h_n uses the same rows as H_n |
| RhsVector.RhsLength | semplificazione_con_grafo.py:210-239 | the parts of h together are exactly as long as Hp is tall |
| RhsVector.AsWrittenMarksNextNode | semplificazione_con_grafo.py:229-232 | as written, the -1 marks the row of 0-based index origin, i.e. the node labelled origin + 1 |
| RhsVector.OriginCoefficientMisplaced | semplificazione_con_grafo.py:229-232 | on the example of main() the part h_1 is [0, -1, 0] instead of [-1, 0, 0] |
| RhsVector.HPartIntendedSpec | semplificazione_con_grafo.py:229-232 | compared with od_pair, -1 marks exactly the origin's row and +1 the destination's, present exactly when the link touches that node |
| HyperlinkSystem.BuildH | semplificazione_con_grafo.py:271-286 | H is Hp stacked over the J rows and has one column per active hyperlink; with no links it is block_diag() |
| HyperlinkSystem.Assemble | semplificazione_con_grafo.py:263-298 | steps 2-6 yield a J list as promised and the system (H, omega, h) of the hyperlink matrix |
| HyperlinkSystem.CreateNodeHyperlinkIncidenceMatrix | semplificazione_con_grafo.py:5-298 | ValueError for a 0 origin or destination, the unbound in_links for a matrix without rows, otherwise the system of the hyperlink matrix as written |
| HyperlinkSystem.CreateNodeHyperlinkIncidenceMatrixIntended | semplificazione_con_grafo.py:5-298 | the same with (9b) at every node and h compared with od_pair |
| HyperlinkSystem.SystemShape | semplificazione_con_grafo.py:281-298 | H is rectangular with one column per omega variable; with links h has one entry per row of H, with none H has one empty row and h none |
| HyperlinkSystem.RowAlignment | semplificazione_con_grafo.py:209-236 | each row of H coming from H_a and the entry of h at the same index stand for the same node |
| HyperlinkSystem.SymmetryRows | semplificazione_con_grafo.py:141-149 | every J row of H has exactly one +1 and one -1, at the columns of x^y and y^x |
| Constraints.EmitConservations | framework/mv_problem.py:96-101 | one balance with right-hand side 0 per node other than start and end, in node order |
| Constraints.EmitNode | framework/mv_problem.py:104-127 | per node: the (9a) zeros over its out-links, the (9b) zeros and the (10) equalities over its in-links |
| Constraints.AddConstraints | framework/mv_problem.py:80-127 | the constraints are (8.1) with -1, (8.2) with +1, the (8.3) balances, then (9a), (9b), (10) node by node |
| Constraints.ConservationCount | framework/mv_problem.py:96-101 | with distinct nodes, (8.3) adds a 0-balance for every node but start and end: n - 2 of them (n - 1 when start is end) |
| Constraints.BalanceReadsDiagonal | framework/mv_problem.py:84-101 | the flow balances read only the diagonal variables omega(a, a) |
| Constraints.PairConstraintsSpec | framework/mv_problem.py:104-127 | omega(a, b) = 0 is added iff a != b and they share an out-node or an in-node; omega(a, b) = omega(b, a) iff they share an in-node; the latter is symmetric |
| Constraints.GuardNeverFilters | framework/mv_problem.py:104-127 | with a variable for every ordered pair, the `in omega` guards filter nothing |
| FrameworkMvProblem.CreateOmega | framework/mv_problem.py:18-25 | one variable per hyperlink key |
| FrameworkMvProblem.OneVariablePerPair | framework/mv_problem.py:18-25 | the variables are exactly the ordered pairs of links, L*L of them |
| FrameworkMvProblem.Contains | framework/mv_problem.py:63-67 | the label scan finds a link iff it is already on the path |
| FrameworkMvProblem.ExtractPath | framework/mv_problem.py:56-70 | the path holds, ascending and once each, the links a with some b where omega(b, a) = omega(a, b) = 1; the warning fires once for each off-diagonal pair valued 1 |
| FrameworkMvProblem.ResolveMvProblem | framework/mv_problem.py:6-77 | the constraints equal the unguarded ones; the path holds the matched links ascending and once each; a warning is listed exactly for each off-diagonal pair valued 1, without repeats |
| MvProblem.ExtractRow | mv_problem.py:36-41 | one row of the extraction appends the link of every pair valued exactly 1 and reports every faulty pair |
| MvProblem.ExtractLinks | mv_problem.py:35-41 | travel.links only gains, in pair order, the link a of every pair (a, b) valued exactly 1 |
| MvProblem.ResolveMvProblem | mv_problem.py:4-42 | a TypeError exactly when some ordered pair of links lacks a correlation, naming such a pair, with travel.links untouched; otherwise the constraints of model_add_constrain, travel.links extended as ExtractLinks states and the "Errore" pairs |
| MvProblem.AppendedCount | mv_problem.py:35-39 | each link is appended once per value 1 in its row of the solution |
| MvProblem.TwoLinkPathAppendedTwice | mv_problem.py:35-39 | a solution with omega(a, b) = 1 for a, b in {1, 2} makes travel.links [1, 1, 2, 2] |
| MvProblem.FaultsSpec | mv_problem.py:37-41 | "Errore" is printed exactly once for each non-zero value that is not 1 or lies off the diagonal |
| Bisection.NewBracketSpec | framework/ms_problem.py:77 | the lower half is taken iff val_lower < val_upper (ties go up), and with eta_star inside the bracket the new bracket nests in the old |
| Bisection.EtaStar | ms_problem.py:47-50 | the loop sums phi(a, b) * omega(a, b) over every ordered pair |
| Bisection.EtaRow | ms_problem.py:49-50 | the inner loop adds phi(a, b) * omega(a, b) for every b, in order, to the running sum |
| Bisection.EtaWithinInitialBracket | framework/ms_problem.py:62-66 | with phi >= 0 and omega in [0, 1], eta_star lies in [0, u0] |
| Bisection.InitialUpper | framework/ms_problem.py:112-115 | u0 is phi summed over the hyperlink keys |
| Bisection.InitialUpperWithMu | ms_problem.py:87-91 | u0 is phi summed over the keys plus mu of the link on each diagonal key |
| Bisection.MuCountedOnce | ms_problem.py:89-91 | each link's mu is added exactly once |
| FrameworkMsProblem.BranchAndBound | framework/ms_problem.py:10-88 | the loop returns the iteration the recursion returns |
| FrameworkMsProblem.DepthBound | framework/ms_problem.py:80-84 | the returned depth lies between the first depth and 100 |
| FrameworkMsProblem.AtMost101Solves | framework/ms_problem.py:10 | from depth 0 at most 101 LPs are solved |
| FrameworkMsProblem.MaxDepthNotForwarded | framework/ms_problem.py:84 | a caller's max_depth binds only the first call; a later depth stop happens at depth 100 |
| FrameworkMsProblem.StopReason | framework/ms_problem.py:71-88 | the returned iteration raised, had eta_star on a bound, moved the midpoint by less than 1e-6, or reached the depth limit |
| FrameworkMsProblem.SolvedUnlessFailed | framework/ms_problem.py:86-88 | a returned model that did not raise was solved |
| FrameworkMsProblem.BracketsNested | framework/ms_problem.py:77-84 | assuming eta_star lies inside its bracket (EtaInBracket, which the code does not guarantee), every bracket visited lies inside the first |
| FrameworkMsProblem.ResolveMsProblem | framework/ms_problem.py:105-150 | u0 is the phi total and at most depth 100 is reached; the path exists iff the search did not fail or there are no links (then it is empty); after a search that did not fail, the path holds the matched links of the last solution ascending and once each, and a warning is listed exactly for each off-diagonal pair valued 1, without repeats |
| TempBisection.BranchAndBound | temp.py:9-87 | travel.links gains exactly what the recursion appends, and the value returned is the recursion's |
| TempBisection.DepthForwarded | temp.py:71-83 | max_depth is forwarded: the last call is at depth at most max(depth, max_depth) |
| TempBisection.MidWithinBracket | temp.py:68-87 | assuming eta_star lies inside its bracket (EtaInBracket, which the code does not guarantee), every bracket and the value returned lie inside the first bracket |
| TempBisection.LastCall | temp.py:43-87 | a stop means the last call solved optimally, its stopping test held (midpoint moved by less than 1e-6 or max_depth reached), the value is the midpoint of its new bracket, and its links were appended twice; otherwise the midpoint of the last bracket is returned, after one append when a non-optimal solution was read |
| TempBisection.FinalSolutionAppendedTwice | temp.py:73-77 | with max_depth 0 and the two-link solution, travel.links becomes [1, 1, 2, 2, 1, 1, 2, 2] |
| TempBisection.IntendedAppendsFinalOnce | temp.py:73-80 | reading only the final solution, once, explores the same brackets and returns the same value, and appends only the final links |
| TempBisection.IntendedTwoLinkExample | temp.py:73-77 | the intended run appends [1, 1, 2, 2] on the same example |
| MsProblem.BranchAndBound | ms_problem.py:15-67 | the loop ends as the recursion does, and travel.links gains the final links only on a stop at the test |
| MsProblem.StopsAtSignedTest | ms_problem.py:53-64 | a stop happens in a solved call whose new bracket is a half of its bracket at eta_star and whose midpoint moved by less than 0.0005 (signed); it appends that call's links |
| MsProblem.RecursionBounded | ms_problem.py:57-66 | assuming eta_star lies inside its bracket (EtaInBracket, which the code does not guarantee), each recursion narrows the bracket by at least 0.001, so the recursion ends within (ub - lb) / 0.001 calls |
| MsProblem.SignedTestStopsEarly | ms_problem.py:57 | on one link with phi 50, bracket (0, 100), lower half chosen: the run stops at once though the midpoint moved by 25 |
| MsProblem.IntendedStopsWhenSettled | ms_problem.py:57 | with the absolute test, a stop means the midpoint moved by less than epsilon; the same bound on the number of calls holds |
| MsProblem.IntendedContinuesOnExample | ms_problem.py:57 | on that example the intended run does not stop at the first call |
| MsProblem.ResolveMsProblem | ms_problem.py:84-98 | a TypeError exactly when some ordered pair of links lacks a correlation, with travel.links untouched; otherwise u0 is the table's phi total plus each link's mu once, and the search is temp.py's from (0, u0) with gamma 6 and max_depth 100 |

## Left out

- The LP solver (gurobipy, xpress) is an oracle parameter. The constraints
  are recorded as data, and feasibility and optimality are not modelled.
- The objective functions and `calc` (framework/ms_problem.py:34-47, 91-101;
  temp.py:23-39, 90-100; ms_problem.py:27-43, 73-81) use square roots.
  Their values come from the oracle. What is modelled is where they raise:
  a negative bound or an empty bracket.
- `calc` of temp.py and framework/ms_problem.py returns inf when it raises.
  That is one of the oracle's values.
- The m-v objectives (framework/mv_problem.py:31-44, mv_problem.py:17-31)
  are left to the oracle.
- Floating point: floats are reals, so rounding and the exact float
  equality tests are not modelled.
- Printing, logging, timing and memory profiling are not modelled. The
  warning and "Errore" prints of the two m-v solvers and the "arco
  inesistente" warnings of framework/ms_problem.py's resolve_ms_problem
  are kept as returned lists. The `processing_time`, `memory_usage` and
  `travel_time` fields are not.
- framework/graph_classes.py is not part of this model. Its `Travel`,
  with `start`, `end`, `gamma` and `add_path`, becomes parameters: the
  framework solvers return the path instead of calling `add_path`.
- The instance generators, `m_v_problem.py`, `generatore.py`, `test.py`
  and the module-level script of `creazione_problema.py` are not modelled.
- Python exceptions other than those named in the contracts are not
  modelled, e.g. a `None` endpoint index.
- FrameworkMsProblem.BracketsNested, TempBisection.MidWithinBracket and
  MsProblem.RecursionBounded assume EtaInBracket: that eta_star, computed
  from the solution, lies inside the bracket solved. Nothing in the secant
  LP constrains eta_star to [lb, ub], so the code does not guarantee it;
  without it a bracket can leave the initial one, and the recursion of
  ms_problem.py has no bound but Python's recursion limit.
- MsProblem.MsRun: Python's recursion limit is stood in for by a `fuel`
  count of further calls. Running out of fuel is a separate outcome.
- TempBisection.BranchAndBound: the "Errore" prints of each call's
  extraction loop (temp.py:48-49) and the warnings of the final-solution
  loop (temp.py:78-79, under a different `elif` condition) are not
  returned; the model keeps only the appends of both loops.
- MsProblem.BranchAndBound: the "Errore" prints of the extraction at the
  stop (ms_problem.py:63-64) are not returned; the model keeps only its
  appends.
- FrameworkMsProblem.ResolveMsProblem: when the search failed and there
  are links, the first solution read (framework/ms_problem.py:137) is
  taken to raise, so there is no path. With no links the loop reads
  nothing and the path is empty; the model does not decide whether the
  `objval` read at line 147 raises on an unsolved model.
- NodeBlocks.StackH and HyperlinkSystem.BuildH: with no J rows, the
  numpy shape check and the empty-array case are modelled by shape only.
  With zero links, the mismatch between H (one empty row) and h (empty)
  is stated in HyperlinkSystem.SystemShape.
- temp.py appends to travel.links on every iteration as well as after
  the last one, and framework/ms_problem.py does not forward max_depth
  to its deeper calls. The model follows the code in both.

## Findings

| source | as written | input that shows it | evidently intended | confidence | as-written member | corrected member |
|---|---|---|---|---|---|---|
| semplificazione_con_grafo.py:48 | the (9b) test is indented outside the node loop, so only the last node's in-links are zeroed | three nodes; links 1 and 2 both enter node 2 | zero the in-pairs of every node | high, not executed | HyperlinkMatrix.InPairOfInnerNodeStaysActive | HyperlinkMatrix.GenerateHyperlinkMatrixIntended |
| semplificazione_con_grafo.py:229-232 | 0-based row indices are compared with the 1-based origin and destination (the docstring at lines 11-12 calls them 0-based, but line 18 rejects 0, line 22 builds od_pair as origin - 1 and destination - 1, and main() passes destination 4 for a 4-row matrix) | the matrix of main(), origin 1, destination 4: h_1 = [0, -1, 0] | compare with od_pair (origin - 1, destination - 1), giving [-1, 0, 0] | high, not executed | RhsVector.OriginCoefficientMisplaced | RhsVector.HPartIntendedSpec |
| ms_problem.py:57 | the stop test is signed, so any downward move of the midpoint stops the search | one link, phi 50, bracket (0, 100), lower half preferred: stops at once with a move of -25 | abs(new_mid - old_mid) < epsilon | medium, not executed | MsProblem.SignedTestStopsEarly | MsProblem.IntendedStopsWhenSettled |
| temp.py:73-77 | each iteration appends its solution's links, and the stopping iteration appends them again | max_depth 0, the two-link solution: [1, 1, 2, 2, 1, 1, 2, 2] | append the final solution's links once | medium, not executed | TempBisection.FinalSolutionAppendedTwice | TempBisection.IntendedAppendsFinalOnce |
