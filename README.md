# sat_explainer in Dafny

sat_explainer explains why a CNF formula is unsatisfiable under a list of
assumed literals. This project models its core and proves properties of it.

The core works in four stages:

- **DPLL search.** A search with unit propagation and chronological
  backtracking looks for a model.
  - Assumptions are seeded first. Two assumptions that contradict each
    other are reported at once.
  - Propagation then runs to a fixpoint and records a reason clause for
    every variable it forces.
  - Decisions follow a hint-biased order: variables of the "core hint"
    literals first, then 1..numVars.
  - Each decision is tried True, then False, from a stack of full
    snapshots.
- **Explanation.** When the search fails, a human-readable explanation is
  built from the conflict clause:
  - its falsified literals;
  - the assumption literals reached by walking the reason graph back;
  - the rules, with their metadata, of every reason clause the walk meets.
- **MUS.** A deletion-based MUS (minimal unsatisfiable subset of the
  clauses) is extracted.
  - It starts from the clauses that mention a hint variable when they are
    already unsatisfiable, and from all clauses otherwise.
  - Clauses are dropped one at a time while the search still reports
    unsat.
- **Report.** The top-level report holds either the model, or the
  explanation together with the MUS, its rule list and the hints.

## Modules

All modules are in one directory and are verified together.

- `sorting.dfy` (`Sorting`). Generic sorting of distinct elements under a
  strict total order, Python's string order, and subsequences.
- `formula.dfy` (`Formula`). Clauses, clause normalisation, the formula,
  three-valued literal evaluation, clause status, and the semantic notions
  of model and satisfiability.
- `propagation.dfy` (`Propagation`). `unit_propagate` as a method over the
  assignment and reason maps.
  - A ghost log of every clause classification serves as its
    specification (`Chained`, `Faithful`, `Final`, `ReasonsAfter`).
  - `InPasses` states that the log is made of passes over the clauses in
    formula order, and that only its last scan may be conflicting.
  - Lemmas about the log give the propagation properties.
- `explanation.dfy` (`Explanation`).
  - The falsified literals of the conflict clause.
  - The worklist walk of `collect_assumption_causes`, specified by
    reachability in a cause graph.
  - The recursive rule walk, as a class `RuleWalk` holding the shared
    visited set and rule set.
  - `build_explanation` itself.
- `search.dfy` (`Search`). The preferred decision order and the seeding of
  assumptions.
- `dpll.dfy` (`Dpll`). `dpll_explain` with its snapshot stack, proved both
  sound and complete.
  - Termination uses a budget, the bound on the remaining search tree,
    that every turn of the decision loop lowers.
  - Completeness uses this invariant: every model that agrees with the
    assumptions agrees with the current assignment, or is covered by an
    untried False branch on the stack.
- `mus.dfy` (`Mus`). `_clauses_with_hint_vars`,
  `check_unsat_under_assumptions` (in `Dpll`) and `mus_deletion_based`.
  - A core is a list of clause positions, so clause identity is kept.
- `report.dfy` (`Report`). `explain_with_mus`.

Modelling conventions:

- Literals are `int`.
- An assignment is a `map<int, bool>`.
- The reason of a variable is the position of its clause in the formula,
  in a `map<int, nat>`.
- The Python dicts that are mutated in place become values that the
  methods return.
- Hints given as `None` behave exactly like an empty list, and are modelled
  as `[]`.

Line numbers below refer to `sat_explainer.py`. `src/sat_explainer.py` is a
byte-identical copy and has the same line numbers.

The semantic claims need one assumption: "clause variables within
1..numVars" (`VarsWithin`). These claims are that the sat answer is a
model, and that the MUS is minimal. The search only decides variables of
1..numVars and of the hints. A clause variable outside both may stay
unassigned, so the answer "sat" can then come back without every clause
being true.

An unsat explanation produced after the whole search tree was exhausted is
built under the snapshot restored last. That snapshot is the assignment
after the first propagation, not the assignment at the conflict.
`Dpll.ExhaustedExplanationPartial` shows that the conflict clause named in
such an explanation is then never completely falsified.

## Model

| member | source | states |
|---|---|---|
| Sorting.SortDistinct | sat_explainer.py:16 | `sorted(set(xs), key)`: the result is strictly sorted and has exactly the elements of the input |
| Sorting.SortSet | sat_explainer.py:147 | `sorted` of a set equals the unique strictly sorted list of its elements |
| Sorting.StringLessIsStrictTotal | sat_explainer.py:147 | Python's string order (lexicographic by code point, prefix first) is a strict total order |
| Formula.Normalize | sat_explainer.py:14-16 | normalised literals are strictly increasing under the key (\|x\|, x), duplicate-free, and hold exactly the input values |
| Formula.NormalizeIdempotent | sat_explainer.py:14-16 | normalising a normalised list leaves it unchanged |
| Formula.NormalizeCanonical | sat_explainer.py:14-16 | two literal lists with the same values normalise to the same list |
| Formula.MakeClause | sat_explainer.py:9-16 | a constructed clause has normalised literals and keeps its rule id and note |
| Formula.LitValue | sat_explainer.py:26-31 | None exactly when the variable is unassigned; true exactly when the assigned value matches the sign; false exactly when it does not |
| Formula.LitValueNegation | sat_explainer.py:26-31 | a literal and its negation are unassigned together and otherwise take opposite values |
| Formula.StatusMeaning | sat_explainer.py:33-50 | satisfied iff some literal is true; conflicting iff every literal is false (so the empty clause conflicts); unit u iff none is true and u is the only unassigned literal; undetermined iff none is true and two are unassigned |
| Formula.ClauseStatus | sat_explainer.py:33-50 | the early-exit scan with its counters returns the status of the clause |
| Formula.UnitLitUnassigned | sat_explainer.py:63-70 | the unit literal belongs to the clause and its variable is unassigned, so the already-assigned branch (lines 66-70) is never taken |
| Formula.FixpointSatisfies | sat_explainer.py:184-188 | a fixpoint that assigns every clause variable satisfies every clause |
| Propagation.PropagationPass | sat_explainer.py:56-73 | one pass extends the run log by scans of the clauses in formula order, starting at clause 0, each scanned once under the assignment the previous scan left. Without a conflict it scans every clause and none is conflicting. Otherwise it stops at the first conflicting clause c: the scan of c ends the log, no earlier scan of the pass is conflicting, and c is conflicting under the result. Nothing changed means the assignment is unchanged, and without a conflict it is a fixpoint. Something changed means a new clause variable was assigned. The whole log stays made of passes |
| Propagation.UnitPropagate | sat_explainer.py:52-74 | the result is the end of a chained, faithful run of classifications, made of whole passes over the clauses in formula order, in which only the last scan may be conflicting. (True, None) means a fixpoint with no conflicting scan. (False, cl) means the last scan found cl conflicting: cl is a clause of the formula with every literal false |
| Propagation.InPassesAt | sat_explainer.py:55-62 | a log made of passes starts at clause 0; each scan examines the clause after the one before it, and clause 0 again after the last; no scan but the last is conflicting |
| Propagation.PassPrefix | sat_explainer.py:57-58 | within a pass, the scans before the scan of clause c are those of clauses 0..c-1, in order |
| Propagation.RunReasonFirst | sat_explainer.py:57-72 | the first clause in formula order wins: the reason of a newly assigned variable is the clause of the first scan of its pass found unit on it, and the variable's value makes that clause's unit literal true |
| Propagation.RunGrows | sat_explainer.py:52-74 | propagation only extends the assignment: entry values are kept, and the new variables are clause variables |
| Propagation.RunReasonKeys | sat_explainer.py:71-72 | reasons are added for exactly the newly assigned variables, and the entry of every other variable keeps its value |
| Propagation.RunReasonOrigin | sat_explainer.py:63-73 | a newly assigned variable has exactly one unit scan in the run; its value and its reason come from that scan's clause (`Propagation.RunReasonFirst` shows it is the first in formula order) |
| Propagation.RunReasonsSound | sat_explainer.py:63-73 | every recorded reason is a clause of the formula whose literal on its variable is true and whose other literals are false |
| Propagation.RunKeepsModels | sat_explainer.py:52-74 | every model of the clauses that agrees with the entry assignment agrees with the propagated one |
| Propagation.ConflictRefutes | sat_explainer.py:61-62 | a conflict refutes the entry assignment: no model of the clauses agrees with it |
| Search.HintedVarsMeaning | sat_explainer.py:78-85 | the hinted prefix is exactly the unassigned hint variables (sign ignored), each once, in order of first occurrence |
| Search.RestVarsMeaning | sat_explainer.py:86 | the rest is exactly the unassigned, unhinted variables of 1..numVars, ascending |
| Search.PreferredOrderMeaning | sat_explainer.py:76-87 | the order is duplicate-free and holds exactly the unassigned variables of the hints and of 1..numVars; the hinted ones come first |
| Search.PreferredOrderEmpty | sat_explainer.py:76-87 | the order is empty iff every hint variable and every variable of 1..numVars is assigned |
| Search.PreferredVarOrder | sat_explainer.py:76-87 | the loop with its seen set and the comprehension compute that order |
| Search.SeedAssumptions | sat_explainer.py:170-178 | seeding stops exactly at the first assumption that contradicts an earlier one, with the assignment of the assumptions before it; otherwise the result is the full seeded assignment |
| Search.SeededMeaning | sat_explainer.py:170-178 | without a clash, seeding assigns exactly the assumption variables and makes every assumption true |
| Search.ClashMeaning | sat_explainer.py:173-177 | the clashing assumption is non-zero, its negation was assumed before it, and the assumptions before it do not clash |
| Search.ClashIff | sat_explainer.py:173-177 | seeding clashes iff some non-zero literal and its negation are both assumed |
| Search.ClashUnsat | sat_explainer.py:173-177 | under clashing assumptions no model exists, whatever the clauses |
| Search.ClashPair | sat_explainer.py:176 | the reported pair is {a, -a}, ascending |
| Explanation.Falsified | sat_explainer.py:116-123 | the falsified literals are the in-order subsequence of the clause's literals that are false under the assignment |
| Explanation.FalsifiedLiterals | sat_explainer.py:116-123 | the loop over the conflict clause computes the falsified literals |
| Explanation.PushReasonVars | sat_explainer.py:104-110 | the assigned variables of the reason clause other than v are pushed: exactly v's successors in the cause graph |
| Explanation.ExpandVar | sat_explainer.py:99-110 | a variable without a reason adds its assumption literal; one with a reason pushes its successors, all assigned |
| Explanation.CollectAssumptionCauses | sat_explainer.py:89-111 | the worklist walk returns the assumption literals of the reason-free variables the cause graph reaches from v |
| Explanation.CausesMeaning | sat_explainer.py:89-111 | l is a cause iff some reachable variable v has no reason, l is v's literal under `assign.get(v, False)`, and l or -l is an assumption |
| Explanation.CausesAreAssumptions | sat_explainer.py:99-103 | every cause is an assumption or its negation, its variable has no reason, and its sign is the variable's value (false when unassigned) |
| Explanation.AllAssumptionCauses | sat_explainer.py:125-128 | the union over the falsified literals equals the causes reached from their variables |
| Explanation.RuleWalk.constructor | sat_explainer.py:130-143 | the walk starts with nothing visited and no rule collected |
| Explanation.RuleWalk.Walk | sat_explainer.py:131-142 | walk_reasons visits v. Everything visited stays reachable from the start variables. Every finished variable has all its successors visited. The collected rules are those of the visited variables' reasons |
| Explanation.AllInvolvedRules | sat_explainer.py:143-145 | the walks from the falsified variables, sharing one visited set, collect exactly the rules reached from them |
| Explanation.RulesMeaning | sat_explainer.py:131-142 | a rule id is involved iff it is the id of the reason of a variable the rule graph reaches; the empty id counts too |
| Explanation.SortedByKey | sat_explainer.py:161 | the assumption causes are sorted by (\|x\|, x), each once |
| Explanation.SortedIds | sat_explainer.py:147 | the involved rule ids are sorted by string order, each once |
| Explanation.RulesInfo | sat_explainer.py:146-152 | each id gives its metadata, or the id with an empty description when it is missing |
| Explanation.RuleInfos | sat_explainer.py:146-152 | the loop builds that list |
| Explanation.BuildExplanation | sat_explainer.py:113-163 | the explanation holds the conflict clause, its falsified literals, the sorted causes reached from them and the metadata of the rules reached from them |
| Dpll.Push | sat_explainer.py:189-191 | a decision pushes an exact snapshot (assignment, reasons, variable, not yet tried False), then sets the variable True and propagates: the new assignment and reasons are where a propagation run in passes from that branch ends, at a fixpoint when consistent, and a conflict names the clause whose scan ends the run. The search invariant holds when consistent; on a conflict, every model is still covered by the stack |
| Dpll.Flip | sat_explainer.py:198-205 | a popped, untried snapshot is pushed back marked tried; its exact assignment is restored with the variable False and propagated: the new assignment and reasons are where a propagation run in passes from that branch ends, at a fixpoint when consistent, and a conflict names the clause whose scan ends the run. The invariants carry over and the budget drops by that branch |
| Dpll.Discard | sat_explainer.py:198-200 | a popped snapshot whose False branch was tried is dropped, and the rest of the stack still covers every model |
| Dpll.Pop | sat_explainer.py:195-207 | one turn of the backtracking loop keeps the bottom snapshot and lowers the budget; resuming re-establishes the search invariant |
| Dpll.Backtrack | sat_explainer.py:194-207 | backtracking either resumes the search with a smaller budget, or empties the stack. An empty stack restores the bottom snapshot, the state after the first propagation, and then no model agrees with the assumptions |
| Dpll.Exhausted | sat_explainer.py:196-197 | with no snapshot left, no model agrees with the seeded assignment |
| Dpll.Decide | sat_explainer.py:185-207 | one decision turn lowers the budget and keeps the invariant, or ends with every branch refuted and the bottom snapshot restored |
| Dpll.NextDecision | sat_explainer.py:185-186 | the chosen variable is unassigned and comes from the hints or 1..numVars |
| Dpll.NoDecisionLeft | sat_explainer.py:185-188 | with no variable left, every variable of 1..numVars and of the hints is assigned |
| Dpll.StartSearching | sat_explainer.py:179-183 | after a consistent first propagation the invariant holds with an empty stack |
| Dpll.Decisions | sat_explainer.py:183-207 | a sat answer extends the seeded assignment and is a fixpoint that assigns all of 1..numVars and every hint variable. It has sound reasons and no reason on an assumption. An unsat answer restores the starting state, and no model agrees with the assumptions |
| Dpll.SatResult | sat_explainer.py:186-188 | on a sat answer every assumption is true and, with clause variables within 1..numVars, every clause is satisfied |
| Dpll.RefutedSeed | sat_explainer.py:179-197 | refuting the seeded assignment means the clauses are unsatisfiable under the assumptions |
| Dpll.Explain | sat_explainer.py:165-207 | clashing assumptions give the assumption conflict with [-\|a\|, \|a\|]. True means every assumption is true, 1..numVars and the hints are assigned, and (within 1..numVars) a model. False means no model exists. The first propagation's log is made of passes in formula order. An unsat explanation is built under the propagated or restored assignment, with the reasons that log leaves; the reasons are sound and assumed variables never get one. An explanation built at the first propagation's conflict names the clause whose conflicting scan ends the log |
| Dpll.ExhaustedExplanationPartial | sat_explainer.py:195-197 | an explanation built at a fixpoint (the exhausted-stack path) has a conflict clause with a literal that is not falsified |
| Dpll.CheckUnsat | sat_explainer.py:209-211 | unsat means no model exists; not unsat means (within 1..numVars) a model exists; clashing assumptions always give unsat |
| Mus.HintedClausesMeaning | sat_explainer.py:213-217 | the focused subset is exactly the positions, in order, of the clauses that mention a hint variable; it is empty when there are no hints |
| Mus.StartCandidate | sat_explainer.py:221-233 | the start is the focused subset when it is non-empty and found unsat, otherwise all clauses; a rejected focused subset is satisfiable (within 1..numVars) |
| Mus.RemoveKeeps | sat_explainer.py:237 | dropping one position keeps the core increasing, in range and drawn from the old core |
| Mus.DeleteStep | sat_explainer.py:236-240 | after a deletion, the clauses already kept still have their satisfiable complements |
| Mus.TryDelete | sat_explainer.py:236-242 | one turn keeps the loop invariant: the core stays an increasing part of the candidate, unsat once anything was deleted, and (within 1..numVars) every clause kept so far is needed |
| Mus.MusDeletionBased | sat_explainer.py:219-243 | the core is an increasing part of the candidate and unsat whenever a deletion happened; dropping any one of its clauses makes it satisfiable (within 1..numVars); clashing assumptions give the empty core |
| Mus.IncreasingSubseq | sat_explainer.py:235-243 | an increasing core drawn from the increasing candidate is an order-preserving subsequence of it |
| Mus.SelectAll | sat_explainer.py:231-233 | the full candidate selects the formula's own clause list |
| Report.CoreRuleIds | sat_explainer.py:251 | exactly the non-empty rule ids of the core clauses |
| Report.MusRule | sat_explainer.py:258-261 | an entry carries the id of the core and its metadata's description, or the empty one |
| Report.MusRules | sat_explainer.py:258-261 | one entry per id, in order |
| Report.MusRuleList | sat_explainer.py:258-261 | the comprehension builds those entries |
| Report.MusRulesMeaning | sat_explainer.py:251-261 | the rule list is strictly sorted by id and names exactly the non-empty rule ids of the core |
| Report.ExplainWithMus | sat_explainer.py:245-264 | sat gives the model: all assumptions true, 1..numVars and the hint variables assigned, and a model within 1..numVars. Otherwise the formula is unsatisfiable and the report holds the search explanation, the size and clauses of an unsat core in formula order, its sorted rules and the hints. The primary explanation is the assumption conflict with the pair of the first clashing assumption, or is built under the assignment and reasons that the first propagation's log leaves: at the clause whose conflicting scan ends that log, or else at the fixpoint it reached. Removing any core clause makes it satisfiable (within 1..numVars); clashing assumptions give an empty core |

## Left out

- `load_dimacs` (sat_explainer.py:266-282) reads a file and parses text. File I/O and string parsing are not part of this model.
- `invoke_sat_explainer.py` is a script that calls the entry point and prints JSON. It holds no logic.
- The JSON and dict layout of the reports, and the free-text `note` of the sat report, are replaced by the `Report` and `Explanation` datatypes.
- The `assign` and `reasons` dicts are mutated in place in the source. The model keeps them as map values that methods return, so aliasing between the live dicts and the stack snapshots is not modelled. The source copies every snapshot and never shares it, so no behaviour is lost.
- Reason clauses are referred to by their position in the formula, not by object identity.
- The branch of `unit_propagate` for an already-assigned unit variable (lines 66-70) is proved unreachable (`Formula.UnitLitUnassigned`) and has no code of its own.
- Dpll.Explain: the model claim on a sat answer is stated only when every clause variable lies in 1..numVars, because the search never decides other variables.
- Mus.MusDeletionBased: minimality is stated only when every clause variable lies in 1..numVars, because it rests on the sat answers of the oracle.
- Report.ExplainWithMus: the same condition applies to its model and minimality claims.
- Dpll.CheckUnsat: that a negative answer means a model exists is stated only when every clause variable lies in 1..numVars, for the same reason as Dpll.Explain.
- Mus.StartCandidate: that a rejected focused subset is satisfiable is stated only when every clause variable lies in 1..numVars, because it rests on the sat answer of the oracle.
- Mus.TryDelete: that every clause kept so far is needed is stated only when every clause variable lies in 1..numVars, for the same reason.
- `walk_reasons` (sat_explainer.py:131-142) recurses once per variable on a reason chain, so a long chain can hit Python's recursion limit and raise `RecursionError`. The model has no such limit.
- Dpll.Explain: the explanation is stated through the same specification functions as `Explanation.BuildExplanation`, and the exact conflict clause chosen after backtracking is not named.
- Performance is not modelled: worst-case exponential running time and the cost of copying snapshots.
