/** The top-level entry point: a model when the formula is satisfiable
    under the assumptions, otherwise the primary explanation of the search
    together with a subset-minimal unsatisfiable core and the rules its
    clauses come from. */
module Report {
  import opened Sorting
  import opened Formula
  import opened Propagation
  import opened Explanation
  import opened Search
  import opened Dpll
  import opened Mus

  /** The two report shapes of explain_with_mus. The explanatory notes
      and the JSON layout are not modelled. */
  datatype Report =
    | SatReport(model: Assignment)
    | UnsatWithCore(
        primary: Info,
        musSize: nat,
        musClauses: seq<Clause>,
        musRules: seq<RuleMeta>,
        hintsUsed: seq<int>)

  /** The non-empty rule ids of some clauses, each once. */
  function CoreRuleIds(clauses: seq<Clause>): (r: set<string>)
    ensures forall rid :: rid in r <==> rid != "" && exists c :: c in clauses && c.ruleId == rid
  {
    set c | c in clauses && c.ruleId != "" :: c.ruleId
  }

  /** One mus_rules entry: the id the core names, with the description of
      its metadata (empty when the rule is unknown). */
  function MusRule(rules: map<string, RuleMeta>, rid: string): (r: RuleMeta)
    ensures r.ruleId == rid
    ensures rid in rules ==> r.description == rules[rid].description
    ensures rid !in rules ==> r.description == ""
  {
    RuleMeta(rid, LookupRule(rules, rid).description)
  }

  /** The mus_rules entries for the ids, in order. */
  function MusRules(rules: map<string, RuleMeta>, ids: seq<string>): (r: seq<RuleMeta>)
    ensures |r| == |ids|
    ensures forall i :: 0 <= i < |ids| ==> r[i] == MusRule(rules, ids[i])
  {
    if ids == [] then [] else MusRules(rules, ids[..|ids| - 1]) + [MusRule(rules, ids[|ids| - 1])]
  }

  /** The mus_rules entries, one per computed id, in order. */
  method MusRuleList(rules: map<string, RuleMeta>, ids: seq<string>) returns (r: seq<RuleMeta>)
    ensures r == MusRules(rules, ids)
  {
    r := [];
    for k := 0 to |ids|
      invariant r == MusRules(rules, ids[..k])
    {
      assert ids[..k + 1][..k] == ids[..k];
      r := r + [MusRule(rules, ids[k])];
    }
    assert ids[..|ids|] == ids;
  }

  /** The mus_rules list names each non-empty rule id of the core exactly
      once, in string order. */
  lemma MusRulesMeaning(rules: map<string, RuleMeta>, core: seq<Clause>)
    ensures var r := MusRules(rules, SortedIds(CoreRuleIds(core)));
            && (forall i, j :: 0 <= i < j < |r| ==> StringLess(r[i].ruleId, r[j].ruleId))
            && (forall i :: 0 <= i < |r| ==> r[i].ruleId in CoreRuleIds(core))
            && (forall rid :: rid in CoreRuleIds(core) ==> exists i :: 0 <= i < |r| && r[i].ruleId == rid)
  {
    var ids := SortedIds(CoreRuleIds(core));
    var r := MusRules(rules, ids);
    forall rid | rid in CoreRuleIds(core)
      ensures exists i :: 0 <= i < |r| && r[i].ruleId == rid
    {
      var i :| 0 <= i < |ids| && ids[i] == rid;
      assert r[i].ruleId == rid;
    }
  }

  /** explain_with_mus. A satisfiable instance yields the model of the
      search. Otherwise the report carries the search's explanation,
      the deletion-based core (its size, its clauses in formula order and
      the sorted rules they come from) and the hints. The core is
      unsatisfiable and, when the clause variables lie in 1..numVars,
      dropping any one of its clauses makes it satisfiable. The primary
      explanation is built under the assignment and reasons that the
      first propagation run, logged in primaryLog, leaves: at the clause
      whose conflict ends that run (primaryEarly), or otherwise at the
      fixpoint it reached. */
  method ExplainWithMus(cnf: Cnf, assumptions: seq<int>, hints: seq<int>)
    returns (report: Report, ghost core: seq<nat>,
             ghost primaryAssign: Assignment, ghost primaryReasons: Reasons, ghost primaryLog: seq<Scan>,
             ghost primaryEarly: bool)
    ensures report.SatReport? ==> (forall x :: x in assumptions ==> LitValue(x, report.model) == Some(true))
    ensures report.SatReport? ==>
              && (forall v :: 1 <= v <= cnf.numVars ==> v in report.model)
              && (forall v :: v in VarsOf(hints) ==> v in report.model)
    ensures report.SatReport? && VarsWithin(cnf) ==> IsModel(report.model, cnf.clauses, assumptions)
    ensures report.UnsatWithCore? ==> !Satisfiable(cnf.clauses, assumptions)
    ensures report.UnsatWithCore? ==>
              && !report.primary.Model?
              && (report.primary.AssumptionConflict? <==> FirstClash(assumptions).Some?)
              && InRange(core, |cnf.clauses|) && Increasing(core)
              && report.musClauses == Select(cnf.clauses, core)
              && report.musSize == |core|
              && report.musRules == MusRules(cnf.rules, SortedIds(CoreRuleIds(report.musClauses)))
              && report.hintsUsed == hints
              && !Satisfiable(report.musClauses, assumptions)
    ensures report.UnsatWithCore? && VarsWithin(cnf) ==>
              forall i :: 0 <= i < |core| ==> Satisfiable(Select(cnf.clauses, Remove(core, i)), assumptions)
    ensures report.UnsatWithCore? && FirstClash(assumptions).Some? ==> report.musClauses == []
    ensures report.UnsatWithCore? && report.primary.AssumptionConflict? ==>
              report.primary.conflicting == ClashPair(assumptions[FirstClash(assumptions).value])
    ensures report.UnsatWithCore? && report.primary.Unsat? ==>
              && Chained(Seeded(assumptions), primaryLog) && Faithful(cnf, primaryLog)
              && InPasses(|cnf.clauses|, primaryLog)
              && primaryAssign == Final(Seeded(assumptions), primaryLog)
              && primaryReasons == ReasonsAfter(map[], primaryLog)
              && Explains(cnf, primaryAssign, primaryReasons, assumptions, report.primary.explanation)
    ensures report.UnsatWithCore? && report.primary.Unsat? && primaryEarly ==>
              && StatusOf(report.primary.explanation.conflictClause.lits, primaryAssign) == Conflicting
              && primaryLog != [] && primaryLog[|primaryLog| - 1].status == Conflicting
              && primaryLog[|primaryLog| - 1].clause < |cnf.clauses|
              && report.primary.explanation.conflictClause == cnf.clauses[primaryLog[|primaryLog| - 1].clause]
    ensures report.UnsatWithCore? && report.primary.Unsat? && !primaryEarly ==> Fixpoint(cnf.clauses, primaryAssign)
  {
    var sat, assign, info, reasons, log0, early := Explain(cnf, assumptions, hints);
    primaryAssign, primaryReasons, primaryLog, primaryEarly := assign, reasons, log0, early;
    if sat {
      return SatReport(assign), [], assign, reasons, log0, early;
    }
    var positions, start, focused := MusDeletionBased(cnf, assumptions, hints);
    core := positions;
    if core == start && !focused {
      SelectAll(cnf.clauses);
    }
    var clauses := Select(cnf.clauses, positions);
    StringLessIsStrictTotal();
    var ids := SortSet(CoreRuleIds(clauses), StringLess);
    var musRules := MusRuleList(cnf.rules, ids);
    report := UnsatWithCore(info, |positions|, clauses, musRules, hints);
  }
}
