/** dpll_explain: seeding, propagation, hint-biased decisions and
    chronological backtracking over a stack of full snapshots, and the
    unsat oracle built on it. */
module Dpll {
  import opened Formula
  import opened Propagation
  import opened Explanation
  import opened Search

  /** A snapshot pushed before a decision: the assignment and reasons as
      they were, the decision variable and whether False was tried. */
  datatype Frame = Frame(assign: Assignment, reasons: Reasons, v: int, triedNeg: bool)

  /** What dpll_explain reports besides the verdict. */
  datatype Info = Model | AssumptionConflict(conflicting: seq<int>) | Unsat(explanation: Explanation)

  /** The assignment a frame's branch starts from: the decision variable
      True first, False once the negative branch is taken. */
  function Branch(f: Frame): Assignment {
    f.assign[f.v := !f.triedNeg]
  }

  /** The frames form a chain of decisions over the seeded assignment a0:
      each decides a variable of univ its snapshot leaves unassigned, and
      each later snapshot extends every earlier branch. */
  ghost predicate Chain(a0: Assignment, univ: set<int>, stack: seq<Frame>) {
    && (forall i :: 0 <= i < |stack| ==>
          stack[i].v in univ && stack[i].v !in stack[i].assign && Extends(stack[i].assign, a0))
    && (forall i, j {:trigger Extends(stack[j].assign, Branch(stack[i]))} :: 0 <= i < j < |stack| ==>
          Extends(stack[j].assign, Branch(stack[i])))
  }

  /** a lies inside every branch of the stack. */
  ghost predicate Above(a: Assignment, a0: Assignment, stack: seq<Frame>) {
    Extends(a, a0) && forall i :: 0 <= i < |stack| ==> Extends(a, Branch(stack[i]))
  }

  /** No assumed and no decided variable has a reason. */
  ghost predicate NoReasonFor(reasons: Reasons, a0: Assignment, stack: seq<Frame>) {
    && (forall v :: v in reasons ==> v !in a0)
    && (forall i :: 0 <= i < |stack| ==> stack[i].v !in reasons)
  }

  /** Every snapshot holds sound reasons, none for the variables assumed or
      decided below it. */
  ghost predicate FramesSound(cnf: Cnf, a0: Assignment, stack: seq<Frame>) {
    && (forall j :: 0 <= j < |stack| ==>
          ReasonsSound(cnf, stack[j].assign, stack[j].reasons) && forall v :: v in stack[j].reasons ==> v !in a0)
    && (forall i, j :: 0 <= i < j < |stack| ==> stack[i].v !in stack[j].reasons)
  }

  /** The model m lies in a negative branch not yet tried. */
  ghost predicate Covered(m: Assignment, stack: seq<Frame>) {
    exists i :: 0 <= i < |stack| && !stack[i].triedNeg && Agrees(m, stack[i].assign[stack[i].v := false])
  }

  /** The state of the decision loop. */
  ghost predicate Searching(cnf: Cnf, a0: Assignment, univ: set<int>, stack: seq<Frame>, a: Assignment, reasons: Reasons) {
    && Chain(a0, univ, stack) && FramesSound(cnf, a0, stack)
    && Above(a, a0, stack)
    && ReasonsSound(cnf, a, reasons) && NoReasonFor(reasons, a0, stack)
    && Fixpoint(cnf.clauses, a)
    && (forall m :: ClausesModel(m, cnf.clauses) && Agrees(m, a0) ==> Agrees(m, a) || Covered(m, stack))
  }

  /** Backtracking state: a chain of snapshots whose untried negative
      branches cover every model. */
  ghost predicate Refuting(cnf: Cnf, a0: Assignment, univ: set<int>, stack: seq<Frame>) {
    && Chain(a0, univ, stack) && FramesSound(cnf, a0, stack)
    && (forall m :: ClausesModel(m, cnf.clauses) && Agrees(m, a0) ==> Covered(m, stack))
  }

  /** The bottom snapshot, or the current state while the stack is empty,
      is the assignment a with reasons r. */
  ghost predicate Rooted(stack: seq<Frame>, assign: Assignment, reasons: Reasons, a: Assignment, r: Reasons) {
    if stack == [] then assign == a && reasons == r else stack[0].assign == a && stack[0].reasons == r
  }

  // ----- Termination -----

  /** A bound on the steps left to search a subtree with k free variables. */
  function Budget(k: int): (r: nat)
    ensures r >= 1
  {
    if k <= 0 then 1 else 2 * Budget(k - 1) + 1
  }

  /** The budget of the negative branches still to try, for n variables. */
  function Pending(stack: seq<Frame>, n: int): nat {
    if stack == [] then 0
    else Pending(stack[..|stack| - 1], n) + (if stack[|stack| - 1].triedNeg then 0 else Budget(n - |stack|))
  }

  lemma PendingSnoc(stack: seq<Frame>, f: Frame, n: int)
    ensures Pending(stack + [f], n) == Pending(stack, n) + (if f.triedNeg then 0 else Budget(n - |stack| - 1))
  {
  }

  /** The decision variables of the stack. */
  function FrameVars(stack: seq<Frame>): set<int> {
    if stack == [] then {} else FrameVars(stack[..|stack| - 1]) + {stack[|stack| - 1].v}
  }

  lemma {:induction false} FrameVarsCard(a0: Assignment, univ: set<int>, stack: seq<Frame>)
    requires Chain(a0, univ, stack)
    ensures |FrameVars(stack)| == |stack|
    ensures FrameVars(stack) <= univ
    ensures forall v :: v in FrameVars(stack) ==> exists i :: 0 <= i < |stack| && stack[i].v == v
  {
    if stack != [] {
      var init, top := stack[..|stack| - 1], stack[|stack| - 1];
      assert Chain(a0, univ, init);
      FrameVarsCard(a0, univ, init);
      forall i | 0 <= i < |init| ensures init[i].v != top.v {
        assert Extends(top.assign, Branch(stack[i]));
      }
      forall v | v in FrameVars(stack) ensures exists i :: 0 <= i < |stack| && stack[i].v == v {
        if v != top.v {
          var i :| 0 <= i < |init| && init[i].v == v;
          assert stack[i].v == v;
        }
      }
    }
  }

  /** The decisions on the stack are distinct variables of univ, all
      assigned; so an unassigned variable of univ leaves room for one
      more. */
  lemma StackBound(a0: Assignment, univ: set<int>, stack: seq<Frame>, a: Assignment, v: int)
    requires Chain(a0, univ, stack) && Above(a, a0, stack)
    requires v in univ && v !in a
    ensures |stack| < |univ|
  {
    FrameVarsCard(a0, univ, stack);
    forall i | 0 <= i < |stack| ensures stack[i].v != v {
      assert Extends(a, Branch(stack[i]));
    }
    SubsetCard(FrameVars(stack) + {v}, univ);
  }

  // ----- One frame pushed, then propagation -----

  /** Removing the top frame leaves a chain; the top snapshot lies above
      the rest and holds sound reasons for none of their decisions. */
  lemma PopFrame(cnf: Cnf, a0: Assignment, univ: set<int>, stack: seq<Frame>)
    requires stack != [] && Chain(a0, univ, stack) && FramesSound(cnf, a0, stack)
    ensures var below, top := stack[..|stack| - 1], stack[|stack| - 1];
            && Chain(a0, univ, below) && FramesSound(cnf, a0, below)
            && top.v in univ && top.v !in top.assign && Above(top.assign, a0, below)
            && ReasonsSound(cnf, top.assign, top.reasons) && NoReasonFor(top.reasons, a0, below)
  {
  }

  /** Pushing a frame whose decision is unassigned and lies above the
      stack keeps the chain and the snapshots sound. */
  lemma PushChain(cnf: Cnf, a0: Assignment, univ: set<int>, stack: seq<Frame>, f: Frame)
    requires Chain(a0, univ, stack) && FramesSound(cnf, a0, stack)
    requires f.v in univ && f.v !in f.assign && Above(f.assign, a0, stack)
    requires ReasonsSound(cnf, f.assign, f.reasons) && NoReasonFor(f.reasons, a0, stack)
    ensures Chain(a0, univ, stack + [f]) && FramesSound(cnf, a0, stack + [f])
  {
  }

  /** Propagating from a frame's branch leaves an assignment above the
      extended stack, with sound reasons and none for an assumed or decided
      variable. */
  lemma PushPropagate(cnf: Cnf, a0: Assignment, stack: seq<Frame>, f: Frame, log: seq<Scan>)
    requires f.v !in f.assign && Above(f.assign, a0, stack)
    requires ReasonsSound(cnf, f.assign, f.reasons) && NoReasonFor(f.reasons, a0, stack)
    requires Chained(Branch(f), log) && Faithful(cnf, log)
    ensures var a, r := Final(Branch(f), log), ReasonsAfter(f.reasons, log);
            Above(a, a0, stack + [f]) && ReasonsSound(cnf, a, r) && NoReasonFor(r, a0, stack + [f])
  {
    var b := Branch(f);
    var s := stack + [f];
    ReasonsSoundExtends(cnf, f.assign, b, f.reasons);
    RunReasonsSound(cnf, b, f.reasons, log);
    RunReasonKeys(cnf, b, f.reasons, log);
    RunGrows(cnf, b, log);
    var a, r := Final(b, log), ReasonsAfter(f.reasons, log);
    assert Extends(b, f.assign);
    forall i | 0 <= i < |s| ensures Extends(a, Branch(s[i])) && s[i].v in b {
      if i < |stack| {
        assert s[i] == stack[i];
      }
    }
    forall v | v in r ensures v !in a0 {
      assert v in f.reasons || v !in b;
    }
    forall i | 0 <= i < |s| ensures s[i].v !in r {
      assert s[i].v in b;
      if i < |stack| {
        assert s[i] == stack[i];
      }
    }
  }

  lemma DecideCovers(m: Assignment, stack: seq<Frame>, f: Frame)
    requires !f.triedNeg && (Agrees(m, f.assign) || Covered(m, stack))
    ensures Agrees(m, Branch(f)) || Covered(m, stack + [f])
  {
    var s := stack + [f];
    if Covered(m, stack) {
      var i :| 0 <= i < |stack| && !stack[i].triedNeg && Agrees(m, stack[i].assign[stack[i].v := false]);
      assert s[i] == stack[i];
    } else if !Agrees(m, Branch(f)) {
      assert s[|stack|] == f;
    }
  }

  lemma FlipCovers(m: Assignment, stack: seq<Frame>)
    requires stack != [] && !stack[|stack| - 1].triedNeg && Covered(m, stack)
    ensures var below, top := stack[..|stack| - 1], stack[|stack| - 1];
            var f := Frame(top.assign, top.reasons, top.v, true);
            Agrees(m, Branch(f)) || Covered(m, below + [f])
  {
    var below, top := stack[..|stack| - 1], stack[|stack| - 1];
    var f := Frame(top.assign, top.reasons, top.v, true);
    var i :| 0 <= i < |stack| && !stack[i].triedNeg && Agrees(m, stack[i].assign[stack[i].v := false]);
    if i < |below| {
      assert (below + [f])[i] == stack[i];
    }
  }

  lemma PopCovers(m: Assignment, stack: seq<Frame>)
    requires stack != [] && stack[|stack| - 1].triedNeg && Covered(m, stack)
    ensures Covered(m, stack[..|stack| - 1])
  {
    var i :| 0 <= i < |stack| && !stack[i].triedNeg && Agrees(m, stack[i].assign[stack[i].v := false]);
    assert stack[..|stack| - 1][i] == stack[i];
  }

  // ----- Backtracking -----

  /** The backtracking loop of dpll_explain, entered after a conflict. It
      pops snapshots: one whose False branch was tried is discarded; one
      whose False branch was not is pushed back marked tried, restored, its
      variable set False and propagation rerun. It resumes the search at
      the first consistent propagation, and reports exhaustion with the
      last restored snapshot, the bottom one. */
  method Backtrack(cnf: Cnf, ghost a0: Assignment, ghost univ: set<int>, ghost root: Assignment, ghost rootReasons: Reasons,
                   stack0: seq<Frame>, assign0: Assignment, reasons0: Reasons, confl0: nat)
    returns (resumed: bool, stack: seq<Frame>, assign: Assignment, reasons: Reasons, confl: nat)
    requires stack0 != [] && Refuting(cnf, a0, univ, stack0)
    requires confl0 < |cnf.clauses| && Rooted(stack0, assign0, reasons0, root, rootReasons)
    ensures Rooted(stack, assign, reasons, root, rootReasons)
    ensures resumed ==> Searching(cnf, a0, univ, stack, assign, reasons)
    ensures resumed ==> stack != []
    ensures resumed ==> Budget(|univ| - |stack|) + Pending(stack, |univ|) <= Pending(stack0, |univ|)
    ensures !resumed ==> stack == []
    ensures !resumed ==> confl < |cnf.clauses| && forall m :: ClausesModel(m, cnf.clauses) ==> !Agrees(m, a0)
  {
    ghost var n := |univ|;
    stack, assign, reasons, confl := stack0, assign0, reasons0, confl0;
    while true
      invariant Refuting(cnf, a0, univ, stack)
      invariant confl < |cnf.clauses|
      invariant Rooted(stack, assign, reasons, root, rootReasons)
      invariant Pending(stack, n) <= Pending(stack0, n)
      decreases Pending(stack, n), |stack|
    {
      if stack == [] {
        Exhausted(cnf, a0, univ);
        return false, stack, assign, reasons, confl;
      }
      var found: Option<nat>;
      stack, assign, reasons, resumed, found := Pop(cnf, a0, univ, root, rootReasons, stack, assign, reasons);
      if resumed {
        return;
      }
      if found.Some? {
        confl := found.value;
      }
    }
  }

  /** With no snapshot left, no model agrees with the seeded assignment. */
  lemma Exhausted(cnf: Cnf, a0: Assignment, univ: set<int>)
    requires Refuting(cnf, a0, univ, [])
    ensures forall m :: ClausesModel(m, cnf.clauses) ==> !Agrees(m, a0)
  {
  }

  /** One turn of the backtracking loop: pop a snapshot and either drop
      it or take its False branch. */
  method Pop(cnf: Cnf, ghost a0: Assignment, ghost univ: set<int>, ghost root: Assignment, ghost rootReasons: Reasons,
             stack0: seq<Frame>, ghost assign0: Assignment, ghost reasons0: Reasons)
    returns (stack: seq<Frame>, assign: Assignment, reasons: Reasons, resumed: bool, found: Option<nat>)
    requires stack0 != [] && Refuting(cnf, a0, univ, stack0)
    requires Rooted(stack0, assign0, reasons0, root, rootReasons)
    ensures Rooted(stack, assign, reasons, root, rootReasons)
    ensures resumed ==> stack != []
    ensures resumed ==> Searching(cnf, a0, univ, stack, assign, reasons)
    ensures resumed ==> Budget(|univ| - |stack|) + Pending(stack, |univ|) <= Pending(stack0, |univ|)
    ensures !resumed ==> Refuting(cnf, a0, univ, stack)
    ensures !resumed ==>
              Pending(stack, |univ|) < Pending(stack0, |univ|) ||
              (Pending(stack, |univ|) == Pending(stack0, |univ|) && |stack| < |stack0|)
    ensures found.Some? ==> found.value < |cnf.clauses|
  {
    var top := stack0[|stack0| - 1];
    if top.triedNeg {
      Discard(cnf, a0, univ, stack0);
      stack := stack0[..|stack0| - 1];
      assign, reasons := top.assign, top.reasons;
      resumed, found := false, None;
      assert stack != [] ==> stack[0] == stack0[0];
    } else {
      var res: Outcome;
      ghost var log;
      stack, assign, reasons, res, log := Flip(cnf, a0, univ, stack0);
      resumed := res == Consistent;
      found := if res.Conflict? then Some(res.clause) else None;
      assert stack[0].assign == stack0[0].assign && stack[0].reasons == stack0[0].reasons;
    }
  }

  /** A popped snapshot whose False branch was tried is dropped: the rest
      of the stack still covers every model, with the same budget. */
  lemma Discard(cnf: Cnf, a0: Assignment, univ: set<int>, stack: seq<Frame>)
    requires stack != [] && stack[|stack| - 1].triedNeg
    requires Refuting(cnf, a0, univ, stack)
    ensures Refuting(cnf, a0, univ, stack[..|stack| - 1])
    ensures Pending(stack[..|stack| - 1], |univ|) == Pending(stack, |univ|)
  {
  }

  /** A popped snapshot whose False branch was not tried: it is pushed
      back marked tried, restored with its variable False, and propagation
      is rerun. */
  method Flip(cnf: Cnf, ghost a0: Assignment, ghost univ: set<int>, stack0: seq<Frame>)
    returns (stack: seq<Frame>, assign: Assignment, reasons: Reasons, res: Outcome, ghost log: seq<Scan>)
    requires stack0 != [] && !stack0[|stack0| - 1].triedNeg
    requires Refuting(cnf, a0, univ, stack0)
    ensures var top := stack0[|stack0| - 1];
            stack == stack0[..|stack0| - 1] + [Frame(top.assign, top.reasons, top.v, true)]
    ensures var top := stack0[|stack0| - 1];
            && Chained(top.assign[top.v := false], log) && Faithful(cnf, log) && InPasses(|cnf.clauses|, log)
            && assign == Final(top.assign[top.v := false], log) && reasons == ReasonsAfter(top.reasons, log)
    ensures res == Consistent ==> NoConflict(log) && Fixpoint(cnf.clauses, assign)
    ensures res.Conflict? ==> EndsInConflict(log, res.clause)
    ensures Budget(|univ| - |stack|) + Pending(stack, |univ|) == Pending(stack0, |univ|)
    ensures res == Consistent ==> Searching(cnf, a0, univ, stack, assign, reasons)
    ensures res.Conflict? ==> res.clause < |cnf.clauses| && Refuting(cnf, a0, univ, stack)
  {
    ghost var n := |univ|;
    var top := stack0[|stack0| - 1];
    var below := stack0[..|stack0| - 1];
    PopFrame(cnf, a0, univ, stack0);
    var f := Frame(top.assign, top.reasons, top.v, true);
    PushChain(cnf, a0, univ, below, f);
    PendingSnoc(below, top, n);
    assert stack0 == below + [top];
    PendingSnoc(below, f, n);
    stack := below + [f];
    res, assign, reasons, log := UnitPropagate(cnf, top.assign[top.v := false], top.reasons);
    PushPropagate(cnf, a0, below, f, log);
    RunKeepsModels(cnf, Branch(f), log);
    forall m | ClausesModel(m, cnf.clauses) && Agrees(m, a0) ensures Agrees(m, Branch(f)) || Covered(m, stack) {
      FlipCovers(m, stack0);
    }
    if res.Conflict? {
      ConflictRefutes(cnf, Branch(f), log, res.clause);
    }
  }

  // ----- The search -----

  /** The variables 1..n. */
  function UpTo(n: int): set<int>
    decreases n
  {
    if n < 1 then {} else UpTo(n - 1) + {n}
  }

  lemma {:induction false} UpToMeaning(n: int)
    ensures forall v :: v in UpTo(n) <==> 1 <= v <= n
    decreases n
  {
    if n >= 1 {
      UpToMeaning(n - 1);
    }
  }

  /** e is what build_explanation returns for the conflict clause e names,
      under assignment a and reasons. */
  ghost predicate Explains(cnf: Cnf, a: Assignment, reasons: Reasons, assumptions: seq<int>, e: Explanation) {
    && e.conflictClause in cnf.clauses
    && e.falsified == Falsified(e.conflictClause.lits, a)
    && e.assumptionCauses == SortedByKey(CausesReached(cnf, reasons, Elems(assumptions), a, VarsOf(e.falsified)))
    && e.involvedRules == RulesInfo(cnf.rules, SortedIds(RulesReached(cnf, reasons, VarsOf(e.falsified))))
  }

  /** Once every decision is exhausted the explanation is built under the
      assignment after the first propagation, a fixpoint: the conflict
      clause found last is then never wholly falsified there, so at least
      one of its literals is missing from the falsified list. */
  lemma ExhaustedExplanationPartial(cnf: Cnf, a: Assignment, reasons: Reasons, assumptions: seq<int>, e: Explanation)
    requires Fixpoint(cnf.clauses, a) && Explains(cnf, a, reasons, assumptions, e)
    ensures exists l :: l in e.conflictClause.lits && l !in e.falsified
  {
    var lits := e.conflictClause.lits;
    var i :| 0 <= i < |cnf.clauses| && cnf.clauses[i] == e.conflictClause;
    assert Settled(StatusOf(lits, a));
    StatusMeaning(lits, a);
    var l :| l in lits && LitValue(l, a) != Some(false);
    assert l !in e.falsified;
  }

  /** A model of the clauses and the assumptions agrees with the seeded
      assignment. */
  lemma ModelAgreesWithSeed(m: Assignment, clauses: seq<Clause>, xs: seq<int>)
    requires FirstClash(xs).None? && IsModel(m, clauses, xs)
    ensures ClausesModel(m, clauses) && Agrees(m, Seeded(xs))
  {
    SeededMeaning(xs);
    forall v | v in Seeded(xs) && v in m ensures m[v] == Seeded(xs)[v] {
      var x :| x in xs && Abs(x) == v;
      assert LitValue(x, m) == Some(true) && LitValue(x, Seeded(xs)) == Some(true);
    }
  }

  /** When no model of the clauses agrees with the seeded assignment, the
      clauses are unsatisfiable under the assumptions. */
  lemma RefutedSeed(cnf: Cnf, xs: seq<int>)
    requires FirstClash(xs).None?
    requires forall m :: ClausesModel(m, cnf.clauses) ==> !Agrees(m, Seeded(xs))
    ensures !Satisfiable(cnf.clauses, xs)
  {
    forall m | IsModel(m, cnf.clauses, xs) ensures false {
      ModelAgreesWithSeed(m, cnf.clauses, xs);
    }
  }

  /** dpll_explain. The verdict is exact: True comes with a full
      assignment that makes every assumption true and, when the clause
      variables lie in 1..numVars, every clause; False means no model
      exists. An unsat explanation is built under the assignment after the
      first propagation, either at its own conflict or, once every decision
      is exhausted, from the conflict found last. */
  method Explain(cnf: Cnf, assumptions: seq<int>, hints: seq<int>)
    returns (sat: bool, assign: Assignment, info: Info,
             ghost reasonsOut: Reasons, ghost log0: seq<Scan>, ghost early: bool)
    ensures sat <==> info.Model?
    ensures info.AssumptionConflict? <==> FirstClash(assumptions).Some?
    ensures info.AssumptionConflict? ==>
              var k := FirstClash(assumptions).value;
              info.conflicting == ClashPair(assumptions[k]) && assign == Seeded(assumptions[..k])
    ensures sat ==> (forall v :: 1 <= v <= cnf.numVars ==> v in assign) && (forall v :: v in VarsOf(hints) ==> v in assign)
    ensures sat ==> (forall x :: x in assumptions ==> LitValue(x, assign) == Some(true)) && Fixpoint(cnf.clauses, assign)
    ensures sat && VarsWithin(cnf) ==> IsModel(assign, cnf.clauses, assumptions)
    ensures !sat ==> !Satisfiable(cnf.clauses, assumptions)
    ensures !info.AssumptionConflict? ==>
              && Chained(Seeded(assumptions), log0) && Faithful(cnf, log0) && InPasses(|cnf.clauses|, log0)
              && ReasonsSound(cnf, assign, reasonsOut) && (forall v :: v in reasonsOut ==> v !in VarsOf(assumptions))
    ensures info.Unsat? ==>
              && assign == Final(Seeded(assumptions), log0) && reasonsOut == ReasonsAfter(map[], log0)
              && Explains(cnf, assign, reasonsOut, assumptions, info.explanation)
    ensures info.Unsat? && early ==>
              && StatusOf(info.explanation.conflictClause.lits, assign) == Conflicting
              && log0 != [] && log0[|log0| - 1].status == Conflicting && log0[|log0| - 1].clause < |cnf.clauses|
              && info.explanation.conflictClause == cnf.clauses[log0[|log0| - 1].clause]
    ensures info.Unsat? && !early ==> Fixpoint(cnf.clauses, assign)
  {
    var clash;
    clash, assign := SeedAssumptions(assumptions);
    if clash.Some? {
      ClashUnsat(cnf.clauses, assumptions);
      return false, assign, AssumptionConflict(ClashPair(clash.value)), map[], [], false;
    }
    ghost var a0 := assign;
    SeededMeaning(assumptions);
    var res: Outcome;
    var reasons: Reasons;
    res, assign, reasons, log0 := UnitPropagate(cnf, assign, map[]);
    RunReasonsSound(cnf, a0, map[], log0);
    RunReasonKeys(cnf, a0, map[], log0);
    RunGrows(cnf, a0, log0);
    RunKeepsModels(cnf, a0, log0);
    if res.Conflict? {
      ConflictRefutes(cnf, a0, log0, res.clause);
      RefutedSeed(cnf, assumptions);
      var e := BuildExplanation(cnf, assign, reasons, cnf.clauses[res.clause], assumptions);
      return false, assign, Unsat(e), reasons, log0, true;
    }
    early := false;
    StartSearching(cnf, a0, log0);
    var sat', confl;
    sat', assign, reasons, confl := Decisions(cnf, a0, hints, assign, reasons);
    if sat' {
      SatResult(cnf, assumptions, assign);
      return true, assign, Model, reasons, log0, false;
    }
    RefutedSeed(cnf, assumptions);
    var e := BuildExplanation(cnf, assign, reasons, cnf.clauses[confl], assumptions);
    return false, assign, Unsat(e), reasons, log0, false;
  }

  /** The decision loop of dpll_explain, from the state after the first
      consistent propagation. It ends with a full assignment at a
      fixpoint, or with every branch refuted and the starting state
      restored. */
  method Decisions(cnf: Cnf, ghost a0: Assignment, hints: seq<int>, assign0: Assignment, reasons0: Reasons)
    returns (sat: bool, assign: Assignment, reasons: Reasons, confl: nat)
    requires Searching(cnf, a0, {}, [], assign0, reasons0)
    ensures sat ==> Extends(assign, a0) && Fixpoint(cnf.clauses, assign)
    ensures sat ==> ReasonsSound(cnf, assign, reasons) && forall v :: v in reasons ==> v !in a0
    ensures sat ==> (forall v :: 1 <= v <= cnf.numVars ==> v in assign) && (forall v :: v in VarsOf(hints) ==> v in assign)
    ensures !sat ==> assign == assign0 && reasons == reasons0
    ensures !sat ==> confl < |cnf.clauses| && forall m :: ClausesModel(m, cnf.clauses) ==> !Agrees(m, a0)
  {
    ghost var univ := VarsOf(hints) + UpTo(cnf.numVars);
    ghost var n := |univ|;
    var stack: seq<Frame> := [];
    assign, reasons := assign0, reasons0;
    while true
      invariant Searching(cnf, a0, univ, stack, assign, reasons)
      invariant Rooted(stack, assign, reasons, assign0, reasons0)
      decreases Budget(n - |stack|) + Pending(stack, n)
    {
      var order := PreferredVarOrder(cnf.numVars, assign, hints);
      if order == [] {
        NoDecisionLeft(cnf.numVars, assign, hints);
        SearchingFacts(cnf, a0, univ, stack, assign, reasons);
        return true, assign, reasons, 0;
      }
      var v := order[0];
      NextDecision(cnf.numVars, assign, hints);
      var exhausted;
      stack, assign, reasons, exhausted, confl := Decide(cnf, a0, univ, assign0, reasons0, stack, assign, reasons, v);
      if exhausted {
        return false, assign, reasons, confl;
      }
    }
  }

  /** The first variable of a non-empty order is an unassigned variable
      of the hints or of 1..n. */
  lemma NextDecision(n: int, a: Assignment, hints: seq<int>)
    requires PreferredOrder(n, a, hints) != []
    ensures PreferredOrder(n, a, hints)[0] !in a && PreferredOrder(n, a, hints)[0] in VarsOf(hints) + UpTo(n)
  {
    PreferredOrderMeaning(n, a, hints);
    UpToMeaning(n);
    assert PreferredOrder(n, a, hints)[0] in PreferredOrder(n, a, hints);
  }

  /** An empty order means every hint variable and every variable of 1..n
      is assigned. */
  lemma NoDecisionLeft(n: int, a: Assignment, hints: seq<int>)
    requires PreferredOrder(n, a, hints) == []
    ensures (forall v :: 1 <= v <= n ==> v in a) && (forall v :: v in VarsOf(hints) ==> v in a)
  {
    PreferredOrderEmpty(n, a, hints);
  }

  lemma SearchingFacts(cnf: Cnf, a0: Assignment, univ: set<int>, stack: seq<Frame>, a: Assignment, reasons: Reasons)
    requires Searching(cnf, a0, univ, stack, a, reasons)
    ensures Extends(a, a0) && Fixpoint(cnf.clauses, a)
    ensures ReasonsSound(cnf, a, reasons) && forall v :: v in reasons ==> v !in a0
  {
  }

  /** After a consistent first propagation the search starts from an
      empty stack. */
  lemma StartSearching(cnf: Cnf, a0: Assignment, log: seq<Scan>)
    requires Chained(a0, log) && Faithful(cnf, log) && Fixpoint(cnf.clauses, Final(a0, log))
    ensures Searching(cnf, a0, {}, [], Final(a0, log), ReasonsAfter(map[], log))
  {
    RunReasonsSound(cnf, a0, map[], log);
    RunReasonKeys(cnf, a0, map[], log);
    RunGrows(cnf, a0, log);
    RunKeepsModels(cnf, a0, log);
  }

  /** One turn of the decision loop: push a snapshot, set v True and
      propagate; on a conflict, backtrack. Either the search goes on from a
      smaller budget, or every branch is refuted and the bottom snapshot is
      restored. */
  method Decide(cnf: Cnf, ghost a0: Assignment, ghost univ: set<int>, ghost root: Assignment, ghost rootReasons: Reasons,
                stack0: seq<Frame>, assign0: Assignment, reasons0: Reasons, v: int)
    returns (stack: seq<Frame>, assign: Assignment, reasons: Reasons, exhausted: bool, confl: nat)
    requires Searching(cnf, a0, univ, stack0, assign0, reasons0)
    requires Rooted(stack0, assign0, reasons0, root, rootReasons)
    requires v in univ && v !in assign0
    ensures !exhausted ==> Searching(cnf, a0, univ, stack, assign, reasons)
    ensures Rooted(stack, assign, reasons, root, rootReasons)
    ensures exhausted ==> stack == []
    ensures !exhausted ==>
              Budget(|univ| - |stack|) + Pending(stack, |univ|) < Budget(|univ| - |stack0|) + Pending(stack0, |univ|)
    ensures exhausted ==> confl < |cnf.clauses| && forall m :: ClausesModel(m, cnf.clauses) ==> !Agrees(m, a0)
  {
    var res;
    ghost var log;
    stack, assign, reasons, res, log := Push(cnf, a0, univ, stack0, assign0, reasons0, v);
    assert Rooted(stack, assign, reasons, root, rootReasons) by {
      assert stack[0] == if stack0 == [] then Frame(assign0, reasons0, v, false) else stack0[0];
    }
    assert Budget(|univ| - |stack0|) == 2 * Budget(|univ| - |stack|) + 1;
    confl := 0;
    exhausted := false;
    if res.Conflict? {
      var resumed;
      resumed, stack, assign, reasons, confl := Backtrack(cnf, a0, univ, root, rootReasons, stack, assign, reasons, res.clause);
      exhausted := !resumed;
    }
  }

  /** The decision proper: snapshot the state, set v True, propagate. */
  method Push(cnf: Cnf, ghost a0: Assignment, ghost univ: set<int>,
              stack0: seq<Frame>, assign0: Assignment, reasons0: Reasons, v: int)
    returns (stack: seq<Frame>, assign: Assignment, reasons: Reasons, res: Outcome, ghost log: seq<Scan>)
    requires Searching(cnf, a0, univ, stack0, assign0, reasons0)
    requires v in univ && v !in assign0
    ensures stack == stack0 + [Frame(assign0, reasons0, v, false)]
    ensures && Chained(assign0[v := true], log) && Faithful(cnf, log) && InPasses(|cnf.clauses|, log)
            && assign == Final(assign0[v := true], log) && reasons == ReasonsAfter(reasons0, log)
    ensures res == Consistent ==> NoConflict(log) && Fixpoint(cnf.clauses, assign)
    ensures res.Conflict? ==> EndsInConflict(log, res.clause)
    ensures |stack0| < |univ| && Pending(stack, |univ|) == Pending(stack0, |univ|) + Budget(|univ| - |stack|)
    ensures res == Consistent ==> Searching(cnf, a0, univ, stack, assign, reasons)
    ensures res.Conflict? ==> res.clause < |cnf.clauses| && Refuting(cnf, a0, univ, stack)
  {
    ghost var n := |univ|;
    StackBound(a0, univ, stack0, assign0, v);
    var f := Frame(assign0, reasons0, v, false);
    PushChain(cnf, a0, univ, stack0, f);
    forall m | ClausesModel(m, cnf.clauses) && Agrees(m, a0) ensures Agrees(m, Branch(f)) || Covered(m, stack0 + [f]) {
      DecideCovers(m, stack0, f);
    }
    PendingSnoc(stack0, f, n);
    stack := stack0 + [f];
    res, assign, reasons, log := UnitPropagate(cnf, assign0[v := true], reasons0);
    PushPropagate(cnf, a0, stack0, f, log);
    RunKeepsModels(cnf, Branch(f), log);
    if res.Conflict? {
      ConflictRefutes(cnf, Branch(f), log, res.clause);
    }
  }

  /** The sat exit: the assignment extends the seeded one, so it makes
      every assumption true; covering every clause, a fixpoint satisfies
      them all. */
  lemma SatResult(cnf: Cnf, xs: seq<int>, a: Assignment)
    requires FirstClash(xs).None? && Extends(a, Seeded(xs)) && Fixpoint(cnf.clauses, a)
    requires forall v :: 1 <= v <= cnf.numVars ==> v in a
    ensures forall x :: x in xs ==> LitValue(x, a) == Some(true)
    ensures VarsWithin(cnf) ==> IsModel(a, cnf.clauses, xs)
  {
    SeededMeaning(xs);
    forall x | x in xs ensures LitValue(x, a) == Some(true) {
      ExtendsKeepsValue(a, Seeded(xs), x);
    }
    if VarsWithin(cnf) {
      FixpointSatisfies(cnf.clauses, a);
    }
  }

  /** check_unsat_under_assumptions: the negated verdict of the search. */
  method CheckUnsat(cnf: Cnf, assumptions: seq<int>, hints: seq<int>) returns (unsat: bool)
    ensures unsat ==> !Satisfiable(cnf.clauses, assumptions)
    ensures !unsat && VarsWithin(cnf) ==> Satisfiable(cnf.clauses, assumptions)
    ensures FirstClash(assumptions).Some? ==> unsat
  {
    var sat, assign, info, reasons, log0, early := Explain(cnf, assumptions, hints);
    unsat := !sat;
  }
}
