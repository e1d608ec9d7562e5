/** Unit propagation with reason tracking. The assignment and reason maps,
    which the explainer updates in place, are passed in and returned. A
    reason is the index of the clause that forced a variable.

    A run is specified by its ghost log: the sequence of clause
    classifications it made, in order. Each classification starts from
    the assignment the previous one left, and a unit clause assigns its
    literal. The lemmas at the end derive from the log what the explainer
    relies on: the assignment only grows, every new variable gets exactly
    one reason (the first clause found unit on it), reasons stay sound,
    and no model of the clauses is lost. */
module Propagation {
  import opened Formula

  type Reasons = map<int, nat>

  /** (True, None) or (False, clause). */
  datatype Outcome = Consistent | Conflict(clause: nat)

  /** One classification made by a run: the clause examined, the
      assignment it was examined under and the status found. */
  datatype Scan = Scan(clause: nat, before: Assignment, status: Status)

  /** The scan found its clause unit on variable v. */
  predicate UnitOn(s: Scan, v: int) {
    s.status.Unit? && Abs(s.status.lit) == v
  }

  /** The assignment after a scan: a unit clause assigns the variable of
      its literal so as to make the literal true. */
  function Applied(s: Scan): Assignment {
    if s.status.Unit? then s.before[Abs(s.status.lit) := s.status.lit > 0] else s.before
  }

  /** The assignment a run starting from a0 ends with. */
  function Final(a0: Assignment, log: seq<Scan>): Assignment {
    if log == [] then a0 else Applied(log[|log| - 1])
  }

  /** The reasons a run starting from r0 ends with: each unit scan records
      its clause as the reason of the variable it assigned. */
  function ReasonsAfter(r0: Reasons, log: seq<Scan>): Reasons {
    if log == [] then r0
    else
      var r := ReasonsAfter(r0, log[..|log| - 1]);
      var s := log[|log| - 1];
      if s.status.Unit? then r[Abs(s.status.lit) := s.clause] else r
  }

  /** Each scan starts from the assignment the previous one left. */
  ghost predicate Chained(a0: Assignment, log: seq<Scan>) {
    && (|log| > 0 ==> log[0].before == a0)
    && (forall q :: 0 < q < |log| ==> log[q].before == Applied(log[q - 1]))
  }

  /** Every logged status is the status of a clause of the formula under
      the logged assignment. */
  ghost predicate Faithful(cnf: Cnf, log: seq<Scan>) {
    forall q {:trigger ScanFaithful(cnf, log[q])} :: 0 <= q < |log| ==> ScanFaithful(cnf, log[q])
  }

  /** The scan's status is that of a clause of the formula under its
      assignment. */
  ghost predicate ScanFaithful(cnf: Cnf, s: Scan) {
    s.clause < |cnf.clauses| && s.status == StatusOf(cnf.clauses[s.clause].lits, s.before)
  }

  /** log is a chained, faithful run from a0 and r0 that ends with the
      assignment a and the reasons reasons. */
  ghost predicate Replays(cnf: Cnf, a0: Assignment, r0: Reasons, log: seq<Scan>, a: Assignment, reasons: Reasons) {
    Chained(a0, log) && Faithful(cnf, log) && a == Final(a0, log) && reasons == ReasonsAfter(r0, log)
  }

  /** The clause scanned after clause c: the next one, or the first one
      again after the last. */
  function NextClause(c: nat, n: nat): nat {
    if c + 1 == n then 0 else c + 1
  }

  /** The log is made of passes over the clauses in formula order: it
      starts at clause 0, each scan examines the clause after the one
      before it, and only the last scan may be conflicting, since a
      conflict ends the run. */
  ghost predicate InPasses(n: nat, log: seq<Scan>)
    decreases |log|
  {
    if |log| <= 1 then
      log == [] || log[0].clause == 0
    else
      var init := log[..|log| - 1];
      && InPasses(n, init)
      && init[|init| - 1].status != Conflicting
      && log[|log| - 1].clause == NextClause(init[|init| - 1].clause, n)
  }

  /** InPasses, scan by scan. */
  lemma {:induction false} InPassesAt(n: nat, log: seq<Scan>)
    requires InPasses(n, log)
    ensures |log| > 0 ==> log[0].clause == 0
    ensures forall q :: 0 < q < |log| ==> log[q].clause == NextClause(log[q - 1].clause, n)
    ensures forall q :: 0 <= q < |log| - 1 ==> log[q].status != Conflicting
    decreases |log|
  {
    if |log| > 1 {
      var init := log[..|log| - 1];
      InPassesAt(n, init);
      assert forall q :: 0 <= q < |init| ==> log[q] == init[q];
    }
  }

  /** No scan of the log found its clause conflicting. */
  ghost predicate NoConflict(log: seq<Scan>) {
    forall q :: 0 <= q < |log| ==> log[q].status != Conflicting
  }

  /** log' extends log by the scans of clauses 0..i-1, in order. */
  ghost predicate PassFrom(log: seq<Scan>, log': seq<Scan>, i: nat)
    decreases i
  {
    if i == 0 then log' == log
    else |log'| > 0 && log'[|log'| - 1].clause == i - 1 && PassFrom(log, log'[..|log'| - 1], i - 1)
  }

  /** PassFrom, scan by scan: log' is log followed by the scans of
      clauses 0..i-1. */
  lemma {:induction false} PassFromAt(log: seq<Scan>, log': seq<Scan>, i: nat)
    requires PassFrom(log, log', i)
    ensures log <= log' && |log'| == |log| + i
    ensures forall k :: |log| <= k < |log'| ==> log'[k].clause == k - |log|
    decreases i
  {
    if i > 0 {
      var init := log'[..|log'| - 1];
      PassFromAt(log, init, i - 1);
      assert forall k :: 0 <= k < |init| ==> log'[k] == init[k];
    }
  }

  /** A pass starts where the previous one ended: after the last clause. */
  ghost predicate AtPassEnd(n: nat, log: seq<Scan>) {
    log != [] ==> log[|log| - 1].clause + 1 == n
  }

  /** A pass appended after a complete pass, with no conflict before its
      last scan, keeps the log in passes. */
  lemma {:induction false} PassInPasses(n: nat, log: seq<Scan>, log': seq<Scan>, i: nat)
    requires InPasses(n, log) && NoConflict(log) && AtPassEnd(n, log)
    requires PassFrom(log, log', i) && i <= n
    requires forall k :: 0 <= k < |log'| - 1 ==> log'[k].status != Conflicting
    ensures InPasses(n, log')
    decreases i
  {
    if i > 0 {
      var init := log'[..|log'| - 1];
      PassInPasses(n, log, init, i - 1);
      if |log'| > 1 {
        assert init[|init| - 1] == log'[|log'| - 2];
      }
    }
  }

  /** The scan of clause i, appended to a pass without conflicts so far,
      keeps the log in passes. */
  lemma PassInPassesSnoc(n: nat, log: seq<Scan>, log': seq<Scan>, i: nat, s: Scan)
    requires InPasses(n, log) && NoConflict(log) && AtPassEnd(n, log)
    requires PassFrom(log, log', i) && NoConflict(log') && i < n && s.clause == i
    ensures InPasses(n, log' + [s]) && PassFrom(log, log' + [s], i + 1)
  {
    assert (log' + [s])[..|log'|] == log';
    assert forall k :: 0 <= k < |log'| ==> (log' + [s])[k] == log'[k];
    PassInPasses(n, log, log' + [s], i + 1);
  }

  /** The last scan of the log found clause c conflicting. */
  ghost predicate EndsInConflict(log: seq<Scan>, c: nat) {
    log != [] && log[|log| - 1].clause == c && log[|log| - 1].status == Conflicting
  }

  /** A pass that stopped at the conflicting clause c: after log, its
      scans are those of clauses 0..c, the last finding clause c
      conflicting, as it is under the assignment the pass ends with. */
  ghost predicate StoppedAt(cnf: Cnf, log: seq<Scan>, log': seq<Scan>, c: nat, a': Assignment) {
    && c < |cnf.clauses| && PassFrom(log, log', c + 1) && EndsInConflict(log', c)
    && StatusOf(cnf.clauses[c].lits, a') == Conflicting
  }

  /** A pass that went through every clause: after log, its scans are
      those of all clauses in order, and none found a conflict. */
  ghost predicate RanThrough(cnf: Cnf, log: seq<Scan>, log': seq<Scan>) {
    PassFrom(log, log', |cnf.clauses|) && NoConflict(log') && AtPassEnd(|cnf.clauses|, log')
  }

  /** A complete pass ends at the last clause. */
  lemma PassEnd(n: nat, log: seq<Scan>, log': seq<Scan>)
    requires PassFrom(log, log', n) && AtPassEnd(n, log)
    ensures AtPassEnd(n, log')
  {
    if n > 0 {
      assert log'[|log'| - 1].clause == n - 1;
    }
  }

  /** Scan p is the first scan of the log found unit on v, and v was
      unassigned then. */
  ghost predicate FirstUnit(log: seq<Scan>, v: int, p: int) {
    && 0 <= p < |log|
    && UnitOn(log[p], v)
    && v !in log[p].before
    && (forall q :: 0 <= q < p ==> !UnitOn(log[q], v))
  }

  /** The clause mentions v; under a its literals on v are true and all its
      other literals are false. */
  ghost predicate ForcedBy(lits: seq<int>, v: int, a: Assignment) {
    && (exists l :: l in lits && Abs(l) == v)
    && (forall l :: l in lits && Abs(l) == v ==> LitValue(l, a) == Some(true))
    && (forall l :: l in lits && Abs(l) != v ==> LitValue(l, a) == Some(false))
  }

  /** Clause r of the formula forces v under a. */
  ghost predicate SoundReason(cnf: Cnf, a: Assignment, v: int, r: nat) {
    v in a && r < |cnf.clauses| && ForcedBy(cnf.clauses[r].lits, v, a)
  }

  /** Every recorded reason is a clause of the formula that forces its
      variable under a. */
  ghost predicate ReasonsSound(cnf: Cnf, a: Assignment, reasons: Reasons) {
    forall v :: v in reasons ==> SoundReason(cnf, a, v, reasons[v])
  }

  /** Every model of the clauses that agrees with a0 agrees with a. */
  ghost predicate ModelsAgree(cnf: Cnf, a0: Assignment, a: Assignment) {
    forall m :: ClausesModel(m, cnf.clauses) && Agrees(m, a0) ==> Agrees(m, a)
  }

  lemma {:induction false} SubsetCard<T>(xs: set<T>, ys: set<T>)
    requires xs <= ys
    ensures |xs| <= |ys|
    decreases |xs|
  {
    if xs != {} {
      var x :| x in xs;
      SubsetCard(xs - {x}, ys - {x});
    }
  }

  /** Adding a further element of univ to a set leaves fewer elements of
      univ outside it. */
  lemma RemainingShrinks<T>(univ: set<T>, s: set<T>, t: set<T>, v: T)
    requires s <= t && v in univ && v in t && v !in s
    ensures |univ - t| < |univ - s|
  {
    SubsetCard(univ - t, (univ - s) - {v});
  }

  /** The first k clauses are neither conflicting nor unit under a. */
  predicate SettledPrefix(clauses: seq<Clause>, a: Assignment, k: nat)
    requires k <= |clauses|
  {
    k == 0 || (SettledPrefix(clauses, a, k - 1) && Settled(StatusOf(clauses[k - 1].lits, a)))
  }

  lemma {:induction false} SettledPrefixFixpoint(clauses: seq<Clause>, a: Assignment, k: nat)
    requires k <= |clauses| && SettledPrefix(clauses, a, k)
    ensures forall j :: 0 <= j < k ==> Settled(StatusOf(clauses[j].lits, a))
  {
    if k > 0 {
      SettledPrefixFixpoint(clauses, a, k - 1);
    }
  }

  /** Appending the next scan keeps the log chained and faithful. */
  lemma LogSnoc(cnf: Cnf, a0: Assignment, r0: Reasons, log: seq<Scan>, i: nat)
    requires Chained(a0, log) && Faithful(cnf, log) && i < |cnf.clauses|
    ensures var s := Scan(i, Final(a0, log), StatusOf(cnf.clauses[i].lits, Final(a0, log)));
            && Chained(a0, log + [s]) && Faithful(cnf, log + [s])
            && Final(a0, log + [s]) == Applied(s)
            && ReasonsAfter(r0, log + [s]) ==
                 (if s.status.Unit? then ReasonsAfter(r0, log)[Abs(s.status.lit) := i] else ReasonsAfter(r0, log))
  {
    var s := Scan(i, Final(a0, log), StatusOf(cnf.clauses[i].lits, Final(a0, log)));
    assert (log + [s])[..|log|] == log;
  }

  /** The state of a pass at clause i, started from a and log: the scans
      so far are those of clauses 0..i-1, none conflicting; the
      assignment only grew; changed tells whether a clause variable was
      assigned, and if not, clauses 0..i-1 are settled. */
  ghost predicate PassState(cnf: Cnf, a0: Assignment, r0: Reasons, log: seq<Scan>, a: Assignment, i: nat,
                            changed: bool, newVar: int, log': seq<Scan>, a': Assignment, reasons': Reasons) {
    && i <= |cnf.clauses|
    && Replays(cnf, a0, r0, log', a', reasons') && NoConflict(log') && PassFrom(log, log', i)
    && (!changed ==> a' == a && SettledPrefix(cnf.clauses, a', i))
    && (changed ==> newVar in ClauseVars(cnf.clauses) && newVar in a' && newVar !in a)
  }

  /** The body of unit_propagate's for loop for clause i: classify it
      and, when it is unit, assign its literal, record it as the reason
      and note the change. */
  method ScanClause(cnf: Cnf, ghost a0: Assignment, ghost r0: Reasons, ghost log: seq<Scan>, ghost a: Assignment,
                    i: nat, changedIn: bool, ghost newVarIn: int,
                    ghost logIn: seq<Scan>, aIn: Assignment, reasonsIn: Reasons)
    returns (st: Status, changed: bool, ghost newVar: int, ghost logOut: seq<Scan>, aOut: Assignment, reasonsOut: Reasons)
    requires InPasses(|cnf.clauses|, log) && NoConflict(log) && AtPassEnd(|cnf.clauses|, log)
    requires PassState(cnf, a0, r0, log, a, i, changedIn, newVarIn, logIn, aIn, reasonsIn) && i < |cnf.clauses|
    ensures st == StatusOf(cnf.clauses[i].lits, aIn) && logOut == logIn + [Scan(i, aIn, st)]
    ensures Replays(cnf, a0, r0, logOut, aOut, reasonsOut) && PassFrom(log, logOut, i + 1)
    ensures changed == (changedIn || st.Unit?)
    ensures st != Conflicting ==> PassState(cnf, a0, r0, log, a, i + 1, changed, newVar, logOut, aOut, reasonsOut)
    ensures st == Conflicting ==>
              && InPasses(|cnf.clauses|, logOut) && StoppedAt(cnf, log, logOut, i, aOut)
              && (!changed ==> aOut == a)
              && (changed ==> newVar in ClauseVars(cnf.clauses) && newVar in aOut && newVar !in a)
  {
    st := ClauseStatus(cnf.clauses[i], aIn);
    LogSnoc(cnf, a0, r0, logIn, i);
    logOut := logIn + [Scan(i, aIn, st)];
    aOut, reasonsOut := aIn, reasonsIn;
    changed, newVar := changedIn, newVarIn;
    if st.Unit? {
      var u := st.lit;
      UnitLitUnassigned(cnf.clauses[i].lits, aIn, u);
      var v := Abs(u);
      assert v in ClauseVars(cnf.clauses);
      aOut := aIn[v := u > 0];
      reasonsOut := reasonsIn[v := i];
      newVar := if changedIn then newVarIn else v;
      changed := true;
    }
    if st != Conflicting {
      assert forall k :: 0 <= k < |logIn| ==> logOut[k] == logIn[k];
    } else {
      PassConflict(cnf, a0, r0, log, a, i, changedIn, newVarIn, logIn, aIn, reasonsIn, logOut, aOut);
    }
  }

  /** A pass that reached the last clause ends in passes, and at a
      fixpoint if it assigned nothing. */
  lemma PassComplete(cnf: Cnf, a0: Assignment, r0: Reasons, log: seq<Scan>, a: Assignment,
                     changed: bool, newVar: int, log': seq<Scan>, a': Assignment, reasons': Reasons)
    requires InPasses(|cnf.clauses|, log) && NoConflict(log) && AtPassEnd(|cnf.clauses|, log)
    requires PassState(cnf, a0, r0, log, a, |cnf.clauses|, changed, newVar, log', a', reasons')
    ensures InPasses(|cnf.clauses|, log') && RanThrough(cnf, log, log')
    ensures !changed ==> Fixpoint(cnf.clauses, a')
  {
    PassInPasses(|cnf.clauses|, log, log', |cnf.clauses|);
    PassEnd(|cnf.clauses|, log, log');
    if !changed {
      SettledPrefixFixpoint(cnf.clauses, a', |cnf.clauses|);
    }
  }

  /** A pass stopped by the conflicting clause i ends in passes, with
      that clause's scan last. */
  lemma PassConflict(cnf: Cnf, a0: Assignment, r0: Reasons, log: seq<Scan>, a: Assignment, i: nat,
                     changed: bool, newVar: int, logIn: seq<Scan>, aIn: Assignment, reasonsIn: Reasons,
                     log': seq<Scan>, a': Assignment)
    requires InPasses(|cnf.clauses|, log) && NoConflict(log) && AtPassEnd(|cnf.clauses|, log)
    requires PassState(cnf, a0, r0, log, a, i, changed, newVar, logIn, aIn, reasonsIn) && i < |cnf.clauses|
    requires StatusOf(cnf.clauses[i].lits, aIn) == Conflicting
    requires log' == logIn + [Scan(i, aIn, Conflicting)] && a' == aIn
    ensures InPasses(|cnf.clauses|, log') && StoppedAt(cnf, log, log', i, a')
    ensures !changed ==> a' == a
    ensures changed ==> newVar in ClauseVars(cnf.clauses) && newVar in a' && newVar !in a
  {
    PassInPassesSnoc(|cnf.clauses|, log, logIn, i, Scan(i, aIn, Conflicting));
  }

  /** One pass of unit_propagate's for loop: the clauses in formula
      order, each scanned once from the end of the run so far. It stops
      at the first conflicting clause; changed tells whether it assigned
      anything. */
  method PropagationPass(cnf: Cnf, ghost a0: Assignment, ghost r0: Reasons, a: Assignment, reasons: Reasons,
                         ghost log: seq<Scan>)
    returns (conflict: Option<nat>, changed: bool, a': Assignment, reasons': Reasons,
             ghost log': seq<Scan>, ghost newVar: int)
    requires Replays(cnf, a0, r0, log, a, reasons)
    requires InPasses(|cnf.clauses|, log) && NoConflict(log) && AtPassEnd(|cnf.clauses|, log)
    ensures Replays(cnf, a0, r0, log', a', reasons') && InPasses(|cnf.clauses|, log')
    ensures !changed ==> a' == a
    ensures changed ==> newVar in ClauseVars(cnf.clauses) && newVar in a' && newVar !in a
    ensures conflict.None? ==> RanThrough(cnf, log, log')
    ensures conflict.Some? ==> StoppedAt(cnf, log, log', conflict.value, a')
    ensures conflict.None? && !changed ==> Fixpoint(cnf.clauses, a')
  {
    a', reasons', log' := a, reasons, log;
    changed, newVar := false, 0;
    var i := 0;
    while i < |cnf.clauses|
      invariant PassState(cnf, a0, r0, log, a, i, changed, newVar, log', a', reasons')
    {
      var st;
      st, changed, newVar, log', a', reasons' := ScanClause(cnf, a0, r0, log, a, i, changed, newVar, log', a', reasons');
      if st == Conflicting {
        return Some(i), changed, a', reasons', log', newVar;
      }
      i := i + 1;
    }
    conflict := None;
    PassComplete(cnf, a0, r0, log, a, changed, newVar, log', a', reasons');
  }

  /** A complete pass that assigned a clause variable leaves fewer clause
      variables unassigned. */
  lemma PassProgress(cnf: Cnf, a0: Assignment, r0: Reasons, log: seq<Scan>, a: Assignment,
                      log': seq<Scan>, a': Assignment, reasons': Reasons, v: int)
    requires Replays(cnf, a0, r0, log', a', reasons') && RanThrough(cnf, log, log') && a == Final(a0, log)
    requires v in ClauseVars(cnf.clauses) && v in a' && v !in a
    ensures |ClauseVars(cnf.clauses) - a'.Keys| < |ClauseVars(cnf.clauses) - a.Keys|
  {
    PassFromAt(log, log', |cnf.clauses|);
    RunExtends(cnf, a0, log, log');
    forall w | w in a.Keys
      ensures w in a'.Keys
    {
      assert w in a;
    }
    RemainingShrinks(ClauseVars(cnf.clauses), a.Keys, a'.Keys, v);
  }

  /** unit_propagate: passes over the clauses in formula order,
      classifying each and assigning the literal of every unit clause,
      until a pass assigns nothing or a clause is conflicting. log is
      every classification made, in order; the conflict returned is the
      first one found. */
  method UnitPropagate(cnf: Cnf, a0: Assignment, r0: Reasons)
    returns (res: Outcome, a: Assignment, reasons: Reasons, ghost log: seq<Scan>)
    ensures Chained(a0, log) && Faithful(cnf, log) && InPasses(|cnf.clauses|, log)
    ensures a == Final(a0, log) && reasons == ReasonsAfter(r0, log)
    ensures res == Consistent ==> Fixpoint(cnf.clauses, a) && NoConflict(log)
    ensures res.Conflict? ==>
              && EndsInConflict(log, res.clause)
              && res.clause < |cnf.clauses| && StatusOf(cnf.clauses[res.clause].lits, a) == Conflicting
  {
    a, reasons := a0, r0;
    log := [];
    ghost var vars := ClauseVars(cnf.clauses);
    var changed := true;
    while changed
      invariant Chained(a0, log) && Faithful(cnf, log)
      invariant InPasses(|cnf.clauses|, log) && NoConflict(log) && AtPassEnd(|cnf.clauses|, log)
      invariant a == Final(a0, log) && reasons == ReasonsAfter(r0, log)
      invariant !changed ==> Fixpoint(cnf.clauses, a)
      // a pass that assigns something leaves fewer clause variables
      // unassigned; one that assigns nothing is the last
      decreases if changed then |vars - a.Keys| + 1 else 0
    {
      ghost var aPass := a;
      ghost var logPass := log;
      var conflict;
      ghost var newVar;
      conflict, changed, a, reasons, log, newVar := PropagationPass(cnf, a0, r0, a, reasons, log);
      if conflict.Some? {
        return Conflict(conflict.value), a, reasons, log;
      }
      if changed {
        PassProgress(cnf, a0, r0, logPass, aPass, log, a, reasons, newVar);
      }
    }
    res := Consistent;
  }

  /** Dropping the last scan of a chained, faithful log leaves a chained,
      faithful log whose end is where the last scan started. */
  lemma RunInit(cnf: Cnf, a0: Assignment, log: seq<Scan>)
    requires Chained(a0, log) && Faithful(cnf, log) && |log| > 0
    ensures Chained(a0, log[..|log| - 1]) && Faithful(cnf, log[..|log| - 1])
    ensures log[|log| - 1].before == Final(a0, log[..|log| - 1]) && ScanFaithful(cnf, log[|log| - 1])
  {
  }

  /** A unit scan assigns a variable the scan found unassigned. */
  lemma ScanExtends(cnf: Cnf, s: Scan)
    requires ScanFaithful(cnf, s)
    ensures Extends(Applied(s), s.before)
    ensures s.status.Unit? ==> Abs(s.status.lit) !in s.before && Abs(s.status.lit) in ClauseVars(cnf.clauses)
  {
    if s.status.Unit? {
      UnitLitUnassigned(cnf.clauses[s.clause].lits, s.before, s.status.lit);
    }
  }

  /** Propagation only extends the assignment, by clause variables: every
      variable assigned on entry keeps its value, every scan saw a part of
      the final assignment, and every unit found was assigned. */
  lemma {:induction false} RunGrows(cnf: Cnf, a0: Assignment, log: seq<Scan>)
    requires Chained(a0, log) && Faithful(cnf, log)
    ensures Extends(Final(a0, log), a0)
    ensures Final(a0, log).Keys - a0.Keys <= ClauseVars(cnf.clauses)
    ensures forall q :: 0 <= q < |log| ==> Extends(Final(a0, log), log[q].before)
    ensures forall q, v :: 0 <= q < |log| && UnitOn(log[q], v) ==> v in Final(a0, log)
  {
    if |log| > 0 {
      var init, s := log[..|log| - 1], log[|log| - 1];
      RunInit(cnf, a0, log);
      RunGrows(cnf, a0, init);
      ScanExtends(cnf, s);
      forall q | 0 <= q < |log| ensures Extends(Final(a0, log), log[q].before) {
        if q < |init| {
          assert log[q] == init[q];
        }
      }
      forall q, v | 0 <= q < |log| && UnitOn(log[q], v) ensures v in Final(a0, log) {
        if q < |init| {
          assert log[q] == init[q];
        }
      }
    }
  }

  /** A run extended by further scans only extends its assignment. */
  lemma RunExtends(cnf: Cnf, a0: Assignment, log: seq<Scan>, log': seq<Scan>)
    requires Chained(a0, log') && Faithful(cnf, log') && log <= log'
    ensures Extends(Final(a0, log'), Final(a0, log))
  {
    RunGrows(cnf, a0, log');
    if |log| < |log'| && log != [] {
      assert log'[|log|].before == Applied(log'[|log| - 1]);
    }
  }

  /** Scan p is the only scan of the log that found a clause unit on v. */
  ghost predicate OnlyUnitAt(log: seq<Scan>, v: int, p: int) {
    && 0 <= p < |log|
    && UnitOn(log[p], v)
    && v !in log[p].before
    && (forall q :: 0 <= q < |log| && q != p ==> !UnitOn(log[q], v))
  }

  /** Reasons are recorded exactly for the newly assigned variables, and
      every other entry is left alone. */
  lemma {:induction false} RunReasonKeys(cnf: Cnf, a0: Assignment, r0: Reasons, log: seq<Scan>)
    requires Chained(a0, log) && Faithful(cnf, log)
    ensures ReasonsAfter(r0, log).Keys == r0.Keys + (Final(a0, log).Keys - a0.Keys)
    ensures forall v :: v in r0 && v !in Final(a0, log).Keys - a0.Keys ==> ReasonsAfter(r0, log)[v] == r0[v]
  {
    if |log| > 0 {
      var init, s := log[..|log| - 1], log[|log| - 1];
      RunInit(cnf, a0, log);
      RunReasonKeys(cnf, a0, r0, init);
      RunGrows(cnf, a0, init);
      ScanExtends(cnf, s);
    }
  }

  /** Where the reason and value of variable v came from: the only scan
      of the log found unit on v. */
  ghost predicate ReasonOrigin(log: seq<Scan>, a: Assignment, reasons: Reasons, v: int) {
    exists p :: && OnlyUnitAt(log, v, p)
                && v in a && a[v] == (log[p].status.lit > 0)
                && v in reasons && reasons[v] == log[p].clause
  }

  /** One more scan keeps the origin of every variable assigned so far
      and gives one to the variable it assigns. */
  lemma OriginSnoc(log: seq<Scan>, s: Scan, r: Reasons, v: int)
    requires forall q, w :: 0 <= q < |log| && UnitOn(log[q], w) ==> w in s.before
    requires s.status.Unit? ==> Abs(s.status.lit) !in s.before
    requires v in s.before ==> ReasonOrigin(log, s.before, r, v)
    requires v in Applied(s)
    ensures ReasonOrigin(log + [s], Applied(s), if s.status.Unit? then r[Abs(s.status.lit) := s.clause] else r, v)
  {
    if v in s.before {
      var p :| && OnlyUnitAt(log, v, p)
               && v in s.before && s.before[v] == (log[p].status.lit > 0)
               && v in r && r[v] == log[p].clause;
      OnlyUnitSnoc(log, s, v, p);
      assert (log + [s])[p] == log[p];
    } else {
      OnlyUnitLast(log, s, v);
    }
  }

  /** The reason of a newly assigned variable is the one clause ever found
      unit on it, so the earliest clause that could force it, and the
      variable's value makes that clause's unit literal true. */
  lemma {:induction false} RunReasonOrigin(cnf: Cnf, a0: Assignment, r0: Reasons, log: seq<Scan>)
    requires Chained(a0, log) && Faithful(cnf, log)
    ensures forall v :: v in Final(a0, log).Keys - a0.Keys ==> ReasonOrigin(log, Final(a0, log), ReasonsAfter(r0, log), v)
  {
    if |log| > 0 {
      var init, s := log[..|log| - 1], log[|log| - 1];
      RunInit(cnf, a0, log);
      RunReasonOrigin(cnf, a0, r0, init);
      RunGrows(cnf, a0, init);
      ScanExtends(cnf, s);
      assert log == init + [s];
      forall v | v in Final(a0, log).Keys - a0.Keys
        ensures ReasonOrigin(log, Final(a0, log), ReasonsAfter(r0, log), v)
      {
        OriginSnoc(init, s, ReasonsAfter(r0, init), v);
      }
    }
  }

  /** Within a pass, the scans before the one of clause c are those of
      clauses 0..c-1, in order. */
  lemma {:induction false} PassPrefix(cnf: Cnf, log: seq<Scan>, p: nat)
    requires Faithful(cnf, log) && InPasses(|cnf.clauses|, log) && p < |log|
    ensures log[p].clause <= p
    ensures forall q :: p - log[p].clause <= q <= p ==> log[q].clause == q - (p - log[p].clause)
  {
    InPassesAt(|cnf.clauses|, log);
    if log[p].clause > 0 {
      assert p > 0;
      assert log[p].clause == log[p - 1].clause + 1;
      PassPrefix(cnf, log, p - 1);
    }
  }

  /** Scan p found its clause unit on v, and no earlier scan of the same
      pass (those of the clauses before it in formula order) did. */
  ghost predicate FirstInPass(log: seq<Scan>, v: int, p: int) {
    && 0 <= p < |log| && log[p].clause <= p && UnitOn(log[p], v)
    && forall q :: p - log[p].clause <= q < p ==>
         log[q].clause == q - (p - log[p].clause) && !UnitOn(log[q], v)
  }

  /** The first clause in formula order wins: the reason of a newly
      assigned variable is the clause of the first scan of its pass found
      unit on it, and the variable's value makes that clause's unit
      literal true. */
  lemma RunReasonFirst(cnf: Cnf, a0: Assignment, r0: Reasons, log: seq<Scan>)
    requires Chained(a0, log) && Faithful(cnf, log) && InPasses(|cnf.clauses|, log)
    ensures forall v :: v in Final(a0, log).Keys - a0.Keys ==>
              && v in ReasonsAfter(r0, log)
              && exists p :: && FirstInPass(log, v, p)
                             && ReasonsAfter(r0, log)[v] == log[p].clause
                             && Final(a0, log)[v] == (log[p].status.lit > 0)
  {
    RunReasonOrigin(cnf, a0, r0, log);
    forall v | v in Final(a0, log).Keys - a0.Keys
      ensures && v in ReasonsAfter(r0, log)
              && exists p :: && FirstInPass(log, v, p)
                             && ReasonsAfter(r0, log)[v] == log[p].clause
                             && Final(a0, log)[v] == (log[p].status.lit > 0)
    {
      var p :| && OnlyUnitAt(log, v, p)
               && Final(a0, log)[v] == (log[p].status.lit > 0)
               && v in ReasonsAfter(r0, log) && ReasonsAfter(r0, log)[v] == log[p].clause;
      PassPrefix(cnf, log, p);
      assert FirstInPass(log, v, p);
    }
  }

  /** A scan not unit on v keeps the only unit scan on v the only one. */
  lemma OnlyUnitSnoc(log: seq<Scan>, s: Scan, v: int, p: int)
    requires OnlyUnitAt(log, v, p) && !UnitOn(s, v)
    ensures OnlyUnitAt(log + [s], v, p)
  {
    forall q | 0 <= q < |log| + 1 && q != p ensures !UnitOn((log + [s])[q], v) {
      if q < |log| {
        assert (log + [s])[q] == log[q];
      }
    }
  }

  /** A unit scan on a variable no earlier scan was unit on is the only
      one. */
  lemma OnlyUnitLast(log: seq<Scan>, s: Scan, v: int)
    requires UnitOn(s, v) && v !in s.before
    requires forall q :: 0 <= q < |log| ==> !UnitOn(log[q], v)
    ensures OnlyUnitAt(log + [s], v, |log|)
  {
    forall q | 0 <= q < |log| ensures !UnitOn((log + [s])[q], v) {
      assert (log + [s])[q] == log[q];
    }
  }

  /** Assigning the unit literal of clause i keeps every reason sound and
      makes clause i a sound reason for the new variable. */
  lemma AssignSound(cnf: Cnf, a: Assignment, reasons: Reasons, i: nat, u: int)
    requires i < |cnf.clauses| && StatusOf(cnf.clauses[i].lits, a) == Unit(u)
    requires ReasonsSound(cnf, a, reasons)
    ensures ReasonsSound(cnf, a[Abs(u) := u > 0], reasons[Abs(u) := i])
  {
    var lits := cnf.clauses[i].lits;
    var b := a[Abs(u) := u > 0];
    UnitLitUnassigned(lits, a, u);
    ReasonsSoundExtends(cnf, a, b, reasons);
    forall l | l in lits ensures LitValue(l, b) == (if Abs(l) == Abs(u) then Some(true) else Some(false)) {
      if Abs(l) in a {
        ExtendsKeepsValue(b, a, l);
      }
    }
  }

  /** Extending the assignment keeps every reason sound. */
  lemma ReasonsSoundExtends(cnf: Cnf, a: Assignment, b: Assignment, reasons: Reasons)
    requires ReasonsSound(cnf, a, reasons) && Extends(b, a)
    ensures ReasonsSound(cnf, b, reasons)
  {
  }

  /** Reasons sound on entry stay sound: every recorded reason is a clause
      of the formula whose literal on its variable is true and whose other
      literals are all false. */
  lemma {:induction false} RunReasonsSound(cnf: Cnf, a0: Assignment, r0: Reasons, log: seq<Scan>)
    requires Chained(a0, log) && Faithful(cnf, log)
    requires ReasonsSound(cnf, a0, r0)
    ensures ReasonsSound(cnf, Final(a0, log), ReasonsAfter(r0, log))
  {
    if |log| > 0 {
      var init, s := log[..|log| - 1], log[|log| - 1];
      RunInit(cnf, a0, log);
      RunReasonsSound(cnf, a0, r0, init);
      if s.status.Unit? {
        AssignSound(cnf, s.before, ReasonsAfter(r0, init), s.clause, s.status.lit);
      }
    }
  }

  /** A model of the clauses that agrees with a also agrees with the value
      a unit clause forces. */
  lemma UnitForcedInModels(m: Assignment, lits: seq<int>, a: Assignment, u: int)
    requires StatusOf(lits, a) == Unit(u)
    requires Agrees(m, a) && SomeTrue(lits, m)
    requires forall l :: l in lits ==> Abs(l) in m
    ensures Agrees(m, a[Abs(u) := u > 0])
  {
    UnitLitUnassigned(lits, a, u);
    forall l | l in lits && LitValue(l, m) == Some(true) ensures l == u {
      assert Abs(l) !in a || LitValue(l, a) == Some(true);
    }
  }

  /** Propagation only draws conclusions every model draws: a model of the
      clauses that agrees with the entry assignment agrees with the
      propagated one. */
  lemma {:induction false} RunKeepsModels(cnf: Cnf, a0: Assignment, log: seq<Scan>)
    requires Chained(a0, log) && Faithful(cnf, log)
    ensures ModelsAgree(cnf, a0, Final(a0, log))
  {
    if |log| > 0 {
      var init, s := log[..|log| - 1], log[|log| - 1];
      RunInit(cnf, a0, log);
      RunKeepsModels(cnf, a0, init);
      if s.status.Unit? {
        var lits := cnf.clauses[s.clause].lits;
        forall m | ClausesModel(m, cnf.clauses) && Agrees(m, a0) ensures Agrees(m, Final(a0, log)) {
          assert SomeTrue(lits, m);
          UnitForcedInModels(m, lits, s.before, s.status.lit);
        }
      }
    }
  }

  /** No model of the clauses agrees with an assignment under which one
      of them is conflicting. */
  lemma ConflictExcludesModels(m: Assignment, lits: seq<int>, a: Assignment)
    requires StatusOf(lits, a) == Conflicting
    requires SomeTrue(lits, m)
    ensures !Agrees(m, a)
  {
    StatusMeaning(lits, a);
    var l :| l in lits && LitValue(l, m) == Some(true);
    assert LitValue(l, a) == Some(false);
  }

  /** A conflict found by propagation refutes the entry assignment: no
      model of the clauses agrees with it. */
  lemma ConflictRefutes(cnf: Cnf, a0: Assignment, log: seq<Scan>, c: nat)
    requires Chained(a0, log) && Faithful(cnf, log)
    requires c < |cnf.clauses| && StatusOf(cnf.clauses[c].lits, Final(a0, log)) == Conflicting
    ensures forall m :: ClausesModel(m, cnf.clauses) ==> !Agrees(m, a0)
  {
    RunKeepsModels(cnf, a0, log);
    forall m | ClausesModel(m, cnf.clauses) ensures !Agrees(m, Final(a0, log)) {
      assert SomeTrue(cnf.clauses[c].lits, m);
      ConflictExcludesModels(m, cnf.clauses[c].lits, Final(a0, log));
    }
  }
}
