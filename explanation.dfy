/** The unsat explanation: the falsified literals of the conflict clause,
    the assumptions the reason graph traces them back to, and the rules
    whose clauses took part.

    The reason graph has an edge from a variable with a reason to every
    other variable of its reason clause. The search for assumption causes
    follows only edges into assigned variables; the walk collecting rules
    follows them all. Both are specified by reachability in their graph. */
module Explanation {
  import opened Sorting
  import opened Formula
  import opened Propagation

  /** Every reason is a clause of the formula. (The Python reasons map
      holds the clause objects themselves.) */
  predicate ReasonsInRange(cnf: Cnf, reasons: Reasons) {
    forall v :: v in reasons ==> reasons[v] < |cnf.clauses|
  }

  /** The literals that are false under a, in clause order. */
  function Falsified(lits: seq<int>, a: Assignment): (r: seq<int>)
    ensures forall l :: l in r <==> l in lits && LitValue(l, a) == Some(false)
    ensures IsSubseq(r, lits)
  {
    if lits == [] then []
    else
      var init, last := lits[..|lits| - 1], lits[|lits| - 1];
      assert lits == init + [last];
      var r := Falsified(init, a);
      if LitValue(last, a) == Some(false) then
        assert (r + [last])[..|r|] == r;
        r + [last]
      else r
  }

  /** falsified_literals: the loop over the conflict clause. */
  method FalsifiedLiterals(c: Clause, a: Assignment) returns (r: seq<int>)
    ensures r == Falsified(c.lits, a)
  {
    r := [];
    for i := 0 to |c.lits|
      invariant r == Falsified(c.lits[..i], a)
    {
      var lit := c.lits[i];
      var v := Abs(lit);
      if v in a {
        var val := a[v];
        var isTrue := if lit > 0 then val else !val;
        if !isTrue {
          r := r + [lit];
        }
      }
      assert c.lits[..i + 1][..i] == c.lits[..i];
    }
    assert c.lits[..|c.lits|] == c.lits;
  }

  /** A directed graph on variables: the successors of each vertex that
      has any. */
  type Graph = map<int, set<int>>

  function Succ(g: Graph, v: int): set<int> {
    if v in g then g[v] else {}
  }

  /** A walk in the graph. */
  ghost predicate IsPath(g: Graph, p: seq<int>) {
    |p| > 0 && forall i :: 0 <= i < |p| - 1 ==> p[i + 1] in Succ(g, p[i])
  }

  /** u can be reached by a walk from one of the starts. */
  ghost predicate Reachable(g: Graph, starts: set<int>, u: int) {
    exists p :: IsPath(g, p) && p[0] in starts && p[|p| - 1] == u
  }

  /** Every successor of a vertex of s outside pending is in s. */
  ghost predicate ClosedExcept(g: Graph, s: set<int>, pending: set<int>) {
    forall w :: w in s && w !in pending ==> Succ(g, w) <= s
  }

  lemma ReachStart(g: Graph, starts: set<int>, u: int)
    requires u in starts
    ensures Reachable(g, starts, u)
  {
    assert IsPath(g, [u]);
  }

  lemma ReachStep(g: Graph, starts: set<int>, w: int, u: int)
    requires Reachable(g, starts, w) && u in Succ(g, w)
    ensures Reachable(g, starts, u)
  {
    var p :| IsPath(g, p) && p[0] in starts && p[|p| - 1] == w;
    var q := p + [u];
    assert IsPath(g, q);
  }

  lemma {:induction false} PathInside(g: Graph, s: set<int>, p: seq<int>)
    requires ClosedExcept(g, s, {}) && IsPath(g, p) && p[0] in s
    ensures p[|p| - 1] in s
    decreases |p|
  {
    if |p| > 1 {
      var init := p[..|p| - 1];
      assert IsPath(g, init);
      PathInside(g, s, init);
      var w := init[|init| - 1];
      assert w in s && w !in {};
      assert p[|p| - 1] in Succ(g, w);
    }
  }

  /** A set holding the starts and closed under the graph holds everything
      reachable from them. */
  lemma ClosedContainsReach(g: Graph, starts: set<int>, s: set<int>)
    requires starts <= s && ClosedExcept(g, s, {})
    ensures forall u :: Reachable(g, starts, u) ==> u in s
  {
    forall u | Reachable(g, starts, u) ensures u in s {
      var p :| IsPath(g, p) && p[0] in starts && p[|p| - 1] == u;
      PathInside(g, s, p);
    }
  }

  /** Reaching from a union of starts is reaching from one of them. */
  lemma ReachUnion(g: Graph, s: set<int>, t: set<int>, u: int)
    ensures Reachable(g, s + t, u) <==> Reachable(g, s, u) || Reachable(g, t, u)
  {
  }

  /** The variables of v's reason clause other than v. */
  function ReasonVars(cnf: Cnf, reasons: Reasons, v: int): set<int> {
    if v in reasons && reasons[v] < |cnf.clauses| then
      set l | l in cnf.clauses[reasons[v]].lits && Abs(l) != v :: Abs(l)
    else {}
  }

  lemma ReasonVarsInClauses(cnf: Cnf, reasons: Reasons, v: int)
    ensures ReasonVars(cnf, reasons, v) <= ClauseVars(cnf.clauses)
  {
    if v in reasons && reasons[v] < |cnf.clauses| {
      var i := reasons[v];
      forall u | u in ReasonVars(cnf, reasons, v) ensures u in ClauseVars(cnf.clauses) {
        var l :| l in cnf.clauses[i].lits && Abs(l) != v && Abs(l) == u;
      }
    }
  }

  /** The graph the walk collecting rules follows. */
  function RuleGraph(cnf: Cnf, reasons: Reasons): Graph {
    map v | v in reasons :: ReasonVars(cnf, reasons, v)
  }

  /** The graph the search for assumption causes follows: only assigned
      variables are pushed. */
  function CauseGraph(cnf: Cnf, reasons: Reasons, a: Assignment): Graph {
    map v | v in reasons :: set u | u in ReasonVars(cnf, reasons, v) && u in a
  }

  /** assign.get(v, False) as a literal on v. */
  function SignedLit(a: Assignment, v: int): int {
    if v in a && a[v] then v else -v
  }

  /** The signed literals of the variables of vs that have no reason and
      whose literal or its negation is an assumption. */
  function AssumptionLits(vs: set<int>, reasons: Reasons, assumptions: set<int>, a: Assignment): set<int> {
    set v | v in vs && v !in reasons && (SignedLit(a, v) in assumptions || -SignedLit(a, v) in assumptions)
      :: SignedLit(a, v)
  }

  /** The assumption causes of a set of start variables: the assumption
      literals of the variables the cause graph reaches from them. */
  ghost function CausesReached(cnf: Cnf, reasons: Reasons, assumptions: set<int>, a: Assignment,
                               starts: set<int>): set<int>
  {
    var reached := set u | u in starts + a.Keys && Reachable(CauseGraph(cnf, reasons, a), starts, u);
    AssumptionLits(reached, reasons, assumptions, a)
  }

  /** The state of a worklist walk of g from v0: everything seen or
      pending is reachable, v0 is one of them, and every successor of a
      seen vertex is seen or pending. */
  ghost predicate Worklist(g: Graph, v0: int, seen: set<int>, pending: set<int>) {
    && (forall x :: x in seen ==> Reachable(g, {v0}, x))
    && (forall x :: x in pending ==> Reachable(g, {v0}, x))
    && v0 in seen + pending
    && (forall w :: w in seen ==> Succ(g, w) <= seen + pending)
  }

  /** Dropping a pending vertex already seen keeps the walk's state. */
  lemma WorklistDrop(g: Graph, v0: int, seen: set<int>, pending: set<int>, pending': set<int>, v: int)
    requires Worklist(g, v0, seen, pending) && v in seen
    requires pending - {v} <= pending' <= pending
    ensures Worklist(g, v0, seen, pending')
  {
    assert seen + pending == seen + pending';
  }

  /** Expanding a pending vertex: it becomes seen and its successors
      pending. */
  lemma WorklistExpand(g: Graph, v0: int, seen: set<int>, pending: set<int>, pending': set<int>, v: int)
    requires Worklist(g, v0, seen, pending) && v in pending
    requires pending - {v} <= pending' <= pending + Succ(g, v) && Succ(g, v) <= pending'
    ensures Worklist(g, v0, seen + {v}, pending')
  {
    ReachSuccessors(g, {v0}, v);
    assert seen + {v} + pending' <= seen + pending + Succ(g, v);
  }

  /** The assumption literals of a union are those of its parts. */
  lemma AssumptionLitsUnion(seen: set<int>, v: int, reasons: Reasons, assumptions: set<int>, a: Assignment)
    ensures AssumptionLits(seen + {v}, reasons, assumptions, a) ==
            AssumptionLits(seen, reasons, assumptions, a) + AssumptionLits({v}, reasons, assumptions, a)
  {
  }

  /** The body of collect_assumption_causes for a variable seen for the
      first time: a variable without a reason contributes its assumption
      literal, one with a reason pushes its reason clause's assigned
      variables. */
  method ExpandVar(cnf: Cnf, reasons: Reasons, assumptions: set<int>, a: Assignment, v: int,
                   frontier: seq<int>, causes: set<int>, ghost seen: set<int>)
    returns (frontier': seq<int>, causes': set<int>)
    requires ReasonsInRange(cnf, reasons)
    requires causes == AssumptionLits(seen, reasons, assumptions, a)
    ensures Elems(frontier') == Elems(frontier) + Succ(CauseGraph(cnf, reasons, a), v)
    ensures Succ(CauseGraph(cnf, reasons, a), v) <= a.Keys
    ensures causes' == AssumptionLits(seen + {v}, reasons, assumptions, a)
  {
    AssumptionLitsUnion(seen, v, reasons, assumptions, a);
    if v !in reasons {
      var lit := if v in a && a[v] then v else -v;
      assert lit == SignedLit(a, v);
      if lit in assumptions || -lit in assumptions {
        assert AssumptionLits({v}, reasons, assumptions, a) == {lit};
        return frontier, causes + {lit};
      }
      assert AssumptionLits({v}, reasons, assumptions, a) == {};
      return frontier, causes;
    }
    assert AssumptionLits({v}, reasons, assumptions, a) == {};
    frontier' := PushReasonVars(cnf, reasons, a, v, frontier);
    causes' := causes;
  }

  /** collect_assumption_causes: a worklist walk of the cause graph from
      v0 that expands each variable once and collects the assumption
      literals of the variables without a reason. */
  method CollectAssumptionCauses(cnf: Cnf, v0: int, reasons: Reasons, assumptions: set<int>, a: Assignment)
    returns (causes: set<int>)
    requires ReasonsInRange(cnf, reasons)
    ensures causes == CausesReached(cnf, reasons, assumptions, a, {v0})
  {
    ghost var g := CauseGraph(cnf, reasons, a);
    ghost var univ := a.Keys + {v0};
    var frontier := [v0];
    var seen: set<int> := {};
    causes := {};
    assert causes == AssumptionLits(seen, reasons, assumptions, a);
    ReachStart(g, {v0}, v0);
    while frontier != []
      invariant seen <= univ && Elems(frontier) <= univ
      invariant Worklist(g, v0, seen, Elems(frontier))
      invariant causes == AssumptionLits(seen, reasons, assumptions, a)
      decreases |univ - seen|, |frontier|
    {
      var v := frontier[|frontier| - 1];
      ghost var before := Elems(frontier);
      ElemsPop(frontier);
      frontier := frontier[..|frontier| - 1];
      if v in seen {
        WorklistDrop(g, v0, seen, before, Elems(frontier), v);
        continue;
      }
      RemainingShrinks(univ, seen, seen + {v}, v);
      frontier, causes := ExpandVar(cnf, reasons, assumptions, a, v, frontier, causes, seen);
      WorklistExpand(g, v0, seen, before, Elems(frontier), v);
      seen := seen + {v};
    }
    CausesDone(cnf, reasons, assumptions, a, v0, seen);
  }

  /** A finished walk has seen exactly the reachable variables. */
  lemma CausesDone(cnf: Cnf, reasons: Reasons, assumptions: set<int>, a: Assignment, v0: int, seen: set<int>)
    requires Worklist(CauseGraph(cnf, reasons, a), v0, seen, {}) && seen <= a.Keys + {v0}
    ensures AssumptionLits(seen, reasons, assumptions, a) == CausesReached(cnf, reasons, assumptions, a, {v0})
  {
    var g := CauseGraph(cnf, reasons, a);
    var reached := set u | u in {v0} + a.Keys && Reachable(g, {v0}, u);
    ClosedContainsReach(g, {v0}, seen);
    forall u | u in reached ensures u in seen {
      assert Reachable(g, {v0}, u);
    }
    forall u | u in seen ensures u in reached {
      assert Reachable(g, {v0}, u);
    }
    assert seen == reached;
  }

  lemma ReachSuccessors(g: Graph, starts: set<int>, w: int)
    requires Reachable(g, starts, w)
    ensures forall u :: u in Succ(g, w) ==> Reachable(g, starts, u)
  {
    forall u | u in Succ(g, w) ensures Reachable(g, starts, u) {
      ReachStep(g, starts, w, u);
    }
  }

  /** The assigned variables other than v among the first j literals. */
  function Pushed(lits: seq<int>, v: int, a: Assignment, j: nat): set<int>
    requires j <= |lits|
  {
    set k | 0 <= k < j && Abs(lits[k]) != v && Abs(lits[k]) in a :: Abs(lits[k])
  }

  /** The inner loop of collect_assumption_causes: pushes every assigned
      variable of v's reason clause other than v. */
  method PushReasonVars(cnf: Cnf, reasons: Reasons, a: Assignment, v: int, frontier: seq<int>)
    returns (frontier': seq<int>)
    requires v in reasons && reasons[v] < |cnf.clauses|
    ensures Elems(frontier') == Elems(frontier) + Succ(CauseGraph(cnf, reasons, a), v)
  {
    var lits := cnf.clauses[reasons[v]].lits;
    frontier' := frontier;
    for j := 0 to |lits|
      invariant Elems(frontier') == Elems(frontier) + Pushed(lits, v, a, j)
    {
      var u := Abs(lits[j]);
      assert Pushed(lits, v, a, j + 1) ==
             Pushed(lits, v, a, j) + (if u != v && u in a then {u} else {});
      if u == v {
        continue;
      }
      if u in a {
        assert Elems(frontier' + [u]) == Elems(frontier') + {u};
        frontier' := frontier' + [u];
      }
    }
    forall x | x in Succ(CauseGraph(cnf, reasons, a), v) ensures x in Pushed(lits, v, a, |lits|) {
      var l :| l in lits && Abs(l) != v && Abs(l) == x;
      var k :| 0 <= k < |lits| && lits[k] == l;
    }
  }

  /** The rule ids of the reason clauses of the variables of vs. */
  function RulesOf(cnf: Cnf, reasons: Reasons, vs: set<int>): set<string> {
    set u | u in vs && u in reasons && reasons[u] < |cnf.clauses| :: cnf.clauses[reasons[u]].ruleId
  }

  lemma RulesOfAdd(cnf: Cnf, reasons: Reasons, vs: set<int>, v: int)
    ensures RulesOf(cnf, reasons, vs + {v}) ==
            RulesOf(cnf, reasons, vs) +
            (if v in reasons && reasons[v] < |cnf.clauses| then {cnf.clauses[reasons[v]].ruleId} else {})
  {
  }

  /** The rule walk of build_explanation: the visited set and the
      collected rule ids it shares across calls, and the reasons it reads. */
  class RuleWalk {
    const cnf: Cnf
    const reasons: Reasons
    var visited: set<int>
    var involvedRules: set<string>

    /** The collected rules are those of the visited variables' reasons. */
    ghost predicate Valid()
      reads this
    {
      ReasonsInRange(cnf, reasons) && involvedRules == RulesOf(cnf, reasons, visited)
    }

    constructor (cnf: Cnf, reasons: Reasons)
      requires ReasonsInRange(cnf, reasons)
      ensures Valid() && this.cnf == cnf && this.reasons == reasons && visited == {}
    {
      this.cnf := cnf;
      this.reasons := reasons;
      visited := {};
      involvedRules := {};
    }

    /** walk_reasons: visits v unless it was visited, records the rule of
        its reason and walks every other variable of the reason clause.
        Everything visited stays reachable from the starts, and every
        visited variable outside the calls still in progress (pending)
        has all its successors visited. */
    method Walk(v: int, ghost starts: set<int>, ghost pending: set<int>, ghost univ: set<int>)
      requires Valid()
      requires Reachable(RuleGraph(cnf, reasons), starts, v)
      requires forall u :: u in visited ==> Reachable(RuleGraph(cnf, reasons), starts, u)
      requires ClosedExcept(RuleGraph(cnf, reasons), visited, pending)
      requires v in univ && ClauseVars(cnf.clauses) <= univ
      modifies this
      ensures Valid()
      ensures old(visited) <= visited && v in visited
      ensures forall u :: u in visited ==> Reachable(RuleGraph(cnf, reasons), starts, u)
      ensures ClosedExcept(RuleGraph(cnf, reasons), visited, pending)
      decreases |univ - visited|
    {
      if v in visited {
        return;
      }
      ghost var g := RuleGraph(cnf, reasons);
      ghost var entry := visited;
      RulesOfAdd(cnf, reasons, visited, v);
      visited := visited + {v};
      if v !in reasons {
        return;
      }
      var cl := cnf.clauses[reasons[v]];
      involvedRules := involvedRules + {cl.ruleId};
      ReasonVarsInClauses(cnf, reasons, v);
      for j := 0 to |cl.lits|
        invariant Valid()
        invariant entry + {v} <= visited
        invariant forall u :: u in visited ==> Reachable(g, starts, u)
        invariant ClosedExcept(g, visited, pending + {v})
        invariant forall k :: 0 <= k < j && Abs(cl.lits[k]) != v ==> Abs(cl.lits[k]) in visited
      {
        var u := Abs(cl.lits[j]);
        if u != v {
          assert u in Succ(g, v);
          ReachStep(g, starts, v, u);
          RemainingShrinks(univ, entry, visited, v);
          Walk(u, starts, pending + {v}, univ);
        }
      }
      forall u | u in Succ(g, v) ensures u in visited {
        var l :| l in cl.lits && Abs(l) != v && Abs(l) == u;
        var k :| 0 <= k < |cl.lits| && cl.lits[k] == l;
      }
    }
  }

  /** Everything the cause graph reaches is a start or assigned. */
  lemma CauseReachAssigned(cnf: Cnf, reasons: Reasons, a: Assignment, starts: set<int>, u: int)
    requires Reachable(CauseGraph(cnf, reasons, a), starts, u)
    ensures u in starts || (u in a && u >= 0)
  {
    var g := CauseGraph(cnf, reasons, a);
    var p :| IsPath(g, p) && p[0] in starts && p[|p| - 1] == u;
    if |p| > 1 {
      var w := p[|p| - 2];
      assert u in Succ(g, w);
      var l :| l in cnf.clauses[reasons[w]].lits && Abs(l) != w && Abs(l) == u;
    }
  }

  /** Everything the rule graph reaches is a start or a clause variable. */
  lemma RuleReachInClauses(cnf: Cnf, reasons: Reasons, starts: set<int>, u: int)
    requires Reachable(RuleGraph(cnf, reasons), starts, u)
    ensures u in starts || u in ClauseVars(cnf.clauses)
  {
    var g := RuleGraph(cnf, reasons);
    var p :| IsPath(g, p) && p[0] in starts && p[|p| - 1] == u;
    if |p| > 1 {
      assert u in Succ(g, p[|p| - 2]);
      ReasonVarsInClauses(cnf, reasons, p[|p| - 2]);
    }
  }

  /** The causes of a union of starts are the causes of its parts. */
  lemma CausesUnion(cnf: Cnf, reasons: Reasons, assumptions: set<int>, a: Assignment, s: set<int>, t: set<int>)
    ensures CausesReached(cnf, reasons, assumptions, a, s + t) ==
            CausesReached(cnf, reasons, assumptions, a, s) + CausesReached(cnf, reasons, assumptions, a, t)
  {
    var g := CauseGraph(cnf, reasons, a);
    var rs := set u | u in s + a.Keys && Reachable(g, s, u);
    var rt := set u | u in t + a.Keys && Reachable(g, t, u);
    var rst := set u | u in s + t + a.Keys && Reachable(g, s + t, u);
    forall u ensures u in rst <==> u in rs + rt {
      ReachUnion(g, s, t, u);
      if Reachable(g, s, u) {
        CauseReachAssigned(cnf, reasons, a, s, u);
      }
      if Reachable(g, t, u) {
        CauseReachAssigned(cnf, reasons, a, t, u);
      }
    }
    assert rst == rs + rt;
  }

  /** The rules reached from a set of start variables: those of the
      reasons of every variable the rule graph reaches from them. */
  ghost function RulesReached(cnf: Cnf, reasons: Reasons, starts: set<int>): set<string> {
    RulesOf(cnf, reasons, set u | u in starts + ClauseVars(cnf.clauses) && Reachable(RuleGraph(cnf, reasons), starts, u))
  }

  /** Literals sorted by the key (|x|, x), each once. */
  ghost function SortedByKey(s: set<int>): (r: seq<int>)
    ensures StrictlySorted(r, KeyLess)
    ensures forall x :: x in r <==> x in s
  {
    KeyLessIsStrictTotal();
    SortedSet(s, KeyLess)
  }

  /** Rule ids in string order, each once. */
  ghost function SortedIds(s: set<string>): (r: seq<string>)
    ensures StrictlySorted(r, StringLess)
    ensures forall x :: x in r <==> x in s
  {
    StringLessIsStrictTotal();
    SortedSet(s, StringLess)
  }

  /** The metadata of each rule id, in order; a missing rule has an empty
      description. */
  function RulesInfo(rules: map<string, RuleMeta>, ids: seq<string>): (r: seq<RuleMeta>)
    ensures |r| == |ids|
    ensures forall i :: 0 <= i < |ids| ==>
              r[i] == (if ids[i] in rules then rules[ids[i]] else RuleMeta(ids[i], ""))
  {
    if ids == [] then [] else RulesInfo(rules, ids[..|ids| - 1]) + [LookupRule(rules, ids[|ids| - 1])]
  }

  /** The unsat explanation: the conflict clause, its falsified literals,
      the sorted assumption causes and the metadata of the involved rules
      in rule-id order. */
  datatype Explanation = Explanation(
    conflictClause: Clause,
    falsified: seq<int>,
    assumptionCauses: seq<int>,
    involvedRules: seq<RuleMeta>)

  /** The assumption causes of all falsified literals, collected one
      literal at a time. */
  method AllAssumptionCauses(cnf: Cnf, reasons: Reasons, assumptions: set<int>, a: Assignment, falsified: seq<int>)
    returns (causes: set<int>)
    requires ReasonsInRange(cnf, reasons)
    ensures causes == CausesReached(cnf, reasons, assumptions, a, VarsOf(falsified))
  {
    causes := {};
    for k := 0 to |falsified|
      invariant causes == CausesReached(cnf, reasons, assumptions, a, VarsOf(falsified[..k]))
    {
      var more := CollectAssumptionCauses(cnf, Abs(falsified[k]), reasons, assumptions, a);
      assert VarsOf(falsified[..k + 1]) == VarsOf(falsified[..k]) + {Abs(falsified[k])} by {
        assert falsified[..k + 1] == falsified[..k] + [falsified[k]];
      }
      CausesUnion(cnf, reasons, assumptions, a, VarsOf(falsified[..k]), {Abs(falsified[k])});
      causes := causes + more;
    }
    assert falsified[..|falsified|] == falsified;
  }

  /** The rule walk started from every falsified literal's variable, with
      one visited set shared by all the walks. */
  method AllInvolvedRules(cnf: Cnf, reasons: Reasons, falsified: seq<int>) returns (rules: set<string>)
    requires ReasonsInRange(cnf, reasons)
    ensures rules == RulesReached(cnf, reasons, VarsOf(falsified))
  {
    ghost var starts := VarsOf(falsified);
    ghost var univ := starts + ClauseVars(cnf.clauses);
    ghost var g := RuleGraph(cnf, reasons);
    var walk := new RuleWalk(cnf, reasons);
    for k := 0 to |falsified|
      invariant walk.Valid() && walk.cnf == cnf && walk.reasons == reasons
      invariant forall u :: u in walk.visited ==> Reachable(g, starts, u)
      invariant ClosedExcept(g, walk.visited, {})
      invariant forall j :: 0 <= j < k ==> Abs(falsified[j]) in walk.visited
    {
      ReachStart(g, starts, Abs(falsified[k]));
      walk.Walk(Abs(falsified[k]), starts, {}, univ);
    }
    RulesDone(cnf, reasons, starts, walk.visited);
    rules := walk.involvedRules;
  }

  /** build_explanation. */
  method BuildExplanation(cnf: Cnf, a: Assignment, reasons: Reasons, conflict: Clause, assumptions: seq<int>)
    returns (e: Explanation)
    requires ReasonsInRange(cnf, reasons)
    ensures e.conflictClause == conflict
    ensures e.falsified == Falsified(conflict.lits, a)
    ensures e.assumptionCauses ==
              SortedByKey(CausesReached(cnf, reasons, Elems(assumptions), a, VarsOf(e.falsified)))
    ensures e.involvedRules == RulesInfo(cnf.rules, SortedIds(RulesReached(cnf, reasons, VarsOf(e.falsified))))
  {
    var assumptionsSet := set x | x in assumptions;
    assert assumptionsSet == Elems(assumptions);
    var falsified := FalsifiedLiterals(conflict, a);
    var causes := AllAssumptionCauses(cnf, reasons, assumptionsSet, a, falsified);
    var rules := AllInvolvedRules(cnf, reasons, falsified);
    KeyLessIsStrictTotal();
    StringLessIsStrictTotal();
    var causesSorted := SortSet(causes, KeyLess);
    var ids := SortSet(rules, StringLess);
    var rulesInfo := RuleInfos(cnf.rules, ids);
    e := Explanation(conflict, falsified, causesSorted, rulesInfo);
  }

  /** A finished rule walk has visited exactly the reachable variables. */
  lemma RulesDone(cnf: Cnf, reasons: Reasons, starts: set<int>, visited: set<int>)
    requires starts <= visited && ClosedExcept(RuleGraph(cnf, reasons), visited, {})
    requires forall u :: u in visited ==> Reachable(RuleGraph(cnf, reasons), starts, u)
    ensures RulesOf(cnf, reasons, visited) == RulesReached(cnf, reasons, starts)
  {
    var g := RuleGraph(cnf, reasons);
    ClosedContainsReach(g, starts, visited);
    forall u | u in visited ensures u in starts + ClauseVars(cnf.clauses) {
      RuleReachInClauses(cnf, reasons, starts, u);
    }
    assert visited == set u | u in starts + ClauseVars(cnf.clauses) && Reachable(g, starts, u);
  }

  /** The loop building rules_info. */
  method RuleInfos(rules: map<string, RuleMeta>, ids: seq<string>) returns (r: seq<RuleMeta>)
    ensures r == RulesInfo(rules, ids)
  {
    r := [];
    for i := 0 to |ids|
      invariant r == RulesInfo(rules, ids[..i])
    {
      var rid := ids[i];
      var meta := if rid in rules then rules[rid] else RuleMeta(rid, "");
      r := r + [meta];
      assert ids[..i + 1][..i] == ids[..i];
    }
    assert ids[..|ids|] == ids;
  }

  /** What an assumption cause is: the literal assign.get(v, False) gives
      a variable v without a reason that the cause graph reaches, when it
      or its negation is an assumption. */
  lemma CausesMeaning(cnf: Cnf, reasons: Reasons, assumptions: set<int>, a: Assignment, starts: set<int>, l: int)
    ensures l in CausesReached(cnf, reasons, assumptions, a, starts) <==>
              exists v :: && Reachable(CauseGraph(cnf, reasons, a), starts, v)
                          && v !in reasons && l == SignedLit(a, v)
                          && (l in assumptions || -l in assumptions)
  {
    forall v | Reachable(CauseGraph(cnf, reasons, a), starts, v) ensures v in starts + a.Keys {
      CauseReachAssigned(cnf, reasons, a, starts, v);
    }
  }

  /** Every assumption cause found from the variables of some literals is
      an assumption or its negation, its variable has no reason, and its
      sign is the variable's value (false when unassigned). */
  lemma CausesAreAssumptions(cnf: Cnf, reasons: Reasons, assumptions: set<int>, a: Assignment, lits: seq<int>, l: int)
    requires l in CausesReached(cnf, reasons, assumptions, a, VarsOf(lits))
    ensures l in assumptions || -l in assumptions
    ensures Abs(l) !in reasons
    ensures l == SignedLit(a, Abs(l))
  {
    CausesMeaning(cnf, reasons, assumptions, a, VarsOf(lits), l);
    var v :| && Reachable(CauseGraph(cnf, reasons, a), VarsOf(lits), v)
             && v !in reasons && l == SignedLit(a, v)
             && (l in assumptions || -l in assumptions);
    CauseReachAssigned(cnf, reasons, a, VarsOf(lits), v);
    if v in VarsOf(lits) {
      var x :| x in lits && Abs(x) == v;
    }
  }

  /** What an involved rule is: the rule id of the reason of a variable
      the rule graph reaches. The empty id counts like any other. */
  lemma RulesMeaning(cnf: Cnf, reasons: Reasons, starts: set<int>, rid: string)
    requires ReasonsInRange(cnf, reasons)
    ensures rid in RulesReached(cnf, reasons, starts) <==>
              exists u :: && Reachable(RuleGraph(cnf, reasons), starts, u)
                          && u in reasons && cnf.clauses[reasons[u]].ruleId == rid
  {
    forall u | Reachable(RuleGraph(cnf, reasons), starts, u) ensures u in starts + ClauseVars(cnf.clauses) {
      RuleReachInClauses(cnf, reasons, starts, u);
    }
  }
}
