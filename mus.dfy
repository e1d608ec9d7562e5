/** Deletion-based extraction of a subset-minimal unsatisfiable core,
    optionally focused on the clauses that mention hint variables. A core
    is a list of clause positions in the formula, so clause identity is
    kept even when two clauses are equal. */
module Mus {
  import opened Sorting
  import opened Formula
  import opened Explanation
  import opened Search
  import opened Dpll

  /** The clause mentions one of the variables. */
  predicate MentionsAny(lits: seq<int>, vars: set<int>) {
    exists l :: l in lits && Abs(l) in vars
  }

  /** Positions below n of the clauses that mention one of the variables,
      in order. */
  function MentioningPrefix(clauses: seq<Clause>, vars: set<int>, n: nat): (r: seq<nat>)
    requires n <= |clauses|
    ensures forall i :: 0 <= i < |r| ==> r[i] < n
  {
    if n == 0 then []
    else MentioningPrefix(clauses, vars, n - 1) + (if MentionsAny(clauses[n - 1].lits, vars) then [n - 1] else [])
  }

  /** _clauses_with_hint_vars, as positions into the clause list. */
  function ClausesWithHintVars(cnf: Cnf, hints: seq<int>): (r: seq<nat>)
    ensures InRange(r, |cnf.clauses|)
  {
    if hints == [] then [] else MentioningPrefix(cnf.clauses, VarsOf(hints), |cnf.clauses|)
  }

  predicate Increasing(s: seq<nat>) {
    forall i, j :: 0 <= i < j < |s| ==> s[i] < s[j]
  }

  lemma {:induction false} MentioningPrefixMeaning(clauses: seq<Clause>, vars: set<int>, n: nat)
    requires n <= |clauses|
    ensures Increasing(MentioningPrefix(clauses, vars, n))
    ensures forall k: nat :: k in MentioningPrefix(clauses, vars, n) <==> k < n && MentionsAny(clauses[k].lits, vars)
  {
    if n > 0 {
      MentioningPrefixMeaning(clauses, vars, n - 1);
      var r := MentioningPrefix(clauses, vars, n - 1);
      forall i | 0 <= i < |r| ensures r[i] < n - 1 {
        assert r[i] in r;
      }
    }
  }

  /** The focused subset is exactly the clauses, in their original order,
      that mention a hint variable. */
  lemma HintedClausesMeaning(cnf: Cnf, hints: seq<int>)
    ensures Increasing(ClausesWithHintVars(cnf, hints))
    ensures forall k: nat :: k in ClausesWithHintVars(cnf, hints) <==>
              k < |cnf.clauses| && MentionsAny(cnf.clauses[k].lits, VarsOf(hints))
  {
    if hints != [] {
      MentioningPrefixMeaning(cnf.clauses, VarsOf(hints), |cnf.clauses|);
    }
  }

  /** All positions 0..n-1. */
  function AllPositions(n: nat): (r: seq<nat>)
    ensures |r| == n && forall i :: 0 <= i < n ==> r[i] == i
  {
    if n == 0 then [] else AllPositions(n - 1) + [n - 1]
  }

  predicate InRange(idx: seq<nat>, n: nat) {
    forall i :: 0 <= i < |idx| ==> idx[i] < n
  }

  /** An increasing list of positions drawn from another increasing list
      is a subsequence of it: the core keeps the candidate's order. */
  lemma {:induction false} IncreasingSubseq(sub: seq<nat>, s: seq<nat>)
    requires Increasing(sub) && Increasing(s)
    requires forall k :: k in sub ==> k in s
    ensures IsSubseq(sub, s)
    decreases |s|
  {
    if sub != [] {
      assert sub[|sub| - 1] in sub;
      assert sub[|sub| - 1] in s;
      var last := s[|s| - 1];
      var init := s[..|s| - 1];
      if sub[|sub| - 1] == last {
        var front := sub[..|sub| - 1];
        forall k | k in front ensures k in init {
          var i :| 0 <= i < |front| && front[i] == k;
          assert sub[i] in sub && sub[i] < sub[|sub| - 1];
          var j :| 0 <= j < |s| && s[j] == k;
        }
        IncreasingSubseq(front, init);
      } else {
        forall k | k in sub ensures k in init {
          var i :| 0 <= i < |sub| && sub[i] == k;
          assert sub[i] in sub;
          var j :| 0 <= j < |s| && s[j] == k;
          var m :| 0 <= m < |s| && s[m] == sub[|sub| - 1];
          assert m < |s| - 1;
          assert i == |sub| - 1 || sub[i] < sub[|sub| - 1];
        }
        IncreasingSubseq(sub, init);
      }
    }
  }

  /** Selecting every position gives the clause list back. */
  lemma SelectAll(clauses: seq<Clause>)
    ensures InRange(AllPositions(|clauses|), |clauses|)
    ensures Select(clauses, AllPositions(|clauses|)) == clauses
  {
  }

  /** The clauses at the given positions. */
  function Select(clauses: seq<Clause>, idx: seq<nat>): (r: seq<Clause>)
    requires InRange(idx, |clauses|)
    ensures |r| == |idx| && forall i :: 0 <= i < |idx| ==> r[i] == clauses[idx[i]]
  {
    if idx == [] then [] else Select(clauses, idx[..|idx| - 1]) + [clauses[idx[|idx| - 1]]]
  }

  /** The formula restricted to the clauses at the given positions. */
  function Restrict(cnf: Cnf, idx: seq<nat>): Cnf
    requires InRange(idx, |cnf.clauses|)
  {
    Cnf(cnf.numVars, Select(cnf.clauses, idx), cnf.rules)
  }

  /** s without its element at position i. */
  function Remove(s: seq<nat>, i: nat): seq<nat>
    requires i < |s|
  {
    s[..i] + s[i + 1..]
  }

  /** A restriction keeps clause variables within 1..numVars. */
  lemma RestrictWithin(cnf: Cnf, idx: seq<nat>)
    requires InRange(idx, |cnf.clauses|) && VarsWithin(cnf)
    ensures VarsWithin(Restrict(cnf, idx))
  {
    var sub := Select(cnf.clauses, idx);
    forall i, l | 0 <= i < |sub| && l in sub[i].lits ensures 1 <= Abs(l) <= cnf.numVars {
      assert sub[i] == cnf.clauses[idx[i]];
    }
  }

  /** Satisfiability survives dropping clauses. */
  lemma SatisfiableSubset(clauses: seq<Clause>, sub: seq<Clause>, assumptions: seq<int>)
    requires Satisfiable(clauses, assumptions)
    requires forall c :: c in sub ==> c in clauses
    ensures Satisfiable(sub, assumptions)
  {
    var m :| IsModel(m, clauses, assumptions);
    ModelOfSubset(m, clauses, sub, assumptions);
  }

  /** Position k after dropping position i holds what position k, or
      k + 1 from i on, held before. */
  lemma RemoveAt(s: seq<nat>, i: nat)
    requires i < |s|
    ensures |Remove(s, i)| == |s| - 1
    ensures forall k :: 0 <= k < |s| - 1 ==> Remove(s, i)[k] == s[if k < i then k else k + 1]
  {
  }

  lemma RemoveInRange(s: seq<nat>, i: nat, n: nat)
    requires i < |s| && InRange(s, n)
    ensures InRange(Remove(s, i), n)
  {
    RemoveAt(s, i);
  }

  /** Dropping position i and then an earlier position j leaves the
      positions that dropping j alone leaves, except s[i]. */
  lemma RemoveTwiceAt(s: seq<nat>, i: nat, j: nat)
    requires j < i < |s|
    ensures |Remove(Remove(s, i), j)| == |s| - 2 && |Remove(s, j)| == |s| - 1
    ensures forall p :: 0 <= p < |s| - 2 ==>
              Remove(Remove(s, i), j)[p] == Remove(s, j)[if p + 1 < i then p else p + 1]
  {
    RemoveAt(s, i);
    RemoveAt(s, j);
    RemoveAt(Remove(s, i), j);
  }

  /** Dropping position i and then an earlier position j leaves a part of
      what dropping j alone leaves. */
  lemma RemoveTwice(clauses: seq<Clause>, s: seq<nat>, i: nat, j: nat)
    requires j < i < |s| && InRange(s, |clauses|)
    ensures InRange(Remove(s, i), |clauses|) && InRange(Remove(s, j), |clauses|)
    ensures InRange(Remove(Remove(s, i), j), |clauses|)
    ensures forall c :: c in Select(clauses, Remove(Remove(s, i), j)) ==> c in Select(clauses, Remove(s, j))
  {
    RemoveInRange(s, i, |clauses|);
    RemoveInRange(s, j, |clauses|);
    RemoveInRange(Remove(s, i), j, |clauses|);
    RemoveTwiceAt(s, i, j);
    var twice, once := Remove(Remove(s, i), j), Remove(s, j);
    forall c | c in Select(clauses, twice) ensures c in Select(clauses, once) {
      var p :| 0 <= p < |twice| && Select(clauses, twice)[p] == c;
      var q := if p + 1 < i then p else p + 1;
      assert Select(clauses, once)[q] == c;
    }
  }

  /** Deleting position i of an increasing list of positions leaves an
      increasing list drawn from it. */
  lemma RemoveKeeps(cnf: Cnf, core: seq<nat>, i: nat)
    requires i < |core| && InRange(core, |cnf.clauses|) && Increasing(core)
    ensures InRange(Remove(core, i), |cnf.clauses|) && Increasing(Remove(core, i))
    ensures forall k :: k in Remove(core, i) ==> k in core
  {
    var test := Remove(core, i);
    forall p, q | 0 <= p < q < |test| ensures test[p] < test[q] {
      var p', q' := if p < i then p else p + 1, if q < i then q else q + 1;
      assert test[p] == core[p'] && test[q] == core[q'];
    }
    forall k | k in test ensures k in core {
      var p :| 0 <= p < |test| && test[p] == k;
      assert test[p] == core[if p < i then p else p + 1];
    }
  }

  /** A formula satisfiable without an earlier position j stays
      satisfiable once position i is gone too. */
  lemma DeleteStep(cnf: Cnf, core: seq<nat>, i: nat, assumptions: seq<int>)
    requires i < |core| && InRange(core, |cnf.clauses|)
    requires forall j :: 0 <= j < i ==> Satisfiable(Select(cnf.clauses, Remove(core, j)), assumptions)
    ensures InRange(Remove(core, i), |cnf.clauses|)
    ensures forall j :: 0 <= j < i ==> Satisfiable(Select(cnf.clauses, Remove(Remove(core, i), j)), assumptions)
  {
    var test := Remove(core, i);
    forall j | 0 <= j < i
      ensures Satisfiable(Select(cnf.clauses, Remove(test, j)), assumptions)
    {
      RemoveTwice(cnf.clauses, core, i, j);
      SatisfiableSubset(Select(cnf.clauses, Remove(core, j)), Select(cnf.clauses, Remove(test, j)), assumptions);
    }
  }

  /** The starting candidate of mus_deletion_based: the focused subset when
      there are hints, it is non-empty and the oracle finds it unsat;
      otherwise every clause. */
  method StartCandidate(cnf: Cnf, assumptions: seq<int>, hints: seq<int>) returns (start: seq<nat>, ghost focused: bool)
    ensures InRange(start, |cnf.clauses|) && Increasing(start)
    ensures focused ==> start == ClausesWithHintVars(cnf, hints) && start != [] && !Satisfiable(Select(cnf.clauses, start), assumptions)
    ensures !focused ==> start == AllPositions(|cnf.clauses|)
    ensures !focused && ClausesWithHintVars(cnf, hints) != [] && VarsWithin(cnf) ==>
              Satisfiable(Select(cnf.clauses, ClausesWithHintVars(cnf, hints)), assumptions)
  {
    HintedClausesMeaning(cnf, hints);
    start, focused := AllPositions(|cnf.clauses|), false;
    if hints != [] {
      var hinted := ClausesWithHintVars(cnf, hints);
      if hinted != [] {
        assert forall i :: 0 <= i < |hinted| ==> hinted[i] in hinted;
        var unsat := CheckUnsat(Restrict(cnf, hinted), assumptions, hints);
        if unsat {
          start, focused := hinted, true;
        } else if VarsWithin(cnf) {
          RestrictWithin(cnf, hinted);
        }
      }
    }
  }

  /** mus_deletion_based. Clauses of the starting candidate are tried for
      deletion one by one in order; a deletion is kept when the oracle
      still finds the rest unsat. The core is an order-preserving part of
      the candidate; it is unsat whenever a deletion happened or the
      candidate was; and, when the clause variables lie in 1..numVars,
      dropping any one of its clauses makes it satisfiable. */
  method MusDeletionBased(cnf: Cnf, assumptions: seq<int>, hints: seq<int>)
    returns (core: seq<nat>, ghost start: seq<nat>, ghost focused: bool)
    ensures InRange(start, |cnf.clauses|) && Increasing(start) && InRange(core, |cnf.clauses|)
    ensures focused ==> start == ClausesWithHintVars(cnf, hints) && start != [] && !Satisfiable(Select(cnf.clauses, start), assumptions)
    ensures !focused ==> start == AllPositions(|cnf.clauses|)
    ensures Increasing(core) && forall k :: k in core ==> k in start
    ensures core != start ==> !Satisfiable(Select(cnf.clauses, core), assumptions)
    ensures VarsWithin(cnf) ==>
              forall i :: 0 <= i < |core| ==> Satisfiable(Select(cnf.clauses, Remove(core, i)), assumptions)
    ensures FirstClash(assumptions).Some? ==> core == []
  {
    var candidate;
    candidate, focused := StartCandidate(cnf, assumptions, hints);
    start := candidate;
    core := candidate;
    var i: nat := 0;
    while i < |core|
      invariant Shrinking(cnf, assumptions, start, core, i)
      invariant FirstClash(assumptions).Some? ==> i == 0
      decreases |core| - i
    {
      core, i := TryDelete(cnf, assumptions, hints, start, core, i);
    }
  }

  /** The state of the deletion loop: the core is an increasing part of
      the candidate, unsat unless nothing was deleted yet, and each of its
      first i clauses was kept because the rest without it is
      satisfiable. */
  ghost predicate Shrinking(cnf: Cnf, assumptions: seq<int>, start: seq<nat>, core: seq<nat>, i: nat) {
    && i <= |core| && InRange(core, |cnf.clauses|)
    && Increasing(core) && (forall k :: k in core ==> k in start)
    && (core != start ==> !Satisfiable(Select(cnf.clauses, core), assumptions))
    && (VarsWithin(cnf) ==>
          forall j :: 0 <= j < i ==> Satisfiable(Select(cnf.clauses, Remove(core, j)), assumptions))
  }

  /** One turn of the deletion loop: drop clause i when the oracle finds
      the rest unsat, otherwise move on. */
  method TryDelete(cnf: Cnf, assumptions: seq<int>, hints: seq<int>, ghost start: seq<nat>, core0: seq<nat>, i0: nat)
    returns (core: seq<nat>, i: nat)
    requires i0 < |core0| && Shrinking(cnf, assumptions, start, core0, i0)
    ensures Shrinking(cnf, assumptions, start, core, i)
    ensures |core| - i < |core0| - i0
    ensures FirstClash(assumptions).Some? ==> i == i0
  {
    var test := core0[..i0] + core0[i0 + 1..];
    assert test == Remove(core0, i0);
    RemoveKeeps(cnf, core0, i0);
    if VarsWithin(cnf) {
      DeleteStep(cnf, core0, i0, assumptions);
      RestrictWithin(cnf, test);
    }
    var unsat := CheckUnsat(Restrict(cnf, test), assumptions, hints);
    if unsat {
      core, i := test, i0;
    } else {
      core, i := core0, i0 + 1;
    }
  }
}
