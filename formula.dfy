/** The formula model: literals, normalised clauses, formulas with rule
    metadata, partial assignments, three-valued literal evaluation and the
    four-way clause status that unit propagation works from. */
module Formula {
  import opened Sorting

  datatype Option<T> = None | Some(value: T)

  function Abs(x: int): nat {
    if x < 0 then -x else x
  }

  /** The clause sort key (|x|, x), compared lexicographically: by variable,
      and for one variable the negative literal first. */
  predicate KeyLess(x: int, y: int) {
    Abs(x) < Abs(y) || (Abs(x) == Abs(y) && x < y)
  }

  lemma KeyLessIsStrictTotal()
    ensures StrictTotalOrder(KeyLess)
  {
  }

  /** Clause normalisation: the distinct literals, sorted by (|x|, x). */
  function Normalize(lits: seq<int>): (r: seq<int>)
    ensures StrictlySorted(r, KeyLess)
    ensures forall i, j :: 0 <= i < j < |r| ==> r[i] != r[j]
    ensures forall x :: x in r <==> x in lits
  {
    KeyLessIsStrictTotal();
    SortDistinct(lits, KeyLess)
  }

  /** Normalising a normalised list changes nothing. */
  lemma NormalizeIdempotent(lits: seq<int>)
    ensures Normalize(Normalize(lits)) == Normalize(lits)
  {
    KeyLessIsStrictTotal();
    SortDistinctIdempotent(Normalize(lits), KeyLess);
  }

  /** Two literal lists with the same values (in any order, with any
      repetitions) normalise to the same stored order. */
  lemma NormalizeCanonical(lits: seq<int>, other: seq<int>)
    requires forall x :: x in lits <==> x in other
    ensures Normalize(lits) == Normalize(other)
  {
    KeyLessIsStrictTotal();
    assert forall y :: y in lits <==> y in other;
    SortDistinctCanonical(lits, other, KeyLess);
  }

  datatype RuleMeta = RuleMeta(ruleId: string, description: string)

  /** A clause with its optional rule id and free-text note. Clauses built
      through MakeClause carry normalised literals. */
  datatype Clause = Clause(lits: seq<int>, ruleId: string, note: string)

  /** Clause construction, with the normalisation of its post-init hook. */
  function MakeClause(lits: seq<int>, ruleId: string, note: string): (c: Clause)
    ensures StrictlySorted(c.lits, KeyLess)
    ensures forall x :: x in c.lits <==> x in lits
    ensures c.ruleId == ruleId && c.note == note
  {
    Clause(Normalize(lits), ruleId, note)
  }

  /** A formula: the declared variable count, the clauses in order and the
      rule metadata by rule id. */
  datatype Cnf = Cnf(numVars: int, clauses: seq<Clause>, rules: map<string, RuleMeta>)

  /** Rule metadata lookup, defaulting to an empty description. */
  function LookupRule(rules: map<string, RuleMeta>, rid: string): RuleMeta {
    if rid in rules then rules[rid] else RuleMeta(rid, "")
  }

  /** A partial assignment: variables absent from the map are unassigned. */
  type Assignment = map<int, bool>

  /** Three-valued literal evaluation. */
  function LitValue(lit: int, a: Assignment): (r: Option<bool>)
    ensures r.None? <==> Abs(lit) !in a
    ensures r == Some(true) <==> Abs(lit) in a && a[Abs(lit)] == (lit > 0)
    ensures r == Some(false) <==> Abs(lit) in a && a[Abs(lit)] != (lit > 0)
  {
    var v := Abs(lit);
    if v !in a then None
    else
      var val := a[v];
      Some(if lit > 0 then val else !val)
  }

  /** A literal and its negation always take opposite values. */
  lemma LitValueNegation(lit: int, a: Assignment)
    requires lit != 0
    ensures LitValue(-lit, a).None? <==> LitValue(lit, a).None?
    ensures LitValue(-lit, a) == Some(true) <==> LitValue(lit, a) == Some(false)
  {
  }

  /** The outcome of classifying a clause under an assignment. The Python
      triple (is_satisfied, is_conflict, unit_lit) has exactly these four
      shapes, so the outcomes are exclusive by construction. */
  datatype Status = Satisfied | Conflicting | Unit(lit: int) | Undetermined

  predicate SomeTrue(lits: seq<int>, a: Assignment) {
    exists l :: l in lits && LitValue(l, a) == Some(true)
  }

  /** The unassigned literals of a clause, in clause order. */
  function Unassigned(lits: seq<int>, a: Assignment): seq<int> {
    if lits == [] then []
    else
      var last := lits[|lits| - 1];
      Unassigned(lits[..|lits| - 1], a) + (if Abs(last) !in a then [last] else [])
  }

  lemma {:induction false} UnassignedMembers(lits: seq<int>, a: Assignment)
    ensures forall l :: l in Unassigned(lits, a) <==> l in lits && Abs(l) !in a
    ensures |Unassigned(lits, a)| == 0 <==> forall l :: l in lits ==> Abs(l) in a
  {
    if lits != [] {
      var init := lits[..|lits| - 1];
      var last := lits[|lits| - 1];
      UnassignedMembers(init, a);
      forall l ensures l in lits <==> l in init || l == last {
        if l in lits {
          var k :| 0 <= k < |lits| && lits[k] == l;
          assert k < |lits| - 1 ==> init[k] == l;
        }
      }
    }
  }

  function StatusOf(lits: seq<int>, a: Assignment): Status {
    if SomeTrue(lits, a) then Satisfied
    else
      var u := Unassigned(lits, a);
      if |u| == 0 then Conflicting
      else if |u| == 1 then Unit(u[0])
      else Undetermined
  }

  /** Only position k of the clause is unassigned. */
  ghost predicate OnlyUnassignedAt(lits: seq<int>, a: Assignment, k: int) {
    0 <= k < |lits| && Abs(lits[k]) !in a &&
    forall i :: 0 <= i < |lits| && i != k ==> Abs(lits[i]) in a
  }

  lemma {:induction false} UnassignedCount(lits: seq<int>, a: Assignment)
    ensures |Unassigned(lits, a)| == 1 ==>
              exists k :: OnlyUnassignedAt(lits, a, k) && lits[k] == Unassigned(lits, a)[0]
    ensures forall k :: OnlyUnassignedAt(lits, a, k) ==> |Unassigned(lits, a)| == 1
  {
    if lits != [] {
      var init := lits[..|lits| - 1];
      var last := lits[|lits| - 1];
      UnassignedCount(init, a);
      UnassignedMembers(init, a);
      UnassignedMembers(lits, a);
      if Abs(last) !in a {
        if |Unassigned(lits, a)| == 1 {
          assert OnlyUnassignedAt(lits, a, |lits| - 1) by {
            forall i | 0 <= i < |init| ensures Abs(lits[i]) in a {
              assert lits[i] == init[i];
            }
          }
        }
        forall k | OnlyUnassignedAt(lits, a, k) ensures |Unassigned(lits, a)| == 1 {
          assert k == |lits| - 1;
          forall l | l in init ensures Abs(l) in a {
            var i :| 0 <= i < |init| && init[i] == l;
            assert lits[i] == l;
          }

        }
      } else {
        forall k | OnlyUnassignedAt(lits, a, k) ensures |Unassigned(lits, a)| == 1 {
          assert OnlyUnassignedAt(init, a, k) by {
            forall i | 0 <= i < |init| && i != k ensures Abs(init[i]) in a {
              assert init[i] == lits[i];
            }
          }
        }
        if |Unassigned(lits, a)| == 1 {
          var k :| OnlyUnassignedAt(init, a, k) && init[k] == Unassigned(init, a)[0];
          assert OnlyUnassignedAt(lits, a, k) && lits[k] == Unassigned(lits, a)[0];
        }
      }
    }
  }

  /** What each clause status means. */
  lemma StatusMeaning(lits: seq<int>, a: Assignment)
    ensures StatusOf(lits, a) == Satisfied <==> exists l :: l in lits && LitValue(l, a) == Some(true)
    ensures StatusOf(lits, a) == Conflicting <==> forall l :: l in lits ==> LitValue(l, a) == Some(false)
    ensures forall u :: StatusOf(lits, a) == Unit(u) <==>
              !SomeTrue(lits, a) && exists k :: OnlyUnassignedAt(lits, a, k) && lits[k] == u
    ensures StatusOf(lits, a) == Undetermined <==>
              !SomeTrue(lits, a) &&
              exists i, j :: 0 <= i < j < |lits| && Abs(lits[i]) !in a && Abs(lits[j]) !in a
    ensures StatusOf(lits, a) == Undetermined ==> exists l :: l in lits && Abs(l) !in a
  {
    UnassignedCount(lits, a);
    UnassignedMembers(lits, a);
    var u := Unassigned(lits, a);
    if StatusOf(lits, a) == Conflicting {
      forall l | l in lits ensures LitValue(l, a) == Some(false) {
        assert l !in u;
      }
    }
    if !SomeTrue(lits, a) && exists i, j :: 0 <= i < j < |lits| && Abs(lits[i]) !in a && Abs(lits[j]) !in a {
      var i, j :| 0 <= i < j < |lits| && Abs(lits[i]) !in a && Abs(lits[j]) !in a;
      assert lits[i] in u;
    }
    if StatusOf(lits, a) == Undetermined {
      assert |u| >= 2;
      assert u[0] in u && u[1] in u;
      var i :| 0 <= i < |lits| && lits[i] == u[0];
      var j :| 0 <= j < |lits| && lits[j] == u[1];
      if i == j {
        // u[0] == u[1]: the literal occurs twice; find its second position
        assert !OnlyUnassignedAt(lits, a, i);
      }
    }
  }

  /** The unit literal of a clause is unassigned, so the branch of unit
      propagation for an already assigned unit variable is never taken. */
  lemma UnitLitUnassigned(lits: seq<int>, a: Assignment, u: int)
    requires StatusOf(lits, a) == Unit(u)
    ensures u in lits && Abs(u) !in a
    ensures forall l :: l in lits && Abs(l) !in a ==> l == u
    ensures forall l :: l in lits ==> LitValue(l, a) != Some(true)
  {
    UnassignedMembers(lits, a);
    assert u in Unassigned(lits, a);
  }

  lemma UnassignedSnoc(lits: seq<int>, i: nat, a: Assignment)
    requires i < |lits|
    ensures Unassigned(lits[..i + 1], a) ==
            Unassigned(lits[..i], a) + (if Abs(lits[i]) !in a then [lits[i]] else [])
  {
    assert lits[..i + 1][..i] == lits[..i];
  }

  /** clause_status: one scan of the literals, stopping at the first true
      one and collecting the unassigned ones. */
  method ClauseStatus(c: Clause, a: Assignment) returns (st: Status)
    ensures st == StatusOf(c.lits, a)
  {
    var lits := c.lits;
    var trues := 0;
    var unassigned: seq<int> := [];
    var i := 0;
    while i < |lits|
      invariant 0 <= i <= |lits|
      invariant trues == 0
      invariant forall j :: 0 <= j < i ==> LitValue(lits[j], a) != Some(true)
      invariant unassigned == Unassigned(lits[..i], a)
    {
      var val := LitValue(lits[i], a);
      if val == Some(true) {
        trues := trues + 1;
        break;
      } else if val == None {
        unassigned := unassigned + [lits[i]];
      }
      UnassignedSnoc(lits, i, a);
      i := i + 1;
    }
    if trues > 0 {
      assert lits[i] in lits;
      return Satisfied;
    }
    assert lits[..i] == lits;
    assert !SomeTrue(lits, a);
    UnassignedMembers(lits, a);
    if |unassigned| == 0 {
      return Conflicting;
    }
    if |unassigned| == 1 {
      return Unit(unassigned[0]);
    }
    return Undetermined;
  }

  /** The variables mentioned by a list of clauses. */
  function ClauseVars(clauses: seq<Clause>): set<int> {
    set i, l | 0 <= i < |clauses| && l in clauses[i].lits :: Abs(l)
  }

  /** Every clause variable lies in 1..numVars. */
  predicate VarsWithin(cnf: Cnf) {
    forall i, l :: 0 <= i < |cnf.clauses| && l in cnf.clauses[i].lits ==> 1 <= Abs(l) <= cnf.numVars
  }

  /** Every variable assigned in small keeps its value in big. */
  ghost predicate Extends(big: Assignment, small: Assignment) {
    forall v :: v in small ==> v in big && big[v] == small[v]
  }

  /** M does not contradict a on any variable both assign. */
  ghost predicate Agrees(m: Assignment, a: Assignment) {
    forall v :: v in a && v in m ==> m[v] == a[v]
  }

  /** Neither conflicting nor unit. */
  predicate Settled(st: Status) {
    st.Satisfied? || st.Undetermined?
  }

  /** No clause is conflicting or unit: unit propagation has nothing to do. */
  predicate Fixpoint(clauses: seq<Clause>, a: Assignment) {
    forall i :: 0 <= i < |clauses| ==> Settled(StatusOf(clauses[i].lits, a))
  }

  ghost predicate Covers(m: Assignment, clauses: seq<Clause>) {
    forall i, l :: 0 <= i < |clauses| && l in clauses[i].lits ==> Abs(l) in m
  }

  predicate Satisfies(m: Assignment, clauses: seq<Clause>) {
    forall i :: 0 <= i < |clauses| ==> SomeTrue(clauses[i].lits, m)
  }

  /** A model of the clauses: it assigns every clause variable and makes
      every clause true. */
  ghost predicate ClausesModel(m: Assignment, clauses: seq<Clause>) {
    Covers(m, clauses) && Satisfies(m, clauses)
  }

  ghost predicate IsModel(m: Assignment, clauses: seq<Clause>, assumptions: seq<int>) {
    ClausesModel(m, clauses) &&
    forall x :: x in assumptions ==> LitValue(x, m) == Some(true)
  }

  ghost predicate Satisfiable(clauses: seq<Clause>, assumptions: seq<int>) {
    exists m :: IsModel(m, clauses, assumptions)
  }

  /** Extending an assignment keeps every value a literal already had. */
  lemma ExtendsKeepsValue(big: Assignment, small: Assignment, l: int)
    requires Extends(big, small) && Abs(l) in small
    ensures LitValue(l, big) == LitValue(l, small)
  {
  }

  /** At a fixpoint that assigns every clause variable, every clause is
      satisfied. */
  lemma FixpointSatisfies(clauses: seq<Clause>, a: Assignment)
    requires Fixpoint(clauses, a) && Covers(a, clauses)
    ensures Satisfies(a, clauses)
  {
    forall i | 0 <= i < |clauses| ensures SomeTrue(clauses[i].lits, a) {
      StatusMeaning(clauses[i].lits, a);
    }
  }

  /** A model of a list of clauses is a model of any list drawn from it. */
  lemma ModelOfSubset(m: Assignment, clauses: seq<Clause>, sub: seq<Clause>, assumptions: seq<int>)
    requires IsModel(m, clauses, assumptions)
    requires forall c :: c in sub ==> c in clauses
    ensures IsModel(m, sub, assumptions)
  {
    forall i | 0 <= i < |sub| ensures SomeTrue(sub[i].lits, m) {
      assert sub[i] in clauses;
    }
    forall i, l | 0 <= i < |sub| && l in sub[i].lits ensures Abs(l) in m {
      assert sub[i] in clauses;
    }
  }

  /** The variables of a list of literals. */
  function VarsOf(lits: seq<int>): set<int> {
    set l | l in lits :: Abs(l)
  }

  /** The elements of a sequence, as a set. */
  function Elems(s: seq<int>): set<int> {
    set x | x in s
  }

  lemma ElemsPop(s: seq<int>)
    requires s != []
    ensures Elems(s) - {s[|s| - 1]} <= Elems(s[..|s| - 1]) <= Elems(s)
    ensures s[|s| - 1] in Elems(s)
  {
    assert s == s[..|s| - 1] + [s[|s| - 1]];
  }
}
