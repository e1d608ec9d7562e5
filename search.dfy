/** The DPLL search of the explainer: seeding the assumptions, choosing
    decision variables in a hint-biased order, unit propagation after each
    decision, and chronological backtracking over a stack of snapshots. */
module Search {
  import opened Formula
  import opened Propagation

  /** Index of the first hint whose variable is v (|hints| if none). */
  function FirstAt(hints: seq<int>, v: int): (k: nat)
    ensures k <= |hints|
    ensures k < |hints| ==> Abs(hints[k]) == v
    ensures forall j :: 0 <= j < k ==> Abs(hints[j]) != v
  {
    if hints == [] then 0
    else if Abs(hints[0]) == v then 0
    else 1 + FirstAt(hints[1..], v)
  }

  /** The unassigned hint variables (sign ignored), each once, in order of
      first occurrence. */
  function HintedVars(hints: seq<int>, a: Assignment): seq<int> {
    if hints == [] then []
    else
      var r := HintedVars(hints[..|hints| - 1], a);
      var v := Abs(hints[|hints| - 1]);
      if v !in a && v !in r then r + [v] else r
  }

  /** The unassigned variables 1..n that are not hinted, ascending. */
  function RestVars(n: int, a: Assignment, hinted: seq<int>): seq<int>
    decreases n
  {
    if n < 1 then []
    else RestVars(n - 1, a, hinted) + (if n !in a && n !in hinted then [n] else [])
  }

  /** _preferred_var_order. */
  function PreferredOrder(n: int, a: Assignment, hints: seq<int>): seq<int> {
    var hinted := HintedVars(hints, a);
    hinted + RestVars(n, a, hinted)
  }

  predicate Distinct(s: seq<int>) {
    forall i, j :: 0 <= i < j < |s| ==> s[i] != s[j]
  }

  lemma FirstAtSnoc(hints: seq<int>, x: int, v: int)
    requires v in VarsOf(hints)
    ensures FirstAt(hints + [x], v) == FirstAt(hints, v)
  {
    var h :| h in hints && Abs(h) == v;
    var j :| 0 <= j < |hints| && hints[j] == h;
    var k := FirstAt(hints, v);
    assert k <= j;
    FirstAtPrefix(hints + [x], v, k);
  }

  lemma {:induction false} FirstAtPrefix(hints: seq<int>, v: int, k: nat)
    requires k < |hints| && Abs(hints[k]) == v
    requires forall j :: 0 <= j < k ==> Abs(hints[j]) != v
    ensures FirstAt(hints, v) == k
  {
    if k > 0 {
      FirstAtPrefix(hints[1..], v, k - 1);
    }
  }

  /** The hinted variables are exactly the unassigned hint variables. */
  lemma {:induction false} HintedVarsMembers(hints: seq<int>, a: Assignment)
    ensures forall v :: v in HintedVars(hints, a) <==> v !in a && v in VarsOf(hints)
  {
    if hints != [] {
      var init, x := hints[..|hints| - 1], hints[|hints| - 1];
      assert hints == init + [x];
      HintedVarsMembers(init, a);
      assert VarsOf(hints) == VarsOf(init) + {Abs(x)};
    }
  }

  /** Each hinted variable appears once. */
  lemma {:induction false} HintedVarsDistinct(hints: seq<int>, a: Assignment)
    ensures Distinct(HintedVars(hints, a))
  {
    if hints != [] {
      HintedVarsDistinct(hints[..|hints| - 1], a);
    }
  }

  /** The hinted variables follow the order of their first occurrence
      among the hints. */
  lemma {:induction false} HintedVarsOrder(hints: seq<int>, a: Assignment)
    ensures forall i, j :: 0 <= i < j < |HintedVars(hints, a)| ==>
              FirstAt(hints, HintedVars(hints, a)[i]) < FirstAt(hints, HintedVars(hints, a)[j])
  {
    if hints != [] {
      var init, x := hints[..|hints| - 1], hints[|hints| - 1];
      assert hints == init + [x];
      HintedVarsOrder(init, a);
      HintedVarsMembers(init, a);
      var r := HintedVars(init, a);
      forall v | v in r ensures FirstAt(hints, v) == FirstAt(init, v) < |init| {
        FirstAtSnoc(init, x, v);
      }
      if Abs(x) !in a && Abs(x) !in r {
        assert Abs(x) !in VarsOf(init);
        FirstAtPrefix(hints, Abs(x), |init|);
      }
    }
  }

  /** The hinted variables are exactly the unassigned hint variables, each
      once, ordered by their first occurrence among the hints. */
  lemma HintedVarsMeaning(hints: seq<int>, a: Assignment)
    ensures forall v :: v in HintedVars(hints, a) <==> v !in a && v in VarsOf(hints)
    ensures Distinct(HintedVars(hints, a))
    ensures forall i, j :: 0 <= i < j < |HintedVars(hints, a)| ==>
              FirstAt(hints, HintedVars(hints, a)[i]) < FirstAt(hints, HintedVars(hints, a)[j])
  {
    HintedVarsMembers(hints, a);
    HintedVarsDistinct(hints, a);
    HintedVarsOrder(hints, a);
  }

  /** The remaining variables are exactly the unassigned, unhinted
      variables of 1..n, in ascending order. */
  lemma {:induction false} RestVarsMeaning(n: int, a: Assignment, hinted: seq<int>)
    ensures forall v :: v in RestVars(n, a, hinted) <==> 1 <= v <= n && v !in a && v !in hinted
    ensures forall i, j :: 0 <= i < j < |RestVars(n, a, hinted)| ==> RestVars(n, a, hinted)[i] < RestVars(n, a, hinted)[j]
    decreases n
  {
    if n >= 1 {
      RestVarsMeaning(n - 1, a, hinted);
      var r := RestVars(n - 1, a, hinted);
      forall i | 0 <= i < |r| ensures r[i] < n {
        assert r[i] in r;
      }
    }
  }

  /** The order has no duplicates and no assigned variable; it holds every
      unassigned hint variable and every unassigned variable of 1..n; the
      hinted ones come first. */
  lemma PreferredOrderMeaning(n: int, a: Assignment, hints: seq<int>)
    ensures Distinct(PreferredOrder(n, a, hints))
    ensures forall v :: v in PreferredOrder(n, a, hints) <==>
              v !in a && (v in VarsOf(hints) || 1 <= v <= n)
    ensures PreferredOrder(n, a, hints)[..|HintedVars(hints, a)|] == HintedVars(hints, a)
  {
    var h := HintedVars(hints, a);
    HintedVarsMeaning(hints, a);
    var rest := RestVars(n, a, h);
    RestVarsMeaning(n, a, h);
    var r := PreferredOrder(n, a, hints);
    forall i, j | 0 <= i < j < |r| ensures r[i] != r[j] {
      if j >= |h| && i < |h| {
        assert r[j] == rest[j - |h|] && r[i] == h[i];
        assert r[j] in rest;
      } else if i >= |h| {
        assert r[i] == rest[i - |h|] && r[j] == rest[j - |h|];
      }
    }
  }

  /** The order is empty exactly when every hint variable and every
      variable of 1..n is assigned. */
  lemma PreferredOrderEmpty(n: int, a: Assignment, hints: seq<int>)
    ensures PreferredOrder(n, a, hints) == [] <==>
              (forall v :: v in VarsOf(hints) ==> v in a) && (forall v :: 1 <= v <= n ==> v in a)
  {
    PreferredOrderMeaning(n, a, hints);
    if PreferredOrder(n, a, hints) != [] {
      assert PreferredOrder(n, a, hints)[0] in PreferredOrder(n, a, hints);
    }
  }

  /** _preferred_var_order, as the loop over the hints and the
      comprehension over 1..n. */
  method PreferredVarOrder(n: int, a: Assignment, hints: seq<int>) returns (order: seq<int>)
    ensures order == PreferredOrder(n, a, hints)
  {
    var hinted: seq<int> := [];
    var seen: set<int> := {};
    for i := 0 to |hints|
      invariant hinted == HintedVars(hints[..i], a)
      invariant seen == Elems(hinted)
    {
      var v := Abs(hints[i]);
      assert hints[..i + 1][..i] == hints[..i];
      if v !in seen && v !in a {
        hinted := hinted + [v];
        seen := seen + {v};
      }
    }
    assert hints[..|hints|] == hints;
    var rest: seq<int> := [];
    var v := 1;
    while v <= n
      invariant v >= 1 && (n >= 0 ==> v <= n + 1)
      invariant rest == RestVars(v - 1, a, hinted)
      invariant n < 1 ==> rest == []
    {
      if v !in a && v !in hinted {
        rest := rest + [v];
      }
      v := v + 1;
    }
    assert rest == RestVars(n, a, hinted);
    order := hinted + rest;
  }

  // ----- Seeding the assumptions -----

  /** The assignment the assumptions produce when seeded one after another:
      each sets its variable so as to make itself true. */
  function Seeded(xs: seq<int>): Assignment {
    if xs == [] then map[] else Seeded(xs[..|xs| - 1])[Abs(xs[|xs| - 1]) := xs[|xs| - 1] > 0]
  }

  /** The index of the first assumption that disagrees with the value an
      earlier assumption gave its variable. */
  function FirstClash(xs: seq<int>): (r: Option<nat>)
    ensures r.Some? ==> r.value < |xs|
  {
    if xs == [] then None
    else
      var init, x := xs[..|xs| - 1], xs[|xs| - 1];
      match FirstClash(init)
      case Some(k) => Some(k)
      case None => if Abs(x) in Seeded(init) && Seeded(init)[Abs(x)] != (x > 0) then Some(|xs| - 1) else None
  }

  lemma {:induction false} FirstClashPrefix(xs: seq<int>, n: nat)
    requires n <= |xs| && FirstClash(xs[..n]).Some?
    ensures FirstClash(xs) == FirstClash(xs[..n])
    decreases |xs| - n
  {
    if n < |xs| {
      assert xs[..n + 1][..n] == xs[..n];
      FirstClashPrefix(xs, n + 1);
    } else {
      assert xs[..n] == xs;
    }
  }

  /** Without a clash, seeding makes every assumption true and assigns
      exactly the assumption variables. */
  lemma {:induction false} SeededMeaning(xs: seq<int>)
    requires FirstClash(xs).None?
    ensures Seeded(xs).Keys == VarsOf(xs)
    ensures forall x :: x in xs ==> LitValue(x, Seeded(xs)) == Some(true)
  {
    if xs != [] {
      var init, x := xs[..|xs| - 1], xs[|xs| - 1];
      assert xs == init + [x];
      assert FirstClash(init).None?;
      SeededMeaning(init);
      assert VarsOf(xs) == VarsOf(init) + {Abs(x)};
      forall y | y in xs ensures LitValue(y, Seeded(xs)) == Some(true) {
        if y in init && Abs(y) != Abs(x) {
          assert LitValue(y, Seeded(init)) == Some(true);
        }
      }
    }
  }

  /** A clash is an assumption whose negation was assumed before it. */
  lemma {:induction false} ClashMeaning(xs: seq<int>)
    requires FirstClash(xs).Some?
    ensures var k := FirstClash(xs).value;
            k < |xs| && xs[k] != 0 && -xs[k] in xs[..k] && FirstClash(xs[..k]).None?
  {
    var init, x := xs[..|xs| - 1], xs[|xs| - 1];
    if FirstClash(init).Some? {
      ClashMeaning(init);
      var k := FirstClash(init).value;
      assert init[..k] == xs[..k];
    } else {
      SeededMeaning(init);
      var v := Abs(x);
      assert v in VarsOf(init);
      var y :| y in init && Abs(y) == v;
      assert LitValue(y, Seeded(init)) == Some(true);
      assert y == -x;
      assert init == xs[..|xs| - 1];
    }
  }

  /** Seeding clashes exactly when some non-zero literal and its negation
      are both assumed. */
  lemma ClashIff(xs: seq<int>)
    ensures FirstClash(xs).Some? <==> exists x :: x in xs && x != 0 && -x in xs
  {
    if FirstClash(xs).Some? {
      ClashMeaning(xs);
      var k := FirstClash(xs).value;
      assert xs[k] in xs && -xs[k] in xs;
    } else {
      SeededMeaning(xs);
      if exists x :: x in xs && x != 0 && -x in xs {
        var x :| x in xs && x != 0 && -x in xs;
        assert LitValue(x, Seeded(xs)) == Some(true);
        LitValueNegation(x, Seeded(xs));
        assert false;
      }
    }
  }

  /** Under clashing assumptions there is no model, whatever the clauses. */
  lemma ClashUnsat(clauses: seq<Clause>, xs: seq<int>)
    requires FirstClash(xs).Some?
    ensures !Satisfiable(clauses, xs)
  {
    ClashIff(xs);
    var x :| x in xs && x != 0 && -x in xs;
    forall m | IsModel(m, clauses, xs) ensures false {
      LitValueNegation(x, m);
    }
  }

  /** The conflicting pair reported for a clashing assumption: the set
      {a, -a} in ascending order. */
  function ClashPair(a: int): (r: seq<int>)
    ensures Elems(r) == {a, -a}
    ensures forall i, j :: 0 <= i < j < |r| ==> r[i] < r[j]
  {
    var m: int := Abs(a);
    if a == 0 then [0] else [-m, m]
  }

  /** The seeding loop of dpll_explain: it stops at the first assumption
      that contradicts an earlier one. */
  method SeedAssumptions(xs: seq<int>) returns (clash: Option<int>, a: Assignment)
    ensures clash.None? <==> FirstClash(xs).None?
    ensures clash.None? ==> a == Seeded(xs)
    ensures clash.Some? ==> clash.value == xs[FirstClash(xs).value] && a == Seeded(xs[..FirstClash(xs).value])
  {
    a := map[];
    for i := 0 to |xs|
      invariant FirstClash(xs[..i]).None?
      invariant a == Seeded(xs[..i])
    {
      var v, val := Abs(xs[i]), xs[i] > 0;
      assert xs[..i + 1][..i] == xs[..i];
      if v in a && a[v] != val {
        FirstClashPrefix(xs, i + 1);
        return Some(xs[i]), a;
      }
      a := a[v := val];
    }
    assert xs[..|xs|] == xs;
    clash := None;
  }
}
