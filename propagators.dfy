/**
 * The propagators of A3/propagators.py: plain backtracking (check only),
 * forward checking by `check`, generalised arc consistency with a work queue,
 * and the minimum-remaining-values variable ordering.
 *
 * Every propagator returns a verdict and the list of (variable, value) pairs
 * it pruned.  Each state-changing propagator promises `Exact`: the list names
 * every value it removed, once, and nothing else -- the search restores the
 * domains from that list alone (CspBase.RestoreUndoesPruning).
 */
module Propagators {
  import opened Options
  import opened CspBase

  // ---------------------------------------------------------------------
  // Specification
  // ---------------------------------------------------------------------

  /** A constraint on the new variable is fully assigned and its values fail check(). */
  predicate BtFails(c: Constraint, asg: seq<Option<int>>)
  {
    NUnassigned(c, asg) == 0 && !Check(c, AssignedValues(c.scope, asg))
  }

  ghost predicate BtViolated(cons: seq<Constraint>, asg: seq<Option<int>>, cs: seq<nat>, k: nat)
  {
    exists m :: 0 <= m < k && m < |cs| && cs[m] < |cons| && BtFails(cons[cs[m]], asg)
  }

  /**
   * prop_FC's test on constraint `ci`: `x` is its only unassigned variable and
   * the assigned values, with `v` in the place of `x`, fail check().
   */
  predicate FcRejects(cons: seq<Constraint>, asg: seq<Option<int>>, ci: nat, x: Var, v: int)
  {
    ci < |cons| && NUnassigned(cons[ci], asg) == 1 && UnassignedIn(cons[ci].scope, asg)[0] == x &&
    !Check(cons[ci], FillTuple(cons[ci].scope, asg, x, v))
  }

  /** Some of the first `k` seed constraints rejects `v` for `x`. */
  ghost predicate FcRejectedBefore(cons: seq<Constraint>, asg: seq<Option<int>>, seeds: seq<nat>, k: nat, x: Var, v: int)
  {
    exists m :: 0 <= m < k && m < |seeds| && FcRejects(cons, asg, seeds[m], x, v)
  }

  /**
   * The live values forward checking leaves after the first `k` seed
   * constraints: those of `live0` that none of them rejects.
   */
  ghost function FcLive(cons: seq<Constraint>, asg: seq<Option<int>>, seeds: seq<nat>, k: nat,
                        live0: seq<set<int>>): (r: seq<set<int>>)
    ensures |r| == |live0|
    ensures forall y, v :: 0 <= y < |live0| ==>
      (v in r[y] <==> v in live0[y] && !FcRejectedBefore(cons, asg, seeds, k, y, v))
  {
    seq(|live0|, y requires 0 <= y < |live0| =>
      set v | v in live0[y] && !FcRejectedBefore(cons, asg, seeds, k, y, v))
  }

  /** The values of `x` in `live` that constraint `ci` does not reject. */
  ghost function FcKept(cons: seq<Constraint>, asg: seq<Option<int>>, ci: nat, x: Var, live: seq<set<int>>): (r: set<int>)
    requires x < |live|
    ensures forall v :: v in r <==> v in live[x] && !FcRejects(cons, asg, ci, x, v)
  {
    set v | v in live[x] && !FcRejects(cons, asg, ci, x, v)
  }

  /**
   * Constraint `ci` has exactly one unassigned variable and, under `live`,
   * that variable's current domain is empty: forward checking's dead end.
   */
  predicate WipesOut(cons: seq<Constraint>, dom: seq<seq<int>>, asg: seq<Option<int>>, live: seq<set<int>>, ci: nat)
  {
    ci < |cons| && NUnassigned(cons[ci], asg) == 1 && UnassignedIn(cons[ci].scope, asg)[0] < |dom| &&
    CurDomainOf(dom, live, asg, UnassignedIn(cons[ci].scope, asg)[0]) == []
  }

  /** None of the first `k` seed constraints left its variable without values when it was handled. */
  ghost predicate FcNoWipeBefore(cons: seq<Constraint>, dom: seq<seq<int>>, asg: seq<Option<int>>, seeds: seq<nat>,
                                 k: nat, live0: seq<set<int>>)
  {
    forall m :: 0 <= m < k && m < |seeds| ==> !WipesOut(cons, dom, asg, FcLive(cons, asg, seeds, m + 1, live0), seeds[m])
  }

  /** The size of the current domain, as ord_mrv compares it. */
  function DomSize(dom: seq<seq<int>>, live: seq<set<int>>, asg: seq<Option<int>>, x: Var): nat
    requires x < |dom|
  {
    |CurDomainOf(dom, live, asg, x)|
  }

  // ---------------------------------------------------------------------
  // prop_BT
  // ---------------------------------------------------------------------

  /**
   * Plain backtracking: never prunes; with no new variable it succeeds, and
   * otherwise it fails exactly when a constraint on the new variable is fully
   * assigned and its assigned values fail check().
   */
  method PropBT(csp: Csp, newVar: Option<Var>) returns (ok: bool, pruned: seq<Prune>)
    requires csp.Valid()
    requires newVar.Some? ==> newVar.value < |csp.dom|
    ensures pruned == []
    ensures newVar.None? ==> ok
    ensures newVar.Some? ==>
      (ok <==> !BtViolated(csp.cons, csp.asg, ConsWithVar(csp.cons, newVar.value), |ConsWithVar(csp.cons, newVar.value)|))
  {
    if newVar.None? {
      return true, [];
    }
    var cons, asg := csp.cons, csp.asg;
    var cs := ConsWithVar(cons, newVar.value);
    ok, pruned := true, [];
    var k := 0;
    while k < |cs| && ok
      invariant k <= |cs|
      invariant ok <==> !BtViolated(cons, asg, cs, k)
    {
      assert cs[k] in cs;
      var fails := BtCheck(cons[cs[k]], asg);
      BtViolatedNext(cons, asg, cs, k);
      ok := !fails;
      k := k + 1;
    }
    BtViolatedGrows(cons, asg, cs, k, |cs|);
  }

  /** Looking at one more constraint adds exactly its own failure. */
  lemma BtViolatedNext(cons: seq<Constraint>, asg: seq<Option<int>>, cs: seq<nat>, k: nat)
    requires k < |cs| && cs[k] < |cons|
    ensures BtViolated(cons, asg, cs, k + 1) <==> BtViolated(cons, asg, cs, k) || BtFails(cons[cs[k]], asg)
  {
    if BtViolated(cons, asg, cs, k + 1) && !BtFails(cons[cs[k]], asg) {
      var m :| 0 <= m < k + 1 && m < |cs| && cs[m] < |cons| && BtFails(cons[cs[m]], asg);
      assert m < k;
    }
  }

  /** A violation among the first `k` constraints is one among the first `k2 >= k`. */
  lemma BtViolatedGrows(cons: seq<Constraint>, asg: seq<Option<int>>, cs: seq<nat>, k: nat, k2: nat)
    requires k <= k2
    ensures BtViolated(cons, asg, cs, k) ==> BtViolated(cons, asg, cs, k2)
  {
  }

  /** The body of prop_BT's loop: a fully assigned constraint whose values fail check(). */
  method BtCheck(c: Constraint, asg: seq<Option<int>>) returns (fails: bool)
    ensures fails <==> BtFails(c, asg)
  {
    if NUnassigned(c, asg) != 0 {
      return false;
    }
    var vals: seq<int> := [];
    for j := 0 to |c.scope|
      invariant |vals| == j
      invariant forall m :: 0 <= m < j ==> vals[m] == ValueOf(asg, c.scope[m])
    {
      vals := vals + [ValueOf(asg, c.scope[j])];
    }
    assert vals == AssignedValues(c.scope, asg);
    fails := !Check(c, vals);
  }

  // ---------------------------------------------------------------------
  // prop_FC (check-based)
  // ---------------------------------------------------------------------

  /**
   * The value list prop_FC hands to check(): the assigned values of the scope
   * in scope order, with a placeholder at the position of the one unassigned
   * variable `x`, whose index is returned.
   */
  method ScopeValues(c: Constraint, asg: seq<Option<int>>, x: Var) returns (vals: seq<int>, idx: nat)
    requires NUnassigned(c, asg) == 1 && UnassignedIn(c.scope, asg)[0] == x
    requires Distinct(c.scope) && forall j :: 0 <= j < |c.scope| ==> c.scope[j] < |asg|
    ensures |vals| == |c.scope| && idx < |c.scope| && c.scope[idx] == x
    ensures forall v :: vals[idx := v] == FillTuple(c.scope, asg, x, v)
  {
    vals, idx := [], 0;
    assert x in UnassignedIn(c.scope, asg);
    for i := 0 to |c.scope|
      invariant |vals| == i
      invariant forall m :: 0 <= m < i && c.scope[m] != x ==> vals[m] == ValueOf(asg, c.scope[m])
      invariant x in c.scope[..i] ==> idx < i && c.scope[idx] == x
    {
      var y := c.scope[i];
      // every scope variable but x is assigned, so exactly one value is appended
      LoneUnassigned(c.scope, asg, x, y);
      if asg[y].Some? {
        vals := vals + [asg[y].value];
      }
      if y == x {
        idx := i;
        vals := vals + [0];   // placeholder, overwritten before every check()
      }
    }
    assert c.scope[..|c.scope|] == c.scope;
    forall v ensures vals[idx := v] == FillTuple(c.scope, asg, x, v) {
      FillAt(c.scope, asg, x, v, vals, idx);
    }
  }

  /** In a scope whose only unassigned variable is `x`, every other variable is assigned. */
  lemma LoneUnassigned(scope: seq<Var>, asg: seq<Option<int>>, x: Var, y: Var)
    requires |UnassignedIn(scope, asg)| == 1 && UnassignedIn(scope, asg)[0] == x
    requires y in scope && y < |asg|
    ensures asg[y].Some? != (y == x)
  {
    var u := UnassignedIn(scope, asg);
    assert u == [u[0]];
    assert x in u;
  }

  /** The scope values with `v` written at the position of `x` are the filled-in tuple. */
  lemma FillAt(scope: seq<Var>, asg: seq<Option<int>>, x: Var, v: int, vals: seq<int>, idx: nat)
    requires Distinct(scope) && |vals| == |scope| && idx < |scope| && scope[idx] == x
    requires forall m :: 0 <= m < |scope| && scope[m] != x ==> vals[m] == ValueOf(asg, scope[m])
    ensures vals[idx := v] == FillTuple(scope, asg, x, v)
  {
    forall m | 0 <= m < |scope| ensures vals[idx := v][m] == FillTuple(scope, asg, x, v)[m] {
      if m != idx {
        assert scope[m] != scope[idx];
      }
    }
  }

  /**
   * The body of prop_FC's loop for one constraint `ci` whose one unassigned
   * variable is `x`: prunes from `x` exactly the values the constraint rejects.
   */
  method FcConstraint(csp: Csp, ci: nat, x: Var) returns (newPruned: seq<Prune>)
    requires csp.Valid() && ci < |csp.cons|
    requires NUnassigned(csp.cons[ci], csp.asg) == 1 && UnassignedIn(csp.cons[ci].scope, csp.asg)[0] == x
    requires x < |csp.dom|
    modifies csp
    ensures csp.Valid()
    ensures csp.dom == old(csp.dom) && csp.asg == old(csp.asg) && csp.cons == old(csp.cons)
    ensures Exact(old(csp.live), csp.live, newPruned)
    ensures csp.live == old(csp.live)[x := FcKept(csp.cons, csp.asg, ci, x, old(csp.live))]
  {
    ghost var live0 := csp.live;
    var c := csp.cons[ci];
    assert x in UnassignedIn(c.scope, csp.asg);
    assert WfConstraint(c, |csp.dom|);
    var scopeVals, idx := ScopeValues(c, csp.asg, x);
    var domain := csp.CurDomain(x);
    assert domain == Filter(csp.dom[x], csp.live, csp.asg, x);
    forall m' | 0 <= m' < |domain| ensures domain[m'] in live0[x] {
      assert domain[m'] in Filter(csp.dom[x], csp.live, csp.asg, x);
      assert InCur(csp.live, csp.asg, x, domain[m']);
    }
    ghost var gone;
    gone, newPruned := PruneFailing(csp, x, domain, c, scopeVals, idx);
    assert live0[x] - gone == FcKept(csp.cons, csp.asg, ci, x, live0) by {
      forall v | v in live0[x] ensures v in gone <==> FcRejects(csp.cons, csp.asg, ci, x, v) {
        assert InCur(live0, csp.asg, x, v);
        assert v in domain;
      }
    }
  }

  /** The values of `d`, in order, whose tuple `vals` with the value at `idx` fails check(). */
  function Failing(c: Constraint, vals: seq<int>, idx: nat, d: seq<int>): (r: seq<int>)
    requires idx < |vals|
    ensures forall v :: v in r <==> v in d && !Check(c, vals[idx := v])
    ensures Distinct(d) ==> Distinct(r)
    decreases |d|
  {
    if d == [] then []
    else
      var rest := Failing(c, vals, idx, d[..|d| - 1]);
      var v := d[|d| - 1];
      assert d == d[..|d| - 1] + [v];
      assert Distinct(d) ==> v !in d[..|d| - 1];
      if !Check(c, vals[idx := v]) then rest + [v] else rest
  }

  /**
   * Prunes from `x` every value of `domain` whose tuple, `vals` with the value
   * at position `idx`, fails check(), recording them in the order of `domain`;
   * `gone` is the set of pruned values.
   */
  method PruneFailing(csp: Csp, x: Var, domain: seq<int>, c: Constraint, vals: seq<int>, idx: nat)
    returns (ghost gone: set<int>, newPruned: seq<Prune>)
    requires csp.Valid() && x < |csp.dom| && idx < |vals| && Distinct(domain)
    requires forall m :: 0 <= m < |domain| ==> domain[m] in csp.live[x]
    modifies csp
    ensures csp.Valid()
    ensures csp.dom == old(csp.dom) && csp.asg == old(csp.asg) && csp.cons == old(csp.cons)
    ensures csp.live == old(csp.live)[x := old(csp.live)[x] - gone]
    ensures forall v :: v in gone <==> v in domain && !Check(c, vals[idx := v])
    ensures newPruned == PrunesOf(x, Failing(c, vals, idx, domain))
    ensures Exact(old(csp.live), csp.live, newPruned)
  {
    ghost var live0 := csp.live;
    ghost var failing: seq<int> := [];
    assert live0[x] - Elems(failing) == live0[x];
    newPruned := [];
    for m := 0 to |domain|
      invariant csp.dom == old(csp.dom) && csp.asg == old(csp.asg) && csp.cons == old(csp.cons)
      invariant FailInv(live0, csp.live, x, c, vals, idx, domain, m, failing, newPruned)
    {
      var v := domain[m];
      ghost var L := csp.live;
      FailLive(live0, L, x, c, vals, idx, domain, m, failing, newPruned);
      if !Check(c, vals[idx := v]) {
        WfVarsOnlyAt(csp.dom, live0, L, csp.asg, x);
        csp.PruneValue(x, v);
        FailPrune(live0, L, csp.live, x, c, vals, idx, domain, m, failing, newPruned);
        failing := failing + [v];
        newPruned := newPruned + [(x, v)];
      } else {
        FailKeep(live0, L, x, c, vals, idx, domain, m, failing, newPruned);
      }
    }
    assert domain[..|domain|] == domain;
    forall v | v in Elems(failing) ensures v in live0[x] {
      assert v in domain;
    }
    ExactAt(live0, csp.live, x, failing);
    WfVarsOnlyAt(csp.dom, live0, csp.live, csp.asg, x);
    gone := Elems(failing);
    assert csp.live == live0[x := live0[x] - gone];
  }

  /**
   * The state of PruneFailing's loop after the first `m` values of `domain`:
   * the failing ones, in order, are pruned and recorded.
   */
  ghost predicate FailInv(live0: seq<set<int>>, live: seq<set<int>>, x: Var, c: Constraint, vals: seq<int>, idx: nat,
                          domain: seq<int>, m: nat, failing: seq<int>, newPruned: seq<Prune>)
  {
    m <= |domain| && x < |live0| && idx < |vals| &&
    failing == Failing(c, vals, idx, domain[..m]) &&
    OnlyAt(live0, live, x) && live[x] == live0[x] - Elems(failing) &&
    newPruned == PrunesOf(x, failing)
  }

  /** The next value of the snapshot is still live: nothing after it has been pruned yet. */
  lemma FailLive(live0: seq<set<int>>, live: seq<set<int>>, x: Var, c: Constraint, vals: seq<int>, idx: nat,
                 domain: seq<int>, m: nat, failing: seq<int>, newPruned: seq<Prune>)
    requires FailInv(live0, live, x, c, vals, idx, domain, m, failing, newPruned)
    requires m < |domain| && Distinct(domain) && forall k :: 0 <= k < |domain| ==> domain[k] in live0[x]
    ensures domain[m] in live[x] && live[x] <= live0[x]
  {
    assert domain[m] !in domain[..m];
  }

  /** A value that passes check() is kept. */
  lemma FailKeep(live0: seq<set<int>>, live: seq<set<int>>, x: Var, c: Constraint, vals: seq<int>, idx: nat,
                 domain: seq<int>, m: nat, failing: seq<int>, newPruned: seq<Prune>)
    requires m < |domain| && FailInv(live0, live, x, c, vals, idx, domain, m, failing, newPruned)
    requires Check(c, vals[idx := domain[m]])
    ensures FailInv(live0, live, x, c, vals, idx, domain, m + 1, failing, newPruned)
  {
    assert domain[..m + 1][..m] == domain[..m];
  }

  /** A value that fails check() is pruned and recorded after the earlier ones. */
  lemma FailPrune(live0: seq<set<int>>, live: seq<set<int>>, live1: seq<set<int>>, x: Var, c: Constraint,
                  vals: seq<int>, idx: nat, domain: seq<int>, m: nat, failing: seq<int>, newPruned: seq<Prune>)
    requires m < |domain| && FailInv(live0, live, x, c, vals, idx, domain, m, failing, newPruned)
    requires !Check(c, vals[idx := domain[m]])
    requires live1 == live[x := live[x] - {domain[m]}]
    ensures FailInv(live0, live1, x, c, vals, idx, domain, m + 1, failing + [domain[m]], newPruned + [(x, domain[m])])
  {
    var v := domain[m];
    assert domain[..m + 1][..m] == domain[..m];
    assert Elems(failing + [v]) == Elems(failing) + {v};
    assert live1[x] == live0[x] - Elems(failing + [v]);
    PrunesOfSnoc(x, failing, v);
  }

  /**
   * Forward checking.  For every seed constraint (all of them, or those on the
   * new variable) with exactly one unassigned variable `x`, prunes from `x`
   * each value whose filled-in tuple fails check(); stops with false as soon
   * as such an `x` has an empty domain.
   */
  method PropFC(csp: Csp, newVar: Option<Var>) returns (ok: bool, pruned: seq<Prune>)
    requires csp.Valid()
    requires newVar.Some? ==> newVar.value < |csp.dom|
    modifies csp
    ensures csp.Valid()
    ensures csp.dom == old(csp.dom) && csp.asg == old(csp.asg) && csp.cons == old(csp.cons)
    ensures Exact(old(csp.live), csp.live, pruned)
    // on success exactly the values some seed constraint rejects are pruned
    ensures ok ==> csp.live == FcLive(csp.cons, csp.asg, Seeds(csp.cons, newVar), |Seeds(csp.cons, newVar)|, old(csp.live))
    // on failure only rejected values are pruned, and some domain is empty
    ensures !ok ==> forall y :: 0 <= y < |csp.live| ==>
      FcLive(csp.cons, csp.asg, Seeds(csp.cons, newVar), |Seeds(csp.cons, newVar)|, old(csp.live))[y] <= csp.live[y]
    ensures !ok ==> exists x :: 0 <= x < |csp.dom| && csp.CurDomain(x) == []
    // on failure it stopped right after the first seed that left its variable without values
    ensures !ok ==> exists k ::
      0 < k <= |Seeds(csp.cons, newVar)| && csp.live == FcLive(csp.cons, csp.asg, Seeds(csp.cons, newVar), k, old(csp.live)) &&
      WipesOut(csp.cons, csp.dom, csp.asg, csp.live, Seeds(csp.cons, newVar)[k - 1]) &&
      FcNoWipeBefore(csp.cons, csp.dom, csp.asg, Seeds(csp.cons, newVar), k - 1, old(csp.live))
    // it succeeds exactly when no seed left its variable without values
    ensures ok <==> FcNoWipeBefore(csp.cons, csp.dom, csp.asg, Seeds(csp.cons, newVar), |Seeds(csp.cons, newVar)|, old(csp.live))
    ensures ok ==> forall ci :: ci in Seeds(csp.cons, newVar) ==> !WipesOut(csp.cons, csp.dom, csp.asg, csp.live, ci)
  {
    ghost var live0 := csp.live;
    var cs := Seeds(csp.cons, newVar);
    pruned := [];
    FcLiveZero(csp.cons, csp.asg, cs, live0);
    for k := 0 to |cs|
      invariant csp.Valid()
      invariant csp.dom == old(csp.dom) && csp.asg == old(csp.asg) && csp.cons == old(csp.cons)
      invariant Exact(live0, csp.live, pruned)
      invariant csp.live == FcLive(csp.cons, csp.asg, cs, k, live0)
      invariant FcNoWipeBefore(csp.cons, csp.dom, csp.asg, cs, k, live0)
      invariant forall m :: 0 <= m < k ==> !WipesOut(csp.cons, csp.dom, csp.asg, csp.live, cs[m])
    {
      assert cs[k] in cs;
      ghost var liveK := csp.live;
      var seedOk, newPruned := FcSeed(csp, cs, k, live0);
      ExactTrans(live0, liveK, csp.live, pruned, newPruned);
      pruned := pruned + newPruned;
      if !seedOk {
        FcLiveShrinks(csp.cons, csp.asg, cs, k + 1, |cs|, live0);
        var x := FcStopped(csp.cons, csp.dom, csp.asg, cs, k, live0, csp.live);
        assert csp.CurDomain(x) == [];
        return false, pruned;
      }
      FcNoWipeNext(csp.cons, csp.dom, csp.asg, cs, k, live0);
    }
    FcFinished(csp.cons, csp.dom, csp.asg, cs, csp.live);
    return true, pruned;
  }

  /**
   * Handling seed `k`, whose lone unassigned variable `x` keeps some value,
   * changes only `x`: no seed handled so far is left without values.
   */
  lemma NoWipeOnlyAt(cons: seq<Constraint>, dom: seq<seq<int>>, asg: seq<Option<int>>, live: seq<set<int>>,
                     live1: seq<set<int>>, seeds: seq<nat>, k: nat, x: Var)
    requires k < |seeds| && seeds[k] < |cons| && x < |dom| && |live| == |dom| && OnlyAt(live, live1, x)
    requires NUnassigned(cons[seeds[k]], asg) == 1 && UnassignedIn(cons[seeds[k]].scope, asg)[0] == x
    requires CurDomainOf(dom, live1, asg, x) != []
    requires forall m :: 0 <= m < k ==> !WipesOut(cons, dom, asg, live, seeds[m])
    ensures forall m :: 0 <= m < k + 1 ==> !WipesOut(cons, dom, asg, live1, seeds[m])
  {
    forall m | 0 <= m < k + 1 ensures !WipesOut(cons, dom, asg, live1, seeds[m]) {
      var ci := seeds[m];
      if ci < |cons| && NUnassigned(cons[ci], asg) == 1 && UnassignedIn(cons[ci].scope, asg)[0] < |dom| {
        var y := UnassignedIn(cons[ci].scope, asg)[0];
        if y != x {
          FilterFrame(dom[y], live, live1, asg, y);
          assert !WipesOut(cons, dom, asg, live, seeds[m]);
        }
      }
    }
  }

  /**
   * One round of prop_FC's loop: handles seed constraint `seeds[k]`, and
   * reports false exactly when it left its lone unassigned variable without
   * values.
   */
  method FcSeed(csp: Csp, seeds: seq<nat>, k: nat, ghost live0: seq<set<int>>) returns (ok: bool, newPruned: seq<Prune>)
    requires csp.Valid() && k < |seeds| && seeds[k] < |csp.cons|
    requires csp.live == FcLive(csp.cons, csp.asg, seeds, k, live0)
    modifies csp
    ensures csp.Valid()
    ensures csp.dom == old(csp.dom) && csp.asg == old(csp.asg) && csp.cons == old(csp.cons)
    ensures Exact(old(csp.live), csp.live, newPruned)
    ensures csp.live == FcLive(csp.cons, csp.asg, seeds, k + 1, live0)
    ensures ok <==> !WipesOut(csp.cons, csp.dom, csp.asg, csp.live, seeds[k])
    // a seed that keeps values leaves every seed handled before it with values
    ensures ok && (forall m :: 0 <= m < k ==> !WipesOut(csp.cons, csp.dom, csp.asg, old(csp.live), seeds[m])) ==>
      forall m :: 0 <= m < k + 1 ==> !WipesOut(csp.cons, csp.dom, csp.asg, csp.live, seeds[m])
  {
    var c := csp.cons[seeds[k]];
    if NUnassigned(c, csp.asg) == 1 {
      ghost var liveK := csp.live;
      var x := UnassignedIn(c.scope, csp.asg)[0];
      assert x in UnassignedIn(c.scope, csp.asg);
      assert WfConstraint(c, |csp.dom|);
      FcLiveNext(csp.cons, csp.asg, seeds, k, live0, x);
      newPruned := FcConstraint(csp, seeds[k], x);
      ok := |csp.CurDomain(x)| != 0;
      if ok && forall m :: 0 <= m < k ==> !WipesOut(csp.cons, csp.dom, csp.asg, liveK, seeds[m]) {
        NoWipeOnlyAt(csp.cons, csp.dom, csp.asg, liveK, csp.live, seeds, k, x);
      }
    } else {
      FcLiveSame(csp.cons, csp.asg, seeds, k, live0);
      ok, newPruned := true, [];
    }
  }

  /**
   * Where prop_FC stops: seed `k` left its variable without values, so the
   * domains are those after the first k + 1 seeds, the last of which is the
   * first to wipe out.
   */
  lemma FcStopped(cons: seq<Constraint>, dom: seq<seq<int>>, asg: seq<Option<int>>, seeds: seq<nat>, k: nat,
                  live0: seq<set<int>>, live: seq<set<int>>) returns (x: Var)
    requires k < |seeds| && live == FcLive(cons, asg, seeds, k + 1, live0)
    requires FcNoWipeBefore(cons, dom, asg, seeds, k, live0) && WipesOut(cons, dom, asg, live, seeds[k])
    ensures x < |dom| && CurDomainOf(dom, live, asg, x) == []
    ensures exists j :: (0 < j <= |seeds| && live == FcLive(cons, asg, seeds, j, live0) &&
      WipesOut(cons, dom, asg, live, seeds[j - 1]) && FcNoWipeBefore(cons, dom, asg, seeds, j - 1, live0))
    ensures !FcNoWipeBefore(cons, dom, asg, seeds, |seeds|, live0)
  {
    x := UnassignedIn(cons[seeds[k]].scope, asg)[0];
    assert 0 < k + 1 <= |seeds| && seeds[k + 1 - 1] == seeds[k];
  }

  /** A seed that keeps its variable's values extends the run of seeds that did. */
  lemma FcNoWipeNext(cons: seq<Constraint>, dom: seq<seq<int>>, asg: seq<Option<int>>, seeds: seq<nat>, k: nat,
                     live0: seq<set<int>>)
    requires k < |seeds| && FcNoWipeBefore(cons, dom, asg, seeds, k, live0)
    requires !WipesOut(cons, dom, asg, FcLive(cons, asg, seeds, k + 1, live0), seeds[k])
    ensures FcNoWipeBefore(cons, dom, asg, seeds, k + 1, live0)
  {
  }

  /** When no handled seed is left without values, no seed at all is. */
  lemma FcFinished(cons: seq<Constraint>, dom: seq<seq<int>>, asg: seq<Option<int>>, seeds: seq<nat>, live: seq<set<int>>)
    requires forall m :: 0 <= m < |seeds| ==> !WipesOut(cons, dom, asg, live, seeds[m])
    ensures forall ci :: ci in seeds ==> !WipesOut(cons, dom, asg, live, ci)
  {
    forall ci | ci in seeds ensures !WipesOut(cons, dom, asg, live, ci) {
      var m :| 0 <= m < |seeds| && seeds[m] == ci;
    }
  }

  /** Before any seed constraint nothing is rejected. */
  lemma FcLiveZero(cons: seq<Constraint>, asg: seq<Option<int>>, seeds: seq<nat>, live0: seq<set<int>>)
    ensures FcLive(cons, asg, seeds, 0, live0) == live0
  {
    var r := FcLive(cons, asg, seeds, 0, live0);
    forall y | 0 <= y < |live0| ensures r[y] == live0[y] {
    }
  }

  /** A value rejected by one of the first `k` seeds is rejected by one of the first `j >= k`. */
  lemma FcRejectedMono(cons: seq<Constraint>, asg: seq<Option<int>>, seeds: seq<nat>, k: nat, j: nat, y: Var, v: int)
    requires k <= j
    ensures FcRejectedBefore(cons, asg, seeds, k, y, v) ==> FcRejectedBefore(cons, asg, seeds, j, y, v)
  {
    if FcRejectedBefore(cons, asg, seeds, k, y, v) {
      var m :| 0 <= m < k && m < |seeds| && FcRejects(cons, asg, seeds[m], y, v);
      assert 0 <= m < j;
    }
  }

  /** One seed more: rejected before it, or rejected by it. */
  lemma FcRejectedNext(cons: seq<Constraint>, asg: seq<Option<int>>, seeds: seq<nat>, k: nat, y: Var, v: int)
    requires k < |seeds|
    ensures FcRejectedBefore(cons, asg, seeds, k + 1, y, v) <==>
      FcRejectedBefore(cons, asg, seeds, k, y, v) || FcRejects(cons, asg, seeds[k], y, v)
  {
    FcRejectedMono(cons, asg, seeds, k, k + 1, y, v);
    if FcRejectedBefore(cons, asg, seeds, k + 1, y, v) {
      var m :| 0 <= m < k + 1 && m < |seeds| && FcRejects(cons, asg, seeds[m], y, v);
      if m < k {
        assert FcRejectedBefore(cons, asg, seeds, k, y, v);
      }
    }
    if FcRejects(cons, asg, seeds[k], y, v) {
      assert FcRejectedBefore(cons, asg, seeds, k + 1, y, v);
    }
  }

  /** A seed constraint with one unassigned variable `x` removes from `x` what it rejects. */
  lemma FcLiveNext(cons: seq<Constraint>, asg: seq<Option<int>>, seeds: seq<nat>, k: nat,
                   live0: seq<set<int>>, x: Var)
    requires k < |seeds| && x < |live0| && seeds[k] < |cons|
    requires NUnassigned(cons[seeds[k]], asg) == 1 && UnassignedIn(cons[seeds[k]].scope, asg)[0] == x
    ensures var before := FcLive(cons, asg, seeds, k, live0);
      FcLive(cons, asg, seeds, k + 1, live0) == before[x := FcKept(cons, asg, seeds[k], x, before)]
  {
    var before := FcLive(cons, asg, seeds, k, live0);
    var after := FcLive(cons, asg, seeds, k + 1, live0);
    var next := before[x := FcKept(cons, asg, seeds[k], x, before)];
    forall y | 0 <= y < |live0| ensures after[y] == next[y] {
      forall v ensures v in after[y] <==> v in next[y] {
        FcRejectedNext(cons, asg, seeds, k, y, v);
      }
    }
  }

  /** A seed constraint without exactly one unassigned variable rejects nothing. */
  lemma FcLiveSame(cons: seq<Constraint>, asg: seq<Option<int>>, seeds: seq<nat>, k: nat, live0: seq<set<int>>)
    requires k < |seeds| && seeds[k] < |cons| && NUnassigned(cons[seeds[k]], asg) != 1
    ensures FcLive(cons, asg, seeds, k + 1, live0) == FcLive(cons, asg, seeds, k, live0)
  {
    var before := FcLive(cons, asg, seeds, k, live0);
    var after := FcLive(cons, asg, seeds, k + 1, live0);
    forall y | 0 <= y < |live0| ensures after[y] == before[y] {
      forall v ensures v in after[y] <==> v in before[y] {
        FcRejectedNext(cons, asg, seeds, k, y, v);
      }
    }
  }

  /** More seed constraints leave fewer values. */
  lemma FcLiveShrinks(cons: seq<Constraint>, asg: seq<Option<int>>, seeds: seq<nat>, k: nat, j: nat,
                      live0: seq<set<int>>)
    requires k <= j
    ensures forall y :: 0 <= y < |live0| ==> FcLive(cons, asg, seeds, j, live0)[y] <= FcLive(cons, asg, seeds, k, live0)[y]
  {
    forall y, v | 0 <= y < |live0| && v in FcLive(cons, asg, seeds, j, live0)[y]
      ensures v in FcLive(cons, asg, seeds, k, live0)[y]
    {
      FcRejectedMono(cons, asg, seeds, k, j, y, v);
    }
  }

  // ---------------------------------------------------------------------
  // prop_GAC
  // ---------------------------------------------------------------------

  /**
   * The GAC queue's coverage invariant: every tracked constraint (a seed, or
   * one that was consistent when propagation started) other than `except`
   * is either waiting in the queue or consistent now.
   */
  ghost predicate QueueCovers(cons: seq<Constraint>, asg: seq<Option<int>>, seeds: seq<nat>, live0: seq<set<int>>,
                              live: seq<set<int>>, queue: seq<nat>, except: int)
  {
    forall cj :: 0 <= cj < |cons| && cj != except && (cj in seeds || Consistent(cons[cj], live0, asg)) ==>
      cj in queue || Consistent(cons[cj], live, asg)
  }

  /**
   * Puts on the back of the queue each constraint of `ws` that is not
   * already in it, in the order of `ws`.
   */
  method Requeue(queue: seq<nat>, ws: seq<nat>) returns (q: seq<nat>)
    ensures |queue| <= |q| && q[..|queue|] == queue
    ensures forall c :: c in q <==> c in queue || c in ws
    ensures Distinct(queue) ==> Distinct(q)
  {
    q := queue;
    for k := 0 to |ws|
      invariant |queue| <= |q| && q[..|queue|] == queue
      invariant forall c :: c in q <==> c in queue || c in ws[..k]
      invariant Distinct(queue) ==> Distinct(q)
    {
      assert ws[..k + 1] == ws[..k] + [ws[k]];
      if ws[k] !in q {
        q := q + [ws[k]];
      }
    }
    assert ws[..|ws|] == ws;
  }

  /**
   * One prune of prop_GAC: removes the unsupported value `v` from `x`; an
   * empty domain is a wipeout, and otherwise every constraint on `x` that is
   * not yet waiting is put on the queue.
   */
  method PruneUnsupported(csp: Csp, ci: nat, x: Var, v: int, queue: seq<nat>) returns (wipeout: bool, q: seq<nat>)
    requires csp.Valid() && ci < |csp.cons| && x in csp.cons[ci].scope && x < |csp.dom|
    requires v in csp.live[x] && !HasSupport(csp.cons[ci], x, v, csp.live, csp.asg)
    requires Distinct(queue) && forall cj :: cj in queue ==> cj < |csp.cons|
    modifies csp
    ensures csp.Valid()
    ensures csp.dom == old(csp.dom) && csp.asg == old(csp.asg) && csp.cons == old(csp.cons)
    ensures csp.live == old(csp.live)[x := old(csp.live)[x] - {v}]
    ensures Exact(old(csp.live), csp.live, [(x, v)])
    ensures TotalLive(csp.live) < TotalLive(old(csp.live))
    ensures wipeout <==> csp.CurDomain(x) == []
    ensures !wipeout ==> (Distinct(q) && (forall cj :: cj in q ==> cj < |csp.cons|) &&
                          (forall cj :: cj in queue ==> cj in q) && (forall cj :: cj in ConsWithVar(csp.cons, x) ==> cj in q))
  {
    csp.PruneValue(x, v);
    if |csp.CurDomain(x)| == 0 {
      return true, queue;
    }
    q := Requeue(queue, ConsWithVar(csp.cons, x));
    return false, q;
  }

  /** Values removed from one variable lower the measure; none removed leaves the domains as they were. */
  lemma OnlyAtMeasure(live0: seq<set<int>>, live: seq<set<int>>, x: Var)
    requires x < |live0| && OnlyAt(live0, live, x) && live[x] <= live0[x]
    ensures live[x] == live0[x] ==> live == live0
    ensures live[x] != live0[x] ==> TotalLive(live) < TotalLive(live0)
  {
    assert live == live0[x := live[x]];
    TotalLiveUpdate(live0, x, live[x]);
    if live[x] != live0[x] {
      ProperSubsetSmaller(live[x], live0[x]);
    }
  }

  /** A proper subset has fewer elements. */
  lemma ProperSubsetSmaller(a: set<int>, b: set<int>)
    requires a <= b && a != b
    ensures |a| < |b|
  {
    var diff := b - a;
    assert b == a + diff && a * diff == {};
    assert diff != {};
  }

  /** Removing values from one variable keeps the variables well formed. */
  lemma WfVarsOnlyAt(dom: seq<seq<int>>, live0: seq<set<int>>, live: seq<set<int>>, asg: seq<Option<int>>, x: Var)
    requires WfVars(dom, live0, asg) && OnlyAt(live0, live, x) && x < |live0| && live[x] <= live0[x]
    ensures WfVars(dom, live, asg)
  {
  }

  /**
   * The inner loops of prop_GAC for one scope variable `x` of constraint
   * `ci`: every value of the snapshot of x's current domain that has no
   * support (in the domains as they are at that moment) is pruned; after a
   * prune an empty domain ends the revision with `wipeout`, and otherwise
   * every constraint on `x` not yet waiting is put on the queue.  Since `x`
   * occurs once in the scope, pruning `x` changes the support of no other
   * value of `x`, so the values pruned are those unsupported at the start.
   */
  method ReviseVar(csp: Csp, ci: nat, x: Var, queue: seq<nat>)
    returns (wipeout: bool, q: seq<nat>, newPruned: seq<Prune>)
    requires csp.Valid() && ci < |csp.cons| && x in csp.cons[ci].scope
    requires Distinct(queue) && forall cj :: cj in queue ==> cj < |csp.cons|
    modifies csp
    ensures csp.Valid()
    ensures csp.dom == old(csp.dom) && csp.asg == old(csp.asg) && csp.cons == old(csp.cons)
    ensures Exact(old(csp.live), csp.live, newPruned)
    ensures OnlyAt(old(csp.live), csp.live, x)
    // only current values without support are pruned
    ensures forall w :: w in old(csp.live)[x] && w !in csp.live[x] ==>
      InCur(old(csp.live), csp.asg, x, w) && !HasSupport(csp.cons[ci], x, w, old(csp.live), csp.asg)
    // a wipeout is reported exactly when a prune left x without values
    ensures wipeout <==> newPruned != [] && csp.CurDomain(x) == []
    ensures !wipeout ==> (Distinct(q) && (forall cj :: cj in q ==> cj < |csp.cons|) &&
      forall cj :: cj in queue ==> cj in q)
    // nothing pruned: the queue is as it was and every current value of x is supported
    ensures !wipeout && newPruned == [] ==> (csp.live == old(csp.live) && q == queue &&
      forall w :: InCur(csp.live, csp.asg, x, w) ==> HasSupport(csp.cons[ci], x, w, csp.live, csp.asg))
    // something pruned: the measure fell and every constraint on x is waiting
    ensures newPruned != [] ==> TotalLive(csp.live) < TotalLive(old(csp.live))
    ensures !wipeout && newPruned != [] ==> forall cj :: cj in ConsWithVar(csp.cons, x) ==> cj in q
  {
    ghost var live0 := csp.live;
    var c := csp.cons[ci];
    assert WfConstraint(c, |csp.dom|);
    var domain := csp.CurDomain(x);
    CurDomainFacts(csp.dom, csp.live, csp.asg, x);
    ghost var uns;
    wipeout, q, newPruned, uns := ReviseLoop(csp, ci, x, domain, queue);
    forall w | w in Elems(uns) ensures w in live0[x] && InCur(live0, csp.asg, x, w) {
      assert w in domain;
      var k :| 0 <= k < |domain| && domain[k] == w;
      assert InCur(live0, csp.asg, x, domain[k]);
    }
    ExactAt(live0, csp.live, x, uns);
    OnlyAtMeasure(live0, csp.live, x);
    WfVarsOnlyAt(csp.dom, live0, csp.live, csp.asg, x);
    if uns != [] {
      assert uns[0] in Elems(uns);
    }
    if newPruned == [] && !wipeout {
      forall w | InCur(csp.live, csp.asg, x, w) ensures HasSupport(c, x, w, csp.live, csp.asg) {
        assert w in domain;
      }
    }
  }

  /**
   * The state of ReviseVar's loop after the first `m` values of `domain`:
   * `uns` lists the unsupported ones, all pruned and recorded, and the queue
   * holds every constraint on `x` once something is pruned.
   */
  ghost predicate ReviseInv(cons: seq<Constraint>, dom: seq<seq<int>>, asg: seq<Option<int>>, live0: seq<set<int>>,
                            live: seq<set<int>>, c: Constraint, x: Var, domain: seq<int>, m: nat, uns: seq<int>,
                            newPruned: seq<Prune>, queue: seq<nat>, q: seq<nat>, wipeout: bool)
  {
    m <= |domain| && x < |dom| && x < |live0| &&
    (Distinct(uns) && forall w :: w in uns <==> w in domain[..m] && !HasSupport(c, x, w, live0, asg)) &&
    (OnlyAt(live0, live, x) && live[x] == live0[x] - Elems(uns)) &&
    (|newPruned| == |uns| && forall k :: 0 <= k < |uns| ==> newPruned[k] == (x, uns[k])) &&
    (wipeout ==> newPruned != [] && CurDomainOf(dom, live, asg, x) == []) &&
    (!wipeout && newPruned != [] ==> CurDomainOf(dom, live, asg, x) != []) &&
    (!wipeout ==> Distinct(q) && (forall cj :: cj in q ==> cj < |cons|) && (forall cj :: cj in queue ==> cj in q)) &&
    (newPruned == [] ==> q == queue) &&
    (!wipeout && newPruned != [] ==> forall cj :: cj in ConsWithVar(cons, x) ==> cj in q)
  }

  /** The loop of ReviseVar over the snapshot `domain`; `uns` lists the values pruned. */
  method ReviseLoop(csp: Csp, ci: nat, x: Var, domain: seq<int>, queue: seq<nat>)
    returns (wipeout: bool, q: seq<nat>, newPruned: seq<Prune>, ghost uns: seq<int>)
    requires csp.Valid() && ci < |csp.cons| && x < |csp.dom| && Distinct(csp.cons[ci].scope)
    requires x in csp.cons[ci].scope
    requires Distinct(domain) && forall k :: 0 <= k < |domain| ==> domain[k] in csp.live[x]
    requires Distinct(queue) && forall cj :: cj in queue ==> cj < |csp.cons|
    modifies csp
    ensures csp.dom == old(csp.dom) && csp.asg == old(csp.asg) && csp.cons == old(csp.cons)
    ensures Distinct(uns) && forall w :: w in uns ==> w in domain && !HasSupport(csp.cons[ci], x, w, old(csp.live), csp.asg)
    ensures !wipeout ==> forall w :: w in domain && !HasSupport(csp.cons[ci], x, w, old(csp.live), csp.asg) ==> w in uns
    ensures OnlyAt(old(csp.live), csp.live, x) && csp.live[x] == old(csp.live)[x] - Elems(uns)
    ensures newPruned == PrunesOf(x, uns)
    ensures wipeout ==> newPruned != [] && csp.CurDomain(x) == []
    ensures !wipeout && newPruned != [] ==> csp.CurDomain(x) != []
    ensures !wipeout ==> (Distinct(q) && (forall cj :: cj in q ==> cj < |csp.cons|) &&
      forall cj :: cj in queue ==> cj in q)
    ensures newPruned == [] ==> q == queue
    ensures !wipeout && newPruned != [] ==> forall cj :: cj in ConsWithVar(csp.cons, x) ==> cj in q
  {
    ghost var live0 := csp.live;
    var c := csp.cons[ci];
    uns := [];
    assert live0[x] - Elems(uns) == live0[x];
    q, newPruned, wipeout := queue, [], false;
    var m := 0;
    while m < |domain| && !wipeout
      invariant csp.dom == old(csp.dom) && csp.asg == old(csp.asg) && csp.cons == old(csp.cons)
      invariant ReviseInv(csp.cons, csp.dom, csp.asg, live0, csp.live, c, x, domain, m, uns, newPruned, queue, q, wipeout)
    {
      wipeout, q, newPruned, uns := ReviseStep(csp, ci, x, domain, m, queue, q, newPruned, uns, live0);
      m := m + 1;
    }
    if !wipeout {
      assert domain[..m] == domain;
    }
    assert newPruned == PrunesOf(x, uns);
  }

  /** One iteration of ReviseLoop: the value `domain[m]` is tested and, if unsupported, pruned. */
  method ReviseStep(csp: Csp, ci: nat, x: Var, domain: seq<int>, m: nat, queue: seq<nat>, q0: seq<nat>,
                    newPruned0: seq<Prune>, ghost uns0: seq<int>, ghost live0: seq<set<int>>)
    returns (wipeout: bool, q: seq<nat>, newPruned: seq<Prune>, ghost uns: seq<int>)
    requires WfVars(csp.dom, live0, csp.asg) && WfConstraints(csp.cons, |csp.dom|)
    requires ci < |csp.cons| && x in csp.cons[ci].scope && Distinct(csp.cons[ci].scope)
    requires Distinct(domain) && forall k :: 0 <= k < |domain| ==> domain[k] in live0[x]
    requires m < |domain|
    requires ReviseInv(csp.cons, csp.dom, csp.asg, live0, csp.live, csp.cons[ci], x, domain, m, uns0, newPruned0, queue, q0, false)
    modifies csp
    ensures csp.dom == old(csp.dom) && csp.asg == old(csp.asg) && csp.cons == old(csp.cons)
    ensures ReviseInv(csp.cons, csp.dom, csp.asg, live0, csp.live, csp.cons[ci], x, domain, m + 1, uns, newPruned, queue, q, wipeout)
  {
    var c := csp.cons[ci];
    var v := domain[m];
    ghost var L := csp.live;
    SupportOnlyAt(c, x, v, live0, L, csp.asg);
    if HasSupport(c, x, v, csp.live, csp.asg) {
      ReviseKeep(csp.cons, csp.dom, csp.asg, live0, L, c, x, domain, m, uns0, newPruned0, queue, q0);
      return false, q0, newPruned0, uns0;
    }
    WfVarsOnlyAt(csp.dom, live0, L, csp.asg, x);
    wipeout, q := PruneUnsupported(csp, ci, x, v, q0);
    RevisePrune(csp.cons, csp.dom, csp.asg, live0, L, csp.live, c, x, domain, m, uns0, newPruned0, queue, q0, q, wipeout);
    uns := uns0 + [v];
    newPruned := newPruned0 + [(x, v)];
  }

  /** A supported value is kept: the loop state carries over to the next value. */
  lemma ReviseKeep(cons: seq<Constraint>, dom: seq<seq<int>>, asg: seq<Option<int>>, live0: seq<set<int>>,
                   live: seq<set<int>>, c: Constraint, x: Var, domain: seq<int>, m: nat, uns: seq<int>,
                   newPruned: seq<Prune>, queue: seq<nat>, q: seq<nat>)
    requires m < |domain| && Distinct(domain)
    requires ReviseInv(cons, dom, asg, live0, live, c, x, domain, m, uns, newPruned, queue, q, false)
    requires HasSupport(c, x, domain[m], live0, asg)
    ensures ReviseInv(cons, dom, asg, live0, live, c, x, domain, m + 1, uns, newPruned, queue, q, false)
  {
    assert domain[..m + 1] == domain[..m] + [domain[m]];
  }

  /**
   * An unsupported value is pruned: it joins `uns` and the record, and the
   * queue and wipeout flag are those PruneUnsupported returned.
   */
  lemma RevisePrune(cons: seq<Constraint>, dom: seq<seq<int>>, asg: seq<Option<int>>, live0: seq<set<int>>,
                    live: seq<set<int>>, live1: seq<set<int>>, c: Constraint, x: Var, domain: seq<int>, m: nat,
                    uns: seq<int>, newPruned: seq<Prune>, queue: seq<nat>, q0: seq<nat>, q: seq<nat>, wipeout: bool)
    requires m < |domain| && Distinct(domain)
    requires ReviseInv(cons, dom, asg, live0, live, c, x, domain, m, uns, newPruned, queue, q0, false)
    requires !HasSupport(c, x, domain[m], live0, asg)
    requires live1 == live[x := live[x] - {domain[m]}]
    requires wipeout <==> CurDomainOf(dom, live1, asg, x) == []
    requires !wipeout ==> (Distinct(q) && (forall cj :: cj in q ==> cj < |cons|) &&
                           (forall cj :: cj in q0 ==> cj in q) && (forall cj :: cj in ConsWithVar(cons, x) ==> cj in q))
    ensures ReviseInv(cons, dom, asg, live0, live1, c, x, domain, m + 1, uns + [domain[m]],
                      newPruned + [(x, domain[m])], queue, q, wipeout)
  {
    var v := domain[m];
    assert domain[..m + 1] == domain[..m] + [v];
    assert v !in domain[..m];
    assert v !in uns;
    assert Elems(uns + [v]) == Elems(uns) + {v};
    assert live1[x] == live0[x] - Elems(uns + [v]);
  }

  /**
   * The support of a live value of `x` does not depend on the other values of
   * `x`, since `x` occurs once in the scope.
   */
  lemma SupportOnlyAt(c: Constraint, x: Var, v: int, live0: seq<set<int>>, live: seq<set<int>>, asg: seq<Option<int>>)
    requires Distinct(c.scope) && x < |live0| && OnlyAt(live0, live, x) && live[x] <= live0[x] && v in live[x]
    ensures HasSupport(c, x, v, live, asg) <==> HasSupport(c, x, v, live0, asg)
  {
    HasSupportWitness(c, x, v, live, asg);
    HasSupportWitness(c, x, v, live0, asg);
    if HasSupport(c, x, v, live0, asg) {
      var t :| t in c.tuples && Supports(c.scope, t, x, v, live0, asg);
      var i :| 0 <= i < |c.scope| && c.scope[i] == x && t[i] == v;
      forall j | 0 <= j < |c.scope| ensures InCur(live, asg, c.scope[j], t[j]) {
        if j != i {
          assert c.scope[j] != x;
        }
      }
      assert Supports(c.scope, t, x, v, live, asg);
    }
    if HasSupport(c, x, v, live, asg) {
      var t :| t in c.tuples && Supports(c.scope, t, x, v, live, asg);
      forall j | 0 <= j < |c.scope| ensures InCur(live0, asg, c.scope[j], t[j]) {
        if c.scope[j] != x {
          assert live[c.scope[j]] == live0[c.scope[j]];
        }
      }
      assert Supports(c.scope, t, x, v, live0, asg);
    }
  }


  /** Every value a solution gives a scope variable has a support: the solution's own tuple. */
  lemma SolutionSupported(cons: seq<Constraint>, live: seq<set<int>>, asg: seq<Option<int>>, sigma: seq<int>,
                          ci: nat, x: Var)
    requires IsSolution(cons, live, asg, sigma) && ci < |cons| && x in cons[ci].scope
    ensures x < |sigma| && HasSupport(cons[ci], x, sigma[x], live, asg)
  {
    var c := cons[ci];
    assert Satisfies(c, sigma);
    var t := Project(c.scope, sigma);
    forall j | 0 <= j < |c.scope| ensures InCur(live, asg, c.scope[j], t[j]) {
      assert t[j] == sigma[c.scope[j]];
    }
    var i :| 0 <= i < |c.scope| && c.scope[i] == x;
    assert Supports(c.scope, t, x, sigma[x], live, asg);
    HasSupportWitness(c, x, sigma[x], live, asg);
  }

  /**
   * GAC enforce.  The queue starts with the seed constraints (all of them, or
   * those on the new variable); each popped constraint has every unsupported
   * current value of each scope variable pruned, and every constraint on a
   * pruned variable that is not waiting is put back on the queue.  A wipeout
   * ends the propagation with false.
   */
  method PropGAC(csp: Csp, newVar: Option<Var>) returns (ok: bool, pruned: seq<Prune>)
    requires csp.Valid()
    modifies csp
    ensures csp.Valid()
    ensures csp.dom == old(csp.dom) && csp.asg == old(csp.asg) && csp.cons == old(csp.cons)
    ensures Exact(old(csp.live), csp.live, pruned)
    ensures KeepsSolutions(csp.cons, csp.asg, old(csp.live), csp.live)
    ensures !ok ==> exists x :: 0 <= x < |csp.dom| && csp.CurDomain(x) == []
    // it fails exactly when it left some variable that had values without any
    ensures ok <==> KeepsNonEmpty(csp.dom, csp.asg, old(csp.live), csp.live)
    // on success every seed, and every constraint that was consistent, is consistent
    ensures ok ==> forall cj :: 0 <= cj < |csp.cons| && (cj in Seeds(csp.cons, newVar) || Consistent(csp.cons[cj], old(csp.live), csp.asg)) ==>
      Consistent(csp.cons[cj], csp.live, csp.asg)
    ensures ok && newVar.None? ==> AllConsistent(csp.cons, csp.live, csp.asg)
    // domains that are already consistent are left alone
    ensures AllConsistent(csp.cons, old(csp.live), csp.asg) ==> ok && pruned == [] && csp.live == old(csp.live)
  {
    ghost var live0 := csp.live;
    ghost var seeds := Seeds(csp.cons, newVar);
    var queue := Seeds(csp.cons, newVar);
    pruned := [];
    GacStart(csp.cons, csp.asg, seeds, live0);
    while queue != []
      invariant csp.Valid()
      invariant csp.dom == old(csp.dom) && csp.asg == old(csp.asg) && csp.cons == old(csp.cons)
      invariant GacInv(csp.cons, csp.asg, seeds, live0, csp.live, queue, pruned, -1)
      invariant KeepsNonEmpty(csp.dom, csp.asg, live0, csp.live)
      decreases TotalLive(csp.live), |queue|
    {
      var ci := queue[0];
      ghost var queueL, L := queue, csp.live;
      queue := queue[1..];
      GacPop(csp.cons, csp.asg, seeds, live0, L, queueL, pruned);
      var c := csp.cons[ci];
      assert WfConstraint(c, |csp.dom|);
      for i := 0 to |c.scope|
        invariant csp.Valid()
        invariant csp.dom == old(csp.dom) && csp.asg == old(csp.asg) && csp.cons == old(csp.cons)
        invariant GacPos(csp.cons, csp.asg, seeds, live0, L, queueL[1..], ci, i, csp.live, queue, pruned)
        invariant KeepsNonEmpty(csp.dom, csp.asg, live0, csp.live)
      {
        var x := c.scope[i];
        ghost var before := csp.live;
        var wipeout, q, newPruned := ReviseVar(csp, ci, x, queue);
        if wipeout {
          GacWipeout(csp.cons, csp.asg, seeds, live0, L, queueL[1..], ci, i, before, queue, pruned, csp.live, newPruned);
          GacLostValues(csp.dom, csp.asg, live0, before, csp.live, x, newPruned);
          pruned := pruned + newPruned;
          return false, pruned;
        }
        KeepsNonEmptyStep(csp.dom, csp.asg, live0, before, csp.live, x);
        GacRevised(csp.cons, csp.asg, seeds, live0, L, queueL[1..], ci, i, before, queue, pruned, csp.live, q, newPruned);
        queue, pruned := q, pruned + newPruned;
      }
      GacPosDone(csp.cons, csp.asg, seeds, live0, L, queueL, csp.live, queue, pruned);
    }
    GacEnd(csp.cons, csp.asg, newVar, live0, csp.live, pruned);
    return true, pruned;
  }

  /**
   * prop_GAC's state between constraints: the queue holds distinct constraint
   * indices, the record is exact, no solution was lost, every tracked
   * constraint but `except` is waiting or consistent, and nothing moves when
   * everything was consistent to begin with.
   */
  ghost predicate GacInv(cons: seq<Constraint>, asg: seq<Option<int>>, seeds: seq<nat>, live0: seq<set<int>>,
                         live: seq<set<int>>, queue: seq<nat>, pruned: seq<Prune>, except: int)
  {
    Distinct(queue) && (forall cj :: cj in queue ==> cj < |cons|) &&
    Exact(live0, live, pruned) && KeepsSolutions(cons, asg, live0, live) &&
    QueueCovers(cons, asg, seeds, live0, live, queue, except) &&
    (AllConsistent(cons, live0, asg) ==> live == live0 && pruned == [])
  }

  /** Every variable whose current domain under `before` has values still has some under `after`. */
  ghost predicate KeepsNonEmpty(dom: seq<seq<int>>, asg: seq<Option<int>>, before: seq<set<int>>, after: seq<set<int>>)
  {
    forall x :: 0 <= x < |dom| && CurDomainOf(dom, before, asg, x) != [] ==> CurDomainOf(dom, after, asg, x) != []
  }

  /** A revision of `x` that pruned nothing, or left `x` some value, empties no domain. */
  lemma KeepsNonEmptyStep(dom: seq<seq<int>>, asg: seq<Option<int>>, live0: seq<set<int>>, live: seq<set<int>>,
                          live1: seq<set<int>>, x: Var)
    requires KeepsNonEmpty(dom, asg, live0, live) && |live| == |dom| && x < |dom| && OnlyAt(live, live1, x)
    requires live1 == live || CurDomainOf(dom, live1, asg, x) != []
    ensures KeepsNonEmpty(dom, asg, live0, live1)
  {
    forall y | 0 <= y < |dom| && CurDomainOf(dom, live0, asg, y) != [] ensures CurDomainOf(dom, live1, asg, y) != [] {
      if y != x {
        FilterFrame(dom[y], live, live1, asg, y);
      }
    }
  }

  /**
   * At a wipeout of `x`, `x` had a current value at the start: the revision
   * pruned one, and a pruned value was current and had been current all along.
   */
  lemma GacLostValues(dom: seq<seq<int>>, asg: seq<Option<int>>, live0: seq<set<int>>, live: seq<set<int>>,
                      live1: seq<set<int>>, x: Var, newPruned: seq<Prune>)
    requires WfVars(dom, live0, asg) && x < |dom| && Exact(live, live1, newPruned) && newPruned != []
    requires |live| == |live0| && forall y :: 0 <= y < |live0| ==> live[y] <= live0[y]
    requires OnlyAt(live, live1, x)
    requires forall w :: w in live[x] && w !in live1[x] ==> InCur(live, asg, x, w)
    requires CurDomainOf(dom, live1, asg, x) == []
    ensures !KeepsNonEmpty(dom, asg, live0, live1)
  {
    var y, w := newPruned[0].0, newPruned[0].1;
    assert w in live[y] && w !in live1[y];
    assert y == x;
    assert InCur(live0, asg, x, w) && w in dom[x];
    assert w in CurDomainOf(dom, live0, asg, x);
  }

  /** The scope variables of `c` before position `i` have every current value supported. */
  ghost predicate PositionsSupported(c: Constraint, i: nat, live: seq<set<int>>, asg: seq<Option<int>>)
  {
    forall j, w :: 0 <= j < i && j < |c.scope| && InCur(live, asg, c.scope[j], w) ==>
      HasSupport(c, c.scope[j], w, live, asg)
  }

  /**
   * prop_GAC's state inside constraint `ci` after its first `i` scope
   * variables, where `L` and `rest` are the domains and the queue when `ci`
   * was popped: either nothing was pruned and the variables seen so far are
   * supported, or the measure fell and `ci` is back on the queue.
   */
  ghost predicate GacPos(cons: seq<Constraint>, asg: seq<Option<int>>, seeds: seq<nat>, live0: seq<set<int>>,
                         L: seq<set<int>>, rest: seq<nat>, ci: nat, i: nat, live: seq<set<int>>, queue: seq<nat>,
                         pruned: seq<Prune>)
  {
    ci < |cons| && i <= |cons[ci].scope| && GacInv(cons, asg, seeds, live0, live, queue, pruned, ci) &&
    ((live == L && queue == rest && PositionsSupported(cons[ci], i, live, asg)) ||
     (TotalLive(live) < TotalLive(L) && ci in queue))
  }

  /** The seeds fill the queue, and nothing is pruned yet. */
  lemma GacStart(cons: seq<Constraint>, asg: seq<Option<int>>, seeds: seq<nat>, live0: seq<set<int>>)
    requires Distinct(seeds) && forall cj :: cj in seeds ==> cj < |cons|
    ensures GacInv(cons, asg, seeds, live0, live0, seeds, [], -1)
  {
  }

  /** Popping the front constraint `ci`: it is the one exception to the coverage. */
  lemma GacPop(cons: seq<Constraint>, asg: seq<Option<int>>, seeds: seq<nat>, live0: seq<set<int>>,
               live: seq<set<int>>, queue: seq<nat>, pruned: seq<Prune>)
    requires queue != [] && GacInv(cons, asg, seeds, live0, live, queue, pruned, -1)
    ensures GacPos(cons, asg, seeds, live0, live, queue[1..], queue[0], 0, live, queue[1..], pruned)
  {
    var ci, rest := queue[0], queue[1..];
    assert ci in queue;
    forall cj | cj in queue && cj != ci ensures cj in rest {
      var k :| 0 <= k < |queue| && queue[k] == cj;
      assert k != 0 && rest[k - 1] == cj;
    }
    forall cj | cj in rest ensures cj < |cons| {
      var k :| 0 <= k < |rest| && rest[k] == cj;
      assert queue[k + 1] == cj && cj in queue;
    }
    assert Distinct(rest);
    assert QueueCovers(cons, asg, seeds, live0, live, rest, ci);
    assert GacInv(cons, asg, seeds, live0, live, rest, pruned, ci);
    assert PositionsSupported(cons[ci], 0, live, asg);
  }

  /**
   * One scope variable `x` of `ci` revised without wipeout (the facts are
   * those ReviseVar promises): the state moves on to the next position.
   */
  lemma GacRevised(cons: seq<Constraint>, asg: seq<Option<int>>, seeds: seq<nat>, live0: seq<set<int>>,
                   L: seq<set<int>>, rest: seq<nat>, ci: nat, i: nat, live: seq<set<int>>, queue: seq<nat>,
                   pruned: seq<Prune>, live1: seq<set<int>>, q: seq<nat>, newPruned: seq<Prune>)
    requires GacPos(cons, asg, seeds, live0, L, rest, ci, i, live, queue, pruned) && i < |cons[ci].scope|
    requires cons[ci].scope[i] < |live|
    requires Exact(live, live1, newPruned) && OnlyAt(live, live1, cons[ci].scope[i])
    requires forall w :: w in live[cons[ci].scope[i]] && w !in live1[cons[ci].scope[i]] ==>
      InCur(live, asg, cons[ci].scope[i], w) && !HasSupport(cons[ci], cons[ci].scope[i], w, live, asg)
    requires Distinct(q) && (forall cj :: cj in q ==> cj < |cons|) && (forall cj :: cj in queue ==> cj in q)
    requires newPruned == [] ==> (live1 == live && q == queue &&
      forall w :: InCur(live1, asg, cons[ci].scope[i], w) ==> HasSupport(cons[ci], cons[ci].scope[i], w, live1, asg))
    requires newPruned != [] ==> TotalLive(live1) < TotalLive(live)
    requires newPruned != [] ==> forall cj :: cj in ConsWithVar(cons, cons[ci].scope[i]) ==> cj in q
    ensures GacPos(cons, asg, seeds, live0, L, rest, ci, i + 1, live1, q, pruned + newPruned)
  {
    var x := cons[ci].scope[i];
    ExactTrans(live0, live, live1, pruned, newPruned);
    ReviseKeepsSolutions(cons, asg, live, live1, ci, x);
    KeepsTrans(cons, asg, live0, live, live1);
    if newPruned != [] {
      assert ci in ConsWithVar(cons, x);
    }
    CoversStep(cons, asg, seeds, live0, live, live1, queue, q, ci, x);
    if AllConsistent(cons, live0, asg) {
      GacNoPrune(cons, asg, live, live1, ci, i, newPruned);
    }
    if newPruned == [] && live == L && queue == rest && PositionsSupported(cons[ci], i, live, asg) {
      assert PositionsSupported(cons[ci], i + 1, live1, asg);
    }
  }

  /** The coverage survives a revision of `x` that either pruned nothing or requeued every constraint on `x`. */
  lemma CoversStep(cons: seq<Constraint>, asg: seq<Option<int>>, seeds: seq<nat>, live0: seq<set<int>>,
                   live: seq<set<int>>, live1: seq<set<int>>, queue: seq<nat>, q: seq<nat>, ci: nat, x: Var)
    requires QueueCovers(cons, asg, seeds, live0, live, queue, ci) && OnlyAt(live, live1, x)
    requires forall cj :: cj in queue ==> cj in q
    requires live1 == live || forall cj :: cj in ConsWithVar(cons, x) ==> cj in q
    ensures QueueCovers(cons, asg, seeds, live0, live1, q, ci)
  {
    forall cj | 0 <= cj < |cons| && cj != ci && (cj in seeds || Consistent(cons[cj], live0, asg))
      ensures cj in q || Consistent(cons[cj], live1, asg)
    {
      if cj !in q && live1 != live {
        assert cj !in ConsWithVar(cons, x);
        ConsistentFrame(cons[cj], live, live1, asg, x);
      }
    }
  }

  /** On domains where constraint `ci` is consistent, a revision prunes nothing. */
  lemma GacNoPrune(cons: seq<Constraint>, asg: seq<Option<int>>, live: seq<set<int>>, live1: seq<set<int>>,
                   ci: nat, i: nat, newPruned: seq<Prune>)
    requires ci < |cons| && i < |cons[ci].scope| && cons[ci].scope[i] < |live| && Consistent(cons[ci], live, asg)
    requires Exact(live, live1, newPruned) && OnlyAt(live, live1, cons[ci].scope[i])
    requires forall w :: w in live[cons[ci].scope[i]] && w !in live1[cons[ci].scope[i]] ==>
      InCur(live, asg, cons[ci].scope[i], w) && !HasSupport(cons[ci], cons[ci].scope[i], w, live, asg)
    requires newPruned != [] ==> TotalLive(live1) < TotalLive(live)
    ensures live1 == live && newPruned == []
  {
    var x := cons[ci].scope[i];
    assert forall w :: InCur(live, asg, x, w) ==> HasSupport(cons[ci], x, w, live, asg);
    forall w | w in live[x] ensures w in live1[x] {
      assert InCur(live, asg, x, w) ==> HasSupport(cons[ci], x, w, live, asg);
    }
    forall y | 0 <= y < |live| ensures live1[y] == live[y] {
    }
    assert live1 == live;
  }

  /** A wipeout ends prop_GAC with an exact record, no solution lost, and an empty domain. */
  lemma GacWipeout(cons: seq<Constraint>, asg: seq<Option<int>>, seeds: seq<nat>, live0: seq<set<int>>,
                   L: seq<set<int>>, rest: seq<nat>, ci: nat, i: nat, live: seq<set<int>>, queue: seq<nat>,
                   pruned: seq<Prune>, live1: seq<set<int>>, newPruned: seq<Prune>)
    requires GacPos(cons, asg, seeds, live0, L, rest, ci, i, live, queue, pruned) && i < |cons[ci].scope|
    requires cons[ci].scope[i] < |live| && newPruned != [] && TotalLive(live1) < TotalLive(live)
    requires Exact(live, live1, newPruned) && OnlyAt(live, live1, cons[ci].scope[i])
    requires forall w :: w in live[cons[ci].scope[i]] && w !in live1[cons[ci].scope[i]] ==>
      InCur(live, asg, cons[ci].scope[i], w) && !HasSupport(cons[ci], cons[ci].scope[i], w, live, asg)
    ensures Exact(live0, live1, pruned + newPruned) && KeepsSolutions(cons, asg, live0, live1)
    ensures !AllConsistent(cons, live0, asg)
  {
    var x := cons[ci].scope[i];
    ExactTrans(live0, live, live1, pruned, newPruned);
    ReviseKeepsSolutions(cons, asg, live, live1, ci, x);
    KeepsTrans(cons, asg, live0, live, live1);
    if AllConsistent(cons, live0, asg) {
      GacNoPrune(cons, asg, live, live1, ci, i, newPruned);
    }
  }

  /** All scope variables of the popped constraint revised: back to the state between constraints, lower in the measure. */
  lemma GacPosDone(cons: seq<Constraint>, asg: seq<Option<int>>, seeds: seq<nat>, live0: seq<set<int>>,
                   L: seq<set<int>>, queueL: seq<nat>, live: seq<set<int>>, queue: seq<nat>, pruned: seq<Prune>)
    requires queueL != [] && queueL[0] < |cons|
    requires GacPos(cons, asg, seeds, live0, L, queueL[1..], queueL[0], |cons[queueL[0]].scope|, live, queue, pruned)
    ensures GacInv(cons, asg, seeds, live0, live, queue, pruned, -1)
    ensures TotalLive(live) < TotalLive(L) || (TotalLive(live) == TotalLive(L) && |queue| < |queueL|)
  {
    var ci := queueL[0];
    if live == L && queue == queueL[1..] && PositionsSupported(cons[ci], |cons[ci].scope|, live, asg) {
      assert Consistent(cons[ci], live, asg);
    }
  }

  /** An empty queue: every tracked constraint is consistent. */
  lemma GacEnd(cons: seq<Constraint>, asg: seq<Option<int>>, newVar: Option<Var>, live0: seq<set<int>>,
               live: seq<set<int>>, pruned: seq<Prune>)
    requires GacInv(cons, asg, Seeds(cons, newVar), live0, live, [], pruned, -1)
    ensures forall cj :: 0 <= cj < |cons| && (cj in Seeds(cons, newVar) || Consistent(cons[cj], live0, asg)) ==>
      Consistent(cons[cj], live, asg)
    ensures newVar.None? ==> AllConsistent(cons, live, asg)
  {
    if newVar.None? {
      forall cj | 0 <= cj < |cons| ensures Consistent(cons[cj], live, asg) {
        assert cj in Seeds(cons, newVar);
      }
    }
  }

  /**
   * Removing from `x` only values that constraint `ci` does not support loses
   * no solution: a solution's value for `x` is always supported.
   */
  lemma ReviseKeepsSolutions(cons: seq<Constraint>, asg: seq<Option<int>>, live: seq<set<int>>, live1: seq<set<int>>,
                             ci: nat, x: Var)
    requires ci < |cons| && x < |live| && x in cons[ci].scope && OnlyAt(live, live1, x)
    requires forall w :: w in live[x] && w !in live1[x] ==> !HasSupport(cons[ci], x, w, live, asg)
    ensures KeepsSolutions(cons, asg, live, live1)
  {
    forall sigma | IsSolution(cons, live, asg, sigma) ensures IsSolution(cons, live1, asg, sigma) {
      SolutionSupported(cons, live, asg, sigma, ci, x);
      forall y | 0 <= y < |sigma| ensures InCur(live1, asg, y, sigma[y]) {
        assert InCur(live, asg, y, sigma[y]);
      }
    }
  }

  /** A support survives pruning a variable outside the constraint's scope. */
  lemma SupportFrame(c: Constraint, y: Var, v: int, live: seq<set<int>>, live1: seq<set<int>>, asg: seq<Option<int>>, x: Var)
    requires OnlyAt(live, live1, x) && x !in c.scope && HasSupport(c, y, v, live, asg)
    ensures HasSupport(c, y, v, live1, asg)
  {
    HasSupportWitness(c, y, v, live, asg);
    HasSupportWitness(c, y, v, live1, asg);
    var t :| t in c.tuples && Supports(c.scope, t, y, v, live, asg);
    forall j | 0 <= j < |c.scope| ensures InCur(live1, asg, c.scope[j], t[j]) {
      assert InCur(live, asg, c.scope[j], t[j]);
      assert c.scope[j] != x;
    }
    assert Supports(c.scope, t, y, v, live1, asg);
  }

  /** A constraint stays consistent when a variable outside its scope is pruned. */
  lemma ConsistentFrame(c: Constraint, live: seq<set<int>>, live1: seq<set<int>>, asg: seq<Option<int>>, x: Var)
    requires OnlyAt(live, live1, x) && x !in c.scope && Consistent(c, live, asg)
    ensures Consistent(c, live1, asg)
  {
    forall i, v | 0 <= i < |c.scope| && InCur(live1, asg, c.scope[i], v)
      ensures HasSupport(c, c.scope[i], v, live1, asg)
    {
      assert c.scope[i] != x;
      assert InCur(live, asg, c.scope[i], v);
      SupportFrame(c, c.scope[i], v, live, live1, asg, x);
    }
  }

  /** The snapshot cur_domain() of `x`: distinct live values, and every current value is in it. */
  lemma CurDomainFacts(dom: seq<seq<int>>, live: seq<set<int>>, asg: seq<Option<int>>, x: Var)
    requires WfVars(dom, live, asg) && x < |dom|
    ensures Distinct(CurDomainOf(dom, live, asg, x))
    ensures forall k :: 0 <= k < |CurDomainOf(dom, live, asg, x)| ==>
      InCur(live, asg, x, CurDomainOf(dom, live, asg, x)[k])
    ensures forall w :: InCur(live, asg, x, w) ==> w in CurDomainOf(dom, live, asg, x)
  {
    var d := CurDomainOf(dom, live, asg, x);
    forall k | 0 <= k < |d| ensures InCur(live, asg, x, d[k]) {
      assert d[k] in d;
    }
  }

  lemma KeepsTrans(cons: seq<Constraint>, asg: seq<Option<int>>, a: seq<set<int>>, b: seq<set<int>>, c: seq<set<int>>)
    requires KeepsSolutions(cons, asg, a, b) && KeepsSolutions(cons, asg, b, c)
    ensures KeepsSolutions(cons, asg, a, c)
  {
  }

  // ---------------------------------------------------------------------
  // ord_mrv
  // ---------------------------------------------------------------------

  /**
   * Minimum remaining values: the unassigned variable with the smallest
   * current domain, the first in variable order on ties, or None when every
   * variable is assigned.
   */
  method OrdMrv(csp: Csp) returns (r: Option<Var>)
    requires csp.Valid()
    ensures r.None? <==> forall y :: 0 <= y < |csp.asg| ==> csp.asg[y].Some?
    ensures r.Some? ==> r.value < |csp.dom| && csp.asg[r.value].None?
    ensures r.Some? ==> forall y :: 0 <= y < |csp.dom| && csp.asg[y].None? ==>
      DomSize(csp.dom, csp.live, csp.asg, r.value) <= DomSize(csp.dom, csp.live, csp.asg, y)
    ensures r.Some? ==> forall y :: 0 <= y < r.value && csp.asg[y].None? ==>
      DomSize(csp.dom, csp.live, csp.asg, r.value) < DomSize(csp.dom, csp.live, csp.asg, y)
  {
    var dom, live, asg := csp.dom, csp.live, csp.asg;
    var unassigned := AllUnassigned(asg);
    r := None;
    var mrv := 0;
    ghost var p := 0;
    assert forall j :: 0 <= j < |unassigned| ==> unassigned[j] in unassigned;
    for k := 0 to |unassigned|
      invariant forall j :: 0 <= j < |unassigned| ==> unassigned[j] < |dom|
      invariant r.None? <==> k == 0
      invariant r.Some? ==> p < k && unassigned[p] == r.value
      invariant r.Some? ==> mrv == DomSize(dom, live, asg, r.value)
      invariant r.Some? ==> forall j :: 0 <= j < k ==> mrv <= DomSize(dom, live, asg, unassigned[j])
      invariant r.Some? ==> forall j :: 0 <= j < p ==> mrv < DomSize(dom, live, asg, unassigned[j])
    {
      var y := unassigned[k];
      var size := |csp.CurDomain(y)|;
      assert size == DomSize(dom, live, asg, unassigned[k]);
      if r.None? || size < mrv {
        r, mrv, p := Some(y), size, k;
      }
    }
    if r.Some? {
      MrvFirst(dom, live, asg, unassigned, p, mrv);
    } else {
      forall y | 0 <= y < |asg| ensures asg[y].Some? {
        assert y !in unassigned;
      }
    }
  }

  /** The running minimum over the unassigned variables, in order, is a first minimum over all of them. */
  lemma MrvFirst(dom: seq<seq<int>>, live: seq<set<int>>, asg: seq<Option<int>>, us: seq<Var>, p: nat, mrv: nat)
    requires |asg| == |dom| && us == AllUnassigned(asg) && p < |us|
    requires forall j :: 0 <= j < |us| ==> us[j] < |dom| && mrv <= DomSize(dom, live, asg, us[j])
    requires mrv == DomSize(dom, live, asg, us[p])
    requires forall j :: 0 <= j < p ==> mrv < DomSize(dom, live, asg, us[j])
    ensures forall y :: 0 <= y < |dom| && asg[y].None? ==> mrv <= DomSize(dom, live, asg, y)
    ensures forall y :: 0 <= y < us[p] && asg[y].None? ==> mrv < DomSize(dom, live, asg, y)
  {
    AllUnassignedSorted(asg);
    forall y | 0 <= y < |dom| && asg[y].None?
      ensures mrv <= DomSize(dom, live, asg, y)
      ensures y < us[p] ==> mrv < DomSize(dom, live, asg, y)
    {
      assert y in us;
      var j := SortedIndex(us, p, y);
    }
  }

  /** In a strictly increasing list, an element below `us[p]` sits before position `p`. */
  lemma SortedIndex(us: seq<Var>, p: nat, y: Var) returns (j: nat)
    requires p < |us| && y in us
    requires forall i, k :: 0 <= i < k < |us| ==> us[i] < us[k]
    ensures j < |us| && us[j] == y && (y < us[p] ==> j < p)
  {
    j :| 0 <= j < |us| && us[j] == y;
    if p < j {
      assert us[p] < us[j];
    }
  }
}
