/**
 * The second propagator file.  Its prop_BT, prop_GAC and ord_mrv are the
 * same code as in the first one (Propagators.PropBT, Propagators.PropGAC,
 * Propagators.OrdMrv); only prop_FC differs: it prunes a value of the lone
 * unassigned variable when the constraint has no support for it, instead of
 * testing the filled-in tuple with check().
 */
module Propagators2 {
  import opened Options
  import opened CspBase
  import Propagators

  // ---------------------------------------------------------------------
  // Specification
  // ---------------------------------------------------------------------

  /** The values of `x` in `live` that constraint `c` supports. */
  ghost function SupportedOf(c: Constraint, x: Var, live: seq<set<int>>, asg: seq<Option<int>>): (r: set<int>)
    requires x < |live|
    ensures forall v :: v in r <==> v in live[x] && HasSupport(c, x, v, live, asg)
  {
    set v | v in live[x] && HasSupport(c, x, v, live, asg)
  }

  /**
   * The domains after this prop_FC has handled the first `k` seed
   * constraints, one after the other: a constraint whose one unassigned
   * variable is `x` keeps of `x` the values it supports in the domains left
   * by the constraints before it.
   */
  ghost function FcState(cons: seq<Constraint>, asg: seq<Option<int>>, seeds: seq<nat>, k: nat,
                         live0: seq<set<int>>): (r: seq<set<int>>)
    requires k <= |seeds|
    ensures |r| == |live0|
    decreases k
  {
    if k == 0 then live0
    else
      var before := FcState(cons, asg, seeds, k - 1, live0);
      var ci := seeds[k - 1];
      if ci < |cons| && NUnassigned(cons[ci], asg) == 1 && UnassignedIn(cons[ci].scope, asg)[0] < |before| then
        var x := UnassignedIn(cons[ci].scope, asg)[0];
        before[x := SupportedOf(cons[ci], x, before, asg)]
      else before
  }

  /** None of the first `k` seed constraints left its variable without values when it was handled. */
  ghost predicate FcNoWipeBefore(cons: seq<Constraint>, dom: seq<seq<int>>, asg: seq<Option<int>>, seeds: seq<nat>,
                                 k: nat, live0: seq<set<int>>)
  {
    forall m :: 0 <= m < k && m < |seeds| ==>
      !Propagators.WipesOut(cons, dom, asg, FcState(cons, asg, seeds, m + 1, live0), seeds[m])
  }

  /** The values of `d`, in order, that constraint `c` does not support for `x`. */
  function Unsupported(c: Constraint, x: Var, live: seq<set<int>>, asg: seq<Option<int>>, d: seq<int>): (r: seq<int>)
    ensures forall v :: v in r <==> v in d && !HasSupport(c, x, v, live, asg)
    ensures Distinct(d) ==> Distinct(r)
    decreases |d|
  {
    if d == [] then []
    else
      var rest := Unsupported(c, x, live, asg, d[..|d| - 1]);
      var v := d[|d| - 1];
      assert d == d[..|d| - 1] + [v];
      assert Distinct(d) ==> v !in d[..|d| - 1];
      if !HasSupport(c, x, v, live, asg) then rest + [v] else rest
  }

  // ---------------------------------------------------------------------
  // prop_FC (has_support version)
  // ---------------------------------------------------------------------

  /**
   * Forward checking with has_support().  For every seed constraint with
   * exactly one unassigned variable `x`, prunes from `x` each current value
   * the constraint does not support; stops with false as soon as such an `x`
   * has an empty domain.
   */
  method PropFC(csp: Csp, newVar: Option<Var>) returns (ok: bool, pruned: seq<Prune>)
    requires csp.Valid()
    requires newVar.Some? ==> newVar.value < |csp.dom|
    modifies csp
    ensures csp.Valid()
    ensures csp.dom == old(csp.dom) && csp.asg == old(csp.asg) && csp.cons == old(csp.cons)
    ensures Exact(old(csp.live), csp.live, pruned)
    // on success all seed constraints were handled
    ensures ok ==> csp.live == FcState(csp.cons, csp.asg, Seeds(csp.cons, newVar), |Seeds(csp.cons, newVar)|, old(csp.live))
    // on failure it stopped right after the first seed that left its variable without values
    ensures !ok ==> exists k ::
      0 < k <= |Seeds(csp.cons, newVar)| && csp.live == FcState(csp.cons, csp.asg, Seeds(csp.cons, newVar), k, old(csp.live)) &&
      Propagators.WipesOut(csp.cons, csp.dom, csp.asg, csp.live, Seeds(csp.cons, newVar)[k - 1]) &&
      FcNoWipeBefore(csp.cons, csp.dom, csp.asg, Seeds(csp.cons, newVar), k - 1, old(csp.live))
    ensures !ok ==> exists x :: 0 <= x < |csp.dom| && csp.CurDomain(x) == []
    // it succeeds exactly when no seed left its variable without values
    ensures ok <==> FcNoWipeBefore(csp.cons, csp.dom, csp.asg, Seeds(csp.cons, newVar), |Seeds(csp.cons, newVar)|, old(csp.live))
    ensures ok ==> forall ci :: ci in Seeds(csp.cons, newVar) ==> !Propagators.WipesOut(csp.cons, csp.dom, csp.asg, csp.live, ci)
  {
    ghost var live0 := csp.live;
    var cs := Seeds(csp.cons, newVar);
    pruned := [];
    for k := 0 to |cs|
      invariant csp.Valid()
      invariant csp.dom == old(csp.dom) && csp.asg == old(csp.asg) && csp.cons == old(csp.cons)
      invariant Exact(live0, csp.live, pruned)
      invariant csp.live == FcState(csp.cons, csp.asg, cs, k, live0)
      invariant FcNoWipeBefore(csp.cons, csp.dom, csp.asg, cs, k, live0)
      invariant forall m :: 0 <= m < k ==> !Propagators.WipesOut(csp.cons, csp.dom, csp.asg, csp.live, cs[m])
    {
      assert cs[k] in cs;
      ghost var liveK := csp.live;
      var seedOk, newPruned := FcSeed(csp, cs, k, live0);
      ExactTrans(live0, liveK, csp.live, pruned, newPruned);
      pruned := pruned + newPruned;
      if !seedOk {
        var x := FcStopped(csp.cons, csp.dom, csp.asg, cs, k, live0, csp.live);
        assert csp.CurDomain(x) == [];
        return false, pruned;
      }
      FcNoWipeNext(csp.cons, csp.dom, csp.asg, cs, k, live0);
    }
    Propagators.FcFinished(csp.cons, csp.dom, csp.asg, cs, csp.live);
    return true, pruned;
  }

  /** A seed that keeps its variable's values extends the run of seeds that did. */
  lemma FcNoWipeNext(cons: seq<Constraint>, dom: seq<seq<int>>, asg: seq<Option<int>>, seeds: seq<nat>, k: nat,
                     live0: seq<set<int>>)
    requires k < |seeds| && FcNoWipeBefore(cons, dom, asg, seeds, k, live0)
    requires !Propagators.WipesOut(cons, dom, asg, FcState(cons, asg, seeds, k + 1, live0), seeds[k])
    ensures FcNoWipeBefore(cons, dom, asg, seeds, k + 1, live0)
  {
  }

  /**
   * Where this prop_FC stops: seed `k` left its variable without values, so
   * the domains are those after the first k + 1 seeds, the last of which is
   * the first to wipe out.
   */
  lemma FcStopped(cons: seq<Constraint>, dom: seq<seq<int>>, asg: seq<Option<int>>, seeds: seq<nat>, k: nat,
                  live0: seq<set<int>>, live: seq<set<int>>) returns (x: Var)
    requires k < |seeds| && live == FcState(cons, asg, seeds, k + 1, live0)
    requires FcNoWipeBefore(cons, dom, asg, seeds, k, live0) && Propagators.WipesOut(cons, dom, asg, live, seeds[k])
    ensures x < |dom| && CurDomainOf(dom, live, asg, x) == []
    ensures exists j :: (0 < j <= |seeds| && live == FcState(cons, asg, seeds, j, live0) &&
      Propagators.WipesOut(cons, dom, asg, live, seeds[j - 1]) && FcNoWipeBefore(cons, dom, asg, seeds, j - 1, live0))
    ensures !FcNoWipeBefore(cons, dom, asg, seeds, |seeds|, live0)
  {
    x := UnassignedIn(cons[seeds[k]].scope, asg)[0];
    assert 0 < k + 1 <= |seeds| && seeds[k + 1 - 1] == seeds[k];
  }

  /**
   * One round of this prop_FC's loop: handles seed constraint `seeds[k]`,
   * and reports false exactly when it left its lone unassigned variable
   * without values.
   */
  method FcSeed(csp: Csp, seeds: seq<nat>, k: nat, ghost live0: seq<set<int>>) returns (ok: bool, newPruned: seq<Prune>)
    requires csp.Valid() && k < |seeds| && seeds[k] < |csp.cons|
    requires csp.live == FcState(csp.cons, csp.asg, seeds, k, live0)
    modifies csp
    ensures csp.Valid()
    ensures csp.dom == old(csp.dom) && csp.asg == old(csp.asg) && csp.cons == old(csp.cons)
    ensures Exact(old(csp.live), csp.live, newPruned)
    ensures csp.live == FcState(csp.cons, csp.asg, seeds, k + 1, live0)
    ensures !ok ==> exists x :: 0 <= x < |csp.dom| && csp.CurDomain(x) == []
    // false exactly when the seed's lone unassigned variable is left without values
    ensures ok <==> !Propagators.WipesOut(csp.cons, csp.dom, csp.asg, csp.live, seeds[k])
    // a seed that keeps values leaves every seed handled before it with values
    ensures ok && (forall m :: 0 <= m < k ==> !Propagators.WipesOut(csp.cons, csp.dom, csp.asg, old(csp.live), seeds[m])) ==>
      forall m :: 0 <= m < k + 1 ==> !Propagators.WipesOut(csp.cons, csp.dom, csp.asg, csp.live, seeds[m])
  {
    var c := csp.cons[seeds[k]];
    if NUnassigned(c, csp.asg) == 1 {
      ghost var liveK := csp.live;
      var x := UnassignedIn(c.scope, csp.asg)[0];
      assert x in UnassignedIn(c.scope, csp.asg);
      assert WfConstraint(c, |csp.dom|);
      FcStateNext(csp.cons, csp.asg, seeds, k, live0, x);
      newPruned := FcConstraint(csp, seeds[k], x);
      ok := |csp.CurDomain(x)| != 0;
      if ok && forall m :: 0 <= m < k ==> !Propagators.WipesOut(csp.cons, csp.dom, csp.asg, liveK, seeds[m]) {
        Propagators.NoWipeOnlyAt(csp.cons, csp.dom, csp.asg, liveK, csp.live, seeds, k, x);
      }
    } else {
      FcStateSame(csp.cons, csp.asg, seeds, k, live0);
      ok, newPruned := true, [];
    }
  }

  /** A seed constraint with one unassigned variable `x` keeps of `x` what it supports. */
  lemma FcStateNext(cons: seq<Constraint>, asg: seq<Option<int>>, seeds: seq<nat>, k: nat, live0: seq<set<int>>, x: Var)
    requires k < |seeds| && seeds[k] < |cons| && x < |live0|
    requires NUnassigned(cons[seeds[k]], asg) == 1 && UnassignedIn(cons[seeds[k]].scope, asg)[0] == x
    ensures var before := FcState(cons, asg, seeds, k, live0);
      FcState(cons, asg, seeds, k + 1, live0) == before[x := SupportedOf(cons[seeds[k]], x, before, asg)]
  {
  }

  /** A seed constraint without exactly one unassigned variable changes nothing. */
  lemma FcStateSame(cons: seq<Constraint>, asg: seq<Option<int>>, seeds: seq<nat>, k: nat, live0: seq<set<int>>)
    requires k < |seeds| && seeds[k] < |cons| && NUnassigned(cons[seeds[k]], asg) != 1
    ensures FcState(cons, asg, seeds, k + 1, live0) == FcState(cons, asg, seeds, k, live0)
  {
  }

  /**
   * The body of this prop_FC's loop for one constraint `ci` whose one
   * unassigned variable is `x`: prunes from `x` exactly the values the
   * constraint does not support.
   */
  method FcConstraint(csp: Csp, ci: nat, x: Var) returns (newPruned: seq<Prune>)
    requires csp.Valid() && ci < |csp.cons|
    requires NUnassigned(csp.cons[ci], csp.asg) == 1 && UnassignedIn(csp.cons[ci].scope, csp.asg)[0] == x
    requires x < |csp.dom|
    modifies csp
    ensures csp.Valid()
    ensures csp.dom == old(csp.dom) && csp.asg == old(csp.asg) && csp.cons == old(csp.cons)
    ensures Exact(old(csp.live), csp.live, newPruned)
    ensures csp.live == old(csp.live)[x := SupportedOf(csp.cons[ci], x, old(csp.live), csp.asg)]
  {
    ghost var live0 := csp.live;
    var c := csp.cons[ci];
    assert x in UnassignedIn(c.scope, csp.asg);
    assert WfConstraint(c, |csp.dom|);
    var domain := csp.CurDomain(x);
    Propagators.CurDomainFacts(csp.dom, csp.live, csp.asg, x);
    ghost var gone;
    gone, newPruned := PruneUnsupported(csp, c, x, domain);
    assert live0[x] - gone == SupportedOf(c, x, live0, csp.asg) by {
      forall v | v in live0[x] ensures v in gone <==> !HasSupport(c, x, v, live0, csp.asg) {
        assert InCur(live0, csp.asg, x, v);
      }
    }
  }

  /**
   * Prunes from `x` every value of `domain` that constraint `c` does not
   * support, recording them in the order of `domain`; `gone` is the set of
   * pruned values.  Since `x` occurs once in the scope, pruning `x` changes
   * the support of no other value of `x`.
   */
  method PruneUnsupported(csp: Csp, c: Constraint, x: Var, domain: seq<int>)
    returns (ghost gone: set<int>, newPruned: seq<Prune>)
    requires csp.Valid() && x < |csp.dom| && x in c.scope && Distinct(c.scope) && Distinct(domain)
    requires forall m :: 0 <= m < |domain| ==> domain[m] in csp.live[x]
    modifies csp
    ensures csp.Valid()
    ensures csp.dom == old(csp.dom) && csp.asg == old(csp.asg) && csp.cons == old(csp.cons)
    ensures csp.live == old(csp.live)[x := old(csp.live)[x] - gone]
    ensures forall v :: v in gone <==> v in domain && !HasSupport(c, x, v, old(csp.live), csp.asg)
    ensures newPruned == PrunesOf(x, Unsupported(c, x, old(csp.live), csp.asg, domain))
    ensures Exact(old(csp.live), csp.live, newPruned)
  {
    ghost var live0 := csp.live;
    ghost var uns: seq<int> := [];
    assert live0[x] - Elems(uns) == live0[x];
    newPruned := [];
    for m := 0 to |domain|
      invariant csp.dom == old(csp.dom) && csp.asg == old(csp.asg) && csp.cons == old(csp.cons)
      invariant UnsInv(live0, csp.live, csp.asg, x, c, domain, m, uns, newPruned)
    {
      var v := domain[m];
      ghost var L := csp.live;
      UnsLive(live0, L, csp.asg, x, c, domain, m, uns, newPruned);
      Propagators.SupportOnlyAt(c, x, v, live0, L, csp.asg);
      if !HasSupport(c, x, v, csp.live, csp.asg) {
        Propagators.WfVarsOnlyAt(csp.dom, live0, L, csp.asg, x);
        csp.PruneValue(x, v);
        UnsPrune(live0, L, csp.live, csp.asg, x, c, domain, m, uns, newPruned);
        uns := uns + [v];
        newPruned := newPruned + [(x, v)];
      } else {
        UnsKeep(live0, L, csp.asg, x, c, domain, m, uns, newPruned);
      }
    }
    assert domain[..|domain|] == domain;
    forall v | v in Elems(uns) ensures v in live0[x] {
      assert v in domain;
    }
    ExactAt(live0, csp.live, x, uns);
    Propagators.WfVarsOnlyAt(csp.dom, live0, csp.live, csp.asg, x);
    gone := Elems(uns);
    assert csp.live == live0[x := live0[x] - gone];
  }

  /**
   * The state of PruneUnsupported's loop after the first `m` values of
   * `domain`: the unsupported ones, in order, are pruned and recorded.
   */
  ghost predicate UnsInv(live0: seq<set<int>>, live: seq<set<int>>, asg: seq<Option<int>>, x: Var, c: Constraint,
                         domain: seq<int>, m: nat, uns: seq<int>, newPruned: seq<Prune>)
  {
    m <= |domain| && x < |live0| &&
    uns == Unsupported(c, x, live0, asg, domain[..m]) &&
    OnlyAt(live0, live, x) && live[x] == live0[x] - Elems(uns) &&
    newPruned == PrunesOf(x, uns)
  }

  /** The next value of the snapshot is still live: nothing after it has been pruned yet. */
  lemma UnsLive(live0: seq<set<int>>, live: seq<set<int>>, asg: seq<Option<int>>, x: Var, c: Constraint,
                domain: seq<int>, m: nat, uns: seq<int>, newPruned: seq<Prune>)
    requires UnsInv(live0, live, asg, x, c, domain, m, uns, newPruned)
    requires m < |domain| && Distinct(domain) && forall k :: 0 <= k < |domain| ==> domain[k] in live0[x]
    ensures domain[m] in live[x] && live[x] <= live0[x]
  {
    assert domain[m] !in domain[..m];
  }

  /** A supported value is kept. */
  lemma UnsKeep(live0: seq<set<int>>, live: seq<set<int>>, asg: seq<Option<int>>, x: Var, c: Constraint,
                domain: seq<int>, m: nat, uns: seq<int>, newPruned: seq<Prune>)
    requires m < |domain| && UnsInv(live0, live, asg, x, c, domain, m, uns, newPruned)
    requires HasSupport(c, x, domain[m], live0, asg)
    ensures UnsInv(live0, live, asg, x, c, domain, m + 1, uns, newPruned)
  {
    assert domain[..m + 1][..m] == domain[..m];
  }

  /** An unsupported value is pruned and recorded after the earlier ones. */
  lemma UnsPrune(live0: seq<set<int>>, live: seq<set<int>>, live1: seq<set<int>>, asg: seq<Option<int>>, x: Var,
                 c: Constraint, domain: seq<int>, m: nat, uns: seq<int>, newPruned: seq<Prune>)
    requires m < |domain| && UnsInv(live0, live, asg, x, c, domain, m, uns, newPruned)
    requires !HasSupport(c, x, domain[m], live0, asg)
    requires live1 == live[x := live[x] - {domain[m]}]
    ensures UnsInv(live0, live1, asg, x, c, domain, m + 1, uns + [domain[m]], newPruned + [(x, domain[m])])
  {
    var v := domain[m];
    assert domain[..m + 1][..m] == domain[..m];
    assert Elems(uns + [v]) == Elems(uns) + {v};
    assert live1[x] == live0[x] - Elems(uns + [v]);
    PrunesOfSnoc(x, uns, v);
  }

  // ---------------------------------------------------------------------
  // The two forward checkers agree
  // ---------------------------------------------------------------------

  /**
   * When `x` is the one unassigned variable of `c` and every assigned
   * variable keeps its value live, `c` supports `v` for `x` exactly when the
   * assigned values with `v` in the place of `x` pass check(): the test of
   * this prop_FC and the test of the first one coincide.
   */
  lemma HasSupportIffCheck(c: Constraint, x: Var, v: int, live: seq<set<int>>, asg: seq<Option<int>>)
    requires WfConstraint(c, |live|) && |asg| == |live| && AssignedLive(live, asg)
    requires NUnassigned(c, asg) == 1 && UnassignedIn(c.scope, asg)[0] == x
    requires x < |live| && v in live[x]
    ensures HasSupport(c, x, v, live, asg) <==> Check(c, FillTuple(c.scope, asg, x, v))
  {
    var fill := FillTuple(c.scope, asg, x, v);
    HasSupportWitness(c, x, v, live, asg);
    if HasSupport(c, x, v, live, asg) {
      var t :| t in c.tuples && Supports(c.scope, t, x, v, live, asg);
      SupportIsFill(c, x, v, live, asg, t);
    }
    if Check(c, fill) {
      FillSupports(c, x, v, live, asg);
    }
  }

  /** With `x` the lone unassigned variable, every other variable of the scope is assigned. */
  lemma OthersAssigned(c: Constraint, x: Var, asg: seq<Option<int>>, j: nat)
    requires NUnassigned(c, asg) == 1 && UnassignedIn(c.scope, asg)[0] == x
    requires j < |c.scope| && c.scope[j] != x && c.scope[j] < |asg|
    ensures asg[c.scope[j]].Some?
  {
    var u := UnassignedIn(c.scope, asg);
    assert u == [x];
    assert c.scope[j] !in u;
  }

  /** The only tuple that supports `v` for the lone unassigned `x` is the filled-in one. */
  lemma SupportIsFill(c: Constraint, x: Var, v: int, live: seq<set<int>>, asg: seq<Option<int>>, t: seq<int>)
    requires WfConstraint(c, |live|) && |asg| == |live|
    requires NUnassigned(c, asg) == 1 && UnassignedIn(c.scope, asg)[0] == x
    requires Supports(c.scope, t, x, v, live, asg)
    ensures t == FillTuple(c.scope, asg, x, v)
  {
    var fill := FillTuple(c.scope, asg, x, v);
    var i :| 0 <= i < |c.scope| && c.scope[i] == x && t[i] == v;
    forall j | 0 <= j < |c.scope| ensures t[j] == fill[j] {
      assert InCur(live, asg, c.scope[j], t[j]);
      if c.scope[j] == x {
        assert i == j;
      } else {
        OthersAssigned(c, x, asg, j);
      }
    }
  }

  /** The filled-in tuple supports `v` when the assigned values are live. */
  lemma FillSupports(c: Constraint, x: Var, v: int, live: seq<set<int>>, asg: seq<Option<int>>)
    requires WfConstraint(c, |live|) && |asg| == |live| && AssignedLive(live, asg)
    requires NUnassigned(c, asg) == 1 && UnassignedIn(c.scope, asg)[0] == x
    requires x < |live| && v in live[x]
    ensures Supports(c.scope, FillTuple(c.scope, asg, x, v), x, v, live, asg)
  {
    var fill := FillTuple(c.scope, asg, x, v);
    var u := UnassignedIn(c.scope, asg);
    assert x in u;
    forall j | 0 <= j < |c.scope| ensures InCur(live, asg, c.scope[j], fill[j]) {
      if c.scope[j] != x {
        OthersAssigned(c, x, asg, j);
      }
    }
    var i :| 0 <= i < |c.scope| && c.scope[i] == x;
    assert fill[i] == v;
  }

  /** One forward-checking step keeps the two versions equal. */
  lemma FcAgreeStep(cons: seq<Constraint>, asg: seq<Option<int>>, seeds: seq<nat>, j: nat, live0: seq<set<int>>)
    requires j < |seeds| && seeds[j] < |cons| && |asg| == |live0| && AssignedLive(live0, asg)
    requires WfConstraint(cons[seeds[j]], |live0|)
    requires FcState(cons, asg, seeds, j, live0) == Propagators.FcLive(cons, asg, seeds, j, live0)
    ensures FcState(cons, asg, seeds, j + 1, live0) == Propagators.FcLive(cons, asg, seeds, j + 1, live0)
  {
    if NUnassigned(cons[seeds[j]], asg) != 1 {
      FcStateSame(cons, asg, seeds, j, live0);
      Propagators.FcLiveSame(cons, asg, seeds, j, live0);
    } else {
      var before := FcState(cons, asg, seeds, j, live0);
      var c := cons[seeds[j]];
      var x := UnassignedIn(c.scope, asg)[0];
      assert x in UnassignedIn(c.scope, asg);
      FcStateNext(cons, asg, seeds, j, live0, x);
      Propagators.FcLiveNext(cons, asg, seeds, j, live0, x);
      FcLiveAssigned(cons, asg, seeds, j, live0);
      SupportedIsKept(cons, seeds[j], x, before, asg);
    }
  }

  /** For the lone unassigned variable, the values has_support() keeps are those check() keeps. */
  lemma SupportedIsKept(cons: seq<Constraint>, ci: nat, x: Var, live: seq<set<int>>, asg: seq<Option<int>>)
    requires ci < |cons| && WfConstraint(cons[ci], |live|) && |asg| == |live| && AssignedLive(live, asg)
    requires NUnassigned(cons[ci], asg) == 1 && UnassignedIn(cons[ci].scope, asg)[0] == x && x < |live|
    ensures SupportedOf(cons[ci], x, live, asg) == Propagators.FcKept(cons, asg, ci, x, live)
  {
    forall v | v in live[x] ensures HasSupport(cons[ci], x, v, live, asg) <==> !Propagators.FcRejects(cons, asg, ci, x, v) {
      HasSupportIffCheck(cons[ci], x, v, live, asg);
    }
  }

  /** Forward checking prunes only unassigned variables, so assigned values stay live. */
  lemma FcLiveAssigned(cons: seq<Constraint>, asg: seq<Option<int>>, seeds: seq<nat>, k: nat, live0: seq<set<int>>)
    requires |asg| == |live0| && AssignedLive(live0, asg)
    ensures AssignedLive(Propagators.FcLive(cons, asg, seeds, k, live0), asg)
  {
    var r := Propagators.FcLive(cons, asg, seeds, k, live0);
    forall y | 0 <= y < |asg| && asg[y].Some? ensures asg[y].value in r[y] {
      var v := asg[y].value;
      forall m | 0 <= m < k && m < |seeds| ensures !Propagators.FcRejects(cons, asg, seeds[m], y, v) {
        if seeds[m] < |cons| && NUnassigned(cons[seeds[m]], asg) == 1 {
          var u := UnassignedIn(cons[seeds[m]].scope, asg);
          assert u[0] in u;
        }
      }
    }
  }

  /** FcAgreeStep with the seed's constraint drawn from well-formed constraints. */
  lemma FcAgreeNext(cons: seq<Constraint>, asg: seq<Option<int>>, seeds: seq<nat>, j: nat, live0: seq<set<int>>)
    requires j < |seeds| && |asg| == |live0| && AssignedLive(live0, asg)
    requires WfConstraints(cons, |live0|) && forall i :: 0 <= i < |seeds| ==> seeds[i] < |cons|
    requires FcState(cons, asg, seeds, j, live0) == Propagators.FcLive(cons, asg, seeds, j, live0)
    ensures FcState(cons, asg, seeds, j + 1, live0) == Propagators.FcLive(cons, asg, seeds, j + 1, live0)
  {
    assert seeds[j] < |cons|;
    FcAgreeStep(cons, asg, seeds, j, live0);
  }

  /**
   * The two prop_FC versions compute the same domains: handling the seed
   * constraints one after the other with has_support() leaves exactly the
   * values that no seed constraint rejects with check(), as long as every
   * assigned variable keeps its value live.
   */
  lemma {:induction false} FcStateAgrees(cons: seq<Constraint>, asg: seq<Option<int>>, seeds: seq<nat>, k: nat,
                                         live0: seq<set<int>>)
    requires k <= |seeds| && |asg| == |live0| && AssignedLive(live0, asg)
    requires WfConstraints(cons, |live0|) && forall i :: 0 <= i < |seeds| ==> seeds[i] < |cons|
    ensures FcState(cons, asg, seeds, k, live0) == Propagators.FcLive(cons, asg, seeds, k, live0)
    decreases k
  {
    if k == 0 {
      Propagators.FcLiveZero(cons, asg, seeds, live0);
    } else {
      var j: nat := k - 1;
      FcStateAgrees(cons, asg, seeds, j, live0);
      FcAgreeNext(cons, asg, seeds, j, live0);
    }
  }
}
