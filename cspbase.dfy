/**
 * The interface of the constraint network that the propagators and the
 * Futoshiki model builder use: variables with an initial domain, a set of
 * values not yet pruned and an optional assigned value; constraints with an
 * ordered scope and an explicit list of satisfying tuples; and the CSP that
 * owns both.  A variable is named by its position in the CSP's variable list,
 * a constraint by its position in the CSP's constraint list (the order in
 * which the builder added them).
 */
module CspBase {
  import opened Options

  /** A variable: its index in the CSP's variable list. */
  type Var = nat

  /** A pruning record handed to the search: (variable, value removed). */
  type Prune = (Var, int)

  /** Ordered scope and the satisfying tuples, one value per scope position. */
  datatype Constraint = Constraint(scope: seq<Var>, tuples: seq<seq<int>>)

  predicate Distinct<T(==)>(s: seq<T>)
  {
    forall i, j :: 0 <= i < j < |s| ==> s[i] != s[j]
  }

  /** Concatenation regroups: (a + b) + c == a + (b + c). */
  lemma AppendAssoc<T>(a: seq<T>, b: seq<T>, c: seq<T>)
    ensures a + b + c == a + (b + c)
  {
    assert forall k :: 0 <= k < |a + b + c| ==> (a + b + c)[k] == (a + (b + c))[k];
  }

  function Elems(d: seq<int>): set<int>
  {
    set v | v in d
  }

  // ---------------------------------------------------------------------
  // Variables
  // ---------------------------------------------------------------------

  /**
   * `v` is in the current domain of `x`: it has not been pruned and, when
   * `x` is assigned, it is the assigned value.
   */
  predicate InCur(live: seq<set<int>>, asg: seq<Option<int>>, x: Var, v: int)
  {
    x < |live| && x < |asg| && v in live[x] && (asg[x].None? || asg[x].value == v)
  }

  /** The values of `d`, in order, that are in the current domain of `x`. */
  function Filter(d: seq<int>, live: seq<set<int>>, asg: seq<Option<int>>, x: Var): (r: seq<int>)
    ensures forall v :: v in r <==> v in d && InCur(live, asg, x, v)
    ensures Distinct(d) ==> Distinct(r)
    ensures |r| <= |d|
  {
    if d == [] then []
    else
      var rest := Filter(d[1..], live, asg, x);
      assert Distinct(d) ==> d[0] !in d[1..];
      if InCur(live, asg, x, d[0]) then [d[0]] + rest else rest
  }

  /** cur_domain(): the initial domain of `x` restricted to its current domain. */
  function CurDomainOf(dom: seq<seq<int>>, live: seq<set<int>>, asg: seq<Option<int>>, x: Var): seq<int>
    requires x < |dom|
  {
    Filter(dom[x], live, asg, x)
  }

  /** The current domain of `x` depends on the live values of `x` alone. */
  lemma {:induction false} FilterFrame(d: seq<int>, live: seq<set<int>>, live1: seq<set<int>>, asg: seq<Option<int>>, x: Var)
    requires |live1| == |live| && x < |live| && live1[x] == live[x]
    ensures Filter(d, live1, asg, x) == Filter(d, live, asg, x)
    decreases |d|
  {
    if d != [] {
      FilterFrame(d[1..], live, live1, asg, x);
    }
  }

  /** The value assigned to `y`, or 0 when it is unassigned (never read then). */
  function ValueOf(asg: seq<Option<int>>, y: Var): int
  {
    if y < |asg| && asg[y].Some? then asg[y].value else 0
  }

  // ---------------------------------------------------------------------
  // Constraints
  // ---------------------------------------------------------------------

  /** get_unasgn_vars(): the unassigned variables of a scope, in scope order. */
  function UnassignedIn(scope: seq<Var>, asg: seq<Option<int>>): (r: seq<Var>)
    ensures forall y :: y in r <==> y in scope && y < |asg| && asg[y].None?
    ensures |r| <= |scope|
  {
    if scope == [] then []
    else
      (if scope[0] < |asg| && asg[scope[0]].None? then [scope[0]] else [])
      + UnassignedIn(scope[1..], asg)
  }

  /** get_n_unasgn() */
  function NUnassigned(c: Constraint, asg: seq<Option<int>>): nat
  {
    |UnassignedIn(c.scope, asg)|
  }

  /** The tuple of assigned values of a fully assigned scope. */
  function AssignedValues(scope: seq<Var>, asg: seq<Option<int>>): (r: seq<int>)
    ensures |r| == |scope|
  {
    seq(|scope|, j requires 0 <= j < |scope| => ValueOf(asg, scope[j]))
  }

  /** The assigned values of a scope with `v` put in the position(s) of `x`. */
  function FillTuple(scope: seq<Var>, asg: seq<Option<int>>, x: Var, v: int): (r: seq<int>)
    ensures |r| == |scope|
  {
    seq(|scope|, j requires 0 <= j < |scope| => if scope[j] == x then v else ValueOf(asg, scope[j]))
  }

  /** check(vals): the value tuple is one of the satisfying tuples. */
  predicate Check(c: Constraint, vals: seq<int>)
  {
    vals in c.tuples
  }

  /** tuple_is_valid(t): every component is in its scope variable's current domain. */
  predicate TupleValid(scope: seq<Var>, t: seq<int>, live: seq<set<int>>, asg: seq<Option<int>>)
  {
    |t| == |scope| && forall j :: 0 <= j < |scope| ==> InCur(live, asg, scope[j], t[j])
  }

  /** Tuple `t` puts `v` at the position of `x` and is valid under the current domains. */
  predicate Supports(scope: seq<Var>, t: seq<int>, x: Var, v: int, live: seq<set<int>>, asg: seq<Option<int>>)
  {
    TupleValid(scope, t, live, asg) && exists i :: 0 <= i < |scope| && scope[i] == x && t[i] == v
  }

  /** Some tuple of `ts` supports `v` for `x`, searching the tuples in order. */
  predicate SupportIn(scope: seq<Var>, ts: seq<seq<int>>, x: Var, v: int, live: seq<set<int>>, asg: seq<Option<int>>)
    decreases |ts|
  {
    ts != [] && (Supports(scope, ts[0], x, v, live, asg) || SupportIn(scope, ts[1..], x, v, live, asg))
  }

  /**
   * has_support(x, v): some satisfying tuple puts `v` at the position of `x`
   * and is valid under the current domains.
   */
  predicate HasSupport(c: Constraint, x: Var, v: int, live: seq<set<int>>, asg: seq<Option<int>>)
  {
    SupportIn(c.scope, c.tuples, x, v, live, asg)
  }

  /** The tuple search finds a support exactly when one exists. */
  lemma {:induction false} SupportInWitness(scope: seq<Var>, ts: seq<seq<int>>, x: Var, v: int,
                                            live: seq<set<int>>, asg: seq<Option<int>>)
    ensures SupportIn(scope, ts, x, v, live, asg) <==> exists t :: t in ts && Supports(scope, t, x, v, live, asg)
    decreases |ts|
  {
    if ts != [] {
      SupportInWitness(scope, ts[1..], x, v, live, asg);
      if exists t :: t in ts && Supports(scope, t, x, v, live, asg) {
        var t :| t in ts && Supports(scope, t, x, v, live, asg);
        if t != ts[0] {
          assert t in ts[1..];
        }
      }
    }
  }

  lemma HasSupportWitness(c: Constraint, x: Var, v: int, live: seq<set<int>>, asg: seq<Option<int>>)
    ensures HasSupport(c, x, v, live, asg) <==> exists t :: t in c.tuples && Supports(c.scope, t, x, v, live, asg)
  {
    SupportInWitness(c.scope, c.tuples, x, v, live, asg);
  }

  /** Generalised arc consistency of one constraint. */
  ghost predicate Consistent(c: Constraint, live: seq<set<int>>, asg: seq<Option<int>>)
  {
    forall i, v :: 0 <= i < |c.scope| && InCur(live, asg, c.scope[i], v) ==>
      HasSupport(c, c.scope[i], v, live, asg)
  }

  ghost predicate AllConsistent(cons: seq<Constraint>, live: seq<set<int>>, asg: seq<Option<int>>)
  {
    forall ci :: 0 <= ci < |cons| ==> Consistent(cons[ci], live, asg)
  }

  // ---------------------------------------------------------------------
  // Solutions
  // ---------------------------------------------------------------------

  /** The values a full assignment `sigma` gives to the variables of a scope. */
  function Project(scope: seq<Var>, sigma: seq<int>): (r: seq<int>)
    ensures |r| == |scope|
  {
    seq(|scope|, j requires 0 <= j < |scope| => if scope[j] < |sigma| then sigma[scope[j]] else 0)
  }

  ghost predicate Satisfies(c: Constraint, sigma: seq<int>)
  {
    (forall j :: 0 <= j < |c.scope| ==> c.scope[j] < |sigma|) && Project(c.scope, sigma) in c.tuples
  }

  ghost predicate SatisfiesAll(cons: seq<Constraint>, sigma: seq<int>)
  {
    forall ci :: 0 <= ci < |cons| ==> Satisfies(cons[ci], sigma)
  }

  /**
   * A full assignment that extends the current partial assignment, stays in
   * the current domains and satisfies every constraint.
   */
  ghost predicate IsSolution(cons: seq<Constraint>, live: seq<set<int>>, asg: seq<Option<int>>, sigma: seq<int>)
  {
    |sigma| == |live| &&
    (forall x :: 0 <= x < |sigma| ==> InCur(live, asg, x, sigma[x])) &&
    SatisfiesAll(cons, sigma)
  }

  /** Every assigned variable still has its assigned value among its live values. */
  ghost predicate AssignedLive(live: seq<set<int>>, asg: seq<Option<int>>)
  {
    forall y :: 0 <= y < |asg| && asg[y].Some? ==> y < |live| && asg[y].value in live[y]
  }

  /** Pruning from `before` to `after` lost no solution. */
  ghost predicate KeepsSolutions(cons: seq<Constraint>, asg: seq<Option<int>>, before: seq<set<int>>, after: seq<set<int>>)
  {
    forall sigma :: IsSolution(cons, before, asg, sigma) ==> IsSolution(cons, after, asg, sigma)
  }

  // ---------------------------------------------------------------------
  // Well-formedness
  // ---------------------------------------------------------------------

  ghost predicate WfVars(dom: seq<seq<int>>, live: seq<set<int>>, asg: seq<Option<int>>)
  {
    |live| == |dom| && |asg| == |dom| &&
    (forall x :: 0 <= x < |dom| ==> Distinct(dom[x])) &&
    (forall x, v :: 0 <= x < |dom| && v in live[x] ==> v in dom[x])
  }

  /** Scope inside the CSP, no variable twice, every tuple as long as the scope. */
  ghost predicate WfConstraint(c: Constraint, nv: nat)
  {
    (forall j :: 0 <= j < |c.scope| ==> c.scope[j] < nv) &&
    Distinct(c.scope) &&
    (forall t :: t in c.tuples ==> |t| == |c.scope|)
  }

  ghost predicate WfConstraints(cons: seq<Constraint>, nv: nat)
  {
    forall ci :: 0 <= ci < |cons| ==> WfConstraint(cons[ci], nv)
  }

  // ---------------------------------------------------------------------
  // Indexes
  // ---------------------------------------------------------------------

  /** get_cons_with_var(x): indices of the constraints whose scope holds `x`, in order. */
  function ConsWithVar(cons: seq<Constraint>, x: Var): (r: seq<nat>)
    ensures forall ci: nat :: ci in r <==> ci < |cons| && x in cons[ci].scope
    ensures Distinct(r)
  {
    if cons == [] then []
    else
      var rest := ConsWithVar(cons[..|cons| - 1], x);
      assert |cons| - 1 !in rest;
      rest + (if x in cons[|cons| - 1].scope then [|cons| - 1] else [])
  }

  /** get_all_cons(), by index. */
  function AllIndices(n: nat): (r: seq<nat>)
    ensures |r| == n && Distinct(r)
    ensures forall ci: nat :: ci in r <==> ci < n
  {
    var s := seq(n, i => i);
    forall k | 0 <= k < n
      ensures s[k] == k && k in s
    {
      assert s[k] == k;
    }
    assert forall ci: nat :: ci in s ==> ci < n;
    s
  }

  /** The constraints a propagator starts from: all of them, or those on the new variable. */
  function Seeds(cons: seq<Constraint>, newVar: Option<Var>): (r: seq<nat>)
    ensures Distinct(r)
    ensures forall ci :: ci in r ==> ci < |cons|
  {
    match newVar
    case None => AllIndices(|cons|)
    case Some(x) => ConsWithVar(cons, x)
  }

  /** get_all_unasgn_vars(): the unassigned variables, in variable order. */
  function AllUnassigned(asg: seq<Option<int>>): (r: seq<Var>)
    ensures forall y: nat :: y in r <==> y < |asg| && asg[y].None?
  {
    if asg == [] then []
    else
      var rest := AllUnassigned(asg[..|asg| - 1]);
      rest + (if asg[|asg| - 1].None? then [|asg| - 1] else [])
  }

  /** get_all_unasgn_vars() lists the variables in increasing order. */
  lemma {:induction false} AllUnassignedSorted(asg: seq<Option<int>>)
    ensures forall i, j :: 0 <= i < j < |AllUnassigned(asg)| ==> AllUnassigned(asg)[i] < AllUnassigned(asg)[j]
    decreases |asg|
  {
    if asg != [] {
      var n := |asg| - 1;
      AllUnassignedSorted(asg[..n]);
      var rest := AllUnassigned(asg[..n]);
      forall k | 0 <= k < |rest| ensures rest[k] < n {
        assert rest[k] in rest;
      }
    }
  }

  /** Total number of unpruned values: the measure that pruning decreases. */
  function TotalLive(live: seq<set<int>>): nat
  {
    if live == [] then 0 else TotalLive(live[..|live| - 1]) + |live[|live| - 1]|
  }

  lemma {:induction false} TotalLiveUpdate(live: seq<set<int>>, x: nat, s: set<int>)
    requires x < |live|
    ensures TotalLive(live[x := s]) + |live[x]| == TotalLive(live) + |s|
    decreases |live|
  {
    var n := |live| - 1;
    if x < n {
      TotalLiveUpdate(live[..n], x, s);
      assert live[x := s][..n] == live[..n][x := s];
    } else {
      assert live[x := s][..n] == live[..n];
    }
  }

  // ---------------------------------------------------------------------
  // The pruning audit trail
  // ---------------------------------------------------------------------

  /**
   * `pruned` records exactly the values that went from `before` to `after`:
   * each once, each live before and gone after, and nothing else removed.
   */
  ghost predicate Exact(before: seq<set<int>>, after: seq<set<int>>, pruned: seq<Prune>)
  {
    |after| == |before| && Distinct(pruned) &&
    (forall x :: 0 <= x < |before| ==> after[x] <= before[x]) &&
    (forall k :: 0 <= k < |pruned| ==>
       pruned[k].0 < |before| && pruned[k].1 in before[pruned[k].0] && pruned[k].1 !in after[pruned[k].0]) &&
    (forall x, v :: 0 <= x < |before| && v in before[x] && v !in after[x] ==> (x, v) in pruned)
  }

  /** The prune records of the values `vs` of variable `x`, in order. */
  function PrunesOf(x: Var, vs: seq<int>): (r: seq<Prune>)
    ensures |r| == |vs| && forall k :: 0 <= k < |vs| ==> r[k] == (x, vs[k])
  {
    seq(|vs|, k requires 0 <= k < |vs| => (x, vs[k]))
  }

  lemma PrunesOfSnoc(x: Var, vs: seq<int>, v: int)
    ensures PrunesOf(x, vs + [v]) == PrunesOf(x, vs) + [(x, v)]
  {
  }

  /** Only the domain of `x` differs between `before` and `after`. */
  ghost predicate OnlyAt(before: seq<set<int>>, after: seq<set<int>>, x: Var)
  {
    |after| == |before| && forall y :: 0 <= y < |before| && y != x ==> after[y] == before[y]
  }

  /** Removing the distinct live values `vs` from `x`, recorded in order, is an exact record. */
  lemma ExactAt(before: seq<set<int>>, after: seq<set<int>>, x: Var, vs: seq<int>)
    requires x < |before| && Distinct(vs) && Elems(vs) <= before[x]
    requires OnlyAt(before, after, x) && after[x] == before[x] - Elems(vs)
    ensures Exact(before, after, PrunesOf(x, vs))
  {
    var p := PrunesOf(x, vs);
    forall k | 0 <= k < |vs| ensures vs[k] in before[x] && vs[k] in Elems(vs) {
      assert vs[k] in vs;
    }
    forall v | v in before[x] && v in Elems(vs) ensures (x, v) in p {
      var k :| 0 <= k < |vs| && vs[k] == v;
      assert p[k] == (x, v);
    }
  }

  /** Two pruning steps recorded one after the other make one exact record. */
  lemma ExactTrans(a: seq<set<int>>, b: seq<set<int>>, c: seq<set<int>>, p: seq<Prune>, q: seq<Prune>)
    requires Exact(a, b, p) && Exact(b, c, q)
    ensures Exact(a, c, p + q)
  {
    forall i, j | 0 <= i < j < |p + q| ensures (p + q)[i] != (p + q)[j] {
      if i < |p| && j >= |p| {
        assert q[j - |p|].1 in b[q[j - |p|].0];
      }
    }
    forall x, v | 0 <= x < |a| && v in a[x] && v !in c[x] ensures (x, v) in p + q {
      if v in b[x] { assert (x, v) in q; } else { assert (x, v) in p; }
    }
  }

  /** What the search does on backtrack: put every recorded value back. */
  function Restore(live: seq<set<int>>, pruned: seq<Prune>): seq<set<int>>
    decreases |pruned|
  {
    if pruned == [] then live
    else
      var p := pruned[0];
      Restore(if p.0 < |live| then live[p.0 := live[p.0] + {p.1}] else live, pruned[1..])
  }

  lemma {:induction false} RestoreGen(before: seq<set<int>>, cur: seq<set<int>>, pruned: seq<Prune>)
    requires |cur| == |before| && Distinct(pruned)
    requires forall x :: 0 <= x < |before| ==> cur[x] <= before[x]
    requires forall k :: 0 <= k < |pruned| ==>
      pruned[k].0 < |before| && pruned[k].1 in before[pruned[k].0] && pruned[k].1 !in cur[pruned[k].0]
    requires forall x, v :: 0 <= x < |before| && v in before[x] && v !in cur[x] ==> (x, v) in pruned
    ensures Restore(cur, pruned) == before
    decreases |pruned|
  {
    if pruned == [] {
      forall x | 0 <= x < |before| ensures cur[x] == before[x] {
        assert forall v :: v in before[x] ==> v in cur[x];
      }
    } else {
      var p := pruned[0];
      var next := cur[p.0 := cur[p.0] + {p.1}];
      var rest := pruned[1..];
      assert Distinct(rest);
      forall k | 0 <= k < |rest|
        ensures rest[k].0 < |before| && rest[k].1 in before[rest[k].0] && rest[k].1 !in next[rest[k].0]
      {
        assert rest[k] == pruned[k + 1] && pruned[k + 1] != pruned[0];
      }
      forall x, v | 0 <= x < |before| && v in before[x] && v !in next[x]
        ensures (x, v) in rest
      {
        assert (x, v) in pruned && (x, v) != p;
        var k :| 0 <= k < |pruned| && pruned[k] == (x, v);
        assert k != 0 && rest[k - 1] == (x, v);
      }
      RestoreGen(before, next, rest);
    }
  }

  /** Restoring every reported pruning gives back the domains as they were. */
  lemma RestoreUndoesPruning(before: seq<set<int>>, after: seq<set<int>>, pruned: seq<Prune>)
    requires Exact(before, after, pruned)
    ensures Restore(after, pruned) == before
  {
    RestoreGen(before, after, pruned);
  }

  // ---------------------------------------------------------------------
  // The CSP object
  // ---------------------------------------------------------------------

  class Csp {
    /** Initial domain of each variable (a list, in the order given). */
    var dom: seq<seq<int>>
    /** The values of each initial domain not currently pruned. */
    var live: seq<set<int>>
    /** Assigned value of each variable, if any. */
    var asg: seq<Option<int>>
    /** The constraints, in the order they were added. */
    var cons: seq<Constraint>

    ghost predicate Valid()
      reads this
    {
      WfVars(dom, live, asg) && WfConstraints(cons, |dom|)
    }

    /** Fresh variables: nothing pruned, nothing assigned. */
    ghost predicate Pristine()
      reads this
    {
      |live| == |dom| && |asg| == |dom| &&
      forall x :: 0 <= x < |dom| ==> asg[x].None? && live[x] == Elems(dom[x])
    }

    /** CSP(vars): the given variables, each with its full domain, and no constraint. */
    constructor (vars: seq<seq<int>>)
      requires forall x :: 0 <= x < |vars| ==> Distinct(vars[x])
      ensures Valid() && Pristine()
      ensures dom == vars && cons == []
    {
      dom := vars;
      live := seq(|vars|, x requires 0 <= x < |vars| => Elems(vars[x]));
      asg := seq(|vars|, x => None);
      cons := [];
    }

    /** add_constraint(c) */
    method AddConstraint(c: Constraint)
      requires Valid() && WfConstraint(c, |dom|)
      modifies this
      ensures Valid()
      ensures cons == old(cons) + [c]
      ensures dom == old(dom) && live == old(live) && asg == old(asg)
    {
      cons := cons + [c];
    }

    /** prune_value(v): only a value still in the domain may be pruned. */
    method PruneValue(x: Var, v: int)
      requires Valid() && x < |dom| && v in live[x]
      modifies this
      ensures Valid()
      ensures live == old(live)[x := old(live)[x] - {v}]
      ensures dom == old(dom) && asg == old(asg) && cons == old(cons)
      ensures TotalLive(live) < TotalLive(old(live))
    {
      TotalLiveUpdate(live, x, live[x] - {v});
      live := live[x := live[x] - {v}];
    }

    function CurDomain(x: Var): seq<int>
      reads this
      requires x < |dom|
    {
      CurDomainOf(dom, live, asg, x)
    }
  }

  /** An unassigned variable none of whose values is pruned keeps its whole initial domain. */
  lemma {:induction false} FullFilter(d: seq<int>, live: seq<set<int>>, asg: seq<Option<int>>, x: Var)
    requires x < |live| && x < |asg| && asg[x].None?
    requires forall v :: v in d ==> v in live[x]
    ensures Filter(d, live, asg, x) == d
    decreases |d|
  {
    if d != [] {
      FullFilter(d[1..], live, asg, x);
      assert d == [d[0]] + d[1..];
    }
  }
}
