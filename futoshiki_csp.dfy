/**
 * The Futoshiki builders as imperative code over a `Csp` object.  Each
 * method runs the nested loops of the builder it models and is proved to
 * append exactly the constraints that the matching function of module
 * `Futoshiki` lists, so the properties proved there (what each constraint
 * accepts, the agreement of the two models) hold of the objects built here.
 */
module FutoshikiCsp {
  import opened Options
  import opened CspBase
  import opened Futoshiki

  /**
   * extract_variables: the domain of every cell in row-major order ([1..n]
   * for an empty cell, the given value otherwise) and the n×n array of
   * variables obtained by cutting the variable list into rows of n.
   */
  method ExtractVariables(grid: seq<seq<Cell>>) returns (varArray: seq<seq<Var>>, doms: seq<seq<int>>)
    requires WfGrid(grid)
    ensures doms == Doms(grid) && varArray == VarArray(|grid|)
    ensures forall x :: 0 <= x < |doms| ==> Distinct(doms[x])
    ensures forall r, c :: 0 <= r < |grid| && 0 <= c < |grid| ==>
      VarOf(|grid|, r, c) < |doms| && doms[VarOf(|grid|, r, c)] == CellDomain(grid, r, c)
  {
    var n := |grid|;
    var domain := OneTo(n);
    doms := [];
    var i := 0;
    while i < n
      invariant 0 <= i <= n
      invariant doms == DomsUpTo(grid, i)
      invariant forall x :: 0 <= x < |doms| ==> Distinct(doms[x])
    {
      var j := 0;
      while j < n
        invariant 0 <= j <= n
        invariant doms == DomsUpTo(grid, i) + RowDoms(grid, i)[..j]
        invariant forall x :: 0 <= x < |doms| ==> Distinct(doms[x])
      {
        var value := CellAt(grid, i, j).value;
        var d := if value == 0 then domain else [value];
        assert d == CellDomain(grid, i, j);
        assert RowDoms(grid, i)[..j + 1] == RowDoms(grid, i)[..j] + [d];
        doms := doms + [d];
        j := j + 1;
      }
      assert RowDoms(grid, i)[..n] == RowDoms(grid, i);
      i := i + 1;
    }
    varArray := [];
    var r := 0;
    while r < n
      invariant 0 <= r <= n
      invariant varArray == VarArray(n)[..r]
    {
      var row := seq(n, c requires 0 <= c < n => r * n + c);
      assert row == VarArray(n)[r];
      varArray := varArray + [row];
      r := r + 1;
    }
    forall r, c | 0 <= r < n && 0 <= c < n
      ensures VarOf(n, r, c) < |doms| && doms[VarOf(n, r, c)] == CellDomain(grid, r, c)
    {
      DomsAt(grid, r, c);
    }
  }

  /** The nested loop over two current domains that collects the pairs in `rel`. */
  method SatisfyingPairs(da: seq<int>, db: seq<int>, rel: Rel) returns (ts: seq<seq<int>>)
    ensures ts == PairsOf(da, db, rel)
  {
    ts := [];
    var a := 0;
    while a < |da|
      invariant 0 <= a <= |da|
      invariant ts == PairsOf(da[..a], db, rel)
    {
      var b := 0;
      while b < |db|
        invariant 0 <= b <= |db|
        invariant ts == PairsOf(da[..a], db, rel) + PairRow(da[a], db[..b], rel)
      {
        assert db[..b + 1][..b] == db[..b];
        if Holds(rel, da[a], db[b]) {
          ts := ts + [[da[a], db[b]]];
        }
        b := b + 1;
      }
      assert db[..|db|] == db;
      assert da[..a + 1][..a] == da[..a];
      a := a + 1;
    }
    assert da[..|da|] == da;
  }

  /** The loop over itertools.product that keeps the tuples of n distinct values. */
  method AllDiffTuples(ds: seq<seq<int>>, n: nat) returns (ts: seq<seq<int>>)
    ensures ts == AllDiffOf(Product(ds), n)
  {
    var ps := Product(ds);
    ts := [];
    var i := 0;
    while i < |ps|
      invariant 0 <= i <= |ps|
      invariant ts == AllDiffOf(ps[..i], n)
    {
      var p := ps[i];
      assert ps[..i + 1][..i] == ps[..i];
      if Distinct(p) && |p| == n {
        ts := ts + [p];
      }
      i := i + 1;
    }
    assert ps[..|ps|] == ps;
  }

  // Each loop below appends one block of constraints per round; these
  // lemmas regroup the constraint list after the round.

  lemma PrefixNext<T>(xs: seq<T>, q: nat, cons0: seq<T>, before: seq<T>, after: seq<T>)
    requires q < |xs| && before == cons0 + xs[..q] && after == before + [xs[q]]
    ensures after == cons0 + xs[..q + 1]
  {
    AppendAssoc(cons0, xs[..q], [xs[q]]);
    assert xs[..q + 1] == xs[..q] + [xs[q]];
  }

  lemma BinaryConsNext(dom: seq<seq<int>>, n: nat, isRow: bool, i: nat, cons0: seq<Constraint>, before: seq<Constraint>, after: seq<Constraint>)
    requires i < n && |dom| == n * n
    requires before == cons0 + BinaryCons(dom, n, isRow, i) && after == before + NeqLine(dom, n, i, isRow)
    ensures after == cons0 + BinaryCons(dom, n, isRow, i + 1)
  {
    AppendAssoc(cons0, BinaryCons(dom, n, isRow, i), NeqLine(dom, n, i, isRow));
    assert BinaryCons(dom, n, isRow, i + 1) == BinaryCons(dom, n, isRow, i) + NeqLine(dom, n, i, isRow);
  }

  lemma NaryConsNext(dom: seq<seq<int>>, n: nat, isRow: bool, i: nat, cons0: seq<Constraint>, before: seq<Constraint>, after: seq<Constraint>)
    requires i < n && |dom| == n * n
    requires before == cons0 + NaryCons(dom, n, isRow, i) && after == before + [NaryCon(dom, n, i, isRow)]
    ensures after == cons0 + NaryCons(dom, n, isRow, i + 1)
  {
    AppendAssoc(cons0, NaryCons(dom, n, isRow, i), [NaryCon(dom, n, i, isRow)]);
    assert NaryCons(dom, n, isRow, i + 1) == NaryCons(dom, n, isRow, i) + [NaryCon(dom, n, i, isRow)];
  }

  lemma IneqRowNext(grid: seq<seq<Cell>>, dom: seq<seq<int>>, i: nat, j: nat, cons0: seq<Constraint>, before: seq<Constraint>, after: seq<Constraint>)
    requires WfGrid(grid) && i < |grid| && j + 1 < |grid| && |dom| == |grid| * |grid|
    requires before == cons0 + IneqRow(grid, dom, i, j) && after == before + IneqAt(grid, dom, i, j)
    ensures after == cons0 + IneqRow(grid, dom, i, j + 1)
  {
    AppendAssoc(cons0, IneqRow(grid, dom, i, j), IneqAt(grid, dom, i, j));
    assert IneqRow(grid, dom, i, j + 1) == IneqRow(grid, dom, i, j) + IneqAt(grid, dom, i, j);
  }

  lemma IneqConsNext(grid: seq<seq<Cell>>, dom: seq<seq<int>>, i: nat, cons0: seq<Constraint>, before: seq<Constraint>, after: seq<Constraint>)
    requires WfGrid(grid) && i < |grid| && |dom| == |grid| * |grid|
    requires before == cons0 + IneqCons(grid, dom, i) && after == before + IneqRow(grid, dom, i, |grid| - 1)
    ensures after == cons0 + IneqCons(grid, dom, i + 1)
  {
    AppendAssoc(cons0, IneqCons(grid, dom, i), IneqRow(grid, dom, i, |grid| - 1));
    assert IneqCons(grid, dom, i + 1) == IneqCons(grid, dom, i) + IneqRow(grid, dom, i, |grid| - 1);
  }

  /** The current domain of a fresh variable is its whole initial domain. */
  lemma PristineCur(dom: seq<seq<int>>, live: seq<set<int>>, asg: seq<Option<int>>, x: Var)
    requires x < |dom| && |live| == |dom| && |asg| == |dom|
    requires asg[x].None? && live[x] == Elems(dom[x])
    ensures CurDomainOf(dom, live, asg, x) == dom[x]
  {
    FullFilter(dom[x], live, asg, x);
  }

  /**
   * One binary constraint over [left, right] whose tuples are the pairs of
   * the two current domains, in nested-loop order, that satisfy `rel`.
   */
  method AddPair(csp: Csp, left: Var, right: Var, rel: Rel)
    requires csp.Valid() && csp.Pristine()
    requires left < |csp.dom| && right < |csp.dom| && left != right
    modifies csp
    ensures csp.Valid() && csp.Pristine() && csp.dom == old(csp.dom)
    ensures csp.cons == old(csp.cons) + [Constraint([left, right], PairsOf(csp.dom[left], csp.dom[right], rel))]
  {
    PristineCur(csp.dom, csp.live, csp.asg, left);
    PristineCur(csp.dom, csp.live, csp.asg, right);
    var da := csp.CurDomain(left);
    var db := csp.CurDomain(right);
    var ts := SatisfyingPairs(da, db, rel);
    PairConWf(|csp.dom|, left, right, da, db, rel);
    csp.AddConstraint(Constraint([left, right], ts));
  }

  /** A pair constraint over two distinct variables is well formed: its tuples are pairs. */
  lemma PairConWf(nv: nat, left: Var, right: Var, da: seq<int>, db: seq<int>, rel: Rel)
    requires left < nv && right < nv && left != right
    ensures WfConstraint(Constraint([left, right], PairsOf(da, db, rel)), nv)
  {
    PairsOfMembers(da, db, rel);
  }

  /** The pairwise not-equal constraints of one row (isRow) or column `i`, pairs in combinations order. */
  method AddNeqLine(varArray: seq<seq<Var>>, csp: Csp, n: nat, i: nat, isRow: bool)
    requires i < n && varArray == VarArray(n)
    requires csp.Valid() && csp.Pristine() && |csp.dom| == n * n
    modifies csp
    ensures csp.Valid() && csp.Pristine() && csp.dom == old(csp.dom)
    ensures csp.cons == old(csp.cons) + NeqLine(csp.dom, n, i, isRow)
  {
    var pairs := Combos(n);
    ghost var dom := csp.dom;
    ghost var cons0 := csp.cons;
    ghost var line := LineScope(n, i, isRow);
    ghost var cs := NeqLine(csp.dom, n, i, isRow);
    LineScopeWf(n, i, isRow);
    var q := 0;
    while q < |pairs|
      invariant 0 <= q <= |pairs|
      invariant csp.Valid() && csp.Pristine() && csp.dom == dom
      invariant csp.cons == cons0 + cs[..q]
    {
      ghost var before := csp.cons;
      var (j, k) := pairs[q];
      var left, right;
      if isRow {
        left, right := varArray[i][j], varArray[i][k];
      } else {
        left, right := varArray[j][i], varArray[k][i];
      }
      assert left == line[j] && right == line[k];
      AddPair(csp, left, right, Ne);
      assert cs[q] == NeqCon(dom, line, j, k);
      PrefixNext(cs, q, cons0, before, csp.cons);
      q := q + 1;
    }
    assert cs[..|pairs|] == cs;
  }

  /** add_binary_row_and_col_constraints_to_csp: the not-equal constraints of every row (or column). */
  method AddBinaryLines(grid: seq<seq<Cell>>, varArray: seq<seq<Var>>, csp: Csp, isRow: bool)
    requires WfGrid(grid) && varArray == VarArray(|grid|)
    requires csp.Valid() && csp.Pristine() && |csp.dom| == |grid| * |grid|
    modifies csp
    ensures csp.Valid() && csp.Pristine() && csp.dom == old(csp.dom)
    ensures csp.cons == old(csp.cons) + BinaryCons(csp.dom, |grid|, isRow, |grid|)
  {
    var n := |grid|;
    ghost var dom := csp.dom;
    ghost var cons0 := csp.cons;
    var i := 0;
    while i < n
      invariant 0 <= i <= n
      invariant csp.Valid() && csp.Pristine() && csp.dom == dom
      invariant csp.cons == cons0 + BinaryCons(dom, n, isRow, i)
    {
      AddNeqLineNext(varArray, csp, n, i, isRow, cons0);
      i := i + 1;
    }
  }

  /** One round of the loop above: the not-equal constraints grow by line `i`. */
  method AddNeqLineNext(varArray: seq<seq<Var>>, csp: Csp, n: nat, i: nat, isRow: bool, ghost cons0: seq<Constraint>)
    requires i < n && varArray == VarArray(n)
    requires csp.Valid() && csp.Pristine() && |csp.dom| == n * n
    requires csp.cons == cons0 + BinaryCons(csp.dom, n, isRow, i)
    modifies csp
    ensures csp.Valid() && csp.Pristine() && csp.dom == old(csp.dom)
    ensures csp.cons == cons0 + BinaryCons(csp.dom, n, isRow, i + 1)
  {
    ghost var before := csp.cons;
    AddNeqLine(varArray, csp, n, i, isRow);
    BinaryConsNext(csp.dom, n, isRow, i, cons0, before, csp.cons);
  }

  /** The current domains of the variables of `scope`, in order. */
  method CurDomains(csp: Csp, scope: seq<Var>) returns (ds: seq<seq<int>>)
    requires csp.Valid() && csp.Pristine() && InVars(scope, |csp.dom|)
    ensures ds == LineDoms(csp.dom, scope)
  {
    ds := [];
    var p := 0;
    while p < |scope|
      invariant 0 <= p <= |scope|
      invariant ds == LineDoms(csp.dom, scope)[..p]
    {
      PristineCur(csp.dom, csp.live, csp.asg, scope[p]);
      var d := csp.CurDomain(scope[p]);
      assert LineDoms(csp.dom, scope)[..p + 1] == LineDoms(csp.dom, scope)[..p] + [d];
      ds := ds + [d];
      p := p + 1;
    }
    assert LineDoms(csp.dom, scope)[..|scope|] == LineDoms(csp.dom, scope);
  }

  /**
   * The all-different constraint of row (isRow) or column `i`: the tuples
   * of the product of the line's current domains with no value repeated.
   */
  method AddNaryLine(varArray: seq<seq<Var>>, csp: Csp, n: nat, i: nat, isRow: bool)
    requires i < n && varArray == VarArray(n)
    requires csp.Valid() && csp.Pristine() && |csp.dom| == n * n
    modifies csp
    ensures csp.Valid() && csp.Pristine() && csp.dom == old(csp.dom)
    ensures csp.cons == old(csp.cons) + [NaryCon(csp.dom, n, i, isRow)]
  {
    var scope;
    if isRow {
      scope := varArray[i];
    } else {
      scope := seq(n, r requires 0 <= r < n => varArray[r][i]);
    }
    assert scope == LineScope(n, i, isRow);
    LineScopeWf(n, i, isRow);
    var ds := CurDomains(csp, scope);
    var ts := AllDiffTuples(ds, n);
    AllDiffOfMembers(Product(ds), n);
    csp.AddConstraint(Constraint(scope, ts));
  }

  /** One round of the loop below: the list of all-different constraints grows by line `i`. */
  method AddNaryLineNext(varArray: seq<seq<Var>>, csp: Csp, n: nat, i: nat, isRow: bool, ghost cons0: seq<Constraint>)
    requires i < n && varArray == VarArray(n)
    requires csp.Valid() && csp.Pristine() && |csp.dom| == n * n
    requires csp.cons == cons0 + NaryCons(csp.dom, n, isRow, i)
    modifies csp
    ensures csp.Valid() && csp.Pristine() && csp.dom == old(csp.dom)
    ensures csp.cons == cons0 + NaryCons(csp.dom, n, isRow, i + 1)
  {
    ghost var before := csp.cons;
    AddNaryLine(varArray, csp, n, i, isRow);
    NaryConsNext(csp.dom, n, isRow, i, cons0, before, csp.cons);
  }

  /** add_nary_row_col_contraints_to_csp: one all-different constraint per row (or column). */
  method AddNaryLines(grid: seq<seq<Cell>>, varArray: seq<seq<Var>>, csp: Csp, isRow: bool)
    requires WfGrid(grid) && varArray == VarArray(|grid|)
    requires csp.Valid() && csp.Pristine() && |csp.dom| == |grid| * |grid|
    modifies csp
    ensures csp.Valid() && csp.Pristine() && csp.dom == old(csp.dom)
    ensures csp.cons == old(csp.cons) + NaryCons(csp.dom, |grid|, isRow, |grid|)
  {
    var n := |grid|;
    ghost var dom := csp.dom;
    ghost var cons0 := csp.cons;
    var i := 0;
    while i < n
      invariant 0 <= i <= n
      invariant csp.Valid() && csp.Pristine() && csp.dom == dom
      invariant csp.cons == cons0 + NaryCons(dom, n, isRow, i)
    {
      AddNaryLineNext(varArray, csp, n, i, isRow, cons0);
      i := i + 1;
    }
  }

  /** The inequality constraints of the markers of row `i`, left to right. */
  method AddRowInequalities(grid: seq<seq<Cell>>, varArray: seq<seq<Var>>, csp: Csp, i: nat)
    requires WfGrid(grid) && i < |grid| && varArray == VarArray(|grid|)
    requires csp.Valid() && csp.Pristine() && |csp.dom| == |grid| * |grid|
    modifies csp
    ensures csp.Valid() && csp.Pristine() && csp.dom == old(csp.dom)
    ensures csp.cons == old(csp.cons) + IneqRow(grid, csp.dom, i, |grid| - 1)
  {
    var n := |grid|;
    ghost var dom := csp.dom;
    ghost var cons0 := csp.cons;
    var j := 0;
    while j < n - 1
      invariant 0 <= j <= n - 1
      invariant csp.Valid() && csp.Pristine() && csp.dom == dom
      invariant csp.cons == cons0 + IneqRow(grid, dom, i, j)
    {
      AddMarker(grid, varArray, csp, i, j, cons0);
      j := j + 1;
    }
  }

  /** One round of the loop above: the constraint, if any, of the marker right of cell (i, j). */
  method AddMarker(grid: seq<seq<Cell>>, varArray: seq<seq<Var>>, csp: Csp, i: nat, j: nat, ghost cons0: seq<Constraint>)
    requires WfGrid(grid) && i < |grid| && j + 1 < |grid| && varArray == VarArray(|grid|)
    requires csp.Valid() && csp.Pristine() && |csp.dom| == |grid| * |grid|
    requires csp.cons == cons0 + IneqRow(grid, csp.dom, i, j)
    modifies csp
    ensures csp.Valid() && csp.Pristine() && csp.dom == old(csp.dom)
    ensures csp.cons == cons0 + IneqRow(grid, csp.dom, i, j + 1)
  {
    var n := |grid|;
    ghost var before := csp.cons;
    var left := varArray[i][j];
    var right := varArray[i][j + 1];
    VarOfBound(n, i, j);
    VarOfBound(n, i, j + 1);
    VarOfInjective(n, i, j, i, j + 1);
    var mark := MarkAt(grid, i, j);
    if mark == Mark('>') {
      AddPair(csp, left, right, Gt);
    } else if mark == Mark('<') {
      AddPair(csp, left, right, Lt);
    }
    IneqRowNext(grid, csp.dom, i, j, cons0, before, csp.cons);
  }

  /** add_binary_inequality_constraints_to_csp: the inequality constraints of every row. */
  method AddInequalities(grid: seq<seq<Cell>>, varArray: seq<seq<Var>>, csp: Csp)
    requires WfGrid(grid) && varArray == VarArray(|grid|)
    requires csp.Valid() && csp.Pristine() && |csp.dom| == |grid| * |grid|
    modifies csp
    ensures csp.Valid() && csp.Pristine() && csp.dom == old(csp.dom)
    ensures csp.cons == old(csp.cons) + IneqCons(grid, csp.dom, |grid|)
  {
    var n := |grid|;
    ghost var dom := csp.dom;
    ghost var cons0 := csp.cons;
    var i := 0;
    while i < n
      invariant 0 <= i <= n
      invariant csp.Valid() && csp.Pristine() && csp.dom == dom
      invariant csp.cons == cons0 + IneqCons(grid, dom, i)
    {
      AddRowNext(grid, varArray, csp, i, cons0);
      i := i + 1;
    }
  }

  /** One round of the loop above: the inequality constraints grow by row `i`. */
  method AddRowNext(grid: seq<seq<Cell>>, varArray: seq<seq<Var>>, csp: Csp, i: nat, ghost cons0: seq<Constraint>)
    requires WfGrid(grid) && i < |grid| && varArray == VarArray(|grid|)
    requires csp.Valid() && csp.Pristine() && |csp.dom| == |grid| * |grid|
    requires csp.cons == cons0 + IneqCons(grid, csp.dom, i)
    modifies csp
    ensures csp.Valid() && csp.Pristine() && csp.dom == old(csp.dom)
    ensures csp.cons == cons0 + IneqCons(grid, csp.dom, i + 1)
  {
    ghost var before := csp.cons;
    AddRowInequalities(grid, varArray, csp, i);
    IneqConsNext(grid, csp.dom, i, cons0, before, csp.cons);
  }

  lemma Model1Assembled(grid: seq<seq<Cell>>, rows: seq<Constraint>, lines: seq<Constraint>, all: seq<Constraint>)
    requires WfGrid(grid)
    requires rows == [] + BinaryCons(Doms(grid), |grid|, true, |grid|)
    requires lines == rows + BinaryCons(Doms(grid), |grid|, false, |grid|)
    requires all == lines + IneqCons(grid, Doms(grid), |grid|)
    ensures all == Model1Cons(grid)
  {
    assert rows == BinaryCons(Doms(grid), |grid|, true, |grid|);
  }

  lemma Model2Assembled(grid: seq<seq<Cell>>, rows: seq<Constraint>, lines: seq<Constraint>, all: seq<Constraint>)
    requires WfGrid(grid)
    requires rows == [] + NaryCons(Doms(grid), |grid|, true, |grid|)
    requires lines == rows + NaryCons(Doms(grid), |grid|, false, |grid|)
    requires all == lines + IneqCons(grid, Doms(grid), |grid|)
    ensures all == Model2Cons(grid)
  {
    assert rows == NaryCons(Doms(grid), |grid|, true, |grid|);
  }

  /** futoshiki_csp_model_1: binary not-equal rows, then columns, then the markers. */
  method Model1(grid: seq<seq<Cell>>) returns (csp: Csp, varArray: seq<seq<Var>>)
    requires WfGrid(grid)
    ensures fresh(csp) && csp.Valid() && csp.Pristine()
    ensures csp.dom == Doms(grid) && csp.cons == Model1Cons(grid)
    ensures varArray == VarArray(|grid|)
  {
    var doms;
    varArray, doms := ExtractVariables(grid);
    csp := new Csp(doms);
    AddBinaryLines(grid, varArray, csp, true);
    ghost var rows := csp.cons;
    AddBinaryLines(grid, varArray, csp, false);
    ghost var lines := csp.cons;
    AddInequalities(grid, varArray, csp);
    Model1Assembled(grid, rows, lines, csp.cons);
  }

  /** futoshiki_csp_model_2: all-different rows, then columns, then the markers. */
  method Model2(grid: seq<seq<Cell>>) returns (csp: Csp, varArray: seq<seq<Var>>)
    requires WfGrid(grid)
    ensures fresh(csp) && csp.Valid() && csp.Pristine()
    ensures csp.dom == Doms(grid) && csp.cons == Model2Cons(grid)
    ensures varArray == VarArray(|grid|)
  {
    var doms;
    varArray, doms := ExtractVariables(grid);
    csp := new Csp(doms);
    AddNaryLines(grid, varArray, csp, true);
    ghost var rows := csp.cons;
    AddNaryLines(grid, varArray, csp, false);
    ghost var lines := csp.cons;
    AddInequalities(grid, varArray, csp);
    Model2Assembled(grid, rows, lines, csp.cons);
  }
}
