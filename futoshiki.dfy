/**
 * The Futoshiki model builder.  An n×n puzzle is given as n rows of 2n−1
 * cells: the even columns hold the cell values (0 for an empty cell), the
 * odd columns the markers between horizontally adjacent cells ('<', '>' or
 * anything else for none).  The builder makes one variable per cell, in
 * row-major order, and adds row and column constraints (pairwise not-equal
 * in model 1, one all-different per line in model 2) and the inequality
 * constraints of the markers.  Every constraint lists its satisfying tuples.
 */
module Futoshiki {
  import opened CspBase

  /** A grid cell: a number (0 = empty) or a marker between two numbers. */
  datatype Cell = Num(value: int) | Mark(symbol: char)

  /** The value cell of row `r`, board column `c`: grid column 2c. */
  function CellAt(grid: seq<seq<Cell>>, r: nat, c: nat): Cell
    requires r < |grid| && 2 * c < |grid[r]|
  {
    grid[r][2 * c]
  }

  /** The marker between board columns `c` and `c + 1` of row `r`: grid column 2c + 1. */
  function MarkAt(grid: seq<seq<Cell>>, r: nat, c: nat): Cell
    requires r < |grid| && 2 * c + 1 < |grid[r]|
  {
    grid[r][2 * c + 1]
  }

  /**
   * At least one row (the row-major split of the variable list steps by n),
   * every row 2n−1 cells long, and numbers in the even columns.
   */
  ghost predicate WfGrid(grid: seq<seq<Cell>>)
  {
    |grid| >= 1 &&
    (forall r :: 0 <= r < |grid| ==> |grid[r]| == 2 * |grid| - 1) &&
    (forall r, c :: 0 <= r < |grid| && 0 <= c < |grid| ==> CellAt(grid, r, c).Num?)
  }

  /** The list [1, 2, ..., n]. */
  function OneTo(n: nat): (r: seq<int>)
    ensures |r| == n && forall k :: 0 <= k < n ==> r[k] == k + 1
    ensures Distinct(r)
  {
    seq(n, k => k + 1)
  }

  /** The domain of the variable of cell (r, c): [1..n] when empty, else its value alone. */
  function CellDomain(grid: seq<seq<Cell>>, r: nat, c: nat): (d: seq<int>)
    requires WfGrid(grid) && r < |grid| && c < |grid|
    ensures Distinct(d)
  {
    var v := CellAt(grid, r, c).value;
    if v == 0 then OneTo(|grid|) else [v]
  }

  // ---------------------------------------------------------------------
  // Variables
  // ---------------------------------------------------------------------

  /** The index of the variable of cell (r, c) in the row-major variable list. */
  function VarOf(n: nat, r: nat, c: nat): nat
  {
    r * n + c
  }

  lemma {:induction false} MulLe(a: nat, b: nat, n: nat)
    requires a <= b
    ensures a * n <= b * n
    decreases b - a
  {
    if a < b {
      MulLe(a, b - 1, n);
      assert b * n == (b - 1) * n + n;
    }
  }

  /** The variable of a cell of row `r < i` comes before the variables of row `i`. */
  lemma VarOfBefore(n: nat, r: nat, c: nat, i: nat)
    requires r < i && c < n
    ensures VarOf(n, r, c) < i * n
  {
    MulLe(r + 1, i, n);
    assert (r + 1) * n == r * n + n;
  }

  lemma VarOfBound(n: nat, r: nat, c: nat)
    requires r < n && c < n
    ensures VarOf(n, r, c) < n * n
  {
    VarOfBefore(n, r, c, n);
  }

  /** Different cells have different variables. */
  lemma VarOfInjective(n: nat, r1: nat, c1: nat, r2: nat, c2: nat)
    requires c1 < n && c2 < n
    ensures VarOf(n, r1, c1) == VarOf(n, r2, c2) ==> r1 == r2 && c1 == c2
  {
    if r1 < r2 {
      VarOfBefore(n, r1, c1, r2);
    } else if r2 < r1 {
      VarOfBefore(n, r2, c2, r1);
    }
  }

  /** The domains of the cells of row `r`, left to right. */
  function RowDoms(grid: seq<seq<Cell>>, r: nat): (ds: seq<seq<int>>)
    requires WfGrid(grid) && r < |grid|
    ensures |ds| == |grid|
  {
    seq(|grid|, c requires 0 <= c < |grid| => CellDomain(grid, r, c))
  }

  /** The domains of the variables of the first `i` rows, in row-major order. */
  function DomsUpTo(grid: seq<seq<Cell>>, i: nat): (ds: seq<seq<int>>)
    requires WfGrid(grid) && i <= |grid|
    ensures |ds| == i * |grid|
  {
    if i == 0 then [] else DomsUpTo(grid, i - 1) + RowDoms(grid, i - 1)
  }

  /** The domains of all n·n variables, in row-major order. */
  function Doms(grid: seq<seq<Cell>>): (ds: seq<seq<int>>)
    requires WfGrid(grid)
    ensures |ds| == |grid| * |grid|
  {
    DomsUpTo(grid, |grid|)
  }

  /** Variable `VarOf(n, r, c)` of the first `i` rows has the domain of cell (r, c). */
  lemma {:induction false} DomsUpToAt(grid: seq<seq<Cell>>, i: nat, r: nat, c: nat)
    requires WfGrid(grid) && r < i <= |grid| && c < |grid|
    ensures VarOf(|grid|, r, c) < |DomsUpTo(grid, i)|
    ensures DomsUpTo(grid, i)[VarOf(|grid|, r, c)] == CellDomain(grid, r, c)
    decreases i
  {
    var n := |grid|;
    VarOfBefore(n, r, c, i);
    if r < i - 1 {
      DomsUpToAt(grid, i - 1, r, c);
    } else {
      assert VarOf(n, r, c) == (i - 1) * n + c;
    }
  }

  /** Every variable's domain is that of its cell. */
  lemma DomsAt(grid: seq<seq<Cell>>, r: nat, c: nat)
    requires WfGrid(grid) && r < |grid| && c < |grid|
    ensures VarOf(|grid|, r, c) < |Doms(grid)|
    ensures Doms(grid)[VarOf(|grid|, r, c)] == CellDomain(grid, r, c)
  {
    DomsUpToAt(grid, |grid|, r, c);
  }

  /** The n×n array of variables: entry [r][c] is the variable of cell (r, c). */
  function VarArray(n: nat): (a: seq<seq<Var>>)
    ensures |a| == n && forall r :: 0 <= r < n ==> |a[r]| == n
    ensures forall r, c :: 0 <= r < n && 0 <= c < n ==> a[r][c] == VarOf(n, r, c)
  {
    seq(n, r requires 0 <= r < n => seq(n, c requires 0 <= c < n => VarOf(n, r, c)))
  }

  /** The variables of row `i` (isRow) or column `i`, in order. */
  function LineScope(n: nat, i: nat, isRow: bool): (s: seq<Var>)
    ensures |s| == n
    ensures forall k :: 0 <= k < n ==> s[k] == if isRow then VarOf(n, i, k) else VarOf(n, k, i)
    ensures i < n ==> InVars(s, n * n)
  {
    LineBound(n, i);
    if isRow then seq(n, k requires 0 <= k < n => VarOf(n, i, k))
    else seq(n, k requires 0 <= k < n => VarOf(n, k, i))
  }

  lemma LineBound(n: nat, i: nat)
    ensures i < n ==> forall k :: 0 <= k < n ==> VarOf(n, i, k) < n * n && VarOf(n, k, i) < n * n
  {
    if i < n {
      forall k | 0 <= k < n ensures VarOf(n, i, k) < n * n && VarOf(n, k, i) < n * n {
        VarOfBound(n, i, k);
        VarOfBound(n, k, i);
      }
    }
  }

  /** A line's variables are distinct and inside the variable list. */
  lemma LineScopeWf(n: nat, i: nat, isRow: bool)
    requires i < n
    ensures Distinct(LineScope(n, i, isRow))
  {
    var s := LineScope(n, i, isRow);
    forall j, k | 0 <= j < k < n ensures s[j] != s[k] {
      if isRow { VarOfInjective(n, i, j, i, k); } else { VarOfInjective(n, j, i, k, i); }
    }
  }

  // ---------------------------------------------------------------------
  // Satisfying tuples
  // ---------------------------------------------------------------------

  /** The relation a binary constraint keeps between its left and right value. */
  datatype Rel = Ne | Lt | Gt

  predicate Holds(rel: Rel, a: int, b: int)
  {
    match rel
    case Ne => a != b
    case Lt => a < b
    case Gt => a > b
  }

  /** The pairs [a, b], b running over `db` in order, that satisfy `rel`. */
  function PairRow(a: int, db: seq<int>, rel: Rel): seq<seq<int>>
    decreases |db|
  {
    if db == [] then []
    else
      var b := db[|db| - 1];
      PairRow(a, db[..|db| - 1], rel) + (if Holds(rel, a, b) then [[a, b]] else [])
  }

  /** The pairs of `da` × `db`, in nested-loop order, that satisfy `rel`. */
  function PairsOf(da: seq<int>, db: seq<int>, rel: Rel): seq<seq<int>>
    decreases |da|
  {
    if da == [] then [] else PairsOf(da[..|da| - 1], db, rel) + PairRow(da[|da| - 1], db, rel)
  }

  lemma {:induction false} PairRowMembers(a: int, db: seq<int>, rel: Rel)
    ensures forall t :: t in PairRow(a, db, rel) <==> |t| == 2 && t[0] == a && t[1] in db && Holds(rel, a, t[1])
    decreases |db|
  {
    if db != [] {
      var init := db[..|db| - 1];
      var b := db[|db| - 1];
      PairRowMembers(a, init, rel);
      assert db == init + [b];
      forall t | |t| == 2 && t[0] == a && t[1] == b ensures t == [a, b] {
      }
    }
  }

  /** The satisfying tuples of a binary constraint: exactly the pairs of the domains in `rel`. */
  lemma {:induction false} PairsOfMembers(da: seq<int>, db: seq<int>, rel: Rel)
    ensures forall t :: t in PairsOf(da, db, rel) <==>
      |t| == 2 && t[0] in da && t[1] in db && Holds(rel, t[0], t[1])
    decreases |da|
  {
    if da != [] {
      var init := da[..|da| - 1];
      PairsOfMembers(init, db, rel);
      PairRowMembers(da[|da| - 1], db, rel);
      assert da == init + [da[|da| - 1]];
    }
  }

  /** [a] + p for every p of `ps`. */
  function PrefixAll(a: int, ps: seq<seq<int>>): (r: seq<seq<int>>)
    ensures |r| == |ps| && forall q :: 0 <= q < |ps| ==> r[q] == [a] + ps[q]
  {
    seq(|ps|, q requires 0 <= q < |ps| => [a] + ps[q])
  }

  /** For each a of `d` in order, [a] + p for every p of `ps`. */
  function PrependEach(d: seq<int>, ps: seq<seq<int>>): seq<seq<int>>
    decreases |d|
  {
    if d == [] then [] else PrefixAll(d[0], ps) + PrependEach(d[1..], ps)
  }

  /** itertools.product(*ds): the cartesian product, first component slowest. */
  function Product(ds: seq<seq<int>>): seq<seq<int>>
    decreases |ds|
  {
    if ds == [] then [[]] else PrependEach(ds[0], Product(ds[1..]))
  }

  lemma {:induction false} PrependEachMembers(d: seq<int>, ps: seq<seq<int>>)
    ensures forall t :: t in PrependEach(d, ps) <==> |t| >= 1 && t[0] in d && t[1..] in ps
    decreases |d|
  {
    if d != [] {
      PrependEachMembers(d[1..], ps);
      var head := PrefixAll(d[0], ps);
      forall t ensures t in head <==> |t| >= 1 && t[0] == d[0] && t[1..] in ps {
        if t in head {
          var q :| 0 <= q < |head| && head[q] == t;
          assert t[1..] == ps[q];
        }
        if |t| >= 1 && t[0] == d[0] && t[1..] in ps {
          var q :| 0 <= q < |ps| && ps[q] == t[1..];
          assert head[q] == t;
        }
      }
      assert d == [d[0]] + d[1..];
    }
  }

  /** The product holds exactly the tuples with component k drawn from `ds[k]`. */
  lemma {:induction false} ProductMembers(ds: seq<seq<int>>)
    ensures forall t :: t in Product(ds) <==> |t| == |ds| && forall k :: 0 <= k < |ds| ==> t[k] in ds[k]
    decreases |ds|
  {
    if ds != [] {
      ProductMembers(ds[1..]);
      PrependEachMembers(ds[0], Product(ds[1..]));
      forall t ensures t in Product(ds) <==> |t| == |ds| && forall k :: 0 <= k < |ds| ==> t[k] in ds[k] {
        if |t| == |ds| && forall k :: 0 <= k < |ds| ==> t[k] in ds[k] {
          assert forall k :: 0 <= k < |ds| - 1 ==> t[1..][k] == t[k + 1];
        }
        if t in Product(ds) {
          forall k | 0 <= k < |ds| ensures t[k] in ds[k] {
            if k > 0 {
              assert t[k] == t[1..][k - 1];
            }
          }
        }
      }
    }
  }

  /** The tuples of `ps`, in order, whose components are pairwise distinct and that have `n` of them. */
  function AllDiffOf(ps: seq<seq<int>>, n: nat): seq<seq<int>>
    decreases |ps|
  {
    if ps == [] then []
    else
      var p := ps[|ps| - 1];
      AllDiffOf(ps[..|ps| - 1], n) + (if Distinct(p) && |p| == n then [p] else [])
  }

  lemma {:induction false} AllDiffOfMembers(ps: seq<seq<int>>, n: nat)
    ensures forall t :: t in AllDiffOf(ps, n) <==> t in ps && Distinct(t) && |t| == n
    decreases |ps|
  {
    if ps != [] {
      var init := ps[..|ps| - 1];
      AllDiffOfMembers(init, n);
      assert ps == init + [ps[|ps| - 1]];
    }
  }

  /** The satisfying tuples of an all-different constraint: the product's tuples without repeats. */
  lemma AllDiffMembers(ds: seq<seq<int>>)
    ensures forall t :: t in AllDiffOf(Product(ds), |ds|) <==>
      |t| == |ds| && (forall k :: 0 <= k < |ds| ==> t[k] in ds[k]) && Distinct(t)
  {
    ProductMembers(ds);
    AllDiffOfMembers(Product(ds), |ds|);
  }

  // ---------------------------------------------------------------------
  // Index pairs of a line
  // ---------------------------------------------------------------------

  /** The pairs (j, k) with j < k < n, k increasing. */
  function PairsWith(j: nat, n: nat): (r: seq<(nat, nat)>)
    ensures |r| == if j < n then n - j - 1 else 0
    ensures forall q :: 0 <= q < |r| ==> r[q] == (j, j + 1 + q)
  {
    if j < n then seq(n - j - 1, q => (j, j + 1 + q)) else []
  }

  /** itertools.combinations(range(n), 2) from first index `j` on: lexicographic order. */
  function CombosFrom(j: nat, n: nat): (r: seq<(nat, nat)>)
    ensures forall q :: 0 <= q < |r| ==> j <= r[q].0 < r[q].1 < n
    decreases n - j
  {
    if j >= n then [] else PairsWith(j, n) + CombosFrom(j + 1, n)
  }

  function Combos(n: nat): (r: seq<(nat, nat)>)
    ensures forall q :: 0 <= q < |r| ==> r[q].0 < r[q].1 < n
  {
    CombosFrom(0, n)
  }

  lemma {:induction false} CombosFromMembers(j: nat, n: nat)
    ensures forall p :: p in CombosFrom(j, n) <==> j <= p.0 < p.1 < n
    decreases n - j
  {
    if j < n {
      CombosFromMembers(j + 1, n);
      var head := PairsWith(j, n);
      forall p ensures p in head <==> p.0 == j && j < p.1 < n {
        if p.0 == j && j < p.1 < n {
          assert head[p.1 - j - 1] == p;
        }
      }
    }
  }

  lemma {:induction false} CombosFromDistinct(j: nat, n: nat)
    ensures Distinct(CombosFrom(j, n))
    decreases n - j
  {
    if j < n {
      CombosFromDistinct(j + 1, n);
      CombosFromMembers(j + 1, n);
      var head := PairsWith(j, n);
      var rest := CombosFrom(j + 1, n);
      var all := head + rest;
      forall a, b | 0 <= a < b < |all| ensures all[a] != all[b] {
        if b >= |head| && a < |head| {
          assert all[b] == rest[b - |head|];
          assert rest[b - |head|] in rest;
        }
      }
    }
  }

  lemma {:induction false} CombosFromCount(j: nat, n: nat)
    ensures 2 * |CombosFrom(j, n)| == if j < n then (n - j) * (n - j - 1) else 0
    decreases n - j
  {
    if j < n {
      CombosFromCount(j + 1, n);
      var m := n - j;
      assert m * (m - 1) == (m - 1) * (m - 2) + 2 * (m - 1);
    }
  }

  /** Each unordered pair of positions appears once; there are n(n−1)/2 of them. */
  lemma CombosFacts(n: nat)
    ensures forall p :: p in Combos(n) <==> p.0 < p.1 < n
    ensures Distinct(Combos(n))
    ensures 2 * |Combos(n)| == n * (n - 1)
  {
    CombosFromMembers(0, n);
    CombosFromDistinct(0, n);
    CombosFromCount(0, n);
  }

  // ---------------------------------------------------------------------
  // The constraints of the two models
  // ---------------------------------------------------------------------

  /** Every variable of `scope` is one of the first `nv`. */
  ghost predicate InVars(scope: seq<Var>, nv: nat)
  {
    forall k :: 0 <= k < |scope| ==> scope[k] < nv
  }

  /** The binary not-equal constraint between positions j and k of a line. */
  function NeqCon(dom: seq<seq<int>>, line: seq<Var>, j: nat, k: nat): Constraint
    requires j < |line| && k < |line| && InVars(line, |dom|)
  {
    Constraint([line[j], line[k]], PairsOf(dom[line[j]], dom[line[k]], Ne))
  }

  /** The not-equal constraints of row or column `i`: one per pair of positions j < k. */
  function NeqLine(dom: seq<seq<int>>, n: nat, i: nat, isRow: bool): (cs: seq<Constraint>)
    requires i < n && |dom| == n * n
    ensures |cs| == |Combos(n)|
  {
    var line := LineScope(n, i, isRow);
    var ps := Combos(n);
    seq(|ps|, q requires 0 <= q < |ps| => NeqCon(dom, line, ps[q].0, ps[q].1))
  }

  /** The position of the pair (j, k) among the pairs of a line. */
  lemma CombosIndex(n: nat, j: nat, k: nat) returns (q: nat)
    requires j < k < n
    ensures q < |Combos(n)| && Combos(n)[q] == (j, k)
  {
    CombosFacts(n);
    assert (j, k) in Combos(n);
    q :| 0 <= q < |Combos(n)| && Combos(n)[q] == (j, k);
  }

  /** The not-equal constraints of the first `m` rows (or columns). */
  function BinaryCons(dom: seq<seq<int>>, n: nat, isRow: bool, m: nat): (cs: seq<Constraint>)
    requires m <= n && |dom| == n * n
    ensures |cs| == m * |Combos(n)|
  {
    if m == 0 then [] else BinaryCons(dom, n, isRow, m - 1) + NeqLine(dom, n, m - 1, isRow)
  }

  /** The domains of the variables of `line`, in order. */
  function LineDoms(dom: seq<seq<int>>, line: seq<Var>): (ds: seq<seq<int>>)
    requires InVars(line, |dom|)
    ensures |ds| == |line|
  {
    seq(|line|, k requires 0 <= k < |line| => dom[line[k]])
  }

  /** The all-different constraint of row or column `i`. */
  function NaryCon(dom: seq<seq<int>>, n: nat, i: nat, isRow: bool): Constraint
    requires i < n && |dom| == n * n
  {
    var line := LineScope(n, i, isRow);
    Constraint(line, AllDiffOf(Product(LineDoms(dom, line)), n))
  }

  /** The all-different constraints of the first `m` rows (or columns). */
  function NaryCons(dom: seq<seq<int>>, n: nat, isRow: bool, m: nat): (cs: seq<Constraint>)
    requires m <= n && |dom| == n * n
  {
    if m == 0 then [] else NaryCons(dom, n, isRow, m - 1) + [NaryCon(dom, n, m - 1, isRow)]
  }

  /** The inequality constraint, if any, of the marker right of cell (i, j). */
  function IneqAt(grid: seq<seq<Cell>>, dom: seq<seq<int>>, i: nat, j: nat): seq<Constraint>
    requires WfGrid(grid) && i < |grid| && j + 1 < |grid| && |dom| == |grid| * |grid|
  {
    var n := |grid|;
    VarOfBound(n, i, j);
    VarOfBound(n, i, j + 1);
    var left := VarOf(n, i, j);
    var right := VarOf(n, i, j + 1);
    if MarkAt(grid, i, j) == Mark('>') then [Constraint([left, right], PairsOf(dom[left], dom[right], Gt))]
    else if MarkAt(grid, i, j) == Mark('<') then [Constraint([left, right], PairsOf(dom[left], dom[right], Lt))]
    else []
  }

  /** The inequality constraints of the first `m` markers of row `i`. */
  function IneqRow(grid: seq<seq<Cell>>, dom: seq<seq<int>>, i: nat, m: nat): seq<Constraint>
    requires WfGrid(grid) && i < |grid| && m < |grid| && |dom| == |grid| * |grid|
  {
    if m == 0 then [] else IneqRow(grid, dom, i, m - 1) + IneqAt(grid, dom, i, m - 1)
  }

  /** The inequality constraints of the first `m` rows. */
  function IneqCons(grid: seq<seq<Cell>>, dom: seq<seq<int>>, m: nat): seq<Constraint>
    requires WfGrid(grid) && m <= |grid| && |dom| == |grid| * |grid|
  {
    if m == 0 then [] else IneqCons(grid, dom, m - 1) + IneqRow(grid, dom, m - 1, |grid| - 1)
  }

  /** futoshiki_csp_model_1's constraints: row and column not-equal pairs, then the markers. */
  function Model1Cons(grid: seq<seq<Cell>>): seq<Constraint>
    requires WfGrid(grid)
  {
    var n := |grid|;
    var dom := Doms(grid);
    BinaryCons(dom, n, true, n) + BinaryCons(dom, n, false, n) + IneqCons(grid, dom, n)
  }

  /** futoshiki_csp_model_2's constraints: row and column all-different, then the markers. */
  function Model2Cons(grid: seq<seq<Cell>>): seq<Constraint>
    requires WfGrid(grid)
  {
    var n := |grid|;
    var dom := Doms(grid);
    NaryCons(dom, n, true, n) + NaryCons(dom, n, false, n) + IneqCons(grid, dom, n)
  }

  // ---------------------------------------------------------------------
  // What the constraint lists hold
  // ---------------------------------------------------------------------

  /** The constraint of positions j < k is among the line's constraints. */
  lemma NeqLineHas(dom: seq<seq<int>>, n: nat, i: nat, isRow: bool, j: nat, k: nat)
    requires i < n && |dom| == n * n && j < k < n
    ensures NeqCon(dom, LineScope(n, i, isRow), j, k) in NeqLine(dom, n, i, isRow)
  {
    var q := CombosIndex(n, j, k);
    assert NeqLine(dom, n, i, isRow)[q] == NeqCon(dom, LineScope(n, i, isRow), j, k);
  }

  /** Every constraint of the line is that of some pair of positions j < k. */
  lemma NeqLineOnly(dom: seq<seq<int>>, n: nat, i: nat, isRow: bool, c: Constraint)
    requires i < n && |dom| == n * n && c in NeqLine(dom, n, i, isRow)
    ensures exists j, k :: 0 <= j < k < n && c == NeqCon(dom, LineScope(n, i, isRow), j, k)
  {
    var cs := NeqLine(dom, n, i, isRow);
    var q :| 0 <= q < |cs| && cs[q] == c;
    var jk := Combos(n)[q];
    assert c == NeqCon(dom, LineScope(n, i, isRow), jk.0, jk.1);
  }

  /** The not-equal constraints of a line: one for each pair of positions j < k. */
  lemma NeqLineMembers(dom: seq<seq<int>>, n: nat, i: nat, isRow: bool)
    requires i < n && |dom| == n * n
    ensures forall c :: c in NeqLine(dom, n, i, isRow) <==>
      exists j, k :: 0 <= j < k < n && c == NeqCon(dom, LineScope(n, i, isRow), j, k)
  {
    var line := LineScope(n, i, isRow);
    forall c ensures c in NeqLine(dom, n, i, isRow) <==> exists j, k :: 0 <= j < k < n && c == NeqCon(dom, line, j, k) {
      if c in NeqLine(dom, n, i, isRow) {
        NeqLineOnly(dom, n, i, isRow, c);
      }
      if exists j, k :: 0 <= j < k < n && c == NeqCon(dom, line, j, k) {
        var j, k :| 0 <= j < k < n && c == NeqCon(dom, line, j, k);
        NeqLineHas(dom, n, i, isRow, j, k);
      }
    }
  }

  lemma {:induction false} BinaryConsHas(dom: seq<seq<int>>, n: nat, isRow: bool, m: nat, i: nat, j: nat, k: nat)
    requires m <= n && |dom| == n * n && i < m && j < k < n
    ensures NeqCon(dom, LineScope(n, i, isRow), j, k) in BinaryCons(dom, n, isRow, m)
    decreases m
  {
    if i == m - 1 {
      NeqLineHas(dom, n, i, isRow, j, k);
    } else {
      BinaryConsHas(dom, n, isRow, m - 1, i, j, k);
    }
  }

  lemma {:induction false} BinaryConsOnly(dom: seq<seq<int>>, n: nat, isRow: bool, m: nat, c: Constraint)
    requires m <= n && |dom| == n * n && c in BinaryCons(dom, n, isRow, m)
    ensures exists i, j, k :: 0 <= i < m && 0 <= j < k < n && c == NeqCon(dom, LineScope(n, i, isRow), j, k)
    decreases m
  {
    if c in NeqLine(dom, n, m - 1, isRow) {
      NeqLineOnly(dom, n, m - 1, isRow, c);
      var j, k :| 0 <= j < k < n && c == NeqCon(dom, LineScope(n, m - 1, isRow), j, k);
      assert 0 <= m - 1 < m;
    } else {
      BinaryConsOnly(dom, n, isRow, m - 1, c);
      var i, j, k :| 0 <= i < m - 1 && 0 <= j < k < n && c == NeqCon(dom, LineScope(n, i, isRow), j, k);
      assert 0 <= i < m;
    }
  }

  /** Each unordered pair of positions of each line has its not-equal constraint, and nothing else is there. */
  lemma BinaryConsMembers(dom: seq<seq<int>>, n: nat, isRow: bool)
    requires |dom| == n * n
    ensures forall c :: c in BinaryCons(dom, n, isRow, n) <==>
      exists i, j, k :: 0 <= i < n && 0 <= j < k < n && c == NeqCon(dom, LineScope(n, i, isRow), j, k)
  {
    forall c ensures c in BinaryCons(dom, n, isRow, n) <==>
      exists i, j, k :: 0 <= i < n && 0 <= j < k < n && c == NeqCon(dom, LineScope(n, i, isRow), j, k)
    {
      if c in BinaryCons(dom, n, isRow, n) {
        BinaryConsOnly(dom, n, isRow, n, c);
      }
      if exists i, j, k :: 0 <= i < n && 0 <= j < k < n && c == NeqCon(dom, LineScope(n, i, isRow), j, k) {
        var i, j, k :| 0 <= i < n && 0 <= j < k < n && c == NeqCon(dom, LineScope(n, i, isRow), j, k);
        BinaryConsHas(dom, n, isRow, n, i, j, k);
      }
    }
  }

  /** Model 1 has n·n(n−1)/2 not-equal constraints per direction. */
  lemma BinaryCount(dom: seq<seq<int>>, n: nat, isRow: bool)
    requires |dom| == n * n
    ensures 2 * |BinaryCons(dom, n, isRow, n)| == n * (n * (n - 1))
  {
    CombosFacts(n);
    var m := |Combos(n)|;
    assert 2 * (n * m) == n * (2 * m);
  }

  /** Model 2 has one all-different constraint per line, in line order. */
  lemma {:induction false} NaryConsAt(dom: seq<seq<int>>, n: nat, isRow: bool, m: nat)
    requires m <= n && |dom| == n * n
    ensures |NaryCons(dom, n, isRow, m)| == m
    ensures forall i :: 0 <= i < m ==> NaryCons(dom, n, isRow, m)[i] == NaryCon(dom, n, i, isRow)
    decreases m
  {
    if m > 0 {
      var j := m - 1;
      NaryConsAt(dom, n, isRow, j);
      var prev := NaryCons(dom, n, isRow, j);
      var cs := prev + [NaryCon(dom, n, j, isRow)];
      assert NaryCons(dom, n, isRow, j + 1) == cs;
      forall i | 0 <= i < m ensures cs[i] == NaryCon(dom, n, i, isRow) {
        if i < j {
          assert cs[i] == prev[i];
        }
      }
    }
  }

  /**
   * The all-different constraint of a line has the whole line, in order, as
   * its scope, and as tuples exactly the members of the domain product with
   * pairwise distinct components.
   */
  lemma NaryConMeaning(dom: seq<seq<int>>, n: nat, i: nat, isRow: bool)
    requires i < n && |dom| == n * n
    ensures NaryCon(dom, n, i, isRow).scope == LineScope(n, i, isRow)
    ensures forall t :: t in NaryCon(dom, n, i, isRow).tuples <==>
      |t| == n && (forall k :: 0 <= k < n ==> t[k] in dom[LineScope(n, i, isRow)[k]]) && Distinct(t)
  {
    AllDiffMembers(LineDoms(dom, LineScope(n, i, isRow)));
  }

  /**
   * A '<' marker between cells (i, j) and (i, j + 1) gives one constraint
   * whose tuples are the domain pairs with left < right, a '>' marker one with
   * left > right, and any other marker none.
   */
  lemma IneqAtMeaning(grid: seq<seq<Cell>>, dom: seq<seq<int>>, i: nat, j: nat)
    requires WfGrid(grid) && i < |grid| && j + 1 < |grid| && |dom| == |grid| * |grid|
    ensures VarOf(|grid|, i, j) < |dom| && VarOf(|grid|, i, j + 1) < |dom|
    ensures MarkAt(grid, i, j) != Mark('<') && MarkAt(grid, i, j) != Mark('>') ==> IneqAt(grid, dom, i, j) == []
    ensures MarkAt(grid, i, j) == Mark('<') || MarkAt(grid, i, j) == Mark('>') ==>
      |IneqAt(grid, dom, i, j)| == 1 &&
      IneqAt(grid, dom, i, j)[0].scope == [VarOf(|grid|, i, j), VarOf(|grid|, i, j + 1)]
    ensures MarkAt(grid, i, j) == Mark('<') ==> forall t :: t in IneqAt(grid, dom, i, j)[0].tuples <==>
      (|t| == 2 && t[0] in dom[VarOf(|grid|, i, j)] && t[1] in dom[VarOf(|grid|, i, j + 1)] && t[0] < t[1])
    ensures MarkAt(grid, i, j) == Mark('>') ==> forall t :: t in IneqAt(grid, dom, i, j)[0].tuples <==>
      (|t| == 2 && t[0] in dom[VarOf(|grid|, i, j)] && t[1] in dom[VarOf(|grid|, i, j + 1)] && t[0] > t[1])
  {
    var n := |grid|;
    VarOfBound(n, i, j);
    VarOfBound(n, i, j + 1);
    PairsOfMembers(dom[VarOf(n, i, j)], dom[VarOf(n, i, j + 1)], Lt);
    PairsOfMembers(dom[VarOf(n, i, j)], dom[VarOf(n, i, j + 1)], Gt);
  }

  lemma {:induction false} IneqRowMembers(grid: seq<seq<Cell>>, dom: seq<seq<int>>, i: nat, m: nat)
    requires WfGrid(grid) && i < |grid| && m < |grid| && |dom| == |grid| * |grid|
    ensures forall c :: c in IneqRow(grid, dom, i, m) <==> exists j :: 0 <= j < m && c in IneqAt(grid, dom, i, j)
    decreases m
  {
    if m > 0 {
      var k := m - 1;
      var at := IneqAt(grid, dom, i, k);
      assert IneqRow(grid, dom, i, k + 1) == IneqRow(grid, dom, i, k) + at;
      IneqRowMembers(grid, dom, i, k);
      forall c ensures c in IneqRow(grid, dom, i, m) <==> exists j :: 0 <= j < m && c in IneqAt(grid, dom, i, j) {
        if exists j :: 0 <= j < m && c in IneqAt(grid, dom, i, j) {
          var j :| 0 <= j < m && c in IneqAt(grid, dom, i, j);
          if j == k {
            assert c in at;
          }
        }
      }
    }
  }

  /** Every marker's constraint of an earlier row is among the inequality constraints. */
  lemma {:induction false} IneqConsHas(grid: seq<seq<Cell>>, dom: seq<seq<int>>, m: nat, i: nat, j: nat, c: Constraint)
    requires WfGrid(grid) && m <= |grid| && |dom| == |grid| * |grid|
    requires i < m && j < |grid| - 1 && c in IneqAt(grid, dom, i, j)
    ensures c in IneqCons(grid, dom, m)
    decreases m
  {
    var k := m - 1;
    var row := IneqRow(grid, dom, k, |grid| - 1);
    assert IneqCons(grid, dom, k + 1) == IneqCons(grid, dom, k) + row;
    if i == k {
      IneqRowMembers(grid, dom, k, |grid| - 1);
      assert c in row;
    } else {
      IneqConsHas(grid, dom, k, i, j, c);
    }
  }

  /** Every inequality constraint comes from a marker of an earlier row. */
  lemma {:induction false} IneqConsOnly(grid: seq<seq<Cell>>, dom: seq<seq<int>>, m: nat, c: Constraint)
    requires WfGrid(grid) && m <= |grid| && |dom| == |grid| * |grid|
    requires c in IneqCons(grid, dom, m)
    ensures exists i, j :: 0 <= i < m && 0 <= j < |grid| - 1 && c in IneqAt(grid, dom, i, j)
    decreases m
  {
    var k := m - 1;
    var row := IneqRow(grid, dom, k, |grid| - 1);
    assert IneqCons(grid, dom, k + 1) == IneqCons(grid, dom, k) + row;
    if c in row {
      IneqRowMembers(grid, dom, k, |grid| - 1);
      var j :| 0 <= j < |grid| - 1 && c in IneqAt(grid, dom, k, j);
    } else {
      IneqConsOnly(grid, dom, k, c);
    }
  }

  /** The inequality constraints are exactly those of the markers, row by row. */
  lemma IneqConsMembers(grid: seq<seq<Cell>>, dom: seq<seq<int>>, m: nat)
    requires WfGrid(grid) && m <= |grid| && |dom| == |grid| * |grid|
    ensures forall c :: c in IneqCons(grid, dom, m) <==>
      exists i, j :: 0 <= i < m && 0 <= j < |grid| - 1 && c in IneqAt(grid, dom, i, j)
  {
    forall c ensures c in IneqCons(grid, dom, m) <==>
      exists i, j :: 0 <= i < m && 0 <= j < |grid| - 1 && c in IneqAt(grid, dom, i, j)
    {
      if c in IneqCons(grid, dom, m) {
        IneqConsOnly(grid, dom, m, c);
      }
      if exists i, j :: 0 <= i < m && 0 <= j < |grid| - 1 && c in IneqAt(grid, dom, i, j) {
        var i, j :| 0 <= i < m && 0 <= j < |grid| - 1 && c in IneqAt(grid, dom, i, j);
        IneqConsHas(grid, dom, m, i, j, c);
      }
    }
  }

  // ---------------------------------------------------------------------
  // Every tuple fits its scope
  // ---------------------------------------------------------------------

  /**
   * A well-formed constraint whose every tuple has one component per scope
   * variable, drawn from that variable's domain.
   */
  ghost predicate Typed(c: Constraint, dom: seq<seq<int>>)
  {
    WfConstraint(c, |dom|) &&
    forall t, k :: t in c.tuples && 0 <= k < |t| ==> t[k] in dom[c.scope[k]]
  }

  ghost predicate AllTyped(cs: seq<Constraint>, dom: seq<seq<int>>)
  {
    forall ci :: 0 <= ci < |cs| ==> Typed(cs[ci], dom)
  }

  lemma AllTypedAppend(a: seq<Constraint>, b: seq<Constraint>, dom: seq<seq<int>>)
    requires AllTyped(a, dom) && AllTyped(b, dom)
    ensures AllTyped(a + b, dom)
  {
    forall ci | 0 <= ci < |a + b| ensures Typed((a + b)[ci], dom) {
      if ci >= |a| {
        assert (a + b)[ci] == b[ci - |a|];
      }
    }
  }

  lemma PairTyped(dom: seq<seq<int>>, left: Var, right: Var, rel: Rel)
    requires left < |dom| && right < |dom| && left != right
    ensures Typed(Constraint([left, right], PairsOf(dom[left], dom[right], rel)), dom)
  {
    PairsOfMembers(dom[left], dom[right], rel);
  }

  lemma {:induction false} BinaryConsTyped(dom: seq<seq<int>>, n: nat, isRow: bool, m: nat)
    requires m <= n && |dom| == n * n
    ensures AllTyped(BinaryCons(dom, n, isRow, m), dom)
    decreases m
  {
    if m > 0 {
      BinaryConsTyped(dom, n, isRow, m - 1);
      var line := LineScope(n, m - 1, isRow);
      var cs := NeqLine(dom, n, m - 1, isRow);
      LineScopeWf(n, m - 1, isRow);
      forall q | 0 <= q < |cs| ensures Typed(cs[q], dom) {
        var jk := Combos(n)[q];
        PairTyped(dom, line[jk.0], line[jk.1], Ne);
      }
      AllTypedAppend(BinaryCons(dom, n, isRow, m - 1), cs, dom);
    }
  }

  lemma NaryConTyped(dom: seq<seq<int>>, n: nat, i: nat, isRow: bool)
    requires i < n && |dom| == n * n
    ensures Typed(NaryCon(dom, n, i, isRow), dom)
  {
    LineScopeWf(n, i, isRow);
    NaryConMeaning(dom, n, i, isRow);
  }

  lemma {:induction false} NaryConsTyped(dom: seq<seq<int>>, n: nat, isRow: bool, m: nat)
    requires m <= n && |dom| == n * n
    ensures AllTyped(NaryCons(dom, n, isRow, m), dom)
    decreases m
  {
    if m > 0 {
      var j := m - 1;
      NaryConsTyped(dom, n, isRow, j);
      NaryConTyped(dom, n, j, isRow);
      var c := NaryCon(dom, n, j, isRow);
      assert AllTyped([c], dom) by {
        forall ci | 0 <= ci < 1 ensures Typed([c][ci], dom) { assert [c][ci] == c; }
      }
      AllTypedAppend(NaryCons(dom, n, isRow, j), [c], dom);
      assert NaryCons(dom, n, isRow, j + 1) == NaryCons(dom, n, isRow, j) + [c];
    }
  }

  lemma IneqAtTyped(grid: seq<seq<Cell>>, dom: seq<seq<int>>, i: nat, j: nat)
    requires WfGrid(grid) && i < |grid| && j + 1 < |grid| && |dom| == |grid| * |grid|
    ensures AllTyped(IneqAt(grid, dom, i, j), dom)
  {
    var n := |grid|;
    VarOfBound(n, i, j);
    VarOfBound(n, i, j + 1);
    VarOfInjective(n, i, j, i, j + 1);
    PairTyped(dom, VarOf(n, i, j), VarOf(n, i, j + 1), Lt);
    PairTyped(dom, VarOf(n, i, j), VarOf(n, i, j + 1), Gt);
  }

  lemma {:induction false} IneqRowTyped(grid: seq<seq<Cell>>, dom: seq<seq<int>>, i: nat, m: nat)
    requires WfGrid(grid) && i < |grid| && m < |grid| && |dom| == |grid| * |grid|
    ensures AllTyped(IneqRow(grid, dom, i, m), dom)
    decreases m
  {
    if m > 0 {
      var j := m - 1;
      IneqRowTyped(grid, dom, i, j);
      IneqAtTyped(grid, dom, i, j);
      AllTypedAppend(IneqRow(grid, dom, i, j), IneqAt(grid, dom, i, j), dom);
      assert IneqRow(grid, dom, i, j + 1) == IneqRow(grid, dom, i, j) + IneqAt(grid, dom, i, j);
    }
  }

  lemma {:induction false} IneqConsTyped(grid: seq<seq<Cell>>, dom: seq<seq<int>>, m: nat)
    requires WfGrid(grid) && m <= |grid| && |dom| == |grid| * |grid|
    ensures AllTyped(IneqCons(grid, dom, m), dom)
    decreases m
  {
    if m > 0 {
      var j := m - 1;
      IneqConsTyped(grid, dom, j);
      IneqRowTyped(grid, dom, j, |grid| - 1);
      AllTypedAppend(IneqCons(grid, dom, j), IneqRow(grid, dom, j, |grid| - 1), dom);
      assert IneqCons(grid, dom, j + 1) == IneqCons(grid, dom, j) + IneqRow(grid, dom, j, |grid| - 1);
    }
  }

  /** In both models every tuple has the arity of its scope and takes each value from its variable's domain. */
  lemma ModelsTyped(grid: seq<seq<Cell>>)
    requires WfGrid(grid)
    ensures AllTyped(Model1Cons(grid), Doms(grid))
    ensures AllTyped(Model2Cons(grid), Doms(grid))
  {
    var n := |grid|;
    var dom := Doms(grid);
    BinaryConsTyped(dom, n, true, n);
    BinaryConsTyped(dom, n, false, n);
    NaryConsTyped(dom, n, true, n);
    NaryConsTyped(dom, n, false, n);
    IneqConsTyped(grid, dom, n);
    AllTypedAppend(BinaryCons(dom, n, true, n), BinaryCons(dom, n, false, n), dom);
    AllTypedAppend(BinaryCons(dom, n, true, n) + BinaryCons(dom, n, false, n), IneqCons(grid, dom, n), dom);
    AllTypedAppend(NaryCons(dom, n, true, n), NaryCons(dom, n, false, n), dom);
    AllTypedAppend(NaryCons(dom, n, true, n) + NaryCons(dom, n, false, n), IneqCons(grid, dom, n), dom);
  }

  // ---------------------------------------------------------------------
  // The two models accept the same assignments
  // ---------------------------------------------------------------------

  /** A full assignment that gives each variable a value of its domain. */
  ghost predicate InDoms(sigma: seq<int>, dom: seq<seq<int>>)
  {
    |sigma| == |dom| && forall p :: 0 <= p < |sigma| ==> sigma[p] in dom[p]
  }

  lemma SatisfiesAllAppend(a: seq<Constraint>, b: seq<Constraint>, sigma: seq<int>)
    ensures SatisfiesAll(a + b, sigma) <==> SatisfiesAll(a, sigma) && SatisfiesAll(b, sigma)
  {
    if SatisfiesAll(a + b, sigma) {
      forall ci | 0 <= ci < |a| ensures Satisfies(a[ci], sigma) {
        assert (a + b)[ci] == a[ci];
      }
      forall ci | 0 <= ci < |b| ensures Satisfies(b[ci], sigma) {
        assert (a + b)[|a| + ci] == b[ci];
      }
    }
    if SatisfiesAll(a, sigma) && SatisfiesAll(b, sigma) {
      forall ci | 0 <= ci < |a + b| ensures Satisfies((a + b)[ci], sigma) {
        if ci >= |a| {
          assert (a + b)[ci] == b[ci - |a|];
        }
      }
    }
  }

  /** A not-equal constraint between two variables holds exactly when their in-domain values differ. */
  lemma NeqSatisfied(dom: seq<seq<int>>, left: Var, right: Var, sigma: seq<int>)
    requires InDoms(sigma, dom) && left < |dom| && right < |dom|
    ensures Satisfies(Constraint([left, right], PairsOf(dom[left], dom[right], Ne)), sigma) <==> sigma[left] != sigma[right]
  {
    PairsOfMembers(dom[left], dom[right], Ne);
    assert Project([left, right], sigma) == [sigma[left], sigma[right]];
  }

  /**
   * On one line, an in-domain assignment satisfies all the pairwise
   * not-equal constraints exactly when it satisfies the all-different one.
   */
  lemma LineAgree(dom: seq<seq<int>>, n: nat, i: nat, isRow: bool, sigma: seq<int>)
    requires i < n && |dom| == n * n && InDoms(sigma, dom)
    ensures SatisfiesAll(NeqLine(dom, n, i, isRow), sigma) <==> Satisfies(NaryCon(dom, n, i, isRow), sigma)
  {
    var line := LineScope(n, i, isRow);
    var cs := NeqLine(dom, n, i, isRow);
    var proj := Project(line, sigma);
    CombosFacts(n);
    NaryConMeaning(dom, n, i, isRow);
    assert forall k :: 0 <= k < n ==> proj[k] == sigma[line[k]] && proj[k] in dom[line[k]];
    // the all-different constraint holds iff the line's values are distinct
    assert Satisfies(NaryCon(dom, n, i, isRow), sigma) <==> Distinct(proj);
    forall q | 0 <= q < |cs| ensures Satisfies(cs[q], sigma) <==> proj[Combos(n)[q].0] != proj[Combos(n)[q].1] {
      NeqSatisfied(dom, line[Combos(n)[q].0], line[Combos(n)[q].1], sigma);
    }
    if SatisfiesAll(cs, sigma) {
      forall j, k | 0 <= j < k < n ensures proj[j] != proj[k] {
        var q := CombosIndex(n, j, k);
        assert Satisfies(cs[q], sigma);
      }
    }
  }

  lemma LinesAgreeStep(dom: seq<seq<int>>, n: nat, isRow: bool, j: nat, sigma: seq<int>)
    requires j < n && |dom| == n * n && InDoms(sigma, dom)
    requires SatisfiesAll(BinaryCons(dom, n, isRow, j), sigma) <==> SatisfiesAll(NaryCons(dom, n, isRow, j), sigma)
    ensures SatisfiesAll(BinaryCons(dom, n, isRow, j + 1), sigma) <==> SatisfiesAll(NaryCons(dom, n, isRow, j + 1), sigma)
  {
    var bin := BinaryCons(dom, n, isRow, j);
    var nary := NaryCons(dom, n, isRow, j);
    var line := NeqLine(dom, n, j, isRow);
    var c := NaryCon(dom, n, j, isRow);
    assert BinaryCons(dom, n, isRow, j + 1) == bin + line;
    assert NaryCons(dom, n, isRow, j + 1) == nary + [c];
    LineAgree(dom, n, j, isRow, sigma);
    AgreeAppend(bin, line, nary, c, sigma);
  }

  /** Two agreeing prefixes extended by an agreeing line stay in agreement. */
  lemma AgreeAppend(bin: seq<Constraint>, line: seq<Constraint>, nary: seq<Constraint>, c: Constraint, sigma: seq<int>)
    requires SatisfiesAll(bin, sigma) <==> SatisfiesAll(nary, sigma)
    requires SatisfiesAll(line, sigma) <==> Satisfies(c, sigma)
    ensures SatisfiesAll(bin + line, sigma) <==> SatisfiesAll(nary + [c], sigma)
  {
    SatisfiesAllAppend(bin, line, sigma);
    SatisfiesAllAppend(nary, [c], sigma);
    assert SatisfiesAll([c], sigma) <==> Satisfies(c, sigma) by {
      assert [c][0] == c;
    }
  }

  lemma {:induction false} LinesAgree(dom: seq<seq<int>>, n: nat, isRow: bool, m: nat, sigma: seq<int>)
    requires m <= n && |dom| == n * n && InDoms(sigma, dom)
    ensures SatisfiesAll(BinaryCons(dom, n, isRow, m), sigma) <==> SatisfiesAll(NaryCons(dom, n, isRow, m), sigma)
    decreases m
  {
    if m > 0 {
      var j := m - 1;
      LinesAgree(dom, n, isRow, j, sigma);
      LinesAgreeStep(dom, n, isRow, j, sigma);
    }
  }

  /**
   * Model 1 and model 2 accept the same assignments of domain values: the
   * pairwise not-equal encoding and the all-different encoding of the rows
   * and columns agree, and the inequality constraints are shared.
   */
  lemma ModelsAgree(grid: seq<seq<Cell>>, sigma: seq<int>)
    requires WfGrid(grid) && InDoms(sigma, Doms(grid))
    ensures SatisfiesAll(Model1Cons(grid), sigma) <==> SatisfiesAll(Model2Cons(grid), sigma)
  {
    var n := |grid|;
    var dom := Doms(grid);
    LinesAgree(dom, n, true, n, sigma);
    LinesAgree(dom, n, false, n, sigma);
    var ineq := IneqCons(grid, dom, n);
    SatisfiesAllAppend(BinaryCons(dom, n, true, n), BinaryCons(dom, n, false, n), sigma);
    SatisfiesAllAppend(BinaryCons(dom, n, true, n) + BinaryCons(dom, n, false, n), ineq, sigma);
    SatisfiesAllAppend(NaryCons(dom, n, true, n), NaryCons(dom, n, false, n), sigma);
    SatisfiesAllAppend(NaryCons(dom, n, true, n) + NaryCons(dom, n, false, n), ineq, sigma);
  }
}
