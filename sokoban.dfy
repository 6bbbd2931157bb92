/**
 * The Sokoban goal test and heuristics.  A state is reduced to what they
 * read: the box positions and the storage positions, each in the order the
 * loops visit them.  Each loop is a method proved against a function; the
 * lemmas relate the functions (goal iff zero, trivial below Manhattan).
 */
module Sokoban {
  /** A grid position (x, y). */
  type Pos = (int, int)

  datatype State = State(boxes: seq<Pos>, storage: seq<Pos>)

  /** Every box is on a storage point. */
  predicate AllStored(boxes: seq<Pos>, storage: seq<Pos>)
  {
    forall k :: 0 <= k < |boxes| ==> boxes[k] in storage
  }

  function Abs(x: int): nat
  {
    if x < 0 then -x else x
  }

  /** |dx| + |dy|: zero exactly between equal positions. */
  function Manhattan(a: Pos, b: Pos): (d: nat)
    ensures d == 0 <==> a == b
  {
    Abs(a.0 - b.0) + Abs(a.1 - b.1)
  }

  /** The distance from `box` to each storage point, in storage order. */
  function Distances(box: Pos, storage: seq<Pos>): (ds: seq<int>)
    ensures |ds| == |storage|
    ensures forall k :: 0 <= k < |storage| ==> ds[k] == Manhattan(box, storage[k])
  {
    seq(|storage|, k requires 0 <= k < |storage| => Manhattan(box, storage[k]))
  }

  /** The least element of a non-empty list: one of its elements, below all the others. */
  function MinOf(ds: seq<int>): (m: int)
    requires ds != []
    ensures m in ds
    ensures forall k :: 0 <= k < |ds| ==> m <= ds[k]
  {
    if |ds| == 1 then ds[0]
    else
      var rest := MinOf(ds[1..]);
      if ds[0] <= rest then ds[0] else rest
  }

  /** Sorting a non-empty list and taking its first element yields its minimum. */
  lemma SortedHeadIsMin(ds: seq<int>, sorted: seq<int>)
    requires ds != [] && multiset(sorted) == multiset(ds)
    requires forall i, j :: 0 <= i < j < |sorted| ==> sorted[i] <= sorted[j]
    ensures sorted != [] && sorted[0] == MinOf(ds)
  {
    assert |sorted| == |ds|;
    var m := MinOf(ds);
    assert m in multiset(sorted);
    var k :| 0 <= k < |sorted| && sorted[k] == m;
    assert sorted[0] in multiset(ds);
    var q :| 0 <= q < |ds| && ds[q] == sorted[0];
  }

  /** The distance from `box` to its nearest storage point. */
  function Nearest(box: Pos, storage: seq<Pos>): (d: nat)
    requires storage != []
    ensures exists k :: 0 <= k < |storage| && d == Manhattan(box, storage[k])
    ensures forall k :: 0 <= k < |storage| ==> d <= Manhattan(box, storage[k])
  {
    var ds := Distances(box, storage);
    var m := MinOf(ds);
    var k :| 0 <= k < |ds| && ds[k] == m;
    assert m == Manhattan(box, storage[k]);
    m
  }

  /** Some storage point exists whenever a box is off storage (the sorted list is indexed at 0). */
  predicate Costable(boxes: seq<Pos>, storage: seq<Pos>)
  {
    !AllStored(boxes, storage) ==> storage != []
  }

  /** A stored box costs nothing; any other box costs its nearest-storage distance. */
  function BoxCost(box: Pos, storage: seq<Pos>): nat
    requires box in storage || storage != []
  {
    if box in storage then 0 else Nearest(box, storage)
  }

  /** With at least one box, costable boxes imply some storage point: a stored box stands on one. */
  lemma StorageExists(boxes: seq<Pos>, storage: seq<Pos>)
    requires boxes != [] && Costable(boxes, storage)
    ensures storage != []
  {
    if boxes[0] in storage {
      assert storage != [];
    }
  }

  /** The Manhattan heuristic: the sum of the costs of the boxes. */
  function ManhattanSum(boxes: seq<Pos>, storage: seq<Pos>): nat
    requires Costable(boxes, storage)
    decreases |boxes|
  {
    if boxes == [] then 0
    else
      StorageExists(boxes, storage);
      ManhattanSum(boxes[..|boxes| - 1], storage) + BoxCost(boxes[|boxes| - 1], storage)
  }

  /** The trivial heuristic: the number of boxes not on a storage point. */
  function UnstoredCount(boxes: seq<Pos>, storage: seq<Pos>): nat
    decreases |boxes|
  {
    if boxes == [] then 0
    else UnstoredCount(boxes[..|boxes| - 1], storage) + (if boxes[|boxes| - 1] in storage then 0 else 1)
  }

  /** heur_zero: never above the other two heuristics. */
  function HeurZero(s: State): (h: int)
    ensures h <= UnstoredCount(s.boxes, s.storage)
    ensures Costable(s.boxes, s.storage) ==> h <= ManhattanSum(s.boxes, s.storage)
  {
    0
  }

  // ---------------------------------------------------------------------
  // The loops
  // ---------------------------------------------------------------------

  /** sokoban_goal_state: stops at the first box off storage. */
  method GoalState(s: State) returns (goal: bool)
    ensures goal <==> AllStored(s.boxes, s.storage)
  {
    var i := 0;
    while i < |s.boxes|
      invariant 0 <= i <= |s.boxes|
      invariant forall k :: 0 <= k < i ==> s.boxes[k] in s.storage
    {
      if s.boxes[i] !in s.storage {
        return false;
      }
      i := i + 1;
    }
    return true;
  }

  /** trivial_heuristic: counts the boxes off storage. */
  method TrivialHeuristic(s: State) returns (count: nat)
    ensures count == UnstoredCount(s.boxes, s.storage)
  {
    count := 0;
    var i := 0;
    while i < |s.boxes|
      invariant 0 <= i <= |s.boxes|
      invariant count == UnstoredCount(s.boxes[..i], s.storage)
    {
      assert s.boxes[..i + 1][..i] == s.boxes[..i];
      if s.boxes[i] !in s.storage {
        count := count + 1;
      }
      i := i + 1;
    }
    assert s.boxes[..|s.boxes|] == s.boxes;
  }

  /** The inner loop of heur_manhattan_distance: the distance to every storage point. */
  method AllDistances(box: Pos, storage: seq<Pos>) returns (ds: seq<int>)
    ensures ds == Distances(box, storage)
  {
    ds := [];
    var k := 0;
    while k < |storage|
      invariant 0 <= k <= |storage|
      invariant ds == Distances(box, storage)[..k]
    {
      var p := storage[k];
      ds := ds + [Abs(box.0 - p.0) + Abs(box.1 - p.1)];
      k := k + 1;
    }
  }

  /**
   * heur_manhattan_distance: adds, for every box off storage, the first
   * element of its sorted distance list, i.e. the least distance.  The
   * list is indexed at 0, so storage must exist when a box is off storage.
   */
  method HeurManhattanDistance(s: State) returns (total: nat)
    requires Costable(s.boxes, s.storage)
    ensures total == ManhattanSum(s.boxes, s.storage)
  {
    total := 0;
    if s.boxes != [] {
      StorageExists(s.boxes, s.storage);
    }
    var i := 0;
    while i < |s.boxes|
      invariant 0 <= i <= |s.boxes|
      invariant s.boxes != [] ==> s.storage != []
      invariant total == ManhattanSum(s.boxes[..i], s.storage)
    {
      var box := s.boxes[i];
      assert s.boxes[..i + 1][..i] == s.boxes[..i];
      if box !in s.storage {
        var ds := AllDistances(box, s.storage);
        total := total + MinOf(ds);
      }
      i := i + 1;
    }
    assert s.boxes[..|s.boxes|] == s.boxes;
  }

  // ---------------------------------------------------------------------
  // Relations between the heuristics and the goal test
  // ---------------------------------------------------------------------

  /** The trivial heuristic is zero exactly at goal states. */
  lemma {:induction false} UnstoredZeroIffGoal(boxes: seq<Pos>, storage: seq<Pos>)
    ensures UnstoredCount(boxes, storage) == 0 <==> AllStored(boxes, storage)
    decreases |boxes|
  {
    if boxes != [] {
      var init := boxes[..|boxes| - 1];
      UnstoredZeroIffGoal(init, storage);
      assert boxes == init + [boxes[|boxes| - 1]];
    }
  }

  /** Each box off storage is at distance at least one from every storage point. */
  lemma {:induction false} UnstoredBelowManhattan(boxes: seq<Pos>, storage: seq<Pos>)
    requires Costable(boxes, storage)
    ensures UnstoredCount(boxes, storage) <= ManhattanSum(boxes, storage)
    decreases |boxes|
  {
    if boxes != [] {
      var init := boxes[..|boxes| - 1];
      StorageExists(boxes, storage);
      UnstoredBelowManhattan(init, storage);
    }
  }

  /** The Manhattan heuristic is zero exactly at goal states. */
  lemma {:induction false} ManhattanZeroIffGoal(boxes: seq<Pos>, storage: seq<Pos>)
    requires Costable(boxes, storage)
    ensures ManhattanSum(boxes, storage) == 0 <==> AllStored(boxes, storage)
    decreases |boxes|
  {
    if boxes != [] {
      var init := boxes[..|boxes| - 1];
      StorageExists(boxes, storage);
      ManhattanZeroIffGoal(init, storage);
      assert boxes == init + [boxes[|boxes| - 1]];
    }
  }

  /**
   * heur_zero ≤ trivial_heuristic ≤ heur_manhattan_distance, and all three
   * are zero at a goal state.
   */
  lemma HeuristicOrder(s: State)
    requires Costable(s.boxes, s.storage)
    ensures HeurZero(s) <= UnstoredCount(s.boxes, s.storage) <= ManhattanSum(s.boxes, s.storage)
    ensures AllStored(s.boxes, s.storage) ==> ManhattanSum(s.boxes, s.storage) == 0
  {
    UnstoredBelowManhattan(s.boxes, s.storage);
    ManhattanZeroIffGoal(s.boxes, s.storage);
  }
}
