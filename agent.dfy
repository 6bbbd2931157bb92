/**
 * The checkers agent: piece counting, the utility of a board, depth-limited
 * minimax and the cutoff rules of alpha-beta.  The game itself (successor
 * generation, the board of a state, the heuristic evaluation and the move
 * that led to a state) is a parameter, and state caching is off.
 */
module Agent {
  import opened Options

  type Board = seq<seq<char>>

  // ---------------------------------------------------------------------
  // Pieces and utility
  // ---------------------------------------------------------------------

  /** What a square is worth to red (red) or to black: a man 1, a king 2, anything else 0. */
  function PieceValue(p: char, red: bool): nat
  {
    if red then (if p == 'r' then 1 else if p == 'R' then 2 else 0)
    else (if p == 'b' then 1 else if p == 'B' then 2 else 0)
  }

  /** The square holds a piece of that side. */
  predicate Owns(p: char, red: bool)
  {
    if red then p == 'r' || p == 'R' else p == 'b' || p == 'B'
  }

  function RowSum(row: seq<char>, red: bool): nat
    decreases |row|
  {
    if row == [] then 0 else RowSum(row[..|row| - 1], red) + PieceValue(row[|row| - 1], red)
  }

  /** The material of one side: the sum of its squares' values, row by row. */
  function BoardSum(board: Board, red: bool): nat
    decreases |board|
  {
    if board == [] then 0 else BoardSum(board[..|board| - 1], red) + RowSum(board[|board| - 1], red)
  }

  /** get_total_pieces: one pass over the squares, returning (black, red). */
  method GetTotalPieces(board: Board) returns (black: nat, red: nat)
    ensures black == BoardSum(board, false) && red == BoardSum(board, true)
  {
    black, red := 0, 0;
    var i := 0;
    while i < |board|
      invariant 0 <= i <= |board|
      invariant black == BoardSum(board[..i], false) && red == BoardSum(board[..i], true)
    {
      var row := board[i];
      var j := 0;
      while j < |row|
        invariant 0 <= j <= |row|
        invariant black == BoardSum(board[..i], false) + RowSum(row[..j], false)
        invariant red == BoardSum(board[..i], true) + RowSum(row[..j], true)
      {
        assert row[..j + 1][..j] == row[..j];
        var p := row[j];
        if p == 'r' {
          red := red + 1;
        } else if p == 'R' {
          red := red + 2;
        } else if p == 'b' {
          black := black + 1;
        } else if p == 'B' {
          black := black + 2;
        }
        j := j + 1;
      }
      assert row[..|row|] == row;
      assert board[..i + 1][..i] == board[..i];
      i := i + 1;
    }
    assert board[..|board|] == board;
  }

  lemma {:induction false} RowSumZero(row: seq<char>, red: bool)
    ensures RowSum(row, red) == 0 <==> forall j :: 0 <= j < |row| ==> !Owns(row[j], red)
    decreases |row|
  {
    if row != [] {
      var init := row[..|row| - 1];
      RowSumZero(init, red);
      assert row == init + [row[|row| - 1]];
    }
  }

  /** A side's material is zero exactly when none of its pieces is on the board. */
  lemma {:induction false} BoardSumZero(board: Board, red: bool)
    ensures BoardSum(board, red) == 0 <==>
      forall i, j :: 0 <= i < |board| && 0 <= j < |board[i]| ==> !Owns(board[i][j], red)
    decreases |board|
  {
    if board != [] {
      var init := board[..|board| - 1];
      BoardSumZero(init, red);
      RowSumZero(board[|board| - 1], red);
      assert board == init + [board[|board| - 1]];
    }
  }

  /** The utility of a board for `color`: own material minus the other side's; 0 for any other colour. */
  function Utility(board: Board, color: char): int
  {
    var black := BoardSum(board, false);
    var red := BoardSum(board, true);
    if color == 'r' then red - black else if color == 'b' then black - red else 0
  }

  /** compute_utility */
  method ComputeUtility(board: Board, color: char) returns (u: int)
    ensures u == Utility(board, color)
  {
    var black, red := GetTotalPieces(board);
    u := 0;
    if color == 'r' {
      u := red as int - black;
    }
    if color == 'b' {
      u := black as int - red;
    }
  }

  /** The game is zero-sum: one side's utility is the negation of the other's. */
  lemma UtilityZeroSum(board: Board)
    ensures Utility(board, 'r') == -Utility(board, 'b')
    ensures Utility(board, 'r') > 0 ==> exists i, j :: 0 <= i < |board| && 0 <= j < |board[i]| && Owns(board[i][j], true)
  {
    BoardSumZero(board, true);
  }

  // ---------------------------------------------------------------------
  // The game tree
  // ---------------------------------------------------------------------

  predicate IsColor(c: char)
  {
    c == 'r' || c == 'b'
  }

  function Opponent(c: char): (o: char)
    requires IsColor(c)
    ensures IsColor(o) && o != c
  {
    if c == 'r' then 'b' else 'r'
  }

  /**
   * The game: the successors of a state for the side to move, in the order
   * they are generated; the board of a state; the heuristic evaluation of a
   * state for a colour; and the move that produced a state.
   */
  datatype Game<!S> = Game(
    succ: (S, char) -> seq<S>,
    board: S -> Board,
    heur: (S, char) -> int,
    move: S -> seq<(int, int)>)

  /** Leaves are scored by the utility (minimax) or by the heuristic (alpha-beta). */
  datatype Eval = ByUtility | ByHeuristic

  function Leaf<S>(g: Game<S>, e: Eval, s: S, c: char): int
  {
    if e == ByUtility then Utility(g.board(s), c) else g.heur(s, c)
  }

  /**
   * The max node: at depth 0 or without successors the leaf score for
   * `color` and no move; otherwise the scan of the successors' min values.
   */
  function MaxNode<S>(g: Game<S>, e: Eval, s: S, color: char, limit: nat): (int, Option<S>)
    requires IsColor(color)
    decreases limit, 1, 0
  {
    if limit == 0 then (Leaf(g, e, s, color), None)
    else
      var kids := g.succ(s, color);
      if kids == [] then (Leaf(g, e, s, color), None)
      else
        var r := MaxScan(g, e, kids, Opponent(color), limit - 1);
        (r.0, Some(r.1))
  }

  /** Left to right, a child replaces the best so far only when its value is strictly greater. */
  function MaxScan<S>(g: Game<S>, e: Eval, kids: seq<S>, color: char, lim: nat): (int, S)
    requires kids != [] && IsColor(color)
    decreases lim + 1, 0, |kids|
  {
    var last := kids[|kids| - 1];
    var v := MinNode(g, e, last, color, lim).0;
    if |kids| == 1 then (v, last)
    else
      var prev := MaxScan(g, e, kids[..|kids| - 1], color, lim);
      if v > prev.0 then (v, last) else prev
  }

  /** The min node: at depth 0 or without successors the leaf score for the opponent. */
  function MinNode<S>(g: Game<S>, e: Eval, s: S, color: char, limit: nat): (int, Option<S>)
    requires IsColor(color)
    decreases limit, 1, 0
  {
    if limit == 0 then (Leaf(g, e, s, Opponent(color)), None)
    else
      var kids := g.succ(s, color);
      if kids == [] then (Leaf(g, e, s, Opponent(color)), None)
      else
        var r := MinScan(g, e, kids, Opponent(color), limit - 1);
        (r.0, Some(r.1))
  }

  /** Left to right, a child replaces the best so far only when its value is strictly smaller. */
  function MinScan<S>(g: Game<S>, e: Eval, kids: seq<S>, color: char, lim: nat): (int, S)
    requires kids != [] && IsColor(color)
    decreases lim + 1, 0, |kids|
  {
    var last := kids[|kids| - 1];
    var v := MaxNode(g, e, last, color, lim).0;
    if |kids| == 1 then (v, last)
    else
      var prev := MinScan(g, e, kids[..|kids| - 1], color, lim);
      if v < prev.0 then (v, last) else prev
  }

  /** The max scan picks the first child of greatest min value. */
  lemma {:induction false} MaxScanMeaning<S>(g: Game<S>, e: Eval, kids: seq<S>, color: char, lim: nat)
    requires kids != [] && IsColor(color)
    ensures forall j :: 0 <= j < |kids| ==> MinNode(g, e, kids[j], color, lim).0 <= MaxScan(g, e, kids, color, lim).0
    ensures exists k :: (0 <= k < |kids| && MaxScan(g, e, kids, color, lim) == (MinNode(g, e, kids[k], color, lim).0, kids[k]) &&
      forall j :: 0 <= j < k ==> MinNode(g, e, kids[j], color, lim).0 < MaxScan(g, e, kids, color, lim).0)
    decreases |kids|
  {
    if |kids| > 1 {
      var init := kids[..|kids| - 1];
      MaxScanMeaning(g, e, init, color, lim);
      assert forall j :: 0 <= j < |init| ==> init[j] == kids[j];
    }
  }

  /** The min scan picks the first child of least max value. */
  lemma {:induction false} MinScanMeaning<S>(g: Game<S>, e: Eval, kids: seq<S>, color: char, lim: nat)
    requires kids != [] && IsColor(color)
    ensures forall j :: 0 <= j < |kids| ==> MaxNode(g, e, kids[j], color, lim).0 >= MinScan(g, e, kids, color, lim).0
    ensures exists k :: (0 <= k < |kids| && MinScan(g, e, kids, color, lim) == (MaxNode(g, e, kids[k], color, lim).0, kids[k]) &&
      forall j :: 0 <= j < k ==> MaxNode(g, e, kids[j], color, lim).0 > MinScan(g, e, kids, color, lim).0)
    decreases |kids|
  {
    if |kids| > 1 {
      var init := kids[..|kids| - 1];
      MinScanMeaning(g, e, init, color, lim);
      assert forall j :: 0 <= j < |init| ==> init[j] == kids[j];
    }
  }

  /**
   * A max node has no move exactly at depth 0 or without successors;
   * otherwise its move is the first successor whose min value is the
   * node's value, and no successor's min value exceeds it.
   */
  lemma MaxNodeMeaning<S>(g: Game<S>, e: Eval, s: S, color: char, limit: nat)
    requires IsColor(color)
    ensures MaxNode(g, e, s, color, limit).1 == None <==> limit == 0 || g.succ(s, color) == []
    ensures limit > 0 ==> forall j :: 0 <= j < |g.succ(s, color)| ==>
      MinNode(g, e, g.succ(s, color)[j], Opponent(color), limit - 1).0 <= MaxNode(g, e, s, color, limit).0
    ensures limit > 0 && g.succ(s, color) != [] ==> (exists k :: (0 <= k < |g.succ(s, color)| &&
      MaxNode(g, e, s, color, limit) == (MinNode(g, e, g.succ(s, color)[k], Opponent(color), limit - 1).0, Some(g.succ(s, color)[k])) &&
      forall j :: 0 <= j < k ==> MinNode(g, e, g.succ(s, color)[j], Opponent(color), limit - 1).0 < MaxNode(g, e, s, color, limit).0))
  {
    if limit > 0 && g.succ(s, color) != [] {
      MaxScanMeaning(g, e, g.succ(s, color), Opponent(color), limit - 1);
    }
  }

  /** The mirror image for min nodes: the first successor of least max value. */
  lemma MinNodeMeaning<S>(g: Game<S>, e: Eval, s: S, color: char, limit: nat)
    requires IsColor(color)
    ensures MinNode(g, e, s, color, limit).1 == None <==> limit == 0 || g.succ(s, color) == []
    ensures limit > 0 ==> forall j :: 0 <= j < |g.succ(s, color)| ==>
      MaxNode(g, e, g.succ(s, color)[j], Opponent(color), limit - 1).0 >= MinNode(g, e, s, color, limit).0
    ensures limit > 0 && g.succ(s, color) != [] ==> (exists k :: (0 <= k < |g.succ(s, color)| &&
      MinNode(g, e, s, color, limit) == (MaxNode(g, e, g.succ(s, color)[k], Opponent(color), limit - 1).0, Some(g.succ(s, color)[k])) &&
      forall j :: 0 <= j < k ==> MaxNode(g, e, g.succ(s, color)[j], Opponent(color), limit - 1).0 > MinNode(g, e, s, color, limit).0))
  {
    if limit > 0 && g.succ(s, color) != [] {
      MinScanMeaning(g, e, g.succ(s, color), Opponent(color), limit - 1);
    }
  }

  /** One more child extends the max scan by one strict comparison. */
  lemma MaxScanStep<S>(g: Game<S>, e: Eval, kids: seq<S>, color: char, lim: nat, i: nat)
    requires i < |kids| && IsColor(color)
    ensures i == 0 ==> MaxScan(g, e, kids[..i + 1], color, lim) == (MinNode(g, e, kids[i], color, lim).0, kids[i])
    ensures i > 0 ==> (MaxScan(g, e, kids[..i + 1], color, lim) ==
      var prev := MaxScan(g, e, kids[..i], color, lim);
      var v := MinNode(g, e, kids[i], color, lim).0;
      if v > prev.0 then (v, kids[i]) else prev)
  {
    assert kids[..i + 1][..i] == kids[..i];
  }

  lemma MinScanStep<S>(g: Game<S>, e: Eval, kids: seq<S>, color: char, lim: nat, i: nat)
    requires i < |kids| && IsColor(color)
    ensures i == 0 ==> MinScan(g, e, kids[..i + 1], color, lim) == (MaxNode(g, e, kids[i], color, lim).0, kids[i])
    ensures i > 0 ==> (MinScan(g, e, kids[..i + 1], color, lim) ==
      var prev := MinScan(g, e, kids[..i], color, lim);
      var v := MaxNode(g, e, kids[i], color, lim).0;
      if v < prev.0 then (v, kids[i]) else prev)
  {
    assert kids[..i + 1][..i] == kids[..i];
  }

  // ---------------------------------------------------------------------
  // Minimax
  // ---------------------------------------------------------------------

  /** The ±infinity sentinels of the search, around the integers. */
  datatype Ext = NegInf | Fin(v: int) | PosInf

  predicate Less(a: Ext, b: Ext)
  {
    match a
    case NegInf => b != NegInf
    case Fin(x) => b == PosInf || (b.Fin? && x < b.v)
    case PosInf => false
  }

  function ExtMax(a: Ext, b: Ext): Ext
  {
    if Less(a, b) then b else a
  }

  function ExtMin(a: Ext, b: Ext): Ext
  {
    if Less(b, a) then b else a
  }

  /** minimax_max_node with caching off. */
  method MinimaxMaxNode<S>(g: Game<S>, s: S, color: char, limit: nat) returns (value: int, best: Option<S>)
    requires IsColor(color)
    ensures (value, best) == MaxNode(g, ByUtility, s, color, limit)
    decreases limit, 1
  {
    var opponent := Opponent(color);
    if limit == 0 {
      value := ComputeUtility(g.board(s), color);
      return value, None;
    }
    var kids := g.succ(s, color);
    if |kids| == 0 {
      value := ComputeUtility(g.board(s), color);
      return value, None;
    }
    var maxv: Ext := NegInf;
    best := None;
    var i := 0;
    while i < |kids|
      invariant 0 <= i <= |kids|
      invariant i == 0 ==> maxv == NegInf
      invariant i > 0 ==> (maxv.Fin? && best.Some? &&
        MaxScan(g, ByUtility, kids[..i], opponent, limit - 1) == (maxv.v, best.value))
    {
      var v, _ := MinimaxMinNode(g, kids[i], opponent, limit - 1);
      MaxScanStep(g, ByUtility, kids, opponent, limit - 1, i);
      if Less(maxv, Fin(v)) {
        best := Some(kids[i]);
        maxv := Fin(v);
      }
      i := i + 1;
    }
    assert kids[..|kids|] == kids;
    value := maxv.v;
  }

  /** minimax_min_node with caching off. */
  method MinimaxMinNode<S>(g: Game<S>, s: S, color: char, limit: nat) returns (value: int, best: Option<S>)
    requires IsColor(color)
    ensures (value, best) == MinNode(g, ByUtility, s, color, limit)
    decreases limit, 1
  {
    var opponent := Opponent(color);
    if limit == 0 {
      value := ComputeUtility(g.board(s), opponent);
      return value, None;
    }
    var kids := g.succ(s, color);
    if |kids| == 0 {
      value := ComputeUtility(g.board(s), opponent);
      return value, None;
    }
    var minv: Ext := PosInf;
    best := None;
    var i := 0;
    while i < |kids|
      invariant 0 <= i <= |kids|
      invariant i == 0 ==> minv == PosInf
      invariant i > 0 ==> (minv.Fin? && best.Some? &&
        MinScan(g, ByUtility, kids[..i], opponent, limit - 1) == (minv.v, best.value))
    {
      var v, _ := MinimaxMaxNode(g, kids[i], opponent, limit - 1);
      MinScanStep(g, ByUtility, kids, opponent, limit - 1, i);
      if Less(Fin(v), minv) {
        best := Some(kids[i]);
        minv := Fin(v);
      }
      i := i + 1;
    }
    assert kids[..|kids|] == kids;
    value := minv.v;
  }

  /** select_move_minimax: the move of the root's best successor, or none. */
  method SelectMoveMinimax<S>(g: Game<S>, s: S, color: char, limit: nat) returns (mv: Option<seq<(int, int)>>)
    requires IsColor(color)
    ensures mv.None? <==> limit == 0 || g.succ(s, color) == []
    ensures mv.Some? ==> (exists k :: (0 <= k < |g.succ(s, color)| && mv.value == g.move(g.succ(s, color)[k]) &&
      MinNode(g, ByUtility, g.succ(s, color)[k], Opponent(color), limit - 1).0 == MaxNode(g, ByUtility, s, color, limit).0))
    // the move played is that of the successor the max node picks: the first to reach the maximum
    ensures mv.Some? ==> (MaxNode(g, ByUtility, s, color, limit).1.Some? &&
      mv.value == g.move(MaxNode(g, ByUtility, s, color, limit).1.value))
  {
    var _, best := MinimaxMaxNode(g, s, color, limit);
    MaxNodeMeaning(g, ByUtility, s, color, limit);
    if best.Some? {
      mv := Some(g.move(best.value));
    } else {
      mv := None;
    }
  }

  // ---------------------------------------------------------------------
  // Alpha-beta
  // ---------------------------------------------------------------------

  /**
   * The fail-soft guarantee of a search in the window (alpha, beta) whose
   * true value is `v`: a result strictly inside the window is exact, one at
   * or below alpha bounds `v` from above, one at or above beta from below.
   */
  predicate FailSoft(r: int, alpha: Ext, beta: Ext, v: int)
  {
    (Less(alpha, Fin(r)) && Less(Fin(r), beta) ==> r == v) &&
    (!Less(alpha, Fin(r)) ==> v <= r) &&
    (!Less(Fin(r), beta) ==> r <= v)
  }

  /**
   * alphabeta_max_node with caching and ordering off: returns at once with a
   * child value at or above beta, otherwise raises alpha to it.
   */
  method AlphaBetaMaxNode<S>(g: Game<S>, s: S, color: char, alpha: Ext, beta: Ext, limit: nat)
    returns (value: int, best: Option<S>)
    requires IsColor(color) && Less(alpha, beta)
    ensures FailSoft(value, alpha, beta, MaxNode(g, ByHeuristic, s, color, limit).0)
    ensures best.None? <==> limit == 0 || g.succ(s, color) == []
    decreases limit, 1
  {
    var opponent := Opponent(color);
    if limit == 0 {
      return g.heur(s, color), None;
    }
    var kids := g.succ(s, color);
    if |kids| == 0 {
      return g.heur(s, color), None;
    }
    ghost var lim := limit - 1;
    var a := alpha;
    var maxv: Ext := NegInf;
    best := None;
    var i := 0;
    while i < |kids|
      invariant 0 <= i <= |kids|
      invariant Less(a, beta)
      invariant i == 0 ==> maxv == NegInf && a == alpha
      invariant i > 0 ==> maxv.Fin? && best.Some? && a == ExtMax(alpha, maxv) && Less(maxv, beta)
      invariant i > 0 ==> MaxScan(g, ByHeuristic, kids[..i], opponent, lim).0 <= maxv.v
      invariant i > 0 && Less(alpha, maxv) ==> MaxScan(g, ByHeuristic, kids[..i], opponent, lim).0 == maxv.v
    {
      var c, _ := AlphaBetaMinNode(g, kids[i], opponent, a, beta, limit - 1);
      ghost var vc := MinNode(g, ByHeuristic, kids[i], opponent, lim).0;
      MaxScanStep(g, ByHeuristic, kids, opponent, lim, i);
      ghost var oldMax := maxv;
      if Less(maxv, Fin(c)) {
        best := Some(kids[i]);
        maxv := Fin(c);
      }
      if !Less(Fin(c), beta) {
        MaxCutoff(g, ByHeuristic, kids, opponent, lim, i, c, alpha, beta);
        return c, best;
      }
      MaxWindowStep(alpha, a, beta, oldMax, c, vc);
      a := ExtMax(a, Fin(c));
      i := i + 1;
    }
    assert kids[..|kids|] == kids;
    value := maxv.v;
  }

  /**
   * The bookkeeping of one child of a max node below beta: with child
   * result `c` (window (a, beta)) and true value `vc`, the new best and
   * alpha keep the loop's bounds on the scan's value.
   */
  lemma MaxWindowStep(alpha: Ext, a: Ext, beta: Ext, maxv: Ext, c: int, vc: int)
    requires Less(a, beta) && Less(Fin(c), beta) && FailSoft(c, a, beta, vc)
    requires maxv == NegInf ==> a == alpha
    requires maxv != NegInf ==> maxv.Fin? && a == ExtMax(alpha, maxv)
    ensures vc <= c
    ensures Less(maxv, Fin(c)) && Less(alpha, Fin(c)) ==> vc == c
    ensures Less(ExtMax(a, Fin(c)), beta)
    ensures ExtMax(a, Fin(c)) == ExtMax(alpha, ExtMax(maxv, Fin(c)))
  {
  }

  /**
   * alphabeta_min_node with caching off: returns at once with a child value
   * at or below alpha, otherwise lowers beta to it.
   */
  method AlphaBetaMinNode<S>(g: Game<S>, s: S, color: char, alpha: Ext, beta: Ext, limit: nat)
    returns (value: int, best: Option<S>)
    requires IsColor(color) && Less(alpha, beta)
    ensures FailSoft(value, alpha, beta, MinNode(g, ByHeuristic, s, color, limit).0)
    ensures best.None? <==> limit == 0 || g.succ(s, color) == []
    decreases limit, 1
  {
    var opponent := Opponent(color);
    if limit == 0 {
      return g.heur(s, opponent), None;
    }
    var kids := g.succ(s, color);
    if |kids| == 0 {
      return g.heur(s, opponent), None;
    }
    ghost var lim := limit - 1;
    var b := beta;
    var minv: Ext := PosInf;
    best := None;
    var i := 0;
    while i < |kids|
      invariant 0 <= i <= |kids|
      invariant Less(alpha, b)
      invariant i == 0 ==> minv == PosInf && b == beta
      invariant i > 0 ==> minv.Fin? && best.Some? && b == ExtMin(beta, minv) && Less(alpha, minv)
      invariant i > 0 ==> MinScan(g, ByHeuristic, kids[..i], opponent, lim).0 >= minv.v
      invariant i > 0 && Less(minv, beta) ==> MinScan(g, ByHeuristic, kids[..i], opponent, lim).0 == minv.v
    {
      var c, _ := AlphaBetaMaxNode(g, kids[i], opponent, alpha, b, limit - 1);
      ghost var vc := MaxNode(g, ByHeuristic, kids[i], opponent, lim).0;
      MinScanStep(g, ByHeuristic, kids, opponent, lim, i);
      ghost var oldMin := minv;
      if Less(Fin(c), minv) {
        best := Some(kids[i]);
        minv := Fin(c);
      }
      if !Less(alpha, Fin(c)) {
        MinCutoff(g, ByHeuristic, kids, opponent, lim, i, c, alpha, beta);
        return c, best;
      }
      MinWindowStep(alpha, beta, b, oldMin, c, vc);
      b := ExtMin(b, Fin(c));
      i := i + 1;
    }
    assert kids[..|kids|] == kids;
    value := minv.v;
  }

  /** A child value at or below alpha cuts the min node off: the node's value is at most that child's. */
  lemma MinCutoff<S>(g: Game<S>, e: Eval, kids: seq<S>, color: char, lim: nat, i: nat, c: int, alpha: Ext, beta: Ext)
    requires i < |kids| && IsColor(color) && Less(alpha, beta)
    requires !Less(alpha, Fin(c)) && MaxNode(g, e, kids[i], color, lim).0 <= c
    ensures FailSoft(c, alpha, beta, MinScan(g, e, kids, color, lim).0)
  {
    MinScanMeaning(g, e, kids, color, lim);
  }

  /** A child value at or above beta cuts the max node off: the node's value is at least that child's. */
  lemma MaxCutoff<S>(g: Game<S>, e: Eval, kids: seq<S>, color: char, lim: nat, i: nat, c: int, alpha: Ext, beta: Ext)
    requires i < |kids| && IsColor(color) && Less(alpha, beta)
    requires !Less(Fin(c), beta) && c <= MinNode(g, e, kids[i], color, lim).0
    ensures FailSoft(c, alpha, beta, MaxScan(g, e, kids, color, lim).0)
  {
    MaxScanMeaning(g, e, kids, color, lim);
  }

  lemma MinWindowStep(alpha: Ext, beta: Ext, b: Ext, minv: Ext, c: int, vc: int)
    requires Less(alpha, b) && Less(alpha, Fin(c)) && FailSoft(c, alpha, b, vc)
    requires minv == PosInf ==> b == beta
    requires minv != PosInf ==> minv.Fin? && b == ExtMin(beta, minv)
    ensures vc >= c
    ensures Less(Fin(c), minv) && Less(Fin(c), beta) ==> vc == c
    ensures Less(alpha, ExtMin(b, Fin(c)))
    ensures ExtMin(b, Fin(c)) == ExtMin(beta, ExtMin(minv, Fin(c)))
  {
  }
}
