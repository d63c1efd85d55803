/** Tic-tac-toe: the rules of the game on a 3x3 board and the minimax
    player. Boards are values: a move builds a new board and leaves the old
    one as it was. */
module TicTacToe {
  import opened Wrappers

  /** The content of a cell: a mark of either player, or EMPTY (Python's None). */
  datatype Mark = X | O | Empty

  type Board = seq<seq<Mark>>

  /** A move (i, j): row i, column j. */
  type Action = (int, int)

  predicate IsBoard(b: Board) {
    |b| == 3 && forall i :: 0 <= i < 3 ==> |b[i]| == 3
  }

  predicate OnBoard(a: Action) {
    0 <= a.0 < 3 && 0 <= a.1 < 3
  }

  predicate Free(b: Board, a: Action)
    requires IsBoard(b) && OnBoard(a)
  {
    b[a.0][a.1] == Empty
  }

  /** The k-th of the nine cells in row-major order. */
  function CellAt(k: int): (a: Action)
    requires 0 <= k < 9
    ensures OnBoard(a)
  {
    (k / 3, k % 3)
  }

  /** All nine cells. */
  function AllCells(): set<Action> {
    set i, j | 0 <= i < 3 && 0 <= j < 3 :: (i, j)
  }

  lemma AllCellsCount()
    ensures |AllCells()| == 9
  {
    assert AllCells() == {(0, 0), (0, 1), (0, 2), (1, 0), (1, 1), (1, 2), (2, 0), (2, 1), (2, 2)};
  }

  /** The empty board. */
  function InitialState(): (b: Board)
    ensures IsBoard(b) && Occupied(b) == {}
    ensures Actions(b) == AllCells()
  {
    [[Empty, Empty, Empty], [Empty, Empty, Empty], [Empty, Empty, Empty]]
  }

  /** The cells that hold a mark. */
  function Occupied(b: Board): set<Action>
    requires IsBoard(b)
  {
    set i, j | 0 <= i < 3 && 0 <= j < 3 && b[i][j] != Empty :: (i, j)
  }

  /** The player to move: O after an odd number of marks, X otherwise. */
  function Player(b: Board): (p: Mark)
    requires IsBoard(b)
    ensures p == X || p == O
    ensures p == O <==> |Actions(b)| % 2 == 0
  {
    ActionsPartition(b);
    if |Occupied(b)| % 2 == 1 then O else X
  }

  /** The moves available: every empty cell. */
  function Actions(b: Board): (r: set<Action>)
    requires IsBoard(b)
    ensures forall a :: a in r <==> OnBoard(a) && Free(b, a)
  {
    set i, j | 0 <= i < 3 && 0 <= j < 3 && b[i][j] == Empty :: (i, j)
  }

  /** The empty and the occupied cells split the nine cells between them. */
  lemma ActionsPartition(b: Board)
    requires IsBoard(b)
    ensures Actions(b) !! Occupied(b)
    ensures Actions(b) + Occupied(b) == AllCells()
    ensures |Actions(b)| + |Occupied(b)| == 9
  {
    assert Actions(b) + Occupied(b) == AllCells();
    AllCellsCount();
  }

  /** The outcome of `result`: the new board, or the exception raised for an
      occupied cell. */
  datatype MoveResult = Moved(board: Board) | InvalidMove

  /** The board after the player to move marks cell a. The input board is
      a value and is left unchanged. */
  function Result(b: Board, a: Action): (r: MoveResult)
    requires IsBoard(b) && OnBoard(a)
    ensures r.InvalidMove? <==> !Free(b, a)
    ensures r.Moved? ==> IsBoard(r.board) && r.board[a.0][a.1] == Player(b)
    ensures r.Moved? ==> forall i, j :: 0 <= i < 3 && 0 <= j < 3 && (i, j) != a ==> r.board[i][j] == b[i][j]
  {
    if b[a.0][a.1] != Empty then InvalidMove
    else Moved(b[a.0 := b[a.0][a.1 := Player(b)]])
  }

  /** A move fills exactly one empty cell, so the turn passes to the other
      player and one action fewer remains. */
  lemma ResultAdvances(b: Board, a: Action)
    requires IsBoard(b) && OnBoard(a) && Free(b, a)
    ensures Occupied(Result(b, a).board) == Occupied(b) + {a}
    ensures Actions(Result(b, a).board) == Actions(b) - {a}
    ensures |Actions(Result(b, a).board)| == |Actions(b)| - 1
    ensures Player(Result(b, a).board) != Player(b)
  {
    var b' := Result(b, a).board;
    assert Occupied(b') == Occupied(b) + {a};
    assert Actions(b') == Actions(b) - {a};
    assert a !in Occupied(b);
  }

  /** X moves first, and O moves after a single X. */
  lemma PlayerOpening()
    ensures Player(InitialState()) == X
    ensures Player(InitialState()[0 := [X, Empty, Empty]]) == O
  {
    var b := InitialState()[0 := [X, Empty, Empty]];
    assert Occupied(b) == {(0, 0)};
  }

  predicate Three(b: Board, m: Mark, p: Action, q: Action, r: Action)
    requires IsBoard(b) && OnBoard(p) && OnBoard(q) && OnBoard(r)
  {
    b[p.0][p.1] == m && b[q.0][q.1] == m && b[r.0][r.1] == m
  }

  /** Mark m fills one of the eight lines: a row, a column or a diagonal. */
  predicate HasLine(b: Board, m: Mark)
    requires IsBoard(b)
  {
    || Three(b, m, (0, 0), (0, 1), (0, 2))
    || Three(b, m, (1, 0), (1, 1), (1, 2))
    || Three(b, m, (2, 0), (2, 1), (2, 2))
    || Three(b, m, (0, 0), (1, 0), (2, 0))
    || Three(b, m, (0, 1), (1, 1), (2, 1))
    || Three(b, m, (0, 2), (1, 2), (2, 2))
    || Three(b, m, (2, 0), (1, 1), (0, 2))
    || Three(b, m, (0, 0), (1, 1), (2, 2))
  }

  /** A row whose first cell is marked and whose other cells repeat that mark. */
  predicate RowWon(b: Board, i: int)
    requires IsBoard(b) && 0 <= i < 3
  {
    b[i][0] != Empty && b[i][1] == b[i][0] && b[i][2] == b[i][0]
  }

  predicate ColumnWon(b: Board, j: int)
    requires IsBoard(b) && 0 <= j < 3
  {
    b[0][j] != Empty && b[1][j] == b[0][j] && b[2][j] == b[0][j]
  }

  function Score(m: Mark): int {
    if m == X then 1 else -1
  }

  /** 1 if X has a line, -1 if O has one, 0 otherwise. The checks run rows,
      then columns, then (only with a marked centre) the two diagonals, and
      the first line found decides. */
  function Utility(b: Board): (u: int)
    requires IsBoard(b)
    ensures u == 1 || u == 0 || u == -1
    ensures u == 1 ==> HasLine(b, X)
    ensures u == -1 ==> HasLine(b, O)
    ensures u == 0 <==> !HasLine(b, X) && !HasLine(b, O)
  {
    if RowWon(b, 0) then Score(b[0][0])
    else if RowWon(b, 1) then Score(b[1][0])
    else if RowWon(b, 2) then Score(b[2][0])
    else if ColumnWon(b, 0) then Score(b[0][0])
    else if ColumnWon(b, 1) then Score(b[0][1])
    else if ColumnWon(b, 2) then Score(b[0][2])
    else if b[1][1] == Empty then 0
    else if b[2][0] == b[1][1] && b[1][1] == b[0][2] then Score(b[1][1])
    else if b[0][0] == b[1][1] && b[1][1] == b[2][2] then Score(b[1][1])
    else 0
  }

  /** The winner, or None when no line is filled. */
  function Winner(b: Board): (w: Option<Mark>)
    requires IsBoard(b)
    ensures w != Some(Empty)
    ensures w == Some(X) ==> HasLine(b, X)
    ensures w == Some(O) ==> HasLine(b, O)
    ensures w == None <==> !HasLine(b, X) && !HasLine(b, O)
  {
    if Utility(b) == 1 then Some(X)
    else if Utility(b) == -1 then Some(O)
    else None
  }

  /** The game is over when a line is filled or no cell is empty. */
  predicate Terminal(b: Board): (t: bool)
    requires IsBoard(b)
    ensures t <==> HasLine(b, X) || HasLine(b, O) || Actions(b) == {}
  {
    FullBoard(b);
    Utility(b) != 0 || forall i, j :: 0 <= i < 3 && 0 <= j < 3 ==> b[i][j] != Empty
  }

  /** No cell is empty exactly when no action is left. */
  lemma FullBoard(b: Board)
    requires IsBoard(b)
    ensures (forall i, j :: 0 <= i < 3 && 0 <= j < 3 ==> b[i][j] != Empty) <==> Actions(b) == {}
  {
    if Actions(b) == {} {
      forall i, j | 0 <= i < 3 && 0 <= j < 3
        ensures b[i][j] != Empty
      {
        assert (i, j) !in Actions(b);
      }
    }
  }

  /** A board that is not over has an empty cell. */
  lemma FreeCellOfLiveBoard(b: Board)
    requires IsBoard(b) && !Terminal(b)
    ensures exists k :: 0 <= k < 9 && Free(b, CellAt(k))
  {
    var i, j :| 0 <= i < 3 && 0 <= j < 3 && b[i][j] == Empty;
    assert CellAt(3 * i + j) == (i, j);
  }


  /** The value of the board for X when X is to move. */
  function MaxValue(b: Board): (v: int)
    requires IsBoard(b)
    ensures -1 <= v <= 1
    ensures Terminal(b) ==> v == Utility(b)
    decreases |Actions(b)|, 1
  {
    if Terminal(b) then Utility(b)
    else
      FreeCellOfLiveBoard(b);
      MaxFrom(b, 0, -2)
  }

  /** The value of the board for X when O is to move. */
  function MinValue(b: Board): (v: int)
    requires IsBoard(b)
    ensures -1 <= v <= 1
    ensures Terminal(b) ==> v == Utility(b)
    decreases |Actions(b)|, 1
  {
    if Terminal(b) then Utility(b)
    else
      FreeCellOfLiveBoard(b);
      MinFrom(b, 0, 2)
  }

  /** The running maximum `v` of `maxvalue`, continued over the free cells
      among the cells k..8 in row-major order; -2 stands for minus infinity. */
  function MaxFrom(b: Board, k: nat, v: int): (r: int)
    requires IsBoard(b) && k <= 9 && -2 <= v <= 1
    ensures v <= r <= 1
    ensures (exists j :: k <= j < 9 && Free(b, CellAt(j))) ==> -1 <= r
    decreases |Actions(b)|, 0, 9 - k
  {
    if k == 9 then v
    else if !Free(b, CellAt(k)) then MaxFrom(b, k + 1, v)
    else
      ResultAdvances(b, CellAt(k));
      MaxFrom(b, k + 1, Max(v, MinValue(Result(b, CellAt(k)).board)))
  }

  /** The running minimum `v` of `minvalue`; 2 stands for plus infinity. */
  function MinFrom(b: Board, k: nat, v: int): (r: int)
    requires IsBoard(b) && k <= 9 && -1 <= v <= 2
    ensures -1 <= r <= v
    ensures (exists j :: k <= j < 9 && Free(b, CellAt(j))) ==> r <= 1
    decreases |Actions(b)|, 0, 9 - k
  {
    if k == 9 then v
    else if !Free(b, CellAt(k)) then MinFrom(b, k + 1, v)
    else
      ResultAdvances(b, CellAt(k));
      MinFrom(b, k + 1, Min(v, MaxValue(Result(b, CellAt(k)).board)))
  }

  /** MaxFrom is the maximum of its start value and the values of the free
      cells it visits. */
  lemma {:induction false} MaxFromIsMax(b: Board, k: nat, v: int)
    requires IsBoard(b) && k <= 9 && -2 <= v <= 1
    ensures forall j :: k <= j < 9 && Free(b, CellAt(j)) ==>
      MinValue(Result(b, CellAt(j)).board) <= MaxFrom(b, k, v)
    ensures MaxFrom(b, k, v) == v || (exists j :: k <= j < 9 && Free(b, CellAt(j)) &&
                                         MaxFrom(b, k, v) == MinValue(Result(b, CellAt(j)).board))
    decreases 9 - k
  {
    if k < 9 {
      if !Free(b, CellAt(k)) {
        MaxFromIsMax(b, k + 1, v);
      } else {
        var w := MinValue(Result(b, CellAt(k)).board);
        MaxFromIsMax(b, k + 1, Max(v, w));
        assert MaxFrom(b, k, v) == MaxFrom(b, k + 1, Max(v, w));
      }
    }
  }

  lemma {:induction false} MinFromIsMin(b: Board, k: nat, v: int)
    requires IsBoard(b) && k <= 9 && -1 <= v <= 2
    ensures forall j :: k <= j < 9 && Free(b, CellAt(j)) ==>
      MinFrom(b, k, v) <= MaxValue(Result(b, CellAt(j)).board)
    ensures MinFrom(b, k, v) == v || (exists j :: k <= j < 9 && Free(b, CellAt(j)) &&
                                         MinFrom(b, k, v) == MaxValue(Result(b, CellAt(j)).board))
    decreases 9 - k
  {
    if k < 9 {
      if !Free(b, CellAt(k)) {
        MinFromIsMin(b, k + 1, v);
      } else {
        var w := MaxValue(Result(b, CellAt(k)).board);
        MinFromIsMin(b, k + 1, Min(v, w));
        assert MinFrom(b, k, v) == MinFrom(b, k + 1, Min(v, w));
      }
    }
  }

  /** Every action is one of the nine cells. */
  lemma ActionIndex(b: Board, a: Action) returns (j: int)
    requires IsBoard(b) && a in Actions(b)
    ensures 0 <= j < 9 && CellAt(j) == a
  {
    j := 3 * a.0 + a.1;
  }

  /** On a board that is not over, MaxValue is the largest MinValue over the
      boards one action away, and some action reaches it. */
  lemma MaxValueIsBest(b: Board)
    requires IsBoard(b) && !Terminal(b)
    ensures forall a :: a in Actions(b) ==> MinValue(Result(b, a).board) <= MaxValue(b)
    ensures exists a :: a in Actions(b) && MaxValue(b) == MinValue(Result(b, a).board)
  {
    MaxFromIsMax(b, 0, -2);
    assert MaxValue(b) == MaxFrom(b, 0, -2);
    forall a | a in Actions(b)
      ensures MinValue(Result(b, a).board) <= MaxValue(b)
    {
      var j := ActionIndex(b, a);
    }
    var j :| 0 <= j < 9 && Free(b, CellAt(j)) && MaxValue(b) == MinValue(Result(b, CellAt(j)).board);
    assert CellAt(j) in Actions(b);
  }

  /** On a board that is not over, MinValue is the smallest MaxValue over the
      boards one action away, and some action reaches it. */
  lemma MinValueIsBest(b: Board)
    requires IsBoard(b) && !Terminal(b)
    ensures forall a :: a in Actions(b) ==> MinValue(b) <= MaxValue(Result(b, a).board)
    ensures exists a :: a in Actions(b) && MinValue(b) == MaxValue(Result(b, a).board)
  {
    MinFromIsMin(b, 0, 2);
    assert MinValue(b) == MinFrom(b, 0, 2);
    forall a | a in Actions(b)
      ensures MinValue(b) <= MaxValue(Result(b, a).board)
    {
      var j := ActionIndex(b, a);
    }
    var j :| 0 <= j < 9 && Free(b, CellAt(j)) && MinValue(b) == MaxValue(Result(b, CellAt(j)).board);
    assert CellAt(j) in Actions(b);
  }

  /** What the player to move gets from action a: X scores a move by the
      MinValue of the next board, O by its MaxValue. */
  function MoveValue(b: Board, a: Action): int
    requires IsBoard(b) && a in Actions(b)
  {
    if Player(b) == X then MinValue(Result(b, a).board) else MaxValue(Result(b, a).board)
  }

  /** v is strictly better than w for X (maximising) or for O. */
  predicate Better(maximising: bool, v: int, w: int) {
    if maximising then v > w else v < w
  }

  /** A table of the MoveValue of every action of b. It comes from a lemma,
      so that a proof meets the game tree behind a value only where it asks
      for MoveValue itself. */
  lemma ValueTable(b: Board) returns (value: map<Action, int>)
    requires IsBoard(b)
    ensures value.Keys == Actions(b)
    ensures forall a {:trigger MoveValue(b, a)} :: a in value ==> value[a] == MoveValue(b, a)
  {
    value := map a | a in Actions(b) :: MoveValue(b, a);
  }

  /** The elements of s in some order, each once: the order in which Python
      happens to iterate over a set. */
  method Enumerate(s: set<Action>) returns (order: seq<Action>)
    ensures forall a :: a in order <==> a in s
    ensures forall i, j :: 0 <= i < j < |order| ==> order[i] != order[j]
  {
    order := [];
    var rest := s;
    while rest != {}
      invariant rest <= s
      invariant forall a :: a in order <==> a in s - rest
      invariant forall i, j :: 0 <= i < j < |order| ==> order[i] != order[j]
      decreases rest
    {
      var a :| a in rest;
      assert a !in order;
      order := order + [a];
      rest := rest - {a};
    }
  }

  /** The loop of `minimax` over the actions in the order `visit`: the
      running best value starts beyond the worst outcome (-2 for X, 2 for O,
      standing for Python's infinities) and moves only on a strict
      improvement, so the first optimal action is kept. */
  method BestOf(b: Board, maximising: bool, visit: seq<Action>, ghost value: map<Action, int>)
      returns (move: Option<Action>, ghost at: int)
    requires IsBoard(b) && maximising == (Player(b) == X)
    requires value.Keys == Actions(b)
    requires forall a {:trigger MoveValue(b, a)} :: a in value ==> value[a] == MoveValue(b, a)
    requires forall j :: 0 <= j < |visit| ==> visit[j] in Actions(b)
    ensures move == None <==> visit == []
    ensures move.Some? ==> 0 <= at < |visit| && visit[at] == move.value
    ensures move.Some? ==> forall j :: 0 <= j < |visit| ==> !Better(maximising, value[visit[j]], value[move.value])
    ensures move.Some? ==> forall j :: 0 <= j < at ==> Better(maximising, value[move.value], value[visit[j]])
  {
    var best := if maximising then -2 else 2;
    move := None;
    at := 0;
    for i := 0 to |visit|
      invariant move == None <==> i == 0
      invariant move == None ==> best == if maximising then -2 else 2
      invariant move.Some? ==> 0 <= at < i && visit[at] == move.value && best == value[move.value]
      invariant forall j :: 0 <= j < i ==> !Better(maximising, value[visit[j]], best)
      invariant move.Some? ==> forall j :: 0 <= j < at ==> Better(maximising, best, value[visit[j]])
    {
      // the opponent's best reply to visit[i]
      var v := if maximising then MinValue(Result(b, visit[i]).board) else MaxValue(Result(b, visit[i]).board);
      assert v == MoveValue(b, visit[i]);
      if (maximising && v > best) || (!maximising && v < best) {
        best := v;
        move := Some(visit[i]);
        at := i;
      }
    }
  }

  /** The minimax move: an action whose value is optimal for the player to
      move, the first optimal one in the order the actions were visited
      (`order`, which Python leaves to the set's iteration order); None
      (Python's empty-set sentinel) when no action is left. */
  method Minimax(b: Board) returns (move: Option<Action>, ghost order: seq<Action>)
    requires IsBoard(b)
    ensures move == None <==> Actions(b) == {}
    ensures forall a :: a in order <==> a in Actions(b)
    ensures forall i, j :: 0 <= i < j < |order| ==> order[i] != order[j]
    ensures move.Some? ==> move.value in Actions(b)
    ensures move.Some? ==> forall a :: a in Actions(b) ==> !Better(Player(b) == X, MoveValue(b, a), MoveValue(b, move.value))
    ensures move.Some? ==> (exists k :: 0 <= k < |order| && order[k] == move.value &&
                              forall j :: 0 <= j < k ==> Better(Player(b) == X, MoveValue(b, move.value), MoveValue(b, order[j])))
  {
    var currentActions := Actions(b);
    var maximising := Player(b) == X;
    var visit := Enumerate(currentActions);
    ghost var value := ValueTable(b);
    ghost var at;
    move, at := BestOf(b, maximising, visit, value);
    order := visit;
    if currentActions != {} {
      var a :| a in currentActions;
      assert a in visit;
    }
    if move.Some? {
      assert value[move.value] == MoveValue(b, move.value);
      forall a | a in currentActions
        ensures !Better(maximising, MoveValue(b, a), MoveValue(b, move.value))
      {
        var j :| 0 <= j < |visit| && visit[j] == a;
        assert value[a] == MoveValue(b, a);
      }
      forall j | 0 <= j < at
        ensures Better(maximising, MoveValue(b, move.value), MoveValue(b, order[j]))
      {
        assert value[visit[j]] == MoveValue(b, visit[j]);
      }
    }
  }
}
