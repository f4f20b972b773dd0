/**
  * Tic-tac-toe: the rules of the game on a 3 x 3 board and the minimax search
  * that picks the optimal move for the player whose turn it is.
  *
  * A board is a list of three rows of three cells, each X, O or empty, indexed
  * as board[i][j]. Cells are also numbered 0..8 in row-major order, cell k being
  * board[k / 3][k % 3], so that counting loops can be stated over a prefix of
  * the cells.
  */
module TicTacToe {
  import opened Wrappers

  datatype Cell = X | O | Empty

  type Board = seq<seq<Cell>>

  /** A move (i, j): the row and column of the cell to mark. */
  type Action = (int, int)

  /** What `result` raises on an occupied cell. */
  datatype Error = ValueError

  predicate WellFormed(b: Board)
  {
    |b| == 3 && forall i :: 0 <= i < 3 ==> |b[i]| == 3
  }

  predicate InBoard(a: Action)
  {
    0 <= a.0 < 3 && 0 <= a.1 < 3
  }

  /** Cell number k in row-major order. */
  function At(b: Board, k: int): Cell
    requires WellFormed(b) && 0 <= k < 9
  {
    b[k / 3][k % 3]
  }

  /** How many of the first n cells hold c. */
  function CountTo(b: Board, c: Cell, n: int): nat
    requires WellFormed(b) && 0 <= n <= 9
  {
    if n == 0 then 0 else CountTo(b, c, n - 1) + if At(b, n - 1) == c then 1 else 0
  }

  /** How many cells of the board hold c. */
  function CountOf(b: Board, c: Cell): nat
    requires WellFormed(b)
  {
    CountTo(b, c, 9)
  }

  /** Row i, column j is cell number 3 * i + j. */
  lemma AtRowCol(b: Board, i: int, j: int)
    requires WellFormed(b) && 0 <= i < 3 && 0 <= j < 3
    ensures 0 <= 3 * i + j < 9 && (3 * i + j) / 3 == i && (3 * i + j) % 3 == j
    ensures At(b, 3 * i + j) == b[i][j]
  {
  }

  /** Cell number k is row k / 3, column k % 3. */
  lemma CellOfNumber(b: Board, k: int)
    requires WellFormed(b) && 0 <= k < 9
    ensures InBoard((k / 3, k % 3)) && 3 * (k / 3) + k % 3 == k
    ensures At(b, k) == b[k / 3][k % 3]
  {
  }

  /** Some of the first n cells hold c exactly when the count of c among them is positive. */
  lemma {:induction false} CountPositive(b: Board, c: Cell, n: int)
    requires WellFormed(b) && 0 <= n <= 9
    ensures CountTo(b, c, n) > 0 <==> exists k :: 0 <= k < n && At(b, k) == c
  {
    if n > 0 {
      CountPositive(b, c, n - 1);
    }
  }

  /** Two boards that differ in cell k only: the counts over the first n cells differ by that cell alone. */
  lemma {:induction false} CountsDifferAt(b: Board, r: Board, k: int, c: Cell, n: int)
    requires WellFormed(b) && WellFormed(r) && 0 <= k < 9 && 0 <= n <= 9
    requires forall m :: 0 <= m < 9 && m != k ==> At(r, m) == At(b, m)
    ensures CountTo(r, c, n) == CountTo(b, c, n) +
      if k < n then (if At(r, k) == c then 1 else 0) - (if At(b, k) == c then 1 else 0) else 0
  {
    if n > 0 {
      CountsDifferAt(b, r, k, c, n - 1);
    }
  }

  // ---------------------------------------------------------------------------
  // Initial state and whose turn it is
  // ---------------------------------------------------------------------------

  /** The starting board: every cell empty. */
  function InitialState(): (b: Board)
    ensures WellFormed(b)
    ensures forall i, j :: 0 <= i < 3 && 0 <= j < 3 ==> b[i][j] == Empty
  {
    [[Empty, Empty, Empty], [Empty, Empty, Empty], [Empty, Empty, Empty]]
  }

  /** The player to move: O when X has strictly more marks on the board, X otherwise. */
  function PlayerOf(b: Board): Cell
    requires WellFormed(b)
  {
    if CountOf(b, X) > CountOf(b, O) then O else X
  }

  /** Counts the X and O cells row by row and hands the turn to O exactly when X is ahead. */
  method Player(b: Board) returns (p: Cell)
    requires WellFormed(b)
    ensures p == PlayerOf(b)
    ensures p == O <==> CountOf(b, X) > CountOf(b, O)
    ensures p == X <==> CountOf(b, X) <= CountOf(b, O)
  {
    var countX, countO := 0, 0;
    for i := 0 to 3
      invariant countX == CountTo(b, X, 3 * i) && countO == CountTo(b, O, 3 * i)
    {
      for j := 0 to 3
        invariant countX == CountTo(b, X, 3 * i + j) && countO == CountTo(b, O, 3 * i + j)
      {
        AtRowCol(b, i, j);
        if b[i][j] == X {
          countX := countX + 1;
        } else if b[i][j] == O {
          countO := countO + 1;
        }
      }
    }
    if countX > countO {
      p := O;
    } else {
      p := X;
    }
  }

  // ---------------------------------------------------------------------------
  // Moves
  // ---------------------------------------------------------------------------

  /** The legal moves: every empty cell. */
  function ActionsOf(b: Board): set<Action>
    requires WellFormed(b)
  {
    set i, j | 0 <= i < 3 && 0 <= j < 3 && b[i][j] == Empty :: (i, j)
  }

  /** Collects the empty cells row by row. */
  method Actions(b: Board) returns (acts: set<Action>)
    requires WellFormed(b)
    ensures forall a :: a in acts <==> InBoard(a) && b[a.0][a.1] == Empty
    ensures acts == ActionsOf(b)
  {
    acts := {};
    for i := 0 to 3
      invariant forall a :: a in acts <==> InBoard(a) && a.0 < i && b[a.0][a.1] == Empty
    {
      for j := 0 to 3
        invariant forall a :: a in acts <==> InBoard(a) && (a.0 < i || (a.0 == i && a.1 < j)) && b[a.0][a.1] == Empty
      {
        if b[i][j] == Empty {
          acts := acts + {(i, j)};
        }
      }
    }
  }

  /** The board after the player to move marks cell a. */
  function Apply(b: Board, a: Action): (r: Board)
    requires WellFormed(b) && InBoard(a)
    ensures WellFormed(r)
  {
    b[a.0 := b[a.0][a.1 := PlayerOf(b)]]
  }

  /**
    * The board that results from the move a: the player to move marks the cell,
    * which must be empty; on an occupied cell the move is refused with ValueError.
    * The given board is a value and is left as it was.
    */
  function Result(b: Board, a: Action): (r: Result<Board, Error>)
    requires WellFormed(b) && InBoard(a)
    ensures r.Success? <==> b[a.0][a.1] == Empty
    ensures r.Failure? ==> r.error == ValueError
    ensures r.Success? ==> WellFormed(r.value) && r.value[a.0][a.1] == PlayerOf(b)
    ensures r.Success? ==> forall i, j :: 0 <= i < 3 && 0 <= j < 3 && (i, j) != a ==> r.value[i][j] == b[i][j]
  {
    if b[a.0][a.1] == Empty then Success(Apply(b, a)) else Failure(ValueError)
  }

  /** A move takes its cell out of the legal moves and leaves the others. */
  lemma ApplyRemovesAction(b: Board, a: Action)
    requires WellFormed(b) && a in ActionsOf(b)
    ensures ActionsOf(Apply(b, a)) == ActionsOf(b) - {a}
    ensures |ActionsOf(Apply(b, a))| == |ActionsOf(b)| - 1
  {
  }

  /** A move changes cell number 3 * i + j only. */
  lemma ApplyAt(b: Board, a: Action, m: int)
    requires WellFormed(b) && InBoard(a) && 0 <= m < 9
    ensures At(Apply(b, a), m) == if m == 3 * a.0 + a.1 then PlayerOf(b) else At(b, m)
  {
  }

  /** A move adds one mark of the mover and changes no other count. */
  lemma ApplyCounts(b: Board, a: Action, c: Cell)
    requires WellFormed(b) && a in ActionsOf(b)
    ensures CountOf(Apply(b, a), c) == CountOf(b, c) + (if c == PlayerOf(b) then 1 else 0) - (if c == Empty then 1 else 0)
  {
    var r, k := Apply(b, a), 3 * a.0 + a.1;
    AtRowCol(b, a.0, a.1);
    forall m | 0 <= m < 9 ensures At(r, m) == if m == k then PlayerOf(b) else At(b, m) {
      ApplyAt(b, a, m);
    }
    CountsDifferAt(b, r, k, c, 9);
  }

  /** A board that alternating play from the empty board can reach: X has as many marks as O, or one more. */
  predicate TurnsAlternate(b: Board)
    requires WellFormed(b)
  {
    CountOf(b, X) == CountOf(b, O) || CountOf(b, X) == CountOf(b, O) + 1
  }

  /** Every move keeps the counts alternating and passes the turn to the other player. */
  lemma {:induction false} ResultPassesTurn(b: Board, a: Action)
    requires WellFormed(b) && TurnsAlternate(b) && a in ActionsOf(b)
    ensures TurnsAlternate(Apply(b, a))
    ensures PlayerOf(Apply(b, a)) != PlayerOf(b)
  {
    ApplyCounts(b, a, X);
    ApplyCounts(b, a, O);
  }

  // ---------------------------------------------------------------------------
  // Winner, end of game, utility
  // ---------------------------------------------------------------------------

  /** The eight lines of three: rows, columns, then the two diagonals. */
  const Lines: seq<seq<Action>> :=
    [[(0, 0), (0, 1), (0, 2)], [(1, 0), (1, 1), (1, 2)], [(2, 0), (2, 1), (2, 2)],
     [(0, 0), (1, 0), (2, 0)], [(0, 1), (1, 1), (2, 1)], [(0, 2), (1, 2), (2, 2)],
     [(0, 0), (1, 1), (2, 2)], [(0, 2), (1, 1), (2, 0)]]

  /** Player p holds all three cells of line number k. */
  predicate Owns(b: Board, k: int, p: Cell)
    requires WellFormed(b) && 0 <= k < 8
  {
    forall m :: 0 <= m < 3 ==> b[Lines[k][m].0][Lines[k][m].1] == p
  }

  /**
    * Scans the lines from number k on, checking X before O on each line, and
    * names the owner of the first line that one player holds entirely.
    */
  function WinnerFrom(b: Board, k: nat): (w: Option<Cell>)
    requires WellFormed(b) && k <= 8
    ensures w.Some? ==> w.value != Empty && exists m :: k <= m < 8 && Owns(b, m, w.value)
    ensures w.None? <==> forall m :: k <= m < 8 ==> !Owns(b, m, X) && !Owns(b, m, O)
    decreases 8 - k
  {
    if k == 8 then None
    else if Owns(b, k, X) then Some(X)
    else if Owns(b, k, O) then Some(O)
    else WinnerFrom(b, k + 1)
  }

  /** The winner of the game, if there is one. */
  function Winner(b: Board): Option<Cell>
    requires WellFormed(b)
  {
    WinnerFrom(b, 0)
  }

  /** The game is over: somebody has won, or no cell is left. */
  predicate IsTerminal(b: Board)
    requires WellFormed(b)
  {
    Winner(b).Some? || ActionsOf(b) == {}
  }

  /** No empty cell is left exactly when there is no legal move. */
  lemma NoEmptyCellNoAction(b: Board)
    requires WellFormed(b)
    ensures CountOf(b, Empty) == 0 <==> ActionsOf(b) == {}
    ensures ActionsOf(b) == {} <==> forall i, j :: 0 <= i < 3 && 0 <= j < 3 ==> b[i][j] != Empty
  {
    if !forall i, j :: 0 <= i < 3 && 0 <= j < 3 ==> b[i][j] != Empty {
      var i, j :| 0 <= i < 3 && 0 <= j < 3 && b[i][j] == Empty;
      assert (i, j) in ActionsOf(b);
    }
    CountPositive(b, Empty, 9);
    if CountOf(b, Empty) != 0 {
      var k :| 0 <= k < 9 && At(b, k) == Empty;
      CellOfNumber(b, k);
      assert (k / 3, k % 3) in ActionsOf(b);
    }
    if ActionsOf(b) != {} {
      var a :| a in ActionsOf(b);
      AtRowCol(b, a.0, a.1);
    }
  }

  /** Counts the empty cells and reports the game over when there is a winner or none is empty. */
  method Terminal(b: Board) returns (t: bool)
    requires WellFormed(b)
    ensures t == IsTerminal(b)
    ensures t <==> Winner(b).Some? || forall i, j :: 0 <= i < 3 && 0 <= j < 3 ==> b[i][j] != Empty
  {
    var noneCount := 0;
    for i := 0 to 3
      invariant noneCount == CountTo(b, Empty, 3 * i)
    {
      for j := 0 to 3
        invariant noneCount == CountTo(b, Empty, 3 * i + j)
      {
        AtRowCol(b, i, j);
        if b[i][j] == Empty {
          noneCount := noneCount + 1;
        }
      }
    }
    NoEmptyCellNoAction(b);
    var w := Winner(b);
    t := (w.None? && noneCount == 0) || w.Some?;
  }

  /** 1 when X has won, -1 when O has won, 0 otherwise. */
  function Utility(b: Board): (u: int)
    requires WellFormed(b)
    ensures u == 1 <==> Winner(b) == Some(X)
    ensures u == -1 <==> Winner(b) == Some(O)
    ensures u == 0 <==> Winner(b).None?
  {
    if Winner(b) == Some(X) then 1
    else if Winner(b) == Some(O) then -1
    else 0
  }

  // ---------------------------------------------------------------------------
  // Minimax
  // ---------------------------------------------------------------------------

  /**
    * The minimax value of a board: its utility once the game is over; otherwise
    * the largest value among the moves when X is to move, the smallest when O is.
    */
  function MinimaxValue(b: Board): int
    requires WellFormed(b)
    decreases |ActionsOf(b)|, 1, 0
  {
    if IsTerminal(b) then Utility(b)
    else BestFrom(b, 0, PlayerOf(b) == X)
  }

  /**
    * The best value among the moves into cells n..8: the maximum when maximize
    * holds, the minimum otherwise; -2 or 2 (no value at all) when none of those
    * cells is empty.
    */
  function BestFrom(b: Board, n: nat, maximize: bool): int
    requires WellFormed(b) && n <= 9
    decreases |ActionsOf(b)|, 0, 9 - n
  {
    if n == 9 then (if maximize then -2 else 2)
    else
      var rest := BestFrom(b, n + 1, maximize);
      if At(b, n) != Empty then rest
      else
        var a := (n / 3, n % 3);
        ApplyRemovesAction(b, a);
        var v := MinimaxValue(Apply(b, a));
        if maximize then (if v > rest then v else rest)
        else (if v < rest then v else rest)
  }

  /** Some cell numbered n or above is empty. */
  predicate EmptyFrom(b: Board, n: int)
    requires WellFormed(b)
  {
    exists k :: n <= k < 9 && 0 <= k && At(b, k) == Empty
  }

  /** Every minimax value is a utility: -1, 0 or 1. */
  lemma {:induction false} ValueRange(b: Board)
    requires WellFormed(b)
    ensures -1 <= MinimaxValue(b) <= 1
    decreases |ActionsOf(b)|, 1, 0
  {
    if !IsTerminal(b) {
      var a :| a in ActionsOf(b);
      AtRowCol(b, a.0, a.1);
      BestRange(b, 0, PlayerOf(b) == X);
    }
  }

  lemma {:induction false} BestRange(b: Board, n: nat, maximize: bool)
    requires WellFormed(b) && n <= 9
    ensures EmptyFrom(b, n) ==> -1 <= BestFrom(b, n, maximize) <= 1
    ensures !EmptyFrom(b, n) ==> BestFrom(b, n, maximize) == if maximize then -2 else 2
    decreases |ActionsOf(b)|, 0, 9 - n
  {
    if n < 9 {
      BestRange(b, n + 1, maximize);
      if At(b, n) == Empty {
        var a := (n / 3, n % 3);
        ApplyRemovesAction(b, a);
        ValueRange(Apply(b, a));
      } else {
        assert EmptyFrom(b, n) == EmptyFrom(b, n + 1);
      }
    }
  }

  /** BestFrom bounds the value of every move into cells n..8 and is the value of one of them. */
  lemma {:induction false} BestBounds(b: Board, n: nat, maximize: bool)
    requires WellFormed(b) && n <= 9
    ensures forall k :: n <= k < 9 && At(b, k) == Empty ==>
      var v := MinimaxValue(Apply(b, (k / 3, k % 3)));
      if maximize then v <= BestFrom(b, n, maximize) else v >= BestFrom(b, n, maximize)
    ensures EmptyFrom(b, n) ==> (exists k :: n <= k < 9 && At(b, k) == Empty &&
                                           MinimaxValue(Apply(b, (k / 3, k % 3))) == BestFrom(b, n, maximize))
    decreases 9 - n
  {
    if n < 9 {
      BestBounds(b, n + 1, maximize);
      if At(b, n) != Empty {
        assert EmptyFrom(b, n) == EmptyFrom(b, n + 1);
      } else if !EmptyFrom(b, n + 1) {
        BestRange(b, n + 1, maximize);
        var a := (n / 3, n % 3);
        ApplyRemovesAction(b, a);
        ValueRange(Apply(b, a));
      }
    }
  }

  /**
    * On a board where the game goes on, the minimax value is the value of a move
    * that is at least (for X) or at most (for O) the value of every other move.
    */
  lemma ValueOfBestMove(b: Board, v: int, best: Action)
    requires WellFormed(b) && !IsTerminal(b)
    requires best in ActionsOf(b) && MinimaxValue(Apply(b, best)) == v
    requires forall a :: a in ActionsOf(b) ==>
      if PlayerOf(b) == X then MinimaxValue(Apply(b, a)) <= v else MinimaxValue(Apply(b, a)) >= v
    ensures MinimaxValue(b) == v
  {
    var maximize := PlayerOf(b) == X;
    AtRowCol(b, best.0, best.1);
    BestBounds(b, 0, maximize);
    var k :| 0 <= k < 9 && At(b, k) == Empty && MinimaxValue(Apply(b, (k / 3, k % 3))) == BestFrom(b, 0, maximize);
    CellOfNumber(b, k);
    assert (k / 3, k % 3) in ActionsOf(b);
  }

  /**
    * The minimax search as the Python code runs it: the utility of an ended game; otherwise the best
    * value over the moves for the player to move, with a move that attains it.
    * A move that reaches the best value a player can have (1 for X, -1 for O)
    * is taken at once, without looking at the remaining moves.
    */
  method MinimaxUtility(b: Board) returns (util: int, move: Option<Action>)
    requires WellFormed(b)
    ensures util == MinimaxValue(b)
    ensures move.None? <==> IsTerminal(b)
    ensures move.Some? ==> move.value in ActionsOf(b) && MinimaxValue(Apply(b, move.value)) == util
    decreases |ActionsOf(b)|, 1
  {
    var over := Terminal(b);
    if over {
      return Utility(b), None;
    }
    var p := Player(b);
    if p == X {
      util, move := MaxUtility(b);
    } else {
      util, move := MinUtility(b);
    }
  }

  /**
    * The turn of X, the maximizing player: scans the moves, keeps the first one
    * of largest value, and stops at a move of value 1.
    */
  method MaxUtility(b: Board) returns (util: int, move: Option<Action>)
    requires WellFormed(b) && !IsTerminal(b) && PlayerOf(b) == X
    ensures util == MinimaxValue(b)
    ensures move.Some? && move.value in ActionsOf(b) && MinimaxValue(Apply(b, move.value)) == util
    decreases |ActionsOf(b)|, 0
  {
    move := None;
    var acts := Actions(b);
    var v := -2;
    var rest := acts;
    while rest != {}
      invariant rest <= acts
      invariant Scanned(b, acts, rest, v, move, true)
      decreases rest
    {
      var action :| action in rest;
      var child := Result(b, action).value;
      ApplyRemovesAction(b, action);
      var u, _ := MinimaxUtility(child);
      ValueRange(child);
      if u == 1 {
        WinningMove(b, action);
        return u, Some(action);
      } else if u > v {
        v := u;
        move := Some(action);
      }
      rest := rest - {action};
    }
    ValueOfBestMove(b, v, move.value);
    util := v;
  }

  /**
    * The turn of O, the minimizing player: scans the moves, keeps the first one
    * of smallest value, and stops at a move of value -1.
    */
  method MinUtility(b: Board) returns (util: int, move: Option<Action>)
    requires WellFormed(b) && !IsTerminal(b) && PlayerOf(b) == O
    ensures util == MinimaxValue(b)
    ensures move.Some? && move.value in ActionsOf(b) && MinimaxValue(Apply(b, move.value)) == util
    decreases |ActionsOf(b)|, 0
  {
    move := None;
    var acts := Actions(b);
    var v := 2;
    var rest := acts;
    while rest != {}
      invariant rest <= acts
      invariant Scanned(b, acts, rest, v, move, false)
      decreases rest
    {
      var action :| action in rest;
      var child := Result(b, action).value;
      ApplyRemovesAction(b, action);
      var u, _ := MinimaxUtility(child);
      ValueRange(child);
      if u == -1 {
        WinningMove(b, action);
        return u, Some(action);
      } else if u < v {
        v := u;
        move := Some(action);
      }
      rest := rest - {action};
    }
    ValueOfBestMove(b, v, move.value);
    util := v;
  }

  /**
    * The loop state of the search after the moves of acts not in rest: v bounds
    * their values from above (maximizing) or below, and move, once chosen, is one
    * of them with value v; before any move v is -2 or 2.
    */
  ghost predicate Scanned(b: Board, acts: set<Action>, rest: set<Action>, v: int, move: Option<Action>, maximize: bool)
    requires WellFormed(b) && acts == ActionsOf(b)
  {
    (forall a :: a in acts && a !in rest ==>
      if maximize then MinimaxValue(Apply(b, a)) <= v else MinimaxValue(Apply(b, a)) >= v) &&
    (move.None? ==> rest == acts && v == if maximize then -2 else 2) &&
    (move.Some? ==> move.value in acts && move.value !in rest && MinimaxValue(Apply(b, move.value)) == v)
  }

  /** A move that reaches the best value the mover can have (1 for X, -1 for O) is a best move. */
  lemma WinningMove(b: Board, action: Action)
    requires WellFormed(b) && !IsTerminal(b) && action in ActionsOf(b)
    requires MinimaxValue(Apply(b, action)) == if PlayerOf(b) == X then 1 else -1
    ensures MinimaxValue(b) == MinimaxValue(Apply(b, action))
  {
    forall a | a in ActionsOf(b)
      ensures if PlayerOf(b) == X then MinimaxValue(Apply(b, a)) <= 1 else MinimaxValue(Apply(b, a)) >= -1
    {
      ValueRange(Apply(b, a));
    }
    ValueOfBestMove(b, MinimaxValue(Apply(b, action)), action);
  }

  /**
    * The optimal move for the player to move: none once the game is over,
    * otherwise a legal move whose minimax value is the board's own, which is
    * at least (for X) or at most (for O) that of every other legal move.
    */
  method Minimax(b: Board) returns (move: Option<Action>)
    requires WellFormed(b)
    ensures move.None? <==> IsTerminal(b)
    ensures move.Some? ==> move.value in ActionsOf(b) && MinimaxValue(Apply(b, move.value)) == MinimaxValue(b)
    ensures move.Some? ==> forall a :: a in ActionsOf(b) ==>
      if PlayerOf(b) == X then MinimaxValue(Apply(b, a)) <= MinimaxValue(Apply(b, move.value))
      else MinimaxValue(Apply(b, a)) >= MinimaxValue(Apply(b, move.value))
  {
    var over := Terminal(b);
    if over {
      return None;
    }
    var _, m := MinimaxUtility(b);
    forall a | a in ActionsOf(b)
      ensures if PlayerOf(b) == X then MinimaxValue(Apply(b, a)) <= MinimaxValue(b)
              else MinimaxValue(Apply(b, a)) >= MinimaxValue(b)
    {
      AtRowCol(b, a.0, a.1);
      BestBounds(b, 0, PlayerOf(b) == X);
    }
    move := m;
  }
}
