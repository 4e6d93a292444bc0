/** The `OthelloGame` component: the list of available moves, the human click
    handler and the CPU turn, over the hook object of `OthelloHook`. The
    component's own `isValidMove` has the same code as the hook's and is
    `OthelloHook.Othello.IsValidMove`, run on the hook's board. */
module OthelloGame {
  import opened OthelloRules
  import opened OthelloHook

  // ---------------------------------------------------------------------------
  // Available moves

  /** Row-major position of a square. */
  function Index(p: (int, int)): int {
    p.0 * Size + p.1
  }

  /** The valid squares of `player`. */
  ghost function ValidSquares(b: Board, player: Player): set<(int, int)> {
    set x, y | 0 <= x < Size && 0 <= y < Size && ValidMove(b, x, y, player) :: (x, y)
  }

  /** `moves` lists, in row-major order, exactly the squares of `ok` before
      position `n`. */
  ghost predicate MovesBefore(ok: set<(int, int)>, moves: seq<(int, int)>, n: int) {
    && (forall k :: 0 <= k < |moves| ==> OnBoard(moves[k].0, moves[k].1) && moves[k] in ok && Index(moves[k]) < n)
    && (forall x, y :: OnBoard(x, y) && Index((x, y)) < n && (x, y) in ok ==> (x, y) in moves)
    && (forall k, l :: 0 <= k < l < |moves| ==> Index(moves[k]) < Index(moves[l]))
  }

  /** A square of an earlier row comes earlier. */
  lemma IndexRowOrder(x: int, y: int, i: int, j: int)
    requires OnBoard(x, y) && OnBoard(i, j) && x < i
    ensures Index((x, y)) < Index((i, j))
  {
    assert Index((x, y)) < (x + 1) * Size <= i * Size <= Index((i, j));
  }

  /** Squares of the board have distinct positions. */
  lemma IndexInjective(x: int, y: int, i: int, j: int)
    requires OnBoard(x, y) && OnBoard(i, j)
    ensures Index((x, y)) == Index((i, j)) ==> x == i && y == j
  {
    if x < i {
      IndexRowOrder(x, y, i, j);
    } else if i < x {
      IndexRowOrder(i, j, x, y);
    }
  }

  /** Looking at square (i, j) extends the list by that square when it is in `ok`. */
  lemma MovesStep(ok: set<(int, int)>, moves: seq<(int, int)>, i: int, j: int, valid: bool)
    requires OnBoard(i, j) && MovesBefore(ok, moves, Index((i, j)))
    requires valid == ((i, j) in ok)
    ensures MovesBefore(ok, if valid then moves + [(i, j)] else moves, Index((i, j)) + 1)
  {
    var n := Index((i, j));
    var next := if valid then moves + [(i, j)] else moves;
    forall k | 0 <= k < |next|
      ensures OnBoard(next[k].0, next[k].1) && next[k] in ok && Index(next[k]) < n + 1
    {
      if k < |moves| {
        assert next[k] == moves[k];
      }
    }
    forall x, y | OnBoard(x, y) && Index((x, y)) < n + 1 && (x, y) in ok
      ensures (x, y) in next
    {
      if Index((x, y)) == n {
        IndexInjective(x, y, i, j);
      } else {
        assert (x, y) in moves;
      }
    }
    forall k, l | 0 <= k < l < |next|
      ensures Index(next[k]) < Index(next[l])
    {
      if l < |moves| {
        assert next[k] == moves[k] && next[l] == moves[l];
      } else {
        assert next[k] == moves[k];
      }
    }
  }

  /** A complete list of the valid squares meets the contract of
      `getAvailableMoves`. */
  lemma MovesDone(b: Board, player: Player, moves: seq<(int, int)>)
    requires MovesBefore(ValidSquares(b, player), moves, Size * Size)
    ensures forall k :: 0 <= k < |moves| ==> OnBoard(moves[k].0, moves[k].1) && ValidMove(b, moves[k].0, moves[k].1, player)
    ensures forall x, y :: ValidMove(b, x, y, player) ==> (x, y) in moves
    ensures forall k, l :: 0 <= k < l < |moves| ==> Index(moves[k]) < Index(moves[l])
    ensures |moves| == 0 <==> !HasMove(b, player)
  {
    var ok := ValidSquares(b, player);
    assert forall x, y :: ValidMove(b, x, y, player) ==> OnBoard(x, y) && (x, y) in ok;
    if |moves| > 0 {
      assert moves[0] in ok;
    }
  }

  /** `getAvailableMoves(board, player)`: every valid square, scanned row by row. */
  method GetAvailableMoves(game: Othello, player: Player) returns (moves: seq<(int, int)>)
    requires Shaped(game.board)
    ensures forall k :: 0 <= k < |moves| ==>
      OnBoard(moves[k].0, moves[k].1) && ValidMove(Snapshot(game.board), moves[k].0, moves[k].1, player)
    ensures forall x, y :: ValidMove(Snapshot(game.board), x, y, player) ==> (x, y) in moves
    ensures forall k, l :: 0 <= k < l < |moves| ==> Index(moves[k]) < Index(moves[l])
    ensures |moves| == 0 <==> !HasMove(Snapshot(game.board), player)
  {
    moves := [];
    for i := 0 to Size
      invariant MovesBefore(ValidSquares(Snapshot(game.board), player), moves, i * Size)
    {
      moves := ScanRow(game, player, i, moves);
    }
    MovesDone(Snapshot(game.board), player, moves);
  }

  /** The inner loop of `getAvailableMoves`: row `i`. */
  method ScanRow(game: Othello, player: Player, i: int, moves0: seq<(int, int)>) returns (moves: seq<(int, int)>)
    requires Shaped(game.board) && 0 <= i < Size
    requires MovesBefore(ValidSquares(Snapshot(game.board), player), moves0, i * Size)
    ensures MovesBefore(ValidSquares(Snapshot(game.board), player), moves, (i + 1) * Size)
  {
    ghost var ok := ValidSquares(Snapshot(game.board), player);
    moves := moves0;
    for j := 0 to Size
      invariant MovesBefore(ok, moves, i * Size + j)
    {
      var valid := game.IsValidMove(i, j, player);
      MovesStep(ok, moves, i, j, valid);
      if valid {
        moves := moves + [(i, j)];
      }
    }
  }

  // ---------------------------------------------------------------------------
  // Turns

  /** `handleCellClick(row, col)` as a value: ignored unless black is to move
      and the game is on; a rejected placement runs black's pass check. */
  ghost function AfterClick(g: Game, row: int, col: int): Game {
    if g.turn == Black && !g.over then
      var r := AfterPlace(g, row, col);
      if r.1 then r.0 else AfterPassCheck(r.0, Black).0
    else g
  }

  /** A click that is not a valid move never changes the board, and changes
      nothing at all while black still has a move somewhere. */
  lemma RejectedClick(g: Game, row: int, col: int)
    requires !ValidMove(g.board, row, col, Black)
    ensures AfterClick(g, row, col).board == g.board
    ensures HasMove(g.board, Black) ==> AfterClick(g, row, col) == g
  {
  }

  /** A click of black on a valid square while the game is on flips the board. */
  lemma AcceptedClick(g: Game, row: int, col: int)
    requires g.turn == Black && !g.over && ValidMove(g.board, row, col, Black)
    ensures AfterClick(g, row, col).board == Flip(g.board, row, col, Black)
  {
    AcceptedPlacement(g, row, col);
  }

  lemma ClickConsistent(g: Game, row: int, col: int)
    requires Consistent(g)
    ensures Consistent(AfterClick(g, row, col))
  {
    if g.turn == Black && !g.over {
      PlaceConsistent(g, row, col);
      PassCheckConsistent(AfterPlace(g, row, col).0, Black);
    }
  }

  /** The states one CPU turn may lead to: on white's turn in a running game,
      some valid white move is played if there is one, and otherwise white's
      pass check runs; at any other time nothing happens. */
  ghost predicate CpuStep(g: Game, h: Game) {
    if g.turn == White && !g.over then
      if HasMove(g.board, White) then
        exists x, y :: ValidMove(g.board, x, y, White) && h == AfterPlace(g, x, y).0
      else h == AfterPassCheck(g, White).0
    else h == g
  }

  lemma CpuStepConsistent(g: Game, h: Game)
    requires Consistent(g) && CpuStep(g, h)
    ensures Consistent(h)
  {
    if g.turn == White && !g.over {
      if HasMove(g.board, White) {
        var x, y :| ValidMove(g.board, x, y, White) && h == AfterPlace(g, x, y).0;
        PlaceConsistent(g, x, y);
      } else {
        PassCheckConsistent(g, White);
      }
    }
  }

  /** A CPU move adds exactly one disc to the board. */
  lemma CpuMoveAddsOne(g: Game, h: Game)
    requires CpuStep(g, h) && g.turn == White && !g.over && HasMove(g.board, White)
    ensures |Discs(h.board, Black)| + |Discs(h.board, White)| == |Discs(g.board, Black)| + |Discs(g.board, White)| + 1
  {
    var x, y :| ValidMove(g.board, x, y, White) && h == AfterPlace(g, x, y).0;
    AcceptedPlacement(g, x, y);
    var k := FlipCounts(g.board, x, y, White);
  }

  /** `handleCellClick(row, col)`. */
  method HandleCellClick(game: Othello, row: int, col: int)
    requires game.Valid() && OnBoard(row, col)
    modifies game, game.board
    ensures game.Valid() && game.board == old(game.board)
    ensures game.State() == AfterClick(old(game.State()), row, col)
  {
    ghost var g := game.State();
    ClickConsistent(g, row, col);
    if game.currentPlayer == Black && !game.gameOver {
      var result := game.PlaceDisc(row, col);
      if !result {
        var _ := game.CheckAndHandlePass(Black);
      }
    }
  }

  /** The CPU effect once its delay has elapsed; the random pick among the
      available moves is an arbitrary one. */
  method CpuTurn(game: Othello)
    requires game.Valid()
    modifies game, game.board
    ensures game.Valid() && game.board == old(game.board)
    ensures CpuStep(old(game.State()), game.State())
  {
    ghost var g := game.State();
    if game.currentPlayer == White && !game.gameOver {
      var availableMoves := GetAvailableMoves(game, White);
      if |availableMoves| > 0 {
        var k :| 0 <= k < |availableMoves|;
        var _ := game.PlaceDisc(availableMoves[k].0, availableMoves[k].1);
      } else {
        PassCheckConsistent(g, White);
        var _ := game.CheckAndHandlePass(White);
      }
    }
  }
}
