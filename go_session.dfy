/** The `Igo` component's session: the board, whose turn it is, the move history,
    the two capture tallies, the two territory counts and the forbidden-move
    notice, with the click and reset transitions. */
module GoSession {
  import opened GoGrid
  import opened GoRules
  import opened GoEngine
  import opened GoTerritory
  import opened GoLedger

  /** `Array(9).fill(null).map(() => Array(9).fill(null))`. */
  method NewBoard() returns (b: array2<Cell>)
    ensures fresh(b) && Shaped(b) && Shows(b, EmptyGrid)
  {
    b := new Cell[N, N]((_, _) => Empty);
  }

  /** `newBoardState` of an accepted click: a copy of the board with the
      stone placed and the opponent's dead groups swept off. */
  method PlaceAndCapture(board: array2<Cell>, row: int, col: int, player: Color, ghost g: Grid)
    returns (newBoard: array2<Cell>, captured: int, ghost g': Grid)
    requires Shaped(board) && Shows(board, g) && 1 <= row <= N && 1 <= col <= N
    ensures fresh(newBoard) && Shaped(newBoard) && Shows(newBoard, g')
    ensures g' == Capture(Placed(g, (row - 1, col - 1), player), player)
    ensures captured == |Removed(Placed(g, (row - 1, col - 1), player), player)|
  {
    ShowsSnapshot(board, g);
    newBoard := CopyBoard(board);
    newBoard[row - 1, col - 1] := Stone(player);
    GridExt(Snapshot(newBoard), Placed(g, (row - 1, col - 1), player));
    var capturedStones := CheckAndRemoveCapturedStones(newBoard, player);
    DistinctCount(capturedStones);
    captured := |capturedStones|;
    g' := Snapshot(newBoard);
  }

  /** The territory recount the page runs after every board change. */
  method Recount(board: array2<Cell>, ghost g: Grid) returns (blackTerritory: int, whiteTerritory: int)
    requires Shaped(board) && Shows(board, g)
    ensures (blackTerritory, whiteTerritory) == Territories(g)
    ensures TerritoryFits(g, blackTerritory, whiteTerritory)
  {
    ShowsSnapshot(board, g);
    blackTerritory, whiteTerritory := UpdateTerritories(board);
    TerritoriesFit(g);
  }

  /** The session: `grid` is the value the board array holds. */
  class Igo {
    var board: array2<Cell>
    ghost var grid: Grid
    var moves: seq<Move>
    var currentPlayer: Color
    var snackbarOpen: bool
    var blackCaptured: int
    var whiteCaptured: int
    var blackTerritory: int
    var whiteTerritory: int

    ghost predicate Valid()
      reads this, board
    {
      Shaped(board) && Shows(board, grid)
      && SessionInvariant(grid, blackTerritory, whiteTerritory, blackCaptured, whiteCaptured, moves)
    }

    /** The initial state: an empty board, no moves, Black to play. */
    constructor ()
      ensures Valid() && fresh(board)
      ensures grid == EmptyGrid && moves == [] && currentPlayer == Black && !snackbarOpen
      ensures blackCaptured == 0 && whiteCaptured == 0 && blackTerritory == 0 && whiteTerritory == 0
    {
      var b := NewBoard();
      EmptyGridFacts();
      board := b;
      grid := EmptyGrid;
      moves := [];
      currentPlayer := Black;
      snackbarOpen := false;
      blackCaptured, whiteCaptured := 0, 0;
      blackTerritory, whiteTerritory := 0, 0;
    }

    /** `clearBoard`, followed by the territory recount its board change triggers.
        The notice flag is left as it was. */
    method ClearBoard()
      modifies this
      ensures Valid() && fresh(board)
      ensures grid == EmptyGrid && moves == [] && currentPlayer == Black
      ensures blackCaptured == 0 && whiteCaptured == 0 && blackTerritory == 0 && whiteTerritory == 0
      ensures snackbarOpen == old(snackbarOpen)
      ensures (blackTerritory, whiteTerritory) == Territories(grid)
    {
      var b := NewBoard();
      var bt, wt := Recount(b, EmptyGrid);
      EmptyGridCounts(bt, wt);
      Commit(b, EmptyGrid, [], Black, 0, 0, bt, wt);
    }

    /** `handleClick(row, col)` with 1-based coordinates, followed by the
        territory recount when the board changed. */
    method HandleClick(row: int, col: int)
      requires Valid() && 1 <= row <= N && 1 <= col <= N
      modifies this
      ensures Valid()
      ensures !IsEmpty(old(grid), (row - 1, col - 1)) ==> unchanged(this)
      ensures IsEmpty(old(grid), (row - 1, col - 1)) && Forbidden(old(grid), (row - 1, col - 1), old(currentPlayer)) ==>
        snackbarOpen && board == old(board) && grid == old(grid)
        && moves == old(moves) && currentPlayer == old(currentPlayer)
        && blackCaptured == old(blackCaptured) && whiteCaptured == old(whiteCaptured)
        && blackTerritory == old(blackTerritory) && whiteTerritory == old(whiteTerritory)
      ensures IsEmpty(old(grid), (row - 1, col - 1)) && !Forbidden(old(grid), (row - 1, col - 1), old(currentPlayer)) ==>
        fresh(board)
        && grid == Capture(Placed(old(grid), (row - 1, col - 1), old(currentPlayer)), old(currentPlayer))
        && moves == old(moves) + [Move(old(currentPlayer), (col, row))]
        && currentPlayer == Opponent(old(currentPlayer))
        && snackbarOpen == old(snackbarOpen)
        && (blackTerritory, whiteTerritory) == Territories(grid)
        && (old(currentPlayer) == Black ==>
              whiteCaptured == old(whiteCaptured) + |Removed(Placed(old(grid), (row - 1, col - 1), Black), Black)|
              && blackCaptured == old(blackCaptured))
        && (old(currentPlayer) == White ==>
              blackCaptured == old(blackCaptured) + |Removed(Placed(old(grid), (row - 1, col - 1), White), White)|
              && whiteCaptured == old(whiteCaptured))
    {
      if board[row - 1, col - 1] != Empty {
        return;
      }
      ShowsSnapshot(board, grid);
      TryPlay(row, col);
    }

    /** `handleClick` on an empty cell: the suicide test, then the rejected or
        the accepted branch. */
    method TryPlay(row: int, col: int)
      requires Valid() && 1 <= row <= N && 1 <= col <= N && IsEmpty(grid, (row - 1, col - 1))
      modifies this
      ensures Valid()
      ensures Forbidden(old(grid), (row - 1, col - 1), old(currentPlayer)) ==>
        snackbarOpen && board == old(board) && grid == old(grid)
        && moves == old(moves) && currentPlayer == old(currentPlayer)
        && blackCaptured == old(blackCaptured) && whiteCaptured == old(whiteCaptured)
        && blackTerritory == old(blackTerritory) && whiteTerritory == old(whiteTerritory)
      ensures !Forbidden(old(grid), (row - 1, col - 1), old(currentPlayer)) ==>
        fresh(board)
        && grid == Capture(Placed(old(grid), (row - 1, col - 1), old(currentPlayer)), old(currentPlayer))
        && moves == old(moves) + [Move(old(currentPlayer), (col, row))]
        && currentPlayer == Opponent(old(currentPlayer))
        && snackbarOpen == old(snackbarOpen)
        && (blackTerritory, whiteTerritory) == Territories(grid)
        && (old(currentPlayer) == Black ==>
              whiteCaptured == old(whiteCaptured) + |Removed(Placed(old(grid), (row - 1, col - 1), Black), Black)|
              && blackCaptured == old(blackCaptured))
        && (old(currentPlayer) == White ==>
              blackCaptured == old(blackCaptured) + |Removed(Placed(old(grid), (row - 1, col - 1), White), White)|
              && whiteCaptured == old(whiteCaptured))
    {
      ShowsSnapshot(board, grid);
      var forbidden := IsForbiddenMove(board, row, col, currentPlayer);
      if forbidden {
        OpenSnackbar();
        return;
      }
      Play(row, col);
    }

    /** The rejected branch of `handleClick`: `setSnackbarOpen(true)` and nothing else. */
    method OpenSnackbar()
      requires Valid()
      modifies this
      ensures Valid() && snackbarOpen
      ensures board == old(board) && grid == old(grid) && moves == old(moves) && currentPlayer == old(currentPlayer)
      ensures blackCaptured == old(blackCaptured) && whiteCaptured == old(whiteCaptured)
      ensures blackTerritory == old(blackTerritory) && whiteTerritory == old(whiteTerritory)
    {
      snackbarOpen := true;
    }

    /** The accepted branch of `handleClick`: the history entry, the board copy
        with the stone placed and the opponent's dead groups swept off, the
        capture tally, the turn change and the territory recount. */
    method Play(row: int, col: int)
      requires Valid() && 1 <= row <= N && 1 <= col <= N
      requires IsEmpty(grid, (row - 1, col - 1)) && !Forbidden(grid, (row - 1, col - 1), currentPlayer)
      modifies this
      ensures Valid() && fresh(board)
      ensures grid == Capture(Placed(old(grid), (row - 1, col - 1), old(currentPlayer)), old(currentPlayer))
      ensures moves == old(moves) + [Move(old(currentPlayer), (col, row))]
      ensures currentPlayer == Opponent(old(currentPlayer))
      ensures snackbarOpen == old(snackbarOpen)
      ensures (blackTerritory, whiteTerritory) == Territories(grid)
      ensures old(currentPlayer) == Black ==>
        whiteCaptured == old(whiteCaptured) + |Removed(Placed(old(grid), (row - 1, col - 1), Black), Black)|
        && blackCaptured == old(blackCaptured)
      ensures old(currentPlayer) == White ==>
        blackCaptured == old(blackCaptured) + |Removed(Placed(old(grid), (row - 1, col - 1), White), White)|
        && whiteCaptured == old(whiteCaptured)
    {
      ghost var p := (row - 1, col - 1);
      ghost var player := currentPlayer;
      var newMove := Move(currentPlayer, (col, row));
      var newBoard, captured, g' := PlaceAndCapture(board, row, col, currentPlayer, grid);
      var bt, wt := Recount(newBoard, g');
      AcceptedKeepsInvariant(grid, p, player, blackTerritory, whiteTerritory,
        blackCaptured, whiteCaptured, moves, bt, wt, (col, row));
      var bc, wc := blackCaptured, whiteCaptured;
      if currentPlayer == Black {
        wc := wc + captured;
      } else {
        bc := bc + captured;
      }
      Commit(newBoard, g', moves + [newMove], Opponent(currentPlayer), bc, wc, bt, wt);
    }

    /** The state setters of one event handler, applied together. */
    method Commit(newBoard: array2<Cell>, ghost g: Grid, newMoves: seq<Move>, player: Color,
                  bc: int, wc: int, bt: int, wt: int)
      requires Shaped(newBoard) && Shows(newBoard, g) && SessionInvariant(g, bt, wt, bc, wc, newMoves)
      modifies this
      ensures Valid()
      ensures board == newBoard && grid == g && moves == newMoves && currentPlayer == player
      ensures blackCaptured == bc && whiteCaptured == wc && blackTerritory == bt && whiteTerritory == wt
      ensures snackbarOpen == old(snackbarOpen)
    {
      moves, currentPlayer := newMoves, player;
      blackCaptured, whiteCaptured, blackTerritory, whiteTerritory := bc, wc, bt, wt;
      board, grid := newBoard, g;
    }

    /** `checkLifeAndDeath` as the page calls it on every render: on any board
        the session can reach it marks nothing. */
    method MarkDeadStones() returns (deadStones: seq<Pos>)
      requires Valid()
      ensures deadStones == []
    {
      ShowsSnapshot(board, grid);
      deadStones := CheckLifeAndDeath(board);
      NoDeadGroupsMarksNothing(grid);
      DistinctCount(deadStones);
    }
  }
}
