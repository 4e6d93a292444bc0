/** The `useOthello` hook as an object: the 4x4 board array and the four other
    state fields, with the move test, flip, counting, pass handling and reset
    as methods proved against the value-level rules of `OthelloRules`. */
module OthelloHook {
  import opened OthelloRules

  predicate Shaped(b: array2<Square>) {
    b.Length0 == Size && b.Length1 == Size
  }

  /** The array holds the board value `g`. */
  ghost predicate Shows(a: array2<Square>, g: Board)
    requires Shaped(a)
    reads a
  {
    forall x, y :: OnBoard(x, y) ==> a[x, y] == g[x][y]
  }

  /** An array showing `g` has `g` as its snapshot. */
  lemma ShowsSnapshot(a: array2<Square>, g: Board)
    requires Shaped(a) && Shows(a, g)
    ensures Snapshot(a) == g
  {
    BoardExt(Snapshot(a), g);
  }

  /** The board value before any ray of a move is processed: the placed disc
      on the old board. */
  lemma PlacedShows(a: array2<Square>, b: Board, row: int, col: int, player: Player)
    requires Shaped(a) && OnBoard(row, col) && a[row, col] == Disc(player)
    requires forall x, y :: OnBoard(x, y) && (x, y) != (row, col) ==> a[x, y] == b[x][y]
    ensures Shows(a, FlipUpTo(b, row, col, player, 0))
  {
    FlipUpToZero(b, row, col, player);
  }

  /** The board array's contents as a board value. */
  ghost function Snapshot(a: array2<Square>): (b: Board)
    requires Shaped(a)
    reads a
    ensures forall x, y :: OnBoard(x, y) ==> b[x][y] == a[x, y]
  {
    seq(Size, x requires 0 <= x < Size reads a => seq(Size, y requires 0 <= y < Size reads a => a[x, y]))
  }

  /** The discs of `player` among the squares before (r, c) in row-major order. */
  ghost function DiscsBefore(b: Board, player: Player, r: int, c: int): set<(int, int)> {
    set x, y | 0 <= x < Size && 0 <= y < Size && (x < r || (x == r && y < c)) && b[x][y] == Disc(player) :: (x, y)
  }

  lemma DiscsBeforeStep(b: Board, player: Player, r: int, c: int)
    requires OnBoard(r, c)
    ensures |DiscsBefore(b, player, r, c + 1)| == |DiscsBefore(b, player, r, c)| + if b[r][c] == Disc(player) then 1 else 0
  {
    var now, next := DiscsBefore(b, player, r, c), DiscsBefore(b, player, r, c + 1);
    var added := if b[r][c] == Disc(player) then {(r, c)} else {};
    forall q | q in next
      ensures q in now + added
    {
    }
    forall q | q in now + added
      ensures q in next
    {
    }
    assert next == now + added;
    assert (r, c) !in now;
  }

  lemma DiscsBeforeRow(b: Board, player: Player, r: int)
    ensures DiscsBefore(b, player, r, Size) == DiscsBefore(b, player, r + 1, 0)
  {
  }

  lemma DiscsBeforeEnds(b: Board, player: Player)
    ensures DiscsBefore(b, player, 0, 0) == {}
    ensures DiscsBefore(b, player, Size, 0) == Discs(b, player)
  {
  }

  /** The collected run of a ray holds exactly its first |cells| squares. */
  lemma InRun(cells: seq<(int, int)>, row: int, col: int, d: int, q: (int, int))
    requires 0 <= d < RayCount
    requires forall i :: 0 <= i < |cells| ==> cells[i] == Step(row, col, d, i + 1)
    ensures q in cells <==> exists i :: 1 <= i <= |cells| && Step(row, col, d, i) == q
  {
    if q in cells {
      var i :| 0 <= i < |cells| && cells[i] == q;
      assert Step(row, col, d, i + 1) == q;
    }
    if exists i :: 1 <= i <= |cells| && Step(row, col, d, i) == q {
      var i :| 1 <= i <= |cells| && Step(row, col, d, i) == q;
      assert cells[i - 1] == q;
    }
  }

  /** Ray `j`'s contribution to the flip, given the walk's result. */
  lemma RunFlipped(b: Board, row: int, col: int, player: Player, j: int, toFlip: seq<(int, int)>, closed: bool)
    requires 0 <= j < RayCount
    requires forall i :: 0 <= i < |toFlip| ==> toFlip[i] == Step(row, col, j, i + 1)
    requires forall i :: 1 <= i <= |toFlip| ==>
      Ray(FlipUpTo(b, row, col, player, j), row, col, j, i) == Disc(Other(player))
    requires Ray(FlipUpTo(b, row, col, player, j), row, col, j, |toFlip| + 1) != Disc(Other(player))
    requires closed <==> Ray(FlipUpTo(b, row, col, player, j), row, col, j, |toFlip| + 1) == Disc(player)
    ensures closed ==> forall x, y :: OnBoard(x, y) ==>
      FlipUpTo(b, row, col, player, j + 1)[x][y] ==
        if (x, y) in toFlip then Disc(player) else FlipUpTo(b, row, col, player, j)[x][y]
    ensures !closed ==> forall x, y :: OnBoard(x, y) ==>
      FlipUpTo(b, row, col, player, j + 1)[x][y] == FlipUpTo(b, row, col, player, j)[x][y]
  {
    forall i | 1 <= i <= |toFlip| + 1
      ensures Ray(FlipUpTo(b, row, col, player, j), row, col, j, i) == Ray(b, row, col, j, i)
    {
      RayAhead(b, row, col, player, j, i);
    }
    RayDone(b, row, col, player, j, |toFlip|);
    forall x, y | OnBoard(x, y)
      ensures (x, y) in toFlip <==> exists i :: 1 <= i <= |toFlip| && Step(row, col, j, i) == (x, y)
    {
      InRun(toFlip, row, col, j, (x, y));
    }
  }

  class Othello {
    var board: array2<Square>
    var currentPlayer: Player
    var gameOver: bool
    var winner: Outcome
    var message: string

    ghost function State(): Game
      reads this, board
      requires Shaped(board)
    {
      Game(Snapshot(board), currentPlayer, gameOver, winner, message)
    }

    ghost predicate Valid()
      reads this, board
    {
      Shaped(board) && Consistent(State())
    }

    /** A board array holding `InitialBoard`. */
    static method NewBoard() returns (a: array2<Square>)
      ensures fresh(a) && Shaped(a) && Snapshot(a) == InitialBoard
    {
      a := new Square[Size, Size]((x, y) => if 0 <= x < Size && 0 <= y < Size then InitialBoard[x][y] else Blank);
      BoardExt(Snapshot(a), InitialBoard);
    }

    /** The hook's initial state. */
    constructor ()
      ensures Valid() && fresh(board) && State() == Start
    {
      var a := NewBoard();
      board := a;
      currentPlayer := Black;
      gameOver := false;
      winner := Undecided;
      message := "";
      StartConsistent();
    }

    /** `countDiscs`. */
    method CountDiscs() returns (blackCount: int, whiteCount: int)
      requires Shaped(board)
      ensures blackCount == |Discs(Snapshot(board), Black)|
      ensures whiteCount == |Discs(Snapshot(board), White)|
    {
      ghost var b := Snapshot(board);
      blackCount, whiteCount := 0, 0;
      DiscsBeforeEnds(b, Black);
      DiscsBeforeEnds(b, White);
      for r := 0 to Size
        invariant blackCount == |DiscsBefore(b, Black, r, 0)|
        invariant whiteCount == |DiscsBefore(b, White, r, 0)|
      {
        blackCount, whiteCount := CountRow(r, blackCount, whiteCount);
      }
    }

    /** The inner loop of `countDiscs`: row `r`. */
    method CountRow(r: int, blackBefore: int, whiteBefore: int) returns (blackCount: int, whiteCount: int)
      requires Shaped(board) && 0 <= r < Size
      requires blackBefore == |DiscsBefore(Snapshot(board), Black, r, 0)|
      requires whiteBefore == |DiscsBefore(Snapshot(board), White, r, 0)|
      ensures blackCount == |DiscsBefore(Snapshot(board), Black, r + 1, 0)|
      ensures whiteCount == |DiscsBefore(Snapshot(board), White, r + 1, 0)|
    {
      ghost var b := Snapshot(board);
      blackCount, whiteCount := blackBefore, whiteBefore;
      for c := 0 to Size
        invariant blackCount == |DiscsBefore(b, Black, r, c)|
        invariant whiteCount == |DiscsBefore(b, White, r, c)|
      {
        DiscsBeforeStep(b, Black, r, c);
        DiscsBeforeStep(b, White, r, c);
        if board[r, c] == Disc(Black) {
          blackCount := blackCount + 1;
        }
        if board[r, c] == Disc(White) {
          whiteCount := whiteCount + 1;
        }
      }
      DiscsBeforeRow(b, Black, r);
      DiscsBeforeRow(b, White, r);
    }

    /** `isValidMove(row, col, player)`: the eight ray walks. */
    method IsValidMove(row: int, col: int, player: Player) returns (valid: bool)
      requires Shaped(board) && OnBoard(row, col)
      ensures valid == ValidMove(Snapshot(board), row, col, player)
    {
      if board[row, col] != Blank {
        return false;
      }
      for j := 0 to RayCount
        invariant forall m :: 0 <= m < j ==> !Flanks(Snapshot(board), row, col, m, player)
      {
        var found := RayHasRun(row, col, player, j);
        if found {
          return true;
        }
      }
      return false;
    }

    /** The `while` loop of `isValidMove` for direction `j`: it succeeds when a
        disc of the mover follows at least one opponent disc. */
    method RayHasRun(row: int, col: int, player: Player, j: int) returns (found: bool)
      requires Shaped(board) && OnBoard(row, col) && 0 <= j < RayCount
      ensures found == Flanks(Snapshot(board), row, col, j, player)
    {
      ghost var b := Snapshot(board);
      var opponent := Other(player);
      var dx, dy := DX[j], DY[j];
      var x, y := row + dx, col + dy;
      var hasOpponent := false;
      ghost var t := 0;
      while 0 <= x < Size && 0 <= y < Size
        invariant 0 <= t && (x, y) == Step(row, col, j, t + 1) && hasOpponent == (t >= 1)
        invariant forall i :: 1 <= i <= t ==> Ray(b, row, col, j, i) == Disc(opponent)
        decreases Size - t
      {
        RayLeaves(row, col, j, t + 1);
        if board[x, y] == Disc(opponent) {
          RayExtend(b, row, col, player, j, t, x, y);
          hasOpponent := true;
        } else if board[x, y] == Disc(player) && hasOpponent {
          RayStop(b, row, col, player, j, t, x, y);
          RayVerdict(b, row, col, j, player, t);
          return true;
        } else {
          break;
        }
        x, y := x + dx, y + dy;
        t := t + 1;
      }
      RayStop(b, row, col, player, j, t, x, y);
      RayVerdict(b, row, col, j, player, t);
      return false;
    }

    /** `flipDiscs(row, col, player)`: place the disc, then process the eight
        rays in order. Squares written for one ray are never read by another. */
    method FlipDiscs(row: int, col: int, player: Player)
      requires Shaped(board) && OnBoard(row, col)
      modifies board
      ensures Snapshot(board) == Flip(old(Snapshot(board)), row, col, player)
    {
      ghost var b := Snapshot(board);
      board[row, col] := Disc(player);
      PlacedShows(board, b, row, col, player);
      FlipRays(row, col, player, b);
      ShowsSnapshot(board, Flip(b, row, col, player));
    }

    /** The loop of `flipDiscs` over the eight rays. */
    method FlipRays(row: int, col: int, player: Player, ghost b: Board)
      requires Shaped(board) && OnBoard(row, col)
      requires Shows(board, FlipUpTo(b, row, col, player, 0))
      modifies board
      ensures Shows(board, Flip(b, row, col, player))
    {
      for j := 0 to RayCount
        invariant Shows(board, FlipUpTo(b, row, col, player, j))
      {
        FlipRay(row, col, player, j, b);
      }
    }

    /** One ray of `flipDiscs`: collect the opponent squares along direction
        `j` and turn them over when a disc of the mover ends the run. */
    method FlipRay(row: int, col: int, player: Player, j: int, ghost b: Board)
      requires Shaped(board) && OnBoard(row, col) && 0 <= j < RayCount
      requires Shows(board, FlipUpTo(b, row, col, player, j))
      modifies board
      ensures Shows(board, FlipUpTo(b, row, col, player, j + 1))
    {
      var toFlip, closed := WalkRay(row, col, player, j, FlipUpTo(b, row, col, player, j));
      RunFlipped(b, row, col, player, j, toFlip, closed);
      if closed {
        Paint(toFlip, player);
      }
    }

    /** The walk of one ray in `flipDiscs`: the opponent squares passed over,
        and whether a disc of the mover ends the run. */
    method WalkRay(row: int, col: int, player: Player, j: int, ghost c: Board) returns (toFlip: seq<(int, int)>, closed: bool)
      requires Shaped(board) && OnBoard(row, col) && 0 <= j < RayCount
      requires Shows(board, c)
      ensures forall i :: 0 <= i < |toFlip| ==> toFlip[i] == Step(row, col, j, i + 1)
      ensures forall i :: 1 <= i <= |toFlip| ==> Ray(c, row, col, j, i) == Disc(Other(player))
      ensures Ray(c, row, col, j, |toFlip| + 1) != Disc(Other(player))
      ensures closed <==> Ray(c, row, col, j, |toFlip| + 1) == Disc(player)
    {
      var opponent := Other(player);
      var dx, dy := DX[j], DY[j];
      var x, y := row + dx, col + dy;
      toFlip, closed := [], false;
      ghost var t := 0;
      while 0 <= x < Size && 0 <= y < Size
        invariant t == |toFlip| && (x, y) == Step(row, col, j, t + 1)
        invariant forall i :: 0 <= i < t ==> toFlip[i] == Step(row, col, j, i + 1)
        invariant forall i :: 1 <= i <= t ==> Ray(c, row, col, j, i) == Disc(opponent)
        decreases Size - t
      {
        RayLeaves(row, col, j, t + 1);
        if board[x, y] != Disc(opponent) {
          RayStop(c, row, col, player, j, t, x, y);
          closed := board[x, y] == Disc(player);
          return;
        }
        RayExtend(c, row, col, player, j, t, x, y);
        toFlip := toFlip + [(x, y)];
        x, y := x + dx, y + dy;
        t := t + 1;
      }
      RayStop(c, row, col, player, j, t, x, y);
    }

    /** `toFlip.forEach(...)`: every listed square gets the mover's disc. */
    method Paint(cells: seq<(int, int)>, player: Player)
      requires Shaped(board) && forall i :: 0 <= i < |cells| ==> OnBoard(cells[i].0, cells[i].1)
      modifies board
      ensures forall x, y :: OnBoard(x, y) ==>
        board[x, y] == if (x, y) in cells then Disc(player) else old(board[x, y])
    {
      for k := 0 to |cells|
        invariant forall x, y :: OnBoard(x, y) ==>
          board[x, y] == if (x, y) in cells[..k] then Disc(player) else old(board[x, y])
      {
        board[cells[k].0, cells[k].1] := Disc(player);
      }
      assert cells[..|cells|] == cells;
    }

    /** `hasValidMoves(player)`: row-major search for a valid square. */
    method HasValidMoves(player: Player) returns (has: bool)
      requires Shaped(board)
      ensures has == HasMove(Snapshot(board), player)
    {
      ghost var b := Snapshot(board);
      for i := 0 to Size
        invariant forall x, y :: 0 <= x < i && 0 <= y < Size ==> !ValidMove(b, x, y, player)
      {
        for j := 0 to Size
          invariant forall x, y :: (0 <= x < i || (x == i && 0 <= y < j)) && 0 <= y < Size ==> !ValidMove(b, x, y, player)
        {
          var valid := IsValidMove(i, j, player);
          if valid {
            return true;
          }
        }
      }
      return false;
    }

    /** `endGame`. */
    method EndGame()
      requires Shaped(board)
      modifies this
      ensures board == old(board) && State() == AfterEnd(old(State()))
    {
      gameOver := true;
      var blackCount, whiteCount := CountDiscs();
      if blackCount > whiteCount {
        winner := Won(Black);
      } else if whiteCount > blackCount {
        winner := Won(White);
      } else {
        winner := Draw;
      }
    }

    /** `checkAndHandlePass(player)`; the turn change the source delays by two
        seconds happens at once. */
    method CheckAndHandlePass(player: Player) returns (handled: bool)
      requires Shaped(board)
      modifies this
      ensures board == old(board)
      ensures State() == AfterPassCheck(old(State()), player).0
      ensures handled == AfterPassCheck(old(State()), player).1
    {
      var has := HasValidMoves(player);
      if !has {
        var oppositePlayer := Other(player);
        var oppositeHas := HasValidMoves(oppositePlayer);
        if oppositeHas {
          message := if player == Black then "Player passes" else "CPU passes";
          currentPlayer := oppositePlayer;
          return true;
        } else {
          EndGame();
          return true;
        }
      }
      return false;
    }

    /** `placeDisc(row, col)`. */
    method PlaceDisc(row: int, col: int) returns (placed: bool)
      requires Valid() && OnBoard(row, col)
      modifies this, board
      ensures Valid() && board == old(board)
      ensures State() == AfterPlace(old(State()), row, col).0
      ensures placed == AfterPlace(old(State()), row, col).1
    {
      ghost var g := State();
      PlaceConsistent(g, row, col);
      if gameOver {
        return false;
      }
      var valid := IsValidMove(row, col, currentPlayer);
      if !valid {
        return false;
      }
      FlipDiscs(row, col, currentPlayer);
      var nextPlayer := Other(currentPlayer);
      currentPlayer := nextPlayer;
      var _ := CheckAndHandlePass(nextPlayer);
      return true;
    }

    /** `resetGame`. */
    method ResetGame()
      modifies this
      ensures Valid() && fresh(board) && State() == Start
    {
      var a := NewBoard();
      board := a;
      currentPlayer := Black;
      gameOver := false;
      winner := Undecided;
      message := "";
      StartConsistent();
    }
  }
}
