/** The 4x4 Othello rules of the `useOthello` hook on board values: the eight
    rays, the move test, the disc flip, disc counts, the winner rule, and the
    hook's state transitions (`placeDisc`, `checkAndHandlePass`, `endGame`,
    `resetGame`) as functions of the old state. */
module OthelloRules {
  /** Side length of the board. */
  const Size: int := 4

  datatype Player = Black | White

  /** `player === "black" ? "white" : "black"`. */
  function Other(p: Player): (o: Player)
    ensures o != p
  {
    if p == Black then White else Black
  }

  lemma PlayerCases(p: Player)
    ensures p == Black || p == White
  {
  }

  /** A square: `""`, `"black"` or `"white"`. */
  datatype Square = Blank | Disc(owner: Player)

  lemma SquareCases(s: Square)
    ensures s == Blank || s == Disc(Black) || s == Disc(White)
  {
    if s.Disc? {
      assert s == Disc(s.owner);
      PlayerCases(s.owner);
    }
  }

  /** Row-major board: `board[row][col]`. */
  type Board = b: seq<seq<Square>> | |b| == Size && forall r :: 0 <= r < Size ==> |b[r]| == Size
    witness seq(Size, _ => seq(Size, _ => Blank))

  predicate OnBoard(x: int, y: int) {
    0 <= x < Size && 0 <= y < Size
  }

  lemma BoardExt(a: Board, b: Board)
    requires forall x, y :: OnBoard(x, y) ==> a[x][y] == b[x][y]
    ensures a == b
  {
    forall x | 0 <= x < Size
      ensures a[x] == b[x]
    {
      assert forall y :: 0 <= y < Size ==> a[x][y] == b[x][y];
    }
  }

  /** `initialBoard`: black at (1,1) and (2,2), white at (1,2) and (2,1). */
  const InitialBoard: Board :=
    [[Blank, Blank, Blank, Blank],
     [Blank, Disc(Black), Disc(White), Blank],
     [Blank, Disc(White), Disc(Black), Blank],
     [Blank, Blank, Blank, Blank]]

  /** The eight `[dx, dy]` ray directions, in the order the move test and the
      flip try them, as a column of `dx` and a column of `dy`: ray `d` has
      direction `[DX[d], DY[d]]`. */
  const DX: seq<int> := [-1, -1, -1, 0, 0, 1, 1, 1]
  const DY: seq<int> := [-1, 0, 1, -1, 1, -1, 0, 1]
  const RayCount: int := 8

  /** `i` unit steps of sign `s`: every direction component is -1, 0 or 1. */
  function Offset(i: int, s: int): int {
    if s > 0 then i else if s < 0 then -i else 0
  }

  /** The square reached from (row, col) after `i` steps of `x += dx; y += dy`
      along ray `d`. */
  function Step(row: int, col: int, d: int, i: int): (int, int)
    requires 0 <= d < RayCount
  {
    (row + Offset(i, DX[d]), col + Offset(i, DY[d]))
  }

  /** The contents of that square; off the board reads as blank. */
  function Ray(b: Board, row: int, col: int, d: int, i: int): Square
    requires 0 <= d < RayCount
  {
    var q := Step(row, col, d, i);
    if OnBoard(q.0, q.1) then b[q.0][q.1] else Blank
  }

  /** Squares 1..k along `d` hold opponent discs and square k+1 holds one of
      the mover's, inside the board. */
  ghost predicate Brackets(b: Board, row: int, col: int, d: int, player: Player, k: int)
    requires 0 <= d < RayCount
  {
    && 1 <= k
    && (forall i :: 1 <= i <= k ==> Ray(b, row, col, d, i) == Disc(Other(player)))
    && Ray(b, row, col, d, k + 1) == Disc(player)
  }

  /** Placing at (row, col) brackets a run of opponent discs along `d`. */
  ghost predicate Flanks(b: Board, row: int, col: int, d: int, player: Player)
    requires 0 <= d < RayCount
  {
    exists k :: Brackets(b, row, col, d, player, k)
  }

  /** The move test: the square is on the board and empty and at least one of
      the eight rays brackets an opponent run. */
  ghost predicate ValidMove(b: Board, row: int, col: int, player: Player) {
    && OnBoard(row, col) && b[row][col] == Blank
    && exists j :: 0 <= j < RayCount && Flanks(b, row, col, j, player)
  }

  /** Some square is a valid move (`hasValidMoves`). */
  ghost predicate HasMove(b: Board, player: Player) {
    exists x, y :: ValidMove(b, x, y, player)
  }

  /** (x, y) is inside a bracketed run of one of the first `j` directions. */
  ghost predicate OnRun(b: Board, row: int, col: int, player: Player, j: int, x: int, y: int) {
    exists m, i, k :: 0 <= m < j && m < RayCount && 1 <= i <= k
      && Brackets(b, row, col, m, player, k) && Step(row, col, m, i) == (x, y)
  }

  /** The board once the disc is placed and the runs of the first `j`
      directions are flipped. */
  ghost function FlipUpTo(b: Board, row: int, col: int, player: Player, j: int): (f: Board)
    ensures forall x, y :: OnBoard(x, y) ==>
      f[x][y] == if (x, y) == (row, col) || OnRun(b, row, col, player, j, x, y) then Disc(player) else b[x][y]
  {
    seq(Size, x requires 0 <= x < Size =>
      seq(Size, y requires 0 <= y < Size =>
        if (x, y) == (row, col) || OnRun(b, row, col, player, j, x, y) then Disc(player) else b[x][y]))
  }

  /** Before any ray is processed only the placed disc differs. */
  lemma FlipUpToZero(b: Board, row: int, col: int, player: Player)
    ensures forall x, y :: OnBoard(x, y) ==>
      FlipUpTo(b, row, col, player, 0)[x][y] == if (x, y) == (row, col) then Disc(player) else b[x][y]
  {
  }

  /** `flipDiscs(row, col, player)` as a value. */
  ghost function Flip(b: Board, row: int, col: int, player: Player): Board {
    FlipUpTo(b, row, col, player, RayCount)
  }

  ghost function Discs(b: Board, player: Player): set<(int, int)> {
    set x, y | 0 <= x < Size && 0 <= y < Size && b[x][y] == Disc(player) :: (x, y)
  }

  /** The squares a move at (row, col) turns over. */
  ghost function Flips(b: Board, row: int, col: int, player: Player): set<(int, int)> {
    set x, y | 0 <= x < Size && 0 <= y < Size && OnRun(b, row, col, player, RayCount, x, y) :: (x, y)
  }

  // ---------------------------------------------------------------------------
  // Ray geometry

  /** No ray comes back to its origin. */
  lemma OriginOffRays(row: int, col: int, m: int, i: int)
    requires 0 <= m < RayCount && 1 <= i
    ensures Step(row, col, m, i) != (row, col)
  {
  }

  /** Two different rays from one origin share no square. */
  lemma RaysDisjoint(row: int, col: int, m: int, m': int, i: int, i': int)
    requires 0 <= m < RayCount && 0 <= m' < RayCount && m != m' && 1 <= i && 1 <= i'
    ensures Step(row, col, m, i) != Step(row, col, m', i')
  {
  }

  /** One more step along a direction adds its components. */
  lemma StepNext(row: int, col: int, m: int, i: int)
    requires 0 <= m < RayCount
    ensures Step(row, col, m, i + 1)
         == (Step(row, col, m, i).0 + DX[m], Step(row, col, m, i).1 + DY[m])
  {
  }

  /** An opponent disc at square t+1 of ray `j` extends the opponent run to
      t+1 squares, and the walk moves on to square t+2. */
  lemma RayExtend(b: Board, row: int, col: int, player: Player, j: int, t: int, x: int, y: int)
    requires 0 <= j < RayCount && 0 <= t
    requires (x, y) == Step(row, col, j, t + 1) && OnBoard(x, y) && b[x][y] == Disc(Other(player))
    requires forall i :: 1 <= i <= t ==> Ray(b, row, col, j, i) == Disc(Other(player))
    ensures forall i :: 1 <= i <= t + 1 ==> Ray(b, row, col, j, i) == Disc(Other(player))
    ensures (x + DX[j], y + DY[j]) == Step(row, col, j, t + 2)
  {
    StepNext(row, col, j, t + 1);
  }

  /** The walk stops at square t+1 of ray `j` when that square is off the
      board or holds no opponent disc; it closes a run when it holds the
      mover's. */
  lemma RayStop(b: Board, row: int, col: int, player: Player, j: int, t: int, x: int, y: int)
    requires 0 <= j < RayCount
    requires (x, y) == Step(row, col, j, t + 1)
    requires !OnBoard(x, y) || b[x][y] != Disc(Other(player))
    ensures Ray(b, row, col, j, t + 1) != Disc(Other(player))
    ensures Ray(b, row, col, j, t + 1) == Disc(player) <==> OnBoard(x, y) && b[x][y] == Disc(player)
  {
  }

  /** A ray from a square of the board leaves it within `Size` steps. */
  lemma RayLeaves(row: int, col: int, m: int, i: int)
    requires OnBoard(row, col) && 0 <= m < RayCount && 0 <= i
    requires OnBoard(Step(row, col, m, i).0, Step(row, col, m, i).1)
    ensures i < Size
  {
  }

  /** A ray whose squares 1..t hold opponent discs and whose square t+1 does
      not brackets a run exactly when t >= 1 and square t+1 is the mover's. */
  lemma RayVerdict(b: Board, row: int, col: int, d: int, player: Player, t: int)
    requires 0 <= d < RayCount && 0 <= t
    requires forall i :: 1 <= i <= t ==> Ray(b, row, col, d, i) == Disc(Other(player))
    requires Ray(b, row, col, d, t + 1) != Disc(Other(player))
    ensures Flanks(b, row, col, d, player) <==> 1 <= t && Ray(b, row, col, d, t + 1) == Disc(player)
  {
    if Flanks(b, row, col, d, player) {
      var k :| Brackets(b, row, col, d, player, k);
    }
    if 1 <= t && Ray(b, row, col, d, t + 1) == Disc(player) {
      assert Brackets(b, row, col, d, player, t);
    }
  }

  /** A bracket along a ray has one length. */
  lemma BracketUnique(b: Board, row: int, col: int, d: int, player: Player, k: int, k': int)
    requires 0 <= d < RayCount
    requires Brackets(b, row, col, d, player, k) && Brackets(b, row, col, d, player, k')
    ensures k == k'
  {
  }

  // ---------------------------------------------------------------------------
  // The flip, one ray at a time

  /** A square of ray `j` beyond the origin still holds its original disc
      before ray `j` is processed. */
  lemma AheadUntouched(b: Board, row: int, col: int, player: Player, j: int, i: int)
    requires 0 <= j < RayCount && 1 <= i
    ensures !OnRun(b, row, col, player, j, Step(row, col, j, i).0, Step(row, col, j, i).1)
    ensures Step(row, col, j, i) != (row, col)
  {
    var q := Step(row, col, j, i);
    OriginOffRays(row, col, j, i);
    if OnRun(b, row, col, player, j, q.0, q.1) {
      var m, i', k :| 0 <= m < j && m < RayCount && 1 <= i' <= k
        && Brackets(b, row, col, m, player, k) && Step(row, col, m, i') == q;
      RaysDisjoint(row, col, m, j, i', i);
    }
  }

  /** Before ray `j` is processed, its squares read as on the original board. */
  lemma RayAhead(b: Board, row: int, col: int, player: Player, j: int, i: int)
    requires 0 <= j < RayCount && 1 <= i
    ensures Ray(FlipUpTo(b, row, col, player, j), row, col, j, i) == Ray(b, row, col, j, i)
  {
    AheadUntouched(b, row, col, player, j, i);
  }

  /** Processing ray `j`, whose squares 1..t hold opponent discs and whose
      square t+1 does not, flips squares 1..t when square t+1 is the mover's
      and t >= 1, and nothing otherwise. */
  lemma RayDone(b: Board, row: int, col: int, player: Player, j: int, t: int)
    requires 0 <= j < RayCount && 0 <= t
    requires forall i :: 1 <= i <= t ==> Ray(b, row, col, j, i) == Disc(Other(player))
    requires Ray(b, row, col, j, t + 1) != Disc(Other(player))
    ensures forall x, y :: OnBoard(x, y) ==>
      FlipUpTo(b, row, col, player, j + 1)[x][y] ==
        if Ray(b, row, col, j, t + 1) == Disc(player)
           && exists i :: 1 <= i <= t && Step(row, col, j, i) == (x, y)
        then Disc(player) else FlipUpTo(b, row, col, player, j)[x][y]
  {
    RayVerdict(b, row, col, j, player, t);
    forall x, y | OnBoard(x, y)
      ensures OnRun(b, row, col, player, j + 1, x, y) <==>
        OnRun(b, row, col, player, j, x, y)
        || (Ray(b, row, col, j, t + 1) == Disc(player) && exists i :: 1 <= i <= t && Step(row, col, j, i) == (x, y))
    {
      if OnRun(b, row, col, player, j + 1, x, y) && !OnRun(b, row, col, player, j, x, y) {
        var m, i, k :| 0 <= m < j + 1 && m < RayCount && 1 <= i <= k
          && Brackets(b, row, col, m, player, k) && Step(row, col, m, i) == (x, y);
        assert m == j;
        if 1 <= t && Ray(b, row, col, j, t + 1) == Disc(player) {
          assert Brackets(b, row, col, j, player, t);
          BracketUnique(b, row, col, j, player, k, t);
        }
      }
      if Ray(b, row, col, j, t + 1) == Disc(player) && exists i :: 1 <= i <= t && Step(row, col, j, i) == (x, y) {
        var i :| 1 <= i <= t && Step(row, col, j, i) == (x, y);
        assert Brackets(b, row, col, j, player, t);
      }
    }
  }

  // ---------------------------------------------------------------------------
  // Counting

  lemma InDiscs(b: Board, player: Player, x: int, y: int)
    requires OnBoard(x, y)
    ensures (x, y) in Discs(b, player) <==> b[x][y] == Disc(player)
  {
  }

  /** The squares turned over are opponent discs, the origin is not one of them. */
  lemma FlipsAreOpponents(b: Board, row: int, col: int, player: Player)
    ensures Flips(b, row, col, player) <= Discs(b, Other(player))
    ensures (row, col) !in Flips(b, row, col, player)
  {
    forall q | q in Flips(b, row, col, player)
      ensures q in Discs(b, Other(player)) && q != (row, col)
    {
      var m, i, k :| 0 <= m < RayCount && 1 <= i <= k
        && Brackets(b, row, col, m, player, k) && Step(row, col, m, i) == q;
      assert Ray(b, row, col, m, i) == Disc(Other(player));
      OriginOffRays(row, col, m, i);
    }
  }

  /** A valid move turns over at least one disc: the first square of a
      bracketing ray. */
  lemma ValidMoveFlips(b: Board, row: int, col: int, player: Player)
    requires ValidMove(b, row, col, player)
    ensures |Flips(b, row, col, player)| >= 1
  {
    var j :| 0 <= j < RayCount && Flanks(b, row, col, j, player);
    var k :| Brackets(b, row, col, j, player, k);
    var q := Step(row, col, j, 1);
    assert Ray(b, row, col, j, 1) == Disc(Other(player));
    assert OnRun(b, row, col, player, RayCount, q.0, q.1);
    assert q in Flips(b, row, col, player);
  }

  /** No square holds discs of both colours. */
  lemma DiscsDisjoint(b: Board, player: Player)
    ensures Discs(b, player) !! Discs(b, Other(player))
  {
    forall q | q in Discs(b, player)
      ensures q !in Discs(b, Other(player))
    {
      InDiscs(b, player, q.0, q.1);
      InDiscs(b, Other(player), q.0, q.1);
    }
  }

  lemma InFlips(b: Board, row: int, col: int, player: Player, x: int, y: int)
    requires OnBoard(x, y)
    ensures (x, y) in Flips(b, row, col, player) <==> OnRun(b, row, col, player, RayCount, x, y)
  {
  }

  /** Set arithmetic behind `FlipMoverDiscs`, over any board `f` whose discs
      of `player` are those of `b`, the origin and the squares of `F`. */
  lemma GainedDiscs(b: Board, f: Board, player: Player, o: (int, int), F: set<(int, int)>)
    requires OnBoard(o.0, o.1) && forall q :: q in F ==> OnBoard(q.0, q.1)
    requires forall x, y :: OnBoard(x, y) ==>
      (f[x][y] == Disc(player) <==> (x, y) == o || (x, y) in F || b[x][y] == Disc(player))
    ensures Discs(f, player) == Discs(b, player) + {o} + F
  {
    forall q | q in Discs(f, player)
      ensures q in Discs(b, player) + {o} + F
    {
      InDiscs(f, player, q.0, q.1);
      InDiscs(b, player, q.0, q.1);
    }
    forall q | q in Discs(b, player) + {o} + F
      ensures q in Discs(f, player)
    {
      if q in Discs(b, player) {
        InDiscs(b, player, q.0, q.1);
      }
      InDiscs(f, player, q.0, q.1);
    }
  }

  /** The mover's discs after the flip: the old ones, the placed one and the
      turned ones. */
  lemma FlipMoverDiscs(b: Board, row: int, col: int, player: Player)
    requires ValidMove(b, row, col, player)
    ensures Discs(Flip(b, row, col, player), player) == Discs(b, player) + {(row, col)} + Flips(b, row, col, player)
  {
    var f := Flip(b, row, col, player);
    var F := Flips(b, row, col, player);
    forall q | q in F
      ensures OnBoard(q.0, q.1)
    {
      FlipsOnBoard(b, row, col, player, q);
    }
    forall x, y | OnBoard(x, y)
      ensures f[x][y] == Disc(player) <==> (x, y) == (row, col) || (x, y) in F || b[x][y] == Disc(player)
    {
      InFlips(b, row, col, player, x, y);
    }
    GainedDiscs(b, f, player, (row, col), F);
  }

  lemma FlipsOnBoard(b: Board, row: int, col: int, player: Player, q: (int, int))
    requires q in Flips(b, row, col, player)
    ensures OnBoard(q.0, q.1)
  {
  }

  /** The opponent's discs after the flip: the old ones less the turned ones. */
  lemma FlipOpponentDiscs(b: Board, row: int, col: int, player: Player)
    requires ValidMove(b, row, col, player)
    ensures Discs(Flip(b, row, col, player), Other(player)) == Discs(b, Other(player)) - Flips(b, row, col, player)
  {
    var f := Flip(b, row, col, player);
    var o := Other(player);
    FlipsAreOpponents(b, row, col, player);
    forall q | q in Discs(f, o)
      ensures q in Discs(b, o) - Flips(b, row, col, player)
    {
      InDiscs(b, o, q.0, q.1);
    }
    forall q | q in Discs(b, o) - Flips(b, row, col, player)
      ensures q in Discs(f, o)
    {
      InDiscs(b, o, q.0, q.1);
    }
  }

  lemma CountSplit(mine: set<(int, int)>, theirs: set<(int, int)>, F: set<(int, int)>, o: (int, int))
    requires F <= theirs && mine !! theirs && o !in mine && o !in theirs
    ensures |mine + {o} + F| == |mine| + 1 + |F|
    ensures |theirs - F| == |theirs| - |F|
  {
    assert mine !! F;
    assert |mine + {o}| == |mine| + 1;
    assert theirs == (theirs - F) + F;
  }

  /** After a valid move the mover has 1 + k more discs and the opponent k
      fewer, with k >= 1: the disc total grows by exactly one. */
  lemma FlipCounts(b: Board, row: int, col: int, player: Player) returns (k: int)
    requires ValidMove(b, row, col, player)
    ensures k >= 1
    ensures |Discs(Flip(b, row, col, player), player)| == |Discs(b, player)| + 1 + k
    ensures |Discs(Flip(b, row, col, player), Other(player))| == |Discs(b, Other(player))| - k
    ensures |Discs(Flip(b, row, col, player), player)| + |Discs(Flip(b, row, col, player), Other(player))|
         == |Discs(b, player)| + |Discs(b, Other(player))| + 1
  {
    k := |Flips(b, row, col, player)|;
    ValidMoveFlips(b, row, col, player);
    FlipMoverDiscs(b, row, col, player);
    FlipOpponentDiscs(b, row, col, player);
    FlipsAreOpponents(b, row, col, player);
    DiscsDisjoint(b, player);
    InDiscs(b, player, row, col);
    InDiscs(b, Other(player), row, col);
    CountSplit(Discs(b, player), Discs(b, Other(player)), Flips(b, row, col, player), (row, col));
  }

  // ---------------------------------------------------------------------------
  // Winner and the hook's state

  /** `winner`: `null` until the game ends, then `"black"`, `"white"` or `"draw"`. */
  datatype Outcome = Undecided | Won(Player) | Draw

  /** The winner rule of `endGame`. */
  function Judge(blackCount: int, whiteCount: int): (o: Outcome)
    ensures o != Undecided
    ensures o == Won(Black) <==> blackCount > whiteCount
    ensures o == Won(White) <==> whiteCount > blackCount
    ensures o == Draw <==> blackCount == whiteCount
  {
    if blackCount > whiteCount then Won(Black)
    else if whiteCount > blackCount then Won(White)
    else Draw
  }

  /** The hook's five state fields. */
  datatype Game = Game(board: Board, turn: Player, over: bool, winner: Outcome, message: string)

  /** The state of a fresh hook and of `resetGame`. */
  const Start: Game := Game(InitialBoard, Black, false, Undecided, "")

  /** The notice `checkAndHandlePass` shows for the player who passes. */
  function PassNotice(player: Player): string {
    if player == Black then "Player passes" else "CPU passes"
  }

  /** `endGame`: the game is over and the counts decide the winner. */
  ghost function AfterEnd(g: Game): (h: Game)
    ensures h.over && h.board == g.board && h.turn == g.turn && h.message == g.message
    ensures h.winner == Judge(|Discs(g.board, Black)|, |Discs(g.board, White)|)
  {
    g.(over := true, winner := Judge(|Discs(g.board, Black)|, |Discs(g.board, White)|))
  }

  /** `checkAndHandlePass(player)`, with the delayed turn change applied at once:
      the new state and the returned flag. */
  ghost function AfterPassCheck(g: Game, player: Player): (r: (Game, bool))
    ensures r.0.board == g.board
    ensures r.1 <==> !HasMove(g.board, player)
    ensures HasMove(g.board, player) ==> r.0 == g
    ensures !HasMove(g.board, player) && HasMove(g.board, Other(player)) ==>
      r.0 == g.(message := PassNotice(player), turn := Other(player))
    ensures !HasMove(g.board, player) && !HasMove(g.board, Other(player)) ==> r.0 == AfterEnd(g)
  {
    if HasMove(g.board, player) then (g, false)
    else if HasMove(g.board, Other(player)) then (g.(message := PassNotice(player), turn := Other(player)), true)
    else (AfterEnd(g), true)
  }

  /** `placeDisc(row, col)`: the new state and the returned flag. */
  ghost function AfterPlace(g: Game, row: int, col: int): (r: (Game, bool))
    ensures r.1 <==> !g.over && ValidMove(g.board, row, col, g.turn)
    ensures !r.1 ==> r.0 == g
  {
    if g.over || !ValidMove(g.board, row, col, g.turn) then (g, false)
    else
      var moved := g.(board := Flip(g.board, row, col, g.turn), turn := Other(g.turn));
      (AfterPassCheck(moved, Other(g.turn)).0, true)
  }

  /** An accepted move: the board is the flipped one, and the turn passes to
      the opponent if they can move, comes back to the mover with a pass notice
      if only the mover can, and otherwise the game ends with the opponent
      nominally to move. */
  lemma AcceptedPlacement(g: Game, row: int, col: int)
    requires !g.over && ValidMove(g.board, row, col, g.turn)
    ensures var h := AfterPlace(g, row, col).0;
      var b' := Flip(g.board, row, col, g.turn);
      var next := Other(g.turn);
      && h.board == b'
      && (HasMove(b', next) ==> h.turn == next && h.message == g.message && !h.over && h.winner == g.winner)
      && (!HasMove(b', next) && HasMove(b', g.turn) ==>
            h.turn == g.turn && h.message == PassNotice(next) && !h.over && h.winner == g.winner)
      && (!HasMove(b', next) && !HasMove(b', g.turn) ==>
            h.over && h.turn == next && h.winner == Judge(|Discs(b', Black)|, |Discs(b', White)|))
  {
    var moved := g.(board := Flip(g.board, row, col, g.turn), turn := Other(g.turn));
    assert Other(Other(g.turn)) == g.turn;
    assert AfterPlace(g, row, col).0 == AfterPassCheck(moved, Other(g.turn)).0;
  }

  /** What holds in every state the hook reaches: the game is over only when
      neither colour has a move, and then the winner is the disc-count verdict;
      until then there is no winner. */
  ghost predicate Consistent(g: Game) {
    && (g.over ==> !HasMove(g.board, Black) && !HasMove(g.board, White)
                   && g.winner == Judge(|Discs(g.board, Black)|, |Discs(g.board, White)|))
    && (!g.over ==> g.winner == Undecided)
  }

  /** Both colours can move on the starting board: black at (0, 2), white at (0, 1). */
  lemma StartHasMoves()
    ensures HasMove(InitialBoard, Black) && HasMove(InitialBoard, White)
  {
    DownRun(InitialBoard, 0, 2, Black);
    DownRun(InitialBoard, 0, 1, White);
  }

  /** An empty square above an opponent disc above one of the mover's is a
      valid move (ray 6 points down). */
  lemma DownRun(b: Board, row: int, col: int, player: Player)
    requires 0 <= row && row + 2 < Size && 0 <= col < Size
    requires b[row][col] == Blank && b[row + 1][col] == Disc(Other(player)) && b[row + 2][col] == Disc(player)
    ensures ValidMove(b, row, col, player)
  {
    var d := 6;
    assert DX[d] == 1 && DY[d] == 0;
    assert Ray(b, row, col, d, 1) == Disc(Other(player));
    assert Ray(b, row, col, d, 2) == Disc(player);
    assert Brackets(b, row, col, d, player, 1);
    assert Flanks(b, row, col, d, player);
  }

  lemma StartConsistent()
    ensures Consistent(Start) && !Start.over
  {
  }

  lemma PassCheckConsistent(g: Game, player: Player)
    requires Consistent(g)
    ensures Consistent(AfterPassCheck(g, player).0)
  {
    PlayerCases(player);
  }

  lemma PlaceConsistent(g: Game, row: int, col: int)
    requires Consistent(g)
    ensures Consistent(AfterPlace(g, row, col).0)
  {
    if !g.over && ValidMove(g.board, row, col, g.turn) {
      var moved := g.(board := Flip(g.board, row, col, g.turn), turn := Other(g.turn));
      PassCheckConsistent(moved, Other(g.turn));
    }
  }
}
