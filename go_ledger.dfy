/** The facts the Go session keeps across moves: stone conservation, liberties
    of every group and the territory counts, stated over board values. */
module GoLedger {
  import opened GoGrid
  import opened GoRules
  import opened GoEngine
  import opened GoTerritory

  /** One entry of the move history; `position` is (column, row), both 1-based. */
  datatype Move = Move(player: Color, position: (int, int))

  /** The empty 9x9 board. */
  const EmptyGrid: Grid := seq(N, _ => seq(N, _ => Empty))

  /** The stones of one colour on the board. */
  ghost function Stones(g: Grid, color: Color): set<Pos> {
    set x | x in AllCells && IsColor(g, x, color)
  }

  /** The indices of the history entries played by `color`. */
  ghost function PlayedBy(moves: seq<Move>, color: Color): set<int> {
    set i | 0 <= i < |moves| && moves[i].player == color
  }

  /** How many moves of the history were played by `color`. */
  function MovesBy(moves: seq<Move>, color: Color): (n: nat)
    ensures n == |PlayedBy(moves, color)|
  {
    if moves == [] then
      assert PlayedBy(moves, color) == {};
      0
    else
      var k := |moves| - 1;
      assert PlayedBy(moves, color) ==
        PlayedBy(moves[..k], color) + (if moves[k].player == color then {k} else {});
      assert k !in PlayedBy(moves[..k], color);
      MovesBy(moves[..k], color) + (if moves[k].player == color then 1 else 0)
  }

  /** What the territory counter guarantees about the counts it leaves behind:
      at most the empty cells in total, no white territory without white
      stones, none at all on the empty board, and 80/0 for a lone black stone. */
  ghost predicate TerritoryFits(g: Grid, blackTerritory: int, whiteTerritory: int) {
    0 <= blackTerritory && 0 <= whiteTerritory
    && blackTerritory + whiteTerritory <= |Empties(g)|
    && (|Stones(g, White)| == 0 ==> whiteTerritory == 0)
    && (|Stones(g, Black)| == 0 && |Stones(g, White)| == 0 ==> blackTerritory == 0)
    && (|Stones(g, Black)| == 1 && |Stones(g, White)| == 0 ==> blackTerritory == N * N - 1 && whiteTerritory == 0)
  }

  /** The territories the scan computes fit the board. */
  lemma TerritoriesFit(g: Grid)
    ensures TerritoryFits(g, Territories(g).0, Territories(g).1)
  {
    var B, W := TerritoriesFacts(g);
    NoneOfCount(g, Black);
    NoneOfCount(g, White);
    if |Stones(g, Black)| == 1 && |Stones(g, White)| == 0 {
      var s := LoneCount(g);
    }
  }

  lemma NoneOfCount(g: Grid, color: Color)
    ensures NoneOf(g, color) <==> |Stones(g, color)| == 0
  {
    if !NoneOf(g, color) {
      var q :| InBoard(q) && At(g, q) == Stone(color);
      InAllCells(q);
      assert q in Stones(g, color);
    } else {
      assert Stones(g, color) == {};
    }
  }

  /** A single black stone and no white one is the lone-stone board. */
  lemma LoneCount(g: Grid) returns (s: Pos)
    requires |Stones(g, Black)| == 1 && |Stones(g, White)| == 0
    ensures LoneBlack(g, s)
  {
    s :| s in Stones(g, Black);
    var rest := Stones(g, Black) - {s};
    assert Stones(g, Black) * {s} == {s};
    assert |rest| == |Stones(g, Black)| - |{s}|;
    assert rest == {};
    assert Stones(g, Black) == {s};
    assert Stones(g, White) == {};
    forall q | InBoard(q)
      ensures At(g, q) == (if q == s then Stone(Black) else Empty)
    {
      InAllCells(q);
      if q == s {
        assert IsColor(g, q, Black);
      } else {
        assert q !in Stones(g, Black) && q !in Stones(g, White);
        assert At(g, q) != Stone(White) && At(g, q) != Stone(Black);
        CellCases(At(g, q));
      }
    }
  }

  /** The session invariant on the board and counter values: every group has a
      liberty, the territory counts fit the board, and each colour's stones on
      the board plus those of its stones that were captured make up the moves
      it has played. */
  ghost predicate SessionInvariant(g: Grid, blackTerritory: int, whiteTerritory: int,
                                   blackCaptured: int, whiteCaptured: int, moves: seq<Move>) {
    NoDeadGroups(g) && TerritoryFits(g, blackTerritory, whiteTerritory)
    && 0 <= blackCaptured && 0 <= whiteCaptured
    && |Stones(g, Black)| + blackCaptured == MovesBy(moves, Black)
    && |Stones(g, White)| + whiteCaptured == MovesBy(moves, White)
  }

  /** The empty board keeps the invariant with every count at zero. */
  lemma EmptyGridFacts()
    ensures SessionInvariant(EmptyGrid, 0, 0, 0, 0, [])
  {
    EmptyGridHasNoDeadGroups();
    assert Stones(EmptyGrid, Black) == {};
    assert Stones(EmptyGrid, White) == {};
  }

  /** The empty board has no territory. */
  lemma EmptyGridTerritories()
    ensures Territories(EmptyGrid) == (0, 0)
  {
    assert Stones(EmptyGrid, Black) == {};
    assert Stones(EmptyGrid, White) == {};
    TerritoriesFit(EmptyGrid);
  }

  /** The recount on the empty board gives 0/0. */
  lemma EmptyGridCounts(blackTerritory: int, whiteTerritory: int)
    requires (blackTerritory, whiteTerritory) == Territories(EmptyGrid)
    ensures blackTerritory == 0 && whiteTerritory == 0
    ensures SessionInvariant(EmptyGrid, blackTerritory, whiteTerritory, 0, 0, [])
  {
    EmptyGridFacts();
    EmptyGridTerritories();
  }

  /** An accepted move keeps the session invariant once the territory counts
      fit the new board. */
  lemma AcceptedKeepsInvariant(g: Grid, p: Pos, player: Color, blackTerritory: int, whiteTerritory: int,
                               blackCaptured: int, whiteCaptured: int, moves: seq<Move>,
                               blackTerritory': int, whiteTerritory': int, position: (int, int))
    requires SessionInvariant(g, blackTerritory, whiteTerritory, blackCaptured, whiteCaptured, moves)
    requires IsEmpty(g, p) && !Forbidden(g, p, player)
    requires TerritoryFits(Capture(Placed(g, p, player), player), blackTerritory', whiteTerritory')
    ensures SessionInvariant(Capture(Placed(g, p, player), player), blackTerritory', whiteTerritory',
      if player == White then blackCaptured + |Removed(Placed(g, p, player), player)| else blackCaptured,
      if player == Black then whiteCaptured + |Removed(Placed(g, p, player), player)| else whiteCaptured,
      moves + [Move(player, position)])
  {
    AcceptedMoveKeepsLiberties(g, p, player);
    MoveCounts(g, p, player);
    assert (moves + [Move(player, position)])[..|moves|] == moves;
  }

  /** A distinct list holds as many cells as it is long. */
  lemma {:induction false} DistinctCount(s: seq<Pos>)
    requires Distinct(s)
    ensures |Cells(s)| == |s|
  {
    if s != [] {
      var t := s[..|s| - 1];
      assert s == t + [s[|s| - 1]];
      assert Cells(s) == Cells(t) + {s[|s| - 1]};
      assert s[|s| - 1] !in Cells(t);
      DistinctCount(t);
    }
  }

  /** Placing a stone on an empty cell adds exactly that cell to the mover's stones. */
  lemma PlacedStones(g: Grid, p: Pos, player: Color)
    requires IsEmpty(g, p)
    ensures Stones(Placed(g, p, player), player) == Stones(g, player) + {p}
    ensures p !in Stones(g, player)
    ensures Stones(Placed(g, p, player), Opponent(player)) == Stones(g, Opponent(player))
  {
    InAllCells(p);
  }

  /** The capture sweep keeps the mover's stones and removes exactly `Removed`
      from the opponent's. */
  lemma CapturedStones(h: Grid, player: Color)
    ensures Stones(Capture(h, player), player) == Stones(h, player)
    ensures Removed(h, player) <= Stones(h, Opponent(player))
    ensures Stones(Capture(h, player), Opponent(player)) == Stones(h, Opponent(player)) - Removed(h, player)
  {
    forall q | q in Removed(h, player)
      ensures q in Stones(h, Opponent(player))
    {
      InAllCells(q);
    }
  }

  /** Stone conservation over one accepted move. */
  lemma MoveCounts(g: Grid, p: Pos, player: Color)
    requires IsEmpty(g, p)
    ensures |Stones(Capture(Placed(g, p, player), player), player)| == |Stones(g, player)| + 1
    ensures |Stones(Capture(Placed(g, p, player), player), Opponent(player))| + |Removed(Placed(g, p, player), player)|
         == |Stones(g, Opponent(player))|
  {
    var h := Placed(g, p, player);
    PlacedStones(g, p, player);
    CapturedStones(h, player);
    var a, r := Stones(h, Opponent(player)), Removed(h, player);
    assert a == (a - r) + r;
  }

  /** A board that shows a grid has that grid as its snapshot. */
  lemma ShowsSnapshot(board: array2<Cell>, g: Grid)
    requires Shaped(board) && Shows(board, g)
    ensures Snapshot(board) == g
  {
    GridExt(Snapshot(board), g);
  }

}
