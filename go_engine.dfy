/** The Go engine of the igo page on a mutable 9x9 board: flood-fill group
    search with a shared visited matrix, liberty tests, the capture sweep, the
    forbidden-move test and dead-stone marking. Each method is proved against
    the value-level rules of `GoRules`. */
module GoEngine {
  import opened GoGrid
  import opened GoRules

  predicate Shaped<T>(b: array2<T>) {
    b.Length0 == N && b.Length1 == N
  }

  /** The board's contents as a grid value. */
  ghost function Snapshot(b: array2<Cell>): (g: Grid)
    requires Shaped(b)
    reads b
    ensures forall p :: InBoard(p) ==> At(g, p) == b[p.0, p.1]
  {
    seq(N, r requires 0 <= r < N reads b => seq(N, c requires 0 <= c < N reads b => b[r, c]))
  }

  /** `visited` holds true exactly on the cells of `v`. */
  ghost predicate Marks(visited: array2<bool>, v: set<Pos>)
    requires Shaped(visited)
    reads visited
  {
    && (forall r, c :: 0 <= r < N && 0 <= c < N ==> (visited[r, c] <==> (r, c) in v))
    && (forall q :: q in v ==> InBoard(q))
  }

  ghost function Cells(s: seq<Pos>): set<Pos> {
    set x | x in s
  }

  ghost predicate Distinct(s: seq<Pos>) {
    forall i, j :: 0 <= i < j < |s| ==> s[i] != s[j]
  }

  lemma DistinctAppend(s: seq<Pos>, t: seq<Pos>)
    requires Distinct(s) && Distinct(t) && Cells(s) !! Cells(t)
    ensures Distinct(s + t) && Cells(s + t) == Cells(s) + Cells(t)
  {
    forall i, j | 0 <= i < j < |s + t|
      ensures (s + t)[i] != (s + t)[j]
    {
      if i < |s| && j >= |s| {
        assert (s + t)[i] in Cells(s) && (s + t)[j] in Cells(t);
      }
    }
  }

  /** A fresh copy of the board (`board.map((row) => row.slice())`). */
  method CopyBoard(board: array2<Cell>) returns (copy: array2<Cell>)
    requires Shaped(board)
    ensures fresh(copy) && Shaped(copy) && Snapshot(copy) == Snapshot(board)
  {
    copy := new Cell[N, N]((r, c) reads board => if 0 <= r < N && 0 <= c < N then board[r, c] else Empty);
    GridExt(Snapshot(copy), Snapshot(board));
  }

  /** What one search from `p` achieved: `v` grew to `v'` by cells linked to `p`,
      `p` itself was reached if it holds `color`, and `v'` is closed except for
      the cells still in progress. */
  ghost predicate Explored(g: Grid, color: Color, p: Pos, v: set<Pos>, v': set<Pos>, stack: set<Pos>) {
    && v <= v'
    && ClosedExcept(g, color, v', stack)
    && (IsColor(g, p, color) ==> p in v')
    && (forall q :: q in v' - v ==> Linked(g, color, p, q))
  }

  /** `group'` is `group` with the newly visited cells pushed, once each. */
  ghost predicate Pushed(group: seq<Pos>, group': seq<Pos>, v: set<Pos>, v': set<Pos>) {
    group <= group' && Distinct(group') && Cells(group') == Cells(group) + (v' - v)
  }

  /** The four searches from the neighbours of `x` add up to a search from `x`. */
  lemma ExploredStep(g: Grid, color: Color, r: int, c: int, stack: set<Pos>,
                     v: set<Pos>, v1: set<Pos>, v2: set<Pos>, v3: set<Pos>, v4: set<Pos>, v5: set<Pos>)
    requires IsColor(g, (r, c), color) && v1 == v + {(r, c)} && ClosedExcept(g, color, v, stack)
    requires Explored(g, color, (r - 1, c), v1, v2, stack + {(r, c)})
    requires Explored(g, color, (r + 1, c), v2, v3, stack + {(r, c)})
    requires Explored(g, color, (r, c - 1), v3, v4, stack + {(r, c)})
    requires Explored(g, color, (r, c + 1), v4, v5, stack + {(r, c)})
    ensures Explored(g, color, (r, c), v, v5, stack)
  {
    var x := (r, c);
    assert NbrsOfColorIn(g, color, x, v5);
    forall q | q in v5 - v
      ensures Linked(g, color, x, q)
    {
      if q == x {
        LinkedRefl(g, color, x);
      } else if q in v2 - v1 {
        LinkStep(g, color, x, Up(x), q);
      } else if q in v3 - v2 {
        LinkStep(g, color, x, Down(x), q);
      } else if q in v4 - v3 {
        LinkStep(g, color, x, Left(x), q);
      } else {
        LinkStep(g, color, x, Right(x), q);
      }
    }
  }

  lemma PushedStep(group: seq<Pos>, x: Pos, g2: seq<Pos>, g3: seq<Pos>, g4: seq<Pos>, g5: seq<Pos>,
                   v: set<Pos>, v1: set<Pos>, v2: set<Pos>, v3: set<Pos>, v4: set<Pos>, v5: set<Pos>)
    requires Distinct(group) && Cells(group) <= v && x !in v && v1 == v + {x}
    requires v1 <= v2 <= v3 <= v4 <= v5
    requires Pushed(group + [x], g2, v1, v2) && Pushed(g2, g3, v2, v3)
    requires Pushed(g3, g4, v3, v4) && Pushed(g4, g5, v4, v5)
    ensures Pushed(group, g5, v, v5)
  {
    assert group <= group + [x];
  }

  /** `getStoneGroup`: depth-first search from (r, c) over cells of `color`, marking
      cells in `visited` and pushing them onto `group`. `v` is the set `visited`
      marks and `stack` the cells whose search is still in progress further up. */
  method GetStoneGroup(board: array2<Cell>, visited: array2<bool>, r: int, c: int, color: Color,
                       group: seq<Pos>, ghost g: Grid, ghost v: set<Pos>, ghost stack: set<Pos>)
    returns (group': seq<Pos>, ghost v': set<Pos>)
    requires Shaped(board) && Shaped(visited) && Snapshot(board) == g
    requires Marks(visited, v) && ClosedExcept(g, color, v, stack) && stack <= v
    requires Distinct(group) && Cells(group) <= v
    modifies visited
    decreases AllCells - v
    ensures Marks(visited, v')
    ensures Explored(g, color, (r, c), v, v', stack)
    ensures Pushed(group, group', v, v')
  {
    if r < 0 || r >= N || c < 0 || c >= N {
      return group, v;
    }
    if board[r, c] != Stone(color) || visited[r, c] {
      return group, v;
    }
    var x := (r, c);
    InAllCells(x);
    visited[r, c] := true;
    ghost var v1 := v + {x};
    var group1 := group + [x];
    assert Distinct(group1) && Cells(group1) <= v1 by {
      assert x !in Cells(group);
      DistinctAppend(group, [x]);
    }
    ClosedWiden(g, color, v, stack, v1, stack + {x});
    var group2, group3, group4;
    ghost var v2, v3, v4;
    group2, v2 := GetStoneGroup(board, visited, r - 1, c, color, group1, g, v1, stack + {x});
    group3, v3 := GetStoneGroup(board, visited, r + 1, c, color, group2, g, v2, stack + {x});
    group4, v4 := GetStoneGroup(board, visited, r, c - 1, color, group3, g, v3, stack + {x});
    group', v' := GetStoneGroup(board, visited, r, c + 1, color, group4, g, v4, stack + {x});
    ExploredStep(g, color, r, c, stack, v, v1, v2, v3, v4, v');
    PushedStep(group, x, group2, group3, group4, group', v, v1, v2, v3, v4, v');
  }

  /** `isGroupCaptured`: true when no member has an empty in-board neighbour. */
  method IsGroupCaptured(group: seq<Pos>, board: array2<Cell>) returns (captured: bool)
    requires Shaped(board) && forall i :: 0 <= i < |group| ==> InBoard(group[i])
    ensures captured == !HasLiberty(Snapshot(board), Cells(group))
  {
    ghost var g := Snapshot(board);
    for i := 0 to |group|
      invariant forall j :: 0 <= j < i ==> !HasEmptyNeighbor(g, group[j])
    {
      var (r, c) := group[i];
      if r > 0 && board[r - 1, c] == Empty {
        assert HasEmptyNeighbor(g, group[i]);
        return false;
      }
      if r < N - 1 && board[r + 1, c] == Empty {
        assert HasEmptyNeighbor(g, group[i]);
        return false;
      }
      if c > 0 && board[r, c - 1] == Empty {
        assert HasEmptyNeighbor(g, group[i]);
        return false;
      }
      if c < N - 1 && board[r, c + 1] == Empty {
        assert HasEmptyNeighbor(g, group[i]);
        return false;
      }
    }
    return true;
  }

  /** `isGroupAlive` of `checkLifeAndDeath`: true when some member has an empty
      in-board neighbour. */
  method IsGroupAlive(group: seq<Pos>, board: array2<Cell>) returns (alive: bool)
    requires Shaped(board) && forall i :: 0 <= i < |group| ==> InBoard(group[i])
    ensures alive == HasLiberty(Snapshot(board), Cells(group))
  {
    ghost var g := Snapshot(board);
    for i := 0 to |group|
      invariant forall j :: 0 <= j < i ==> !HasEmptyNeighbor(g, group[j])
    {
      var (r, c) := group[i];
      if r > 0 && board[r - 1, c] == Empty {
        assert HasEmptyNeighbor(g, group[i]);
        return true;
      }
      if r < N - 1 && board[r + 1, c] == Empty {
        assert HasEmptyNeighbor(g, group[i]);
        return true;
      }
      if c > 0 && board[r, c - 1] == Empty {
        assert HasEmptyNeighbor(g, group[i]);
        return true;
      }
      if c < N - 1 && board[r, c + 1] == Empty {
        assert HasEmptyNeighbor(g, group[i]);
        return true;
      }
    }
    return false;
  }

  /** `stoneGroup.every(...)` of `isForbiddenMove`. */
  method AllSurroundedByOwn(group: seq<Pos>, board: array2<Cell>, player: Color) returns (surrounded: bool)
    requires Shaped(board) && forall i :: 0 <= i < |group| ==> InBoard(group[i])
    ensures surrounded == SurroundedByOwn(Snapshot(board), Cells(group), player)
  {
    ghost var g := Snapshot(board);
    var opponent := Opponent(player);
    for i := 0 to |group|
      invariant forall j :: 0 <= j < i ==> Sheltered(g, group[j], player)
    {
      var (r, c) := group[i];
      if !(r > 0 && board[r - 1, c] != Stone(opponent) && r < N - 1 && board[r + 1, c] != Stone(opponent)
           && c > 0 && board[r, c - 1] != Stone(opponent) && c < N - 1 && board[r, c + 1] != Stone(opponent)) {
        assert !Sheltered(g, group[i], player);
        return false;
      }
    }
    assert forall x :: x in Cells(group) ==> Sheltered(g, x, player);
    return true;
  }

  /** Empties every cell of `group` (`group.forEach(... board[gr][gc] = null)`). */
  method RemoveGroup(board: array2<Cell>, group: seq<Pos>)
    requires Shaped(board) && forall i :: 0 <= i < |group| ==> InBoard(group[i])
    modifies board
    ensures Snapshot(board) == Clear(old(Snapshot(board)), Cells(group))
  {
    ghost var g := Snapshot(board);
    for i := 0 to |group|
      invariant forall q :: InBoard(q) ==> board[q.0, q.1] == At(Clear(g, Cells(group[..i])), q)
    {
      assert Cells(group[..i + 1]) == Cells(group[..i]) + {group[i]} by {
        assert group[..i + 1] == group[..i] + [group[i]];
      }
      board[group[i].0, group[i].1] := Empty;
    }
    assert group[..|group|] == group;
    GridExt(Snapshot(board), Clear(g, Cells(group)));
  }

  /** Row-major order: (r, c) comes before the scan position (row, col). */
  predicate Before(q: Pos, row: int, col: int) {
    q.0 < row || (q.0 == row && q.1 < col)
  }

  /** What a row-major sweep over the stones of `color` knows at scan position
      (row, col): the cells it visited are whole `color` groups of `g`, and every
      `color` stone before the scan position is visited. */
  ghost predicate Swept(g: Grid, color: Color, v: set<Pos>, row: int, col: int) {
    && (forall x :: x in v ==> IsColor(g, x, color))
    && ClosedExcept(g, color, v, {})
    && (forall q :: IsColor(g, q, color) && Before(q, row, col) ==> q in v)
  }

  lemma SweptSkip(g: Grid, color: Color, v: set<Pos>, r: int, c: int)
    requires Swept(g, color, v, r, c) && InBoard((r, c))
    requires !IsColor(g, (r, c), color) || (r, c) in v
    ensures Swept(g, color, v, r, c + 1)
  {
  }

  lemma SweptNextRow(g: Grid, color: Color, v: set<Pos>, r: int)
    requires Swept(g, color, v, r, N)
    ensures Swept(g, color, v, r + 1, 0)
  {
  }

  lemma SweptAll(g: Grid, color: Color, v: set<Pos>)
    requires Swept(g, color, v, N, 0)
    ensures forall q :: IsColor(g, q, color) ==> q in v
  {
  }

  /** Visiting the whole group of the stone at the scan position moves the scan on. */
  lemma SweptJoin(g: Grid, color: Color, v: set<Pos>, v': set<Pos>, r: int, c: int)
    requires Swept(g, color, v, r, c) && IsColor(g, (r, c), color)
    requires v' == v + Component(g, color, (r, c))
    ensures Swept(g, color, v', r, c + 1)
  {
    var comp := Component(g, color, (r, c));
    forall x | x in comp
      ensures IsColor(g, x, color)
    {
      ComponentOfColor(g, color, (r, c), x);
    }
    ComponentHasSeed(g, color, (r, c));
    ComponentClosed(g, color, (r, c));
    ClosedUnion(g, color, v, comp);
  }

  /** A search started at an unvisited `color` stone of the current board
      `Clear(g0, s)`, where `s` holds only visited `color` stones of `g0`, visits
      exactly the stone's group in `g0`, and the group's liberties are the same
      on both boards. */
  lemma FoundGroup(g0: Grid, gcur: Grid, s: set<Pos>, color: Color, v: set<Pos>, v': set<Pos>, r: int, c: int)
    requires gcur == Clear(g0, s) && s <= v && forall q :: q in s ==> IsColor(g0, q, color)
    requires ClosedExcept(g0, color, v, {}) && (r, c) !in v && IsColor(gcur, (r, c), color)
    requires Explored(gcur, color, (r, c), v, v', {})
    ensures v' == v + Component(g0, color, (r, c)) && v !! Component(g0, color, (r, c))
    ensures HasLiberty(gcur, Component(g0, color, (r, c))) == HasLiberty(g0, Component(g0, color, (r, c)))
  {
    ClosedUnderClear(g0, color, v, s);
    GrownByComponent(gcur, color, v, v', (r, c));
    ClosedMissesComponent(g0, color, v, (r, c));
    ClearOutsideGroup(g0, color, (r, c), s);
  }

  /** The capture list bookkeeping: the cleared cells are the visited cells of
      removed groups, listed once each in `captured`. */
  ghost predicate Recorded(g0: Grid, player: Color, v: set<Pos>, cleared: set<Pos>, captured: seq<Pos>) {
    cleared == v * Removed(g0, player) && Cells(captured) == cleared && Distinct(captured)
  }

  lemma RecordGroup(g0: Grid, player: Color, v: set<Pos>, v': set<Pos>, cleared: set<Pos>, captured: seq<Pos>,
                    r: int, c: int, group: seq<Pos>, dead: bool)
    requires Recorded(g0, player, v, cleared, captured) && IsColor(g0, (r, c), Opponent(player))
    requires Distinct(group) && Cells(group) == Component(g0, Opponent(player), (r, c)) && Cells(group) !! v
    requires v' == v + Cells(group)
    requires dead == !HasLiberty(g0, Cells(group))
    ensures dead <==> (r, c) in Removed(g0, player)
    ensures dead ==> Recorded(g0, player, v', cleared + Cells(group), captured + group)
    ensures !dead ==> Recorded(g0, player, v', cleared, captured)
  {
    var o := Opponent(player);
    var comp := Component(g0, o, (r, c));
    InRemoved(g0, player, (r, c));
    if dead {
      forall x | x in comp
        ensures x in Removed(g0, player)
      {
        RemovedHoldsGroups(g0, player, (r, c), x);
      }
      DistinctAppend(captured, group);
    } else {
      forall x | x in comp && x in Removed(g0, player)
        ensures false
      {
        InRemoved(g0, player, x);
        SameComponent(g0, o, (r, c), x);
      }
    }
  }

  lemma RecordedAll(g0: Grid, player: Color, v: set<Pos>, cleared: set<Pos>, captured: seq<Pos>)
    requires Recorded(g0, player, v, cleared, captured)
    requires forall q :: IsColor(g0, q, Opponent(player)) ==> q in v
    ensures cleared == Removed(g0, player)
  {
    forall q | q in Removed(g0, player)
      ensures q in v
    {
      InRemoved(g0, player, q);
    }
  }

  /** One cell of the capture sweep (the body of the scan loop): an unvisited
      opponent stone starts a group search, and a group without a liberty is
      appended to the capture list and cleared from the board. */
  method SweepCell(board: array2<Cell>, visited: array2<bool>, r: int, c: int, currentPlayer: Color,
                   capturedStones: seq<Pos>, ghost g0: Grid, ghost v: set<Pos>, ghost cleared: set<Pos>)
    returns (capturedStones': seq<Pos>, ghost v': set<Pos>, ghost cleared': set<Pos>)
    requires Shaped(board) && Shaped(visited) && InBoard((r, c))
    requires Marks(visited, v) && Snapshot(board) == Clear(g0, cleared)
    requires Swept(g0, Opponent(currentPlayer), v, r, c) && Recorded(g0, currentPlayer, v, cleared, capturedStones)
    modifies board, visited
    ensures Marks(visited, v') && Snapshot(board) == Clear(g0, cleared')
    ensures Swept(g0, Opponent(currentPlayer), v', r, c + 1) && Recorded(g0, currentPlayer, v', cleared', capturedStones')
  {
    var opponent := Opponent(currentPlayer);
    capturedStones', v', cleared' := capturedStones, v, cleared;
    if board[r, c] == Stone(opponent) && !visited[r, c] {
      ghost var gcur := Snapshot(board);
      ClosedUnderClear(g0, opponent, v, cleared);
      var group;
      group, v' := GetStoneGroup(board, visited, r, c, opponent, [], gcur, v, {});
      FoundGroup(g0, gcur, cleared, opponent, v, v', r, c);
      var dead := IsGroupCaptured(group, board);
      SweptJoin(g0, opponent, v, v', r, c);
      RecordGroup(g0, currentPlayer, v, v', cleared, capturedStones, r, c, group, dead);
      if dead {
        capturedStones' := capturedStones + group;
        RemoveGroup(board, group);
        ClearTwice(g0, cleared, Cells(group));
        cleared' := cleared + Cells(group);
      }
    } else {
      SweptSkip(g0, opponent, v, r, c);
    }
  }

  /** `checkAndRemoveCapturedStones`: scans the board row by row, collects each
      unvisited opponent group and, when it has no liberty, records and clears it. */
  method CheckAndRemoveCapturedStones(board: array2<Cell>, currentPlayer: Color) returns (capturedStones: seq<Pos>)
    requires Shaped(board)
    modifies board
    ensures Snapshot(board) == Capture(old(Snapshot(board)), currentPlayer)
    ensures Cells(capturedStones) == Removed(old(Snapshot(board)), currentPlayer)
    ensures Distinct(capturedStones)
  {
    var opponent := Opponent(currentPlayer);
    var visited := new bool[N, N]((_, _) => false);
    ghost var g0 := Snapshot(board);
    ghost var v: set<Pos> := {};
    ghost var cleared: set<Pos> := {};
    capturedStones := [];
    ClearNothing(g0);
    for r := 0 to N
      invariant Marks(visited, v) && Snapshot(board) == Clear(g0, cleared)
      invariant Swept(g0, opponent, v, r, 0) && Recorded(g0, currentPlayer, v, cleared, capturedStones)
    {
      for c := 0 to N
        invariant Marks(visited, v) && Snapshot(board) == Clear(g0, cleared)
        invariant Swept(g0, opponent, v, r, c) && Recorded(g0, currentPlayer, v, cleared, capturedStones)
      {
        capturedStones, v, cleared := SweepCell(board, visited, r, c, currentPlayer, capturedStones, g0, v, cleared);
      }
      SweptNextRow(g0, opponent, v, r);
    }
    SweptAll(g0, opponent, v);
    RecordedAll(g0, currentPlayer, v, cleared, capturedStones);
  }

  /** `isForbiddenMove`: on a copy of the board with the stone placed, a move that
      captures is allowed; otherwise the placed stone's group is collected, the
      "surrounded by own stones" exemption is consulted, and the move is forbidden
      when the group has no liberty. */
  method IsForbiddenMove(board: array2<Cell>, row: int, col: int, player: Color) returns (forbidden: bool)
    requires Shaped(board) && 1 <= row <= N && 1 <= col <= N
    ensures forbidden == Forbidden(Snapshot(board), (row - 1, col - 1), player)
  {
    ghost var g := Snapshot(board);
    ghost var p := (row - 1, col - 1);
    ghost var g1 := Placed(g, p, player);
    var newBoard := CopyBoard(board);
    newBoard[row - 1, col - 1] := Stone(player);
    GridExt(Snapshot(newBoard), g1);
    ForbiddenAsWrittenIsForbidden(g, p, player);
    var capturedStones := CheckAndRemoveCapturedStones(newBoard, player);
    if |capturedStones| > 0 {
      assert capturedStones[0] in Removed(g1, player);
      return false;
    }
    assert Removed(g1, player) == {} by {
      assert Cells(capturedStones) == {};
    }
    ClearNothing(g1);
    forbidden := UnexemptedCapture(newBoard, row - 1, col - 1, player);
  }

  /** The part of `isForbiddenMove` after the capture test: collect the placed
      stone's group, apply the exemption, then test the group for liberties. */
  method UnexemptedCapture(newBoard: array2<Cell>, r: int, c: int, player: Color) returns (forbidden: bool)
    requires Shaped(newBoard) && InBoard((r, c))
    ensures forbidden == (!SurroundedByOwn(Snapshot(newBoard), Component(Snapshot(newBoard), player, (r, c)), player)
                          && !HasLiberty(Snapshot(newBoard), Component(Snapshot(newBoard), player, (r, c))))
  {
    ghost var g1 := Snapshot(newBoard);
    var visited := new bool[N, N]((_, _) => false);
    var stoneGroup;
    ghost var v';
    stoneGroup, v' := GetStoneGroup(newBoard, visited, r, c, player, [], g1, {}, {});
    assert Cells(stoneGroup) == Component(g1, player, (r, c)) by {
      assert Cells([]) == {};
      GrownByComponent(g1, player, {}, v', (r, c));
    }
    assert forall i :: 0 <= i < |stoneGroup| ==> InBoard(stoneGroup[i]) by {
      forall i | 0 <= i < |stoneGroup|
        ensures InBoard(stoneGroup[i])
      {
        assert stoneGroup[i] in Cells(stoneGroup);
      }
    }
    var surroundedByOwn := AllSurroundedByOwn(stoneGroup, newBoard, player);
    if surroundedByOwn {
      return false;
    }
    forbidden := IsGroupCaptured(stoneGroup, newBoard);
  }

  /** Adding cells of other colours to a closed set keeps it closed. */
  lemma ClosedAddOthers(g: Grid, color: Color, v: set<Pos>, w: set<Pos>)
    requires ClosedExcept(g, color, v, {}) && forall x :: x in w ==> !IsColor(g, x, color)
    ensures ClosedExcept(g, color, v + w, {})
  {
    forall x | x in v + w && IsColor(g, x, color)
      ensures NbrsOfColorIn(g, color, x, v + w)
    {
      assert NbrsOfColorIn(g, color, x, v);
    }
  }

  /** The dead-stone list so far: the visited stones of groups without a liberty, once each. */
  ghost predicate Mourned(g: Grid, v: set<Pos>, deadStones: seq<Pos>) {
    Cells(deadStones) == v * DeadStones(g) && Distinct(deadStones)
  }

  lemma MournGroup(g: Grid, color: Color, v: set<Pos>, v': set<Pos>, deadStones: seq<Pos>,
                   r: int, c: int, group: seq<Pos>, alive: bool)
    requires Mourned(g, v, deadStones) && IsColor(g, (r, c), color)
    requires Distinct(group) && Cells(group) == Component(g, color, (r, c)) && Cells(group) !! v
    requires v' == v + Cells(group)
    requires alive == HasLiberty(g, Cells(group))
    ensures !alive ==> Mourned(g, v', deadStones + group)
    ensures alive ==> Mourned(g, v', deadStones)
  {
    var comp := Component(g, color, (r, c));
    forall x | x in comp
      ensures x in DeadStones(g) <==> !alive
    {
      ComponentOfColor(g, color, (r, c), x);
      SameComponent(g, color, (r, c), x);
      InDeadStones(g, x);
    }
    if !alive {
      DistinctAppend(deadStones, group);
    }
  }

  /** One cell of the life-and-death scan: an unvisited stone of either colour
      starts a group search over its colour, and a group without a liberty is
      appended to the dead-stone list. `vb` and `vw` are the visited black and
      white stones. */
  method LifeCell(board: array2<Cell>, visited: array2<bool>, r: int, c: int, deadStones: seq<Pos>,
                  ghost g: Grid, ghost vb: set<Pos>, ghost vw: set<Pos>)
    returns (deadStones': seq<Pos>, ghost vb': set<Pos>, ghost vw': set<Pos>)
    requires Shaped(board) && Shaped(visited) && InBoard((r, c)) && Snapshot(board) == g
    requires Marks(visited, vb + vw) && Swept(g, Black, vb, r, c) && Swept(g, White, vw, r, c)
    requires Mourned(g, vb + vw, deadStones)
    modifies visited
    ensures Marks(visited, vb' + vw') && Swept(g, Black, vb', r, c + 1) && Swept(g, White, vw', r, c + 1)
    ensures Mourned(g, vb' + vw', deadStones')
  {
    deadStones', vb', vw' := deadStones, vb, vw;
    if board[r, c] != Empty && !visited[r, c] {
      var color := board[r, c].color;
      ghost var v := vb + vw;
      ghost var own, other := if color == Black then vb else vw, if color == Black then vw else vb;
      assert v == own + other;
      ClosedAddOthers(g, color, own, other);
      ClearNothing(g);
      var group;
      ghost var v';
      group, v' := GetStoneGroup(board, visited, r, c, color, [], g, v, {});
      FoundGroup(g, g, {}, color, v, v', r, c);
      var alive := IsGroupAlive(group, board);
      MournGroup(g, color, v, v', deadStones, r, c, group, alive);
      if !alive {
        deadStones' := deadStones + group;
      }
      ghost var own' := own + Cells(group);
      SweptJoin(g, color, own, own', r, c);
      SweptSkip(g, Opponent(color), other, r, c);
      if color == Black {
        vb' := own';
      } else {
        vw' := own';
      }
      assert v' == vb' + vw';
    } else {
      SweptSkip(g, Black, vb, r, c);
      SweptSkip(g, White, vw, r, c);
    }
  }

  /** `checkLifeAndDeath`: scans the board row by row with one visited matrix for
      both colours and lists every stone whose group has no liberty. */
  method CheckLifeAndDeath(board: array2<Cell>) returns (deadStones: seq<Pos>)
    requires Shaped(board)
    ensures Cells(deadStones) == DeadStones(Snapshot(board)) && Distinct(deadStones)
  {
    deadStones := [];
    var visited := new bool[N, N]((_, _) => false);
    ghost var g := Snapshot(board);
    ghost var vb: set<Pos> := {};
    ghost var vw: set<Pos> := {};
    for r := 0 to N
      invariant Marks(visited, vb + vw) && Swept(g, Black, vb, r, 0) && Swept(g, White, vw, r, 0)
      invariant Mourned(g, vb + vw, deadStones)
    {
      for c := 0 to N
        invariant Marks(visited, vb + vw) && Swept(g, Black, vb, r, c) && Swept(g, White, vw, r, c)
        invariant Mourned(g, vb + vw, deadStones)
      {
        deadStones, vb, vw := LifeCell(board, visited, r, c, deadStones, g, vb, vw);
      }
      SweptNextRow(g, Black, vb, r);
      SweptNextRow(g, White, vw, r);
    }
    SweptAll(g, Black, vb);
    SweptAll(g, White, vw);
    forall q | q in DeadStones(g)
      ensures q in vb + vw
    {
      InDeadStones(g, q);
      if At(g, q).color == Black {
        assert IsColor(g, q, Black);
      } else {
        assert IsColor(g, q, White);
      }
    }
  }
}
