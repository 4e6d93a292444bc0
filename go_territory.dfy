/** Territory counting of the igo page: a row-major scan that starts a flood
    fill over empty cells from each unvisited empty cell touching a stone (black
    tried first), crediting a cell when none of its neighbours is a stone of the
    other colour. */
module GoTerritory {
  import opened GoGrid
  import opened GoEngine

  /** The scan's seed test: an in-board neighbour holds a `color` stone. */
  predicate Touches(g: Grid, x: Pos, color: Color)
    requires InBoard(x)
  {
    (x.0 > 0 && At(g, Up(x)) == Stone(color)) ||
    (x.0 < N - 1 && At(g, Down(x)) == Stone(color)) ||
    (x.1 > 0 && At(g, Left(x)) == Stone(color)) ||
    (x.1 < N - 1 && At(g, Right(x)) == Stone(color))
  }

  /** The fill's rejection test: an in-board neighbour holds a stone that is not `color`. */
  predicate OtherNeighbor(g: Grid, x: Pos, color: Color)
    requires InBoard(x)
  {
    (x.0 > 0 && At(g, Up(x)) != Stone(color) && At(g, Up(x)) != Empty) ||
    (x.0 < N - 1 && At(g, Down(x)) != Stone(color) && At(g, Down(x)) != Empty) ||
    (x.1 > 0 && At(g, Left(x)) != Stone(color) && At(g, Left(x)) != Empty) ||
    (x.1 < N - 1 && At(g, Right(x)) != Stone(color) && At(g, Right(x)) != Empty)
  }

  /** An empty cell a fill for `color` counts: no neighbour holds the other colour. */
  predicate Creditable(g: Grid, x: Pos, color: Color) {
    InBoard(x) && At(g, x) == Empty && !OtherNeighbor(g, x, color)
  }

  ghost function Credit(g: Grid, color: Color, s: set<Pos>): set<Pos> {
    set x | x in s && Creditable(g, x, color)
  }

  /** Every in-board empty neighbour of `x` is in `v`. */
  ghost predicate EmptyNbrsIn(g: Grid, x: Pos, v: set<Pos>) {
    && (IsEmpty(g, Up(x)) ==> Up(x) in v)
    && (IsEmpty(g, Down(x)) ==> Down(x) in v)
    && (IsEmpty(g, Left(x)) ==> Left(x) in v)
    && (IsEmpty(g, Right(x)) ==> Right(x) in v)
  }

  /** The fill went on from every credited cell except those still in progress. */
  ghost predicate FillClosed(g: Grid, v: set<Pos>, cred: set<Pos>, stack: set<Pos>) {
    forall x {:trigger EmptyNbrsIn(g, x, v)} :: x in cred && x !in stack ==> EmptyNbrsIn(g, x, v)
  }

  /** What one fill from `p` achieved: it reached `p` if `p` is empty, and carried
      on from every cell of `cred'` (the credited cells so far) that is not in
      progress. */
  ghost predicate Filled(g: Grid, p: Pos, v: set<Pos>, v': set<Pos>, cred': set<Pos>, stack: set<Pos>) {
    && v <= v'
    && (IsEmpty(g, p) ==> p in v')
    && FillClosed(g, v', cred', stack)
  }

  lemma CreditSplit(g: Grid, color: Color, a: set<Pos>, b: set<Pos>)
    requires a !! b
    ensures Credit(g, color, a + b) == Credit(g, color, a) + Credit(g, color, b)
    ensures |Credit(g, color, a + b)| == |Credit(g, color, a)| + |Credit(g, color, b)|
  {
    assert Credit(g, color, a) !! Credit(g, color, b);
  }

  /** Credit over nested visits splits at the middle visit. */
  lemma CreditNested(g: Grid, color: Color, v: set<Pos>, v': set<Pos>, v'': set<Pos>)
    requires v <= v' <= v''
    ensures Credit(g, color, v'' - v) == Credit(g, color, v' - v) + Credit(g, color, v'' - v')
    ensures |Credit(g, color, v'' - v)| == |Credit(g, color, v' - v)| + |Credit(g, color, v'' - v')|
  {
    assert v'' - v == (v' - v) + (v'' - v');
    CreditSplit(g, color, v' - v, v'' - v');
  }

  /** Entering one cell credits it exactly when it is creditable. */
  lemma CreditEntered(g: Grid, color: Color, x: Pos, v: set<Pos>, v1: set<Pos>)
    requires x !in v && v1 == v + {x}
    ensures Credit(g, color, v1 - v) == if Creditable(g, x, color) then {x} else {}
  {
    assert v1 - v == {x};
  }

  /** The credit of four successive fills. */
  lemma CreditsAdd(g: Grid, color: Color, cred: set<Pos>,
                   v: set<Pos>, v2: set<Pos>, v3: set<Pos>, v4: set<Pos>, v5: set<Pos>)
    requires v <= v2 <= v3 <= v4 <= v5
    ensures cred + Credit(g, color, v2 - v) + Credit(g, color, v3 - v2) + Credit(g, color, v4 - v3)
              + Credit(g, color, v5 - v4) == cred + Credit(g, color, v5 - v)
    ensures |Credit(g, color, v5 - v)| == |Credit(g, color, v2 - v)| + |Credit(g, color, v3 - v2)|
              + |Credit(g, color, v4 - v3)| + |Credit(g, color, v5 - v4)|
  {
    CreditNested(g, color, v, v2, v3);
    CreditNested(g, color, v, v3, v4);
    CreditNested(g, color, v, v4, v5);
  }

  /** The credit of a fill from a credited cell `x`: `x` and the credit of its neighbours' fills. */
  lemma CreditFirst(g: Grid, color: Color, cred: set<Pos>, x: Pos, v: set<Pos>, v1: set<Pos>, v': set<Pos>)
    requires Credit(g, color, v1 - v) == {x} && v <= v1 <= v'
    ensures cred + {x} + Credit(g, color, v' - v1) == cred + Credit(g, color, v' - v)
    ensures |Credit(g, color, v' - v)| == 1 + |Credit(g, color, v' - v1)|
  {
    CreditNested(g, color, v, v1, v');
  }

  lemma FillClosedGrow(g: Grid, v: set<Pos>, cred: set<Pos>, stack: set<Pos>, v': set<Pos>)
    requires FillClosed(g, v, cred, stack) && v <= v'
    ensures FillClosed(g, v', cred, stack)
  {
    forall y | y in cred && y !in stack
      ensures EmptyNbrsIn(g, y, v')
    {
      assert EmptyNbrsIn(g, y, v);
    }
  }

  lemma FillClosedWiden(g: Grid, v: set<Pos>, cred: set<Pos>, stack: set<Pos>, v': set<Pos>, x: Pos)
    requires FillClosed(g, v, cred, stack) && v <= v'
    ensures FillClosed(g, v', cred + {x}, stack + {x})
  {
    forall y | y in cred + {x} && y !in stack + {x}
      ensures EmptyNbrsIn(g, y, v')
    {
      assert EmptyNbrsIn(g, y, v);
    }
  }

  lemma FillClosedPop(g: Grid, v: set<Pos>, cred: set<Pos>, stack: set<Pos>, x: Pos)
    requires FillClosed(g, v, cred, stack + {x}) && EmptyNbrsIn(g, x, v)
    ensures FillClosed(g, v, cred, stack)
  {
    forall y | y in cred && y !in stack
      ensures EmptyNbrsIn(g, y, v)
    {
      if y != x {
        assert y !in stack + {x};
      }
    }
  }

  /** The fills from the four neighbours of (r, c) reached every empty neighbour. */
  ghost predicate FilledAround(g: Grid, r: int, c: int, v: set<Pos>, v': set<Pos>,
                               cred': set<Pos>, stack: set<Pos>) {
    && v <= v'
    && (IsEmpty(g, (r - 1, c)) ==> (r - 1, c) in v') && (IsEmpty(g, (r + 1, c)) ==> (r + 1, c) in v')
    && (IsEmpty(g, (r, c - 1)) ==> (r, c - 1) in v') && (IsEmpty(g, (r, c + 1)) ==> (r, c + 1) in v')
    && FillClosed(g, v', cred', stack)
  }

  lemma AroundNbrs(g: Grid, r: int, c: int, v: set<Pos>, v': set<Pos>, cred': set<Pos>, stack: set<Pos>)
    requires FilledAround(g, r, c, v, v', cred', stack)
    ensures EmptyNbrsIn(g, (r, c), v')
  {
  }

  /** `board` holds the grid `g`. */
  ghost predicate Shows(board: array2<Cell>, g: Grid)
    requires Shaped(board)
    reads board
  {
    forall r, c :: 0 <= r < N && 0 <= c < N ==> board[r, c] == g[r][c]
  }

  /** The scan's seed test read off the board. */
  lemma TouchesOnBoard(board: array2<Cell>, g: Grid, r: int, c: int, color: Color)
    requires Shaped(board) && Shows(board, g) && InBoard((r, c))
    ensures Touches(g, (r, c), color) <==>
            (r > 0 && board[r - 1, c] == Stone(color)) ||
            (r < N - 1 && board[r + 1, c] == Stone(color)) ||
            (c > 0 && board[r, c - 1] == Stone(color)) ||
            (c < N - 1 && board[r, c + 1] == Stone(color))
  {
  }

  /** The fill's rejection test read off the board. */
  lemma OtherOnBoard(board: array2<Cell>, g: Grid, r: int, c: int, color: Color)
    requires Shaped(board) && Shows(board, g) && InBoard((r, c))
    ensures OtherNeighbor(g, (r, c), color) <==>
            (r > 0 && board[r - 1, c] != Stone(color) && board[r - 1, c] != Empty) ||
            (r < N - 1 && board[r + 1, c] != Stone(color) && board[r + 1, c] != Empty) ||
            (c > 0 && board[r, c - 1] != Stone(color) && board[r, c - 1] != Empty) ||
            (c < N - 1 && board[r, c + 1] != Stone(color) && board[r, c + 1] != Empty)
  {
  }

  /** A walk a fill for `color` can take when the cells of `v` are already
      visited: unvisited empty cells, each next to the one after it, and each but
      the last creditable (a rejected cell is entered but not left). */
  ghost predicate FillWalk(g: Grid, v: set<Pos>, color: Color, w: seq<Pos>) {
    && |w| > 0
    && (forall i :: 0 <= i < |w| ==> IsEmpty(g, w[i]) && w[i] !in v)
    && (forall i :: 0 <= i < |w| - 1 ==> Creditable(g, w[i], color) && Adjacent(w[i], w[i + 1]))
  }

  /** A fill for `color` from `p` can walk to `y`. */
  ghost predicate Reaches(g: Grid, v: set<Pos>, color: Color, p: Pos, y: Pos) {
    exists w :: FillWalk(g, v, color, w) && w[0] == p && w[|w| - 1] == y
  }

  /** The cells a fill for `color` from `p` enters when the cells of `v` are
      already visited. */
  ghost function Reach(g: Grid, v: set<Pos>, p: Pos, color: Color): set<Pos> {
    set y | y in AllCells && Reaches(g, v, color, p, y)
  }

  /** The cells the fills from the four neighbours of (r, c) can enter. */
  ghost function NbrReach(g: Grid, v: set<Pos>, r: int, c: int, color: Color): set<Pos> {
    Reach(g, v, (r - 1, c), color) + Reach(g, v, (r + 1, c), color)
      + Reach(g, v, (r, c - 1), color) + Reach(g, v, (r, c + 1), color)
  }

  lemma ReachesSelf(g: Grid, v: set<Pos>, color: Color, p: Pos)
    requires IsEmpty(g, p) && p !in v
    ensures Reaches(g, v, color, p, p)
  {
    assert FillWalk(g, v, color, [p]);
  }

  lemma ReachesEnd(g: Grid, v: set<Pos>, color: Color, p: Pos, y: Pos)
    requires Reaches(g, v, color, p, y)
    ensures IsEmpty(g, y) && y !in v && y in AllCells
  {
    var w :| FillWalk(g, v, color, w) && w[0] == p && w[|w| - 1] == y;
    assert IsEmpty(g, w[|w| - 1]);
    InAllCells(y);
  }

  /** Fewer visited cells leave every walk open. */
  lemma ReachesWiden(g: Grid, v: set<Pos>, v2: set<Pos>, color: Color, p: Pos, y: Pos)
    requires v <= v2 && Reaches(g, v2, color, p, y)
    ensures Reaches(g, v, color, p, y)
  {
    var w :| FillWalk(g, v2, color, w) && w[0] == p && w[|w| - 1] == y;
    assert FillWalk(g, v, color, w);
  }

  /** Fewer visited cells leave a larger reach. */
  lemma ReachShrinks(g: Grid, v: set<Pos>, v2: set<Pos>, p: Pos, color: Color)
    requires v <= v2
    ensures Reach(g, v2, p, color) <= Reach(g, v, p, color)
  {
    forall y | y in Reach(g, v2, p, color)
      ensures y in Reach(g, v, p, color)
    {
      ReachesWiden(g, v, v2, color, p, y);
    }
  }

  /** What two successive visits entered lies within the union of their bounds. */
  lemma EnteredWithin(v: set<Pos>, v2: set<Pos>, v3: set<Pos>,
                      a: set<Pos>, b: set<Pos>, c: set<Pos>, c': set<Pos>, d: set<Pos>, d': set<Pos>)
    requires v <= v2 <= v3 && v2 - v <= a + b && v3 - v2 <= c' + d' && c' <= c && d' <= d
    ensures v3 - v <= a + b + c + d
  {
    forall y | y in v3 - v
      ensures y in a + b + c + d
    {
      if y in v2 {
        assert y in v2 - v;
      } else {
        assert y in v3 - v2;
      }
    }
  }

  /** A credited cell walks on to its unvisited empty neighbours. */
  lemma ReachesAppend(g: Grid, v: set<Pos>, color: Color, p: Pos, x: Pos, z: Pos)
    requires Reaches(g, v, color, p, x) && Creditable(g, x, color)
    requires Adjacent(x, z) && IsEmpty(g, z) && z !in v
    ensures Reaches(g, v, color, p, z)
  {
    var w :| FillWalk(g, v, color, w) && w[0] == p && w[|w| - 1] == x;
    var w' := w + [z];
    assert forall i :: 0 <= i < |w| ==> w'[i] == w[i];
    assert FillWalk(g, v, color, w');
  }

  /** A walk from a neighbour of the credited cell `x` starts just as well at `x`. */
  lemma ReachesPrepend(g: Grid, v: set<Pos>, v2: set<Pos>, color: Color, x: Pos, q: Pos, y: Pos)
    requires v <= v2 && IsEmpty(g, x) && x !in v && Creditable(g, x, color) && Adjacent(x, q)
    requires Reaches(g, v2, color, q, y)
    ensures Reaches(g, v, color, x, y)
  {
    var w :| FillWalk(g, v2, color, w) && w[0] == q && w[|w| - 1] == y;
    var w' := [x] + w;
    assert forall i :: 1 <= i < |w'| ==> w'[i] == w[i - 1];
    assert FillWalk(g, v, color, w');
  }

  lemma ReachesFromNbr(g: Grid, v: set<Pos>, v1: set<Pos>, color: Color, r: int, c: int, y: Pos)
    requires v <= v1 && IsEmpty(g, (r, c)) && (r, c) !in v && Creditable(g, (r, c), color)
    requires y in NbrReach(g, v1, r, c, color)
    ensures Reaches(g, v, color, (r, c), y)
  {
    if y in Reach(g, v1, (r - 1, c), color) {
      ReachesPrepend(g, v, v1, color, (r, c), (r - 1, c), y);
    } else if y in Reach(g, v1, (r + 1, c), color) {
      ReachesPrepend(g, v, v1, color, (r, c), (r + 1, c), y);
    } else if y in Reach(g, v1, (r, c - 1), color) {
      ReachesPrepend(g, v, v1, color, (r, c), (r, c - 1), y);
    } else {
      ReachesPrepend(g, v, v1, color, (r, c), (r, c + 1), y);
    }
  }

  lemma NbrIn(g: Grid, x: Pos, z: Pos, v: set<Pos>)
    requires EmptyNbrsIn(g, x, v) && Adjacent(x, z) && IsEmpty(g, z)
    ensures z in v
  {
  }

  /** A closed fill from `p` whose every cell is reachable from `p` entered
      exactly the reach of `p`. */
  lemma FillIsReach(g: Grid, p: Pos, v: set<Pos>, v': set<Pos>, cred: set<Pos>, color: Color)
    requires Filled(g, p, v, v', cred + Credit(g, color, v' - v), {})
    requires v' - v <= Reach(g, v, p, color)
    ensures v' - v == Reach(g, v, p, color)
  {
    forall y | y in Reach(g, v, p, color)
      ensures y in v' - v
    {
      var w :| FillWalk(g, v, color, w) && w[0] == p && w[|w| - 1] == y;
      var i := 0;
      while i < |w| - 1
        invariant 0 <= i < |w| && w[i] in v'
      {
        assert w[i] in Credit(g, color, v' - v);
        assert EmptyNbrsIn(g, w[i], v');
        NbrIn(g, w[i], w[i + 1], v');
        i := i + 1;
      }
    }
  }

  /** The cells the fill enters do not leave an unvisited empty neighbour of a
      credited cell behind. */
  lemma ReachClosed(g: Grid, v: set<Pos>, p: Pos, color: Color, x: Pos)
    requires x in Reach(g, v, p, color) && Creditable(g, x, color)
    ensures EmptyNbrsIn(g, x, v + Reach(g, v, p, color))
  {
    forall z | Adjacent(x, z) && IsEmpty(g, z) && z !in v
      ensures z in Reach(g, v, p, color)
    {
      ReachesAppend(g, v, color, p, x, z);
      InAllCells(z);
    }
    assert Adjacent(x, Up(x)) && Adjacent(x, Down(x)) && Adjacent(x, Left(x)) && Adjacent(x, Right(x));
  }

  /** The reach of an unvisited empty `p` is a fill from `p` that carried on from
      every cell it credited. */
  lemma ReachFilled(g: Grid, v: set<Pos>, p: Pos, color: Color, cred: set<Pos>)
    requires FillClosed(g, v, cred, {}) && IsEmpty(g, p) && p !in v
    ensures (v + Reach(g, v, p, color)) - v == Reach(g, v, p, color)
    ensures Filled(g, p, v, v + Reach(g, v, p, color), cred + Credit(g, color, Reach(g, v, p, color)), {})
  {
    var S := Reach(g, v, p, color);
    forall y | y in S
      ensures y !in v
    {
      ReachesEnd(g, v, color, p, y);
    }
    ReachesSelf(g, v, color, p);
    InAllCells(p);
    assert p in S;
    FillClosedGrow(g, v, cred, {}, v + S);
    forall x | x in cred + Credit(g, color, S) && x !in {}
      ensures EmptyNbrsIn(g, x, v + S)
    {
      if x !in cred {
        ReachClosed(g, v, p, color, x);
      }
    }
  }

  /** `checkTerritory`: a flood fill over empty cells that marks each cell it
      enters as visited, returns 0 at a cell with a neighbour of the other colour
      (leaving it visited), and otherwise counts the cell plus the fills from its
      four neighbours. The result is the number of cells it credited. */
  method CheckTerritory(board: array2<Cell>, visited: array2<bool>, r: int, c: int, color: Color,
                        ghost g: Grid, ghost v: set<Pos>, ghost cred: set<Pos>, ghost stack: set<Pos>)
    returns (territory: int, ghost v': set<Pos>)
    requires Shaped(board) && Shaped(visited) && Shows(board, g)
    requires Marks(visited, v) && FillClosed(g, v, cred, stack)
    modifies visited
    decreases AllCells - v, 0
    ensures Shows(board, g) && Marks(visited, v')
    ensures Filled(g, (r, c), v, v', cred + Credit(g, color, v' - v), stack)
    ensures territory == |Credit(g, color, v' - v)|
    ensures v' - v <= Reach(g, v, (r, c), color)
    ensures stack == {} ==> v' - v == Reach(g, v, (r, c), color)
  {
    assert Credit(g, color, {}) == {};
    if r < 0 || r >= N || c < 0 || c >= N {
      if stack == {} {
        FillIsReach(g, (r, c), v, v, cred, color);
      }
      return 0, v;
    }
    if board[r, c] != Empty || visited[r, c] {
      if stack == {} {
        FillIsReach(g, (r, c), v, v, cred, color);
      }
      return 0, v;
    }
    var x := (r, c);
    InAllCells(x);
    visited[r, c] := true;
    ghost var v1 := v + {x};
    CreditEntered(g, color, x, v, v1);
    OtherOnBoard(board, g, r, c, color);
    if (r > 0 && board[r - 1, c] != Stone(color) && board[r - 1, c] != Empty) ||
       (r < N - 1 && board[r + 1, c] != Stone(color) && board[r + 1, c] != Empty) ||
       (c > 0 && board[r, c - 1] != Stone(color) && board[r, c - 1] != Empty) ||
       (c < N - 1 && board[r, c + 1] != Stone(color) && board[r, c + 1] != Empty)
    {
      assert OtherNeighbor(g, x, color);
      FillClosedGrow(g, v, cred, stack, v1);
      ReachesSelf(g, v, color, x);
      assert v1 - v == {x} && x in Reach(g, v, x, color);
      if stack == {} {
        FillIsReach(g, x, v, v1, cred, color);
      }
      return 0, v1;
    }
    assert Creditable(g, x, color);
    FillClosedWiden(g, v, cred, stack, v1, x);
    assert Shows(board, g);
    var t;
    t, v' := FillNeighbors(board, visited, r, c, color, g, v1, cred + {x}, stack + {x});
    CreditedFill(g, r, c, color, v, v1, v', cred, stack);
    territory := 1 + t;
  }

  /** A fill that credited (r, c) and then filled from its four neighbours
      carried on from (r, c), credited what the neighbours' fills credited, and
      stayed within the reach of (r, c). */
  lemma CreditedFill(g: Grid, r: int, c: int, color: Color, v: set<Pos>, v1: set<Pos>, v': set<Pos>,
                     cred: set<Pos>, stack: set<Pos>)
    requires Creditable(g, (r, c), color) && (r, c) !in v && v1 == v + {(r, c)}
    requires Credit(g, color, v1 - v) == {(r, c)}
    requires FilledAround(g, r, c, v1, v', cred + {(r, c)} + Credit(g, color, v' - v1), stack + {(r, c)})
    requires v' - v1 <= NbrReach(g, v1, r, c, color)
    ensures Filled(g, (r, c), v, v', cred + Credit(g, color, v' - v), stack)
    ensures |Credit(g, color, v' - v)| == 1 + |Credit(g, color, v' - v1)|
    ensures v' - v <= Reach(g, v, (r, c), color)
    ensures stack == {} ==> v' - v == Reach(g, v, (r, c), color)
  {
    var x := (r, c);
    InAllCells(x);
    CreditFirst(g, color, cred, x, v, v1, v');
    AroundNbrs(g, r, c, v1, v', cred + {x} + Credit(g, color, v' - v1), stack + {x});
    FillClosedPop(g, v', cred + {x} + Credit(g, color, v' - v1), stack, x);
    forall y | y in v' - v
      ensures y in Reach(g, v, x, color)
    {
      if y == x {
        ReachesSelf(g, v, color, x);
      } else {
        ReachesFromNbr(g, v, v1, color, r, c, y);
      }
    }
    if stack == {} {
      FillIsReach(g, x, v, v', cred, color);
    }
  }


  /** The four recursive fills of `checkTerritory`, from the cells above, below,
      left and right of (r, c), in that order. */
  method FillNeighbors(board: array2<Cell>, visited: array2<bool>, r: int, c: int, color: Color,
                       ghost g: Grid, ghost v: set<Pos>, ghost cred: set<Pos>, ghost stack: set<Pos>)
    returns (territory: int, ghost v': set<Pos>)
    requires Shaped(board) && Shaped(visited) && Shows(board, g)
    requires Marks(visited, v) && FillClosed(g, v, cred, stack) && (r, c) in stack
    modifies visited
    decreases AllCells - v, 2
    ensures Shows(board, g) && Marks(visited, v')
    ensures FilledAround(g, r, c, v, v', cred + Credit(g, color, v' - v), stack)
    ensures territory == |Credit(g, color, v' - v)|
    ensures v' - v <= NbrReach(g, v, r, c, color)
  {
    var t1, t2;
    ghost var v2;
    t1, v2 := FillTwo(board, visited, (r - 1, c), (r + 1, c), color, g, v, cred, stack);
    t2, v' := FillTwo(board, visited, (r, c - 1), (r, c + 1), color, g, v2, cred + Credit(g, color, v2 - v), stack);
    CreditNested(g, color, v, v2, v');
    territory := t1 + t2;
    ReachShrinks(g, v, v2, (r, c - 1), color);
    ReachShrinks(g, v, v2, (r, c + 1), color);
    EnteredWithin(v, v2, v', Reach(g, v, (r - 1, c), color), Reach(g, v, (r + 1, c), color),
                  Reach(g, v, (r, c - 1), color), Reach(g, v2, (r, c - 1), color),
                  Reach(g, v, (r, c + 1), color), Reach(g, v2, (r, c + 1), color));
  }

  /** Two successive fills of `checkTerritory`, from `p` and then from `q`. */
  method FillTwo(board: array2<Cell>, visited: array2<bool>, p: Pos, q: Pos, color: Color,
                 ghost g: Grid, ghost v: set<Pos>, ghost cred: set<Pos>, ghost stack: set<Pos>)
    returns (territory: int, ghost v': set<Pos>)
    requires Shaped(board) && Shaped(visited) && Shows(board, g)
    requires Marks(visited, v) && FillClosed(g, v, cred, stack) && stack != {}
    modifies visited
    decreases AllCells - v, 1
    ensures Shows(board, g) && Marks(visited, v') && v <= v'
    ensures (IsEmpty(g, p) ==> p in v') && (IsEmpty(g, q) ==> q in v')
    ensures FillClosed(g, v', cred + Credit(g, color, v' - v), stack)
    ensures territory == |Credit(g, color, v' - v)|
    ensures v' - v <= Reach(g, v, p, color) + Reach(g, v, q, color)
  {
    var t1, t2;
    ghost var v2;
    t1, v2 := CheckTerritory(board, visited, p.0, p.1, color, g, v, cred, stack);
    t2, v' := CheckTerritory(board, visited, q.0, q.1, color, g, v2, cred + Credit(g, color, v2 - v), stack);
    CreditNested(g, color, v, v2, v');
    territory := t1 + t2;
    ReachShrinks(g, v, v2, q, color);
  }

  /** No in-board cell holds a `color` stone. */
  ghost predicate NoneOf(g: Grid, color: Color) {
    forall q :: InBoard(q) ==> At(g, q) != Stone(color)
  }

  lemma TouchesSome(g: Grid, x: Pos, color: Color)
    requires InBoard(x) && Touches(g, x, color)
    ensures !NoneOf(g, color)
  {
    if x.0 > 0 && At(g, Up(x)) == Stone(color) {
      assert InBoard(Up(x));
    } else if x.0 < N - 1 && At(g, Down(x)) == Stone(color) {
      assert InBoard(Down(x));
    } else if x.1 > 0 && At(g, Left(x)) == Stone(color) {
      assert InBoard(Left(x));
    } else {
      assert InBoard(Right(x));
    }
  }

  /** What the territory scan knows at scan position (row, col): `vb` and `vw` are
      the cells visited by black and by white fills; they are disjoint, every
      fill carried on from the cells it credited, a colour's fills ran only if
      that colour has a stone, and every empty cell before the scan position that
      touches a black stone has been visited. */
  ghost predicate Scanned(g: Grid, vb: set<Pos>, vw: set<Pos>, row: int, col: int) {
    && vb !! vw
    && FillClosed(g, vb + vw, Credit(g, Black, vb) + Credit(g, White, vw), {})
    && (vb != {} ==> !NoneOf(g, Black))
    && (vw != {} ==> !NoneOf(g, White))
    && (forall q :: IsEmpty(g, q) && Touches(g, q, Black) && Before(q, row, col) ==> q in vb + vw)
  }

  lemma ScanSkip(g: Grid, vb: set<Pos>, vw: set<Pos>, r: int, c: int)
    requires Scanned(g, vb, vw, r, c) && InBoard((r, c))
    requires !IsEmpty(g, (r, c)) || (r, c) in vb + vw || !Touches(g, (r, c), Black)
    ensures Scanned(g, vb, vw, r, c + 1)
  {
  }

  lemma UnionAssoc(a: set<Pos>, b: set<Pos>, c: set<Pos>)
    ensures a + b + c == a + (b + c)
  {
  }

  lemma UnionSwap(a: set<Pos>, b: set<Pos>, c: set<Pos>)
    ensures a + b + c == a + c + b
  {
  }

  /** The scan moves on once the cell at the scan position has been visited. */
  lemma ScanAdvance(g: Grid, vb: set<Pos>, vw: set<Pos>, vb': set<Pos>, vw': set<Pos>, r: int, c: int)
    requires Scanned(g, vb, vw, r, c) && vb <= vb' && vw <= vw' && vb' !! vw' && (r, c) in vb' + vw'
    requires FillClosed(g, vb' + vw', Credit(g, Black, vb') + Credit(g, White, vw'), {})
    requires (vb' != {} ==> !NoneOf(g, Black)) && (vw' != {} ==> !NoneOf(g, White))
    ensures Scanned(g, vb', vw', r, c + 1)
  {
  }

  /** A black fill from the scan position moves the scan on. */
  lemma ScanBlack(g: Grid, vb: set<Pos>, vw: set<Pos>, v': set<Pos>, r: int, c: int)
    requires Scanned(g, vb, vw, r, c) && IsEmpty(g, (r, c)) && !NoneOf(g, Black)
    requires Filled(g, (r, c), vb + vw, v',
                    Credit(g, Black, vb) + Credit(g, White, vw) + Credit(g, Black, v' - (vb + vw)), {})
    ensures vb + (v' - (vb + vw)) + vw == v'
    ensures Scanned(g, vb + (v' - (vb + vw)), vw, r, c + 1)
    ensures |Credit(g, Black, vb + (v' - (vb + vw)))| == |Credit(g, Black, vb)| + |Credit(g, Black, v' - (vb + vw))|
  {
    var added := v' - (vb + vw);
    var vb' := vb + added;
    assert vb' + vw == v';
    CreditSplit(g, Black, vb, added);
    UnionSwap(Credit(g, Black, vb), Credit(g, White, vw), Credit(g, Black, added));
    ScanAdvance(g, vb, vw, vb', vw, r, c);
  }

  /** A white fill from the scan position moves the scan on. */
  lemma ScanWhite(g: Grid, vb: set<Pos>, vw: set<Pos>, v': set<Pos>, r: int, c: int)
    requires Scanned(g, vb, vw, r, c) && IsEmpty(g, (r, c)) && !NoneOf(g, White)
    requires Filled(g, (r, c), vb + vw, v',
                    Credit(g, Black, vb) + Credit(g, White, vw) + Credit(g, White, v' - (vb + vw)), {})
    ensures vb + (vw + (v' - (vb + vw))) == v'
    ensures Scanned(g, vb, vw + (v' - (vb + vw)), r, c + 1)
    ensures |Credit(g, White, vw + (v' - (vb + vw)))| == |Credit(g, White, vw)| + |Credit(g, White, v' - (vb + vw))|
  {
    var added := v' - (vb + vw);
    var vw' := vw + added;
    assert vb + vw' == v';
    CreditSplit(g, White, vw, added);
    UnionAssoc(Credit(g, Black, vb), Credit(g, White, vw), Credit(g, White, added));
    ScanAdvance(g, vb, vw, vb, vw', r, c);
  }

  /** The counts the row-major scan adds from row `r` on when the cells of `v`
      are visited. */
  ghost function ScanRows(g: Grid, r: nat, v: set<Pos>): (int, int)
    decreases N - r, N + 1
  {
    if r >= N then (0, 0) else ScanRow(g, r, 0, v)
  }

  /** The counts the scan adds from (r, c) on: an unvisited empty cell touching
      black adds the credited cells of a black fill from it, otherwise one
      touching white those of a white fill, and the visited cells grow by the
      fill's reach; past the end of the row the scan goes on with the next row. */
  ghost function ScanRow(g: Grid, r: nat, c: nat, v: set<Pos>): (int, int)
    requires r < N
    decreases N - r, N - c
  {
    if c >= N then ScanRows(g, r + 1, v)
    else if (r, c) !in v && IsEmpty(g, (r, c)) && Touches(g, (r, c), Black) then
      var S := Reach(g, v, (r, c), Black);
      var rest := ScanRow(g, r, c + 1, v + S);
      (|Credit(g, Black, S)| + rest.0, rest.1)
    else if (r, c) !in v && IsEmpty(g, (r, c)) && Touches(g, (r, c), White) then
      var S := Reach(g, v, (r, c), White);
      var rest := ScanRow(g, r, c + 1, v + S);
      (rest.0, |Credit(g, White, S)| + rest.1)
    else ScanRow(g, r, c + 1, v)
  }

  /** The black and the white territory of `g`: the whole scan from a fresh
      visited matrix. */
  ghost function Territories(g: Grid): (int, int) {
    ScanRows(g, 0, {})
  }

  /** One step of the scan function, in the three cases of the scan. */
  lemma ScanFromCell(g: Grid, r: nat, c: nat, v: set<Pos>, v': set<Pos>, db: int, dw: int)
    requires r < N && c < N
    requires (r, c) !in v && IsEmpty(g, (r, c)) && Touches(g, (r, c), Black) ==>
               v' == v + Reach(g, v, (r, c), Black) && db == |Credit(g, Black, Reach(g, v, (r, c), Black))| && dw == 0
    requires (r, c) !in v && IsEmpty(g, (r, c)) && !Touches(g, (r, c), Black) && Touches(g, (r, c), White) ==>
               v' == v + Reach(g, v, (r, c), White) && db == 0 && dw == |Credit(g, White, Reach(g, v, (r, c), White))|
    requires (r, c) in v || !IsEmpty(g, (r, c)) || (!Touches(g, (r, c), Black) && !Touches(g, (r, c), White)) ==>
               v' == v && db == 0 && dw == 0
    ensures ScanRow(g, r, c, v).0 == db + ScanRow(g, r, c + 1, v').0
    ensures ScanRow(g, r, c, v).1 == dw + ScanRow(g, r, c + 1, v').1
  {
  }

  /** One cell of the scan: an unvisited empty cell touching black starts a black
      fill; otherwise, touching white, a white fill. */
  method TerritoryCell(board: array2<Cell>, visited: array2<bool>, r: int, c: int,
                       blackTerritory: int, whiteTerritory: int,
                       ghost g: Grid, ghost total: (int, int), ghost vb: set<Pos>, ghost vw: set<Pos>)
    returns (blackTerritory': int, whiteTerritory': int, ghost vb': set<Pos>, ghost vw': set<Pos>)
    requires Shaped(board) && Shaped(visited) && Shows(board, g) && InBoard((r, c))
    requires Marks(visited, vb + vw) && Scanned(g, vb, vw, r, c)
    requires total.0 == blackTerritory + ScanRow(g, r, c, vb + vw).0
    requires total.1 == whiteTerritory + ScanRow(g, r, c, vb + vw).1
    modifies visited
    ensures Shows(board, g) && Marks(visited, vb' + vw') && Scanned(g, vb', vw', r, c + 1)
    ensures (r, c) !in vb + vw && IsEmpty(g, (r, c)) && Touches(g, (r, c), Black) ==>
              && vb' == vb + Reach(g, vb + vw, (r, c), Black) && vw' == vw
              && blackTerritory' == blackTerritory + |Credit(g, Black, Reach(g, vb + vw, (r, c), Black))|
              && whiteTerritory' == whiteTerritory
    ensures (r, c) !in vb + vw && IsEmpty(g, (r, c)) && !Touches(g, (r, c), Black) && Touches(g, (r, c), White) ==>
              && vb' == vb && vw' == vw + Reach(g, vb + vw, (r, c), White)
              && blackTerritory' == blackTerritory
              && whiteTerritory' == whiteTerritory + |Credit(g, White, Reach(g, vb + vw, (r, c), White))|
    ensures (r, c) in vb + vw || !IsEmpty(g, (r, c)) || (!Touches(g, (r, c), Black) && !Touches(g, (r, c), White)) ==>
              vb' == vb && vw' == vw && blackTerritory' == blackTerritory && whiteTerritory' == whiteTerritory
    ensures total.0 == blackTerritory' + ScanRow(g, r, c + 1, vb' + vw').0
    ensures total.1 == whiteTerritory' + ScanRow(g, r, c + 1, vb' + vw').1
  {
    ghost var x, v := (r, c), vb + vw;
    TouchesOnBoard(board, g, r, c, Black);
    TouchesOnBoard(board, g, r, c, White);
    var free := !visited[r, c] && board[r, c] == Empty;
    var nearBlack := (r > 0 && board[r - 1, c] == Stone(Black)) ||
                     (r < N - 1 && board[r + 1, c] == Stone(Black)) ||
                     (c > 0 && board[r, c - 1] == Stone(Black)) ||
                     (c < N - 1 && board[r, c + 1] == Stone(Black));
    var nearWhite := (r > 0 && board[r - 1, c] == Stone(White)) ||
                     (r < N - 1 && board[r + 1, c] == Stone(White)) ||
                     (c > 0 && board[r, c - 1] == Stone(White)) ||
                     (c < N - 1 && board[r, c + 1] == Stone(White));
    assert free == (x !in v && IsEmpty(g, x));
    if free && nearBlack {
      TouchesSome(g, x, Black);
      blackTerritory', whiteTerritory', vb', vw' :=
        ScanFill(board, visited, r, c, Black, blackTerritory, whiteTerritory, g, vb, vw);
      ScanFromCell(g, r, c, v, vb' + vw', blackTerritory' - blackTerritory, 0);
    } else if free && nearWhite {
      TouchesSome(g, x, White);
      blackTerritory', whiteTerritory', vb', vw' :=
        ScanFill(board, visited, r, c, White, blackTerritory, whiteTerritory, g, vb, vw);
      ScanFromCell(g, r, c, v, vb' + vw', 0, whiteTerritory' - whiteTerritory);
    } else {
      blackTerritory', whiteTerritory', vb', vw' := blackTerritory, whiteTerritory, vb, vw;
      ScanSkip(g, vb, vw, r, c);
      ScanFromCell(g, r, c, v, v, 0, 0);
    }
  }

  /** `blackTerritory += checkTerritory(r, c, "black")`, or the same for white. */
  method ScanFill(board: array2<Cell>, visited: array2<bool>, r: int, c: int, color: Color,
                  blackTerritory: int, whiteTerritory: int,
                  ghost g: Grid, ghost vb: set<Pos>, ghost vw: set<Pos>)
    returns (blackTerritory': int, whiteTerritory': int, ghost vb': set<Pos>, ghost vw': set<Pos>)
    requires Shaped(board) && Shaped(visited) && Shows(board, g)
    requires IsEmpty(g, (r, c)) && !NoneOf(g, color)
    requires Marks(visited, vb + vw) && Scanned(g, vb, vw, r, c)
    modifies visited
    ensures Shows(board, g) && Marks(visited, vb' + vw') && Scanned(g, vb', vw', r, c + 1)
    ensures color == Black ==>
              && vb' == vb + Reach(g, vb + vw, (r, c), Black) && vw' == vw
              && blackTerritory' == blackTerritory + |Credit(g, Black, Reach(g, vb + vw, (r, c), Black))|
              && whiteTerritory' == whiteTerritory
    ensures color == White ==>
              && vb' == vb && vw' == vw + Reach(g, vb + vw, (r, c), White)
              && blackTerritory' == blackTerritory
              && whiteTerritory' == whiteTerritory + |Credit(g, White, Reach(g, vb + vw, (r, c), White))|
    ensures vb' + vw' == vb + vw + Reach(g, vb + vw, (r, c), color)
  {
    var t;
    ghost var v';
    t, v' := CheckTerritory(board, visited, r, c, color, g, vb + vw,
                            Credit(g, Black, vb) + Credit(g, White, vw), {});
    ghost var S := Reach(g, vb + vw, (r, c), color);
    FillUnion(vb + vw, v', S);
    if color == Black {
      ScanBlack(g, vb, vw, v', r, c);
      blackTerritory', whiteTerritory' := blackTerritory + t, whiteTerritory;
      vb', vw' := vb + S, vw;
    } else {
      ScanWhite(g, vb, vw, v', r, c);
      blackTerritory', whiteTerritory' := blackTerritory, whiteTerritory + t;
      vb', vw' := vb, vw + S;
    }
  }

  lemma FillUnion(u: set<Pos>, v': set<Pos>, S: set<Pos>)
    requires u <= v' && v' - u == S
    ensures v' == u + S
  {
  }

  /** The first `k` cells of row `r`. */
  ghost function RowPrefix(r: int, k: int): set<Pos> {
    set c | 0 <= c < k :: (r, c)
  }

  /** Rows 0 to k - 1. */
  ghost function FirstRows(k: int): set<Pos> {
    set r, c | 0 <= r < k && 0 <= c < N :: (r, c)
  }

  lemma {:induction false} RowPrefixCount(r: int, k: nat)
    ensures |RowPrefix(r, k)| == k
  {
    if k > 0 {
      RowPrefixCount(r, k - 1);
      forall q | q in RowPrefix(r, k)
        ensures q in RowPrefix(r, k - 1) + {(r, k - 1)}
      {
        if q.1 < k - 1 {
          assert q in RowPrefix(r, k - 1);
        }
      }
      assert RowPrefix(r, k) == RowPrefix(r, k - 1) + {(r, k - 1)};
    } else {
      assert RowPrefix(r, k) == {};
    }
  }

  lemma {:induction false} FirstRowsCount(k: nat)
    ensures |FirstRows(k)| == k * N
  {
    if k > 0 {
      FirstRowsCount(k - 1);
      RowPrefixCount(k - 1, N);
      assert FirstRows(k) == FirstRows(k - 1) + RowPrefix(k - 1, N);
      assert FirstRows(k - 1) !! RowPrefix(k - 1, N);
    } else {
      assert FirstRows(k) == {};
    }
  }

  /** The board has 81 cells. */
  lemma AllCellsCount()
    ensures |AllCells| == N * N
  {
    FirstRowsCount(N);
    assert AllCells == FirstRows(N);
  }

  /** The only stone on the board is a black one at `s`. */
  ghost predicate LoneBlack(g: Grid, s: Pos) {
    InBoard(s) && forall q :: InBoard(q) ==> At(g, q) == (if q == s then Stone(Black) else Empty)
  }

  lemma LoneEmpty(g: Grid, s: Pos, q: Pos)
    requires LoneBlack(g, s) && InBoard(q) && q != s
    ensures IsEmpty(g, q)
  {
  }

  /** Every empty neighbour of a cell of `C` is in `C`. */
  ghost predicate EmptyClosed(g: Grid, C: set<Pos>) {
    forall x {:trigger EmptyNbrsIn(g, x, C)} :: x in C ==> EmptyNbrsIn(g, x, C)
  }

  /** Every cell of row `r` other than `s` is in `C`. */
  ghost predicate RowDone(s: Pos, C: set<Pos>, r: int) {
    forall c :: 0 <= c < N && (r, c) != s ==> (r, c) in C
  }

  /** A row without the stone fills from any of its cells. */
  lemma FillRow(g: Grid, s: Pos, C: set<Pos>, r: int, c0: int)
    requires LoneBlack(g, s) && EmptyClosed(g, C)
    requires 0 <= r < N && r != s.0 && 0 <= c0 < N && (r, c0) in C
    ensures RowDone(s, C, r)
  {
    var k := c0;
    while k < N - 1
      invariant c0 <= k <= N - 1 && forall j :: c0 <= j <= k ==> (r, j) in C
    {
      Horizontal(g, s, C, r, k, k + 1);
      k := k + 1;
    }
    k := c0;
    while k > 0
      invariant 0 <= k <= c0 && forall j :: k <= j < N ==> (r, j) in C
    {
      Horizontal(g, s, C, r, k, k - 1);
      k := k - 1;
    }
  }

  /** A filled row fills the row above or below it. */
  lemma RowNext(g: Grid, s: Pos, C: set<Pos>, r: int, r': int)
    requires LoneBlack(g, s) && EmptyClosed(g, C)
    requires 0 <= r < N && 0 <= r' < N && (r' == r + 1 || r' == r - 1) && RowDone(s, C, r)
    ensures RowDone(s, C, r')
  {
    forall c | 0 <= c < N && (r', c) != s
      ensures (r', c) in C
    {
      if (r, c) != s {
        Vertical(g, s, C, r, r', c);
      } else {
        var c2 := if c > 0 then c - 1 else c + 1;
        Vertical(g, s, C, r, r', c2);
        Horizontal(g, s, C, r', c2, c);
      }
    }
  }

  lemma Vertical(g: Grid, s: Pos, C: set<Pos>, r: int, r': int, c: int)
    requires LoneBlack(g, s) && EmptyClosed(g, C)
    requires 0 <= r < N && 0 <= r' < N && (r' == r + 1 || r' == r - 1) && 0 <= c < N
    requires (r, c) in C && (r', c) != s
    ensures (r', c) in C
  {
    assert EmptyNbrsIn(g, (r, c), C);
    LoneEmpty(g, s, (r', c));
    if r' == r + 1 {
      assert Down((r, c)) == (r', c);
    } else {
      assert Up((r, c)) == (r', c);
    }
  }

  lemma Horizontal(g: Grid, s: Pos, C: set<Pos>, r: int, c: int, c': int)
    requires LoneBlack(g, s) && EmptyClosed(g, C)
    requires 0 <= r < N && 0 <= c < N && 0 <= c' < N && (c' == c + 1 || c' == c - 1)
    requires (r, c) in C && (r, c') != s
    ensures (r, c') in C
  {
    assert EmptyNbrsIn(g, (r, c), C);
    LoneEmpty(g, s, (r, c'));
    if c' == c + 1 {
      assert Right((r, c)) == (r, c');
    } else {
      assert Left((r, c)) == (r, c');
    }
  }

  /** With a single stone on the board, a non-empty set of empty cells closed
      under empty neighbours is every cell but the stone's. */
  lemma FillsBoard(g: Grid, s: Pos, C: set<Pos>, x0: Pos)
    requires LoneBlack(g, s) && EmptyClosed(g, C) && x0 in C && IsEmpty(g, x0)
    ensures forall q :: InBoard(q) && q != s ==> q in C
  {
    var r0 := x0.0;
    if x0.0 == s.0 {
      r0 := if s.0 > 0 then s.0 - 1 else s.0 + 1;
      Vertical(g, s, C, x0.0, r0, x0.1);
    }
    FillRow(g, s, C, r0, x0.1);
    var k := r0;
    while k < N - 1
      invariant r0 <= k <= N - 1 && forall j :: r0 <= j <= k ==> RowDone(s, C, j)
    {
      RowNext(g, s, C, k, k + 1);
      k := k + 1;
    }
    k := r0;
    while k > 0
      invariant 0 <= k <= r0 && forall j :: k <= j < N ==> RowDone(s, C, j)
    {
      RowNext(g, s, C, k, k - 1);
      k := k - 1;
    }
    forall q | InBoard(q) && q != s
      ensures q in C
    {
      assert RowDone(s, C, q.0);
    }
  }

  /** The empty cells of the board. */
  ghost function Empties(g: Grid): set<Pos> {
    set x | x in AllCells && IsEmpty(g, x)
  }

  lemma {:induction false} SubsetCount(a: set<Pos>, b: set<Pos>)
    requires a <= b
    ensures |a| <= |b|
    decreases |a|
  {
    if a != {} {
      var x :| x in a;
      SubsetCount(a - {x}, b - {x});
    }
  }

  /** At the end of the scan the two credits are disjoint sets of empty cells. */
  lemma ScanBound(g: Grid, vb: set<Pos>, vw: set<Pos>)
    requires Scanned(g, vb, vw, N, 0)
    ensures Credit(g, Black, vb) !! Credit(g, White, vw)
    ensures |Credit(g, Black, vb)| + |Credit(g, White, vw)| <= |Empties(g)|
  {
    var B, W := Credit(g, Black, vb), Credit(g, White, vw);
    forall x | x in B + W
      ensures x in Empties(g)
    {
      InAllCells(x);
    }
    SubsetCount(B + W, Empties(g));
    assert |B + W| == |B| + |W|;
  }

  /** With a lone black stone every empty cell is creditable to black. */
  lemma LoneCreditable(g: Grid, s: Pos, y: Pos)
    requires LoneBlack(g, s) && IsEmpty(g, y)
    ensures Creditable(g, y, Black)
  {
    assert !OtherNeighbor(g, y, Black);
  }

  /** With a lone black stone the black fills credit a set closed under empty neighbours. */
  lemma LoneClosed(g: Grid, s: Pos, vb: set<Pos>, vw: set<Pos>)
    requires Scanned(g, vb, vw, N, 0) && LoneBlack(g, s) && vw == {}
    ensures EmptyClosed(g, Credit(g, Black, vb))
  {
    var C := Credit(g, Black, vb);
    assert vb + vw == vb && Credit(g, White, vw) == {};
    forall x | x in C
      ensures EmptyNbrsIn(g, x, C)
    {
      assert EmptyNbrsIn(g, x, vb + vw);
      forall y | IsEmpty(g, y)
        ensures Creditable(g, y, Black)
      {
        LoneCreditable(g, s, y);
      }
    }
  }

  /** At the end of the scan with a lone black stone, white fills never ran and
      the black fills credited every other cell. */
  lemma LoneBlackTerritory(g: Grid, s: Pos, vb: set<Pos>, vw: set<Pos>)
    requires Scanned(g, vb, vw, N, 0) && LoneBlack(g, s)
    ensures vw == {} && |Credit(g, Black, vb)| == N * N - 1
  {
    assert vw == {} by {
      assert NoneOf(g, White);
    }
    var C := Credit(g, Black, vb);
    LoneClosed(g, s, vb, vw);
    var nb := if s.0 > 0 then Up(s) else Down(s);
    assert nb in C by {
      assert IsEmpty(g, nb) && Touches(g, nb, Black) && Before(nb, N, 0);
      LoneCreditable(g, s, nb);
    }
    FillsBoard(g, s, C, nb);
    CountAllBut(s, C);
  }

  /** A set of exactly the cells other than `s` has 80 members. */
  lemma CountAllBut(s: Pos, C: set<Pos>)
    requires InBoard(s)
    requires forall q :: InBoard(q) && q != s ==> q in C
    requires forall q :: q in C ==> InBoard(q) && q != s
    ensures |C| == N * N - 1
  {
    InAllCells(s);
    forall q | q in AllCells - {s}
      ensures q in C
    {
      InAllCells(q);
    }
    forall q | q in C
      ensures q in AllCells - {s}
    {
      InAllCells(q);
    }
    assert C == AllCells - {s};
    AllCellsCount();
    assert AllCells == C + {s};
  }

  /** One cell of the scan function, run on values: the scan state moves on,
      and the counts the scan adds from (r, c) on are what this cell credits to
      each colour plus what the scan adds from (r, c + 1) on. */
  lemma ScanCellStep(g: Grid, r: nat, c: nat, vb: set<Pos>, vw: set<Pos>)
    returns (vb': set<Pos>, vw': set<Pos>)
    requires r < N && c < N && Scanned(g, vb, vw, r, c)
    ensures Scanned(g, vb', vw', r, c + 1)
    ensures ScanRow(g, r, c, vb + vw).0 == |Credit(g, Black, vb')| - |Credit(g, Black, vb)| + ScanRow(g, r, c + 1, vb' + vw').0
    ensures ScanRow(g, r, c, vb + vw).1 == |Credit(g, White, vw')| - |Credit(g, White, vw)| + ScanRow(g, r, c + 1, vb' + vw').1
  {
    var x, v := (r, c), vb + vw;
    if x !in v && IsEmpty(g, x) && Touches(g, x, Black) {
      var S := ScanStep(g, r, c, vb, vw, Black);
      ScanFromCell(g, r, c, v, v + S, |Credit(g, Black, S)|, 0);
      vb', vw' := vb + S, vw;
    } else if x !in v && IsEmpty(g, x) && Touches(g, x, White) {
      var S := ScanStep(g, r, c, vb, vw, White);
      ScanFromCell(g, r, c, v, v + S, 0, |Credit(g, White, S)|);
      vb', vw' := vb, vw + S;
    } else {
      ScanSkip(g, vb, vw, r, c);
      ScanFromCell(g, r, c, v, v, 0, 0);
      vb', vw' := vb, vw;
    }
  }

  /** One row of the scan function, run on values. */
  lemma ScanLine(g: Grid, r: nat, vb: set<Pos>, vw: set<Pos>) returns (vb': set<Pos>, vw': set<Pos>)
    requires r < N && Scanned(g, vb, vw, r, 0)
    ensures Scanned(g, vb', vw', r, N)
    ensures ScanRows(g, r, vb + vw).0 == |Credit(g, Black, vb')| - |Credit(g, Black, vb)| + ScanRow(g, r, N, vb' + vw').0
    ensures ScanRows(g, r, vb + vw).1 == |Credit(g, White, vw')| - |Credit(g, White, vw)| + ScanRow(g, r, N, vb' + vw').1
  {
    vb', vw' := vb, vw;
    var c := 0;
    while c < N
      invariant c <= N && Scanned(g, vb', vw', r, c)
      invariant ScanRows(g, r, vb + vw).0 == |Credit(g, Black, vb')| - |Credit(g, Black, vb)| + ScanRow(g, r, c, vb' + vw').0
      invariant ScanRows(g, r, vb + vw).1 == |Credit(g, White, vw')| - |Credit(g, White, vw)| + ScanRow(g, r, c, vb' + vw').1
    {
      vb', vw' := ScanCellStep(g, r, c, vb', vw');
      c := c + 1;
    }
  }

  /** The end of a row: the scan goes on at the start of the next one. */
  lemma RowEnd(g: Grid, r: nat, vb: set<Pos>, vw: set<Pos>)
    requires r < N && Scanned(g, vb, vw, r, N)
    ensures Scanned(g, vb, vw, r + 1, 0)
    ensures ScanRow(g, r, N, vb + vw) == ScanRows(g, r + 1, vb + vw)
  {
  }

  /** A fill of `color` from the scan position, taken as its reach, moves the
      scan on and adds its credited cells to that colour. */
  lemma ScanStep(g: Grid, r: int, c: int, vb: set<Pos>, vw: set<Pos>, color: Color) returns (S: set<Pos>)
    requires Scanned(g, vb, vw, r, c) && (r, c) !in vb + vw && IsEmpty(g, (r, c)) && Touches(g, (r, c), color)
    ensures S == Reach(g, vb + vw, (r, c), color)
    ensures color == Black ==>
              && Scanned(g, vb + S, vw, r, c + 1) && vb + S + vw == vb + vw + S
              && |Credit(g, Black, vb + S)| == |Credit(g, Black, vb)| + |Credit(g, Black, S)|
    ensures color == White ==>
              && Scanned(g, vb, vw + S, r, c + 1) && vb + (vw + S) == vb + vw + S
              && |Credit(g, White, vw + S)| == |Credit(g, White, vw)| + |Credit(g, White, S)|
  {
    var v := vb + vw;
    S := Reach(g, v, (r, c), color);
    TouchesSome(g, (r, c), color);
    ReachFilled(g, v, (r, c), color, Credit(g, Black, vb) + Credit(g, White, vw));
    if color == Black {
      ScanBlack(g, vb, vw, v + S, r, c);
    } else {
      ScanWhite(g, vb, vw, v + S, r, c);
    }
  }

  /** What the territories of `g` are made of: `B` and `W`, the cells the black
      and the white fills credit, are disjoint creditable empty cells; a colour
      with no stone on the board has no territory; a single black stone on an
      otherwise empty board holds every other cell. */
  lemma TerritoriesFacts(g: Grid) returns (B: set<Pos>, W: set<Pos>)
    ensures Territories(g) == (|B|, |W|) && B !! W
    ensures forall x :: x in B ==> Creditable(g, x, Black)
    ensures forall x :: x in W ==> Creditable(g, x, White)
    ensures |B| + |W| <= |Empties(g)|
    ensures NoneOf(g, Black) ==> B == {}
    ensures NoneOf(g, White) ==> W == {}
    ensures forall s :: LoneBlack(g, s) ==> |B| == N * N - 1 && W == {}
  {
    var vb: set<Pos>, vw: set<Pos> := {}, {};
    var t := Territories(g);
    ScanStart(g, vb, vw);
    for r := 0 to N
      invariant Scanned(g, vb, vw, r, 0)
      invariant t.0 == |Credit(g, Black, vb)| + ScanRows(g, r, vb + vw).0
      invariant t.1 == |Credit(g, White, vw)| + ScanRows(g, r, vb + vw).1
    {
      vb, vw := ScanLine(g, r, vb, vw);
      RowEnd(g, r, vb, vw);
    }
    ScanDone(g, vb + vw);
    B, W := Credit(g, Black, vb), Credit(g, White, vw);
    assert t.0 == |B| && t.1 == |W|;
    ScanBound(g, vb, vw);
    forall s | LoneBlack(g, s)
      ensures |B| == N * N - 1 && W == {}
    {
      LoneBlackTerritory(g, s, vb, vw);
    }
  }

  /** `updateTerritories`: scans the board row by row from a fresh visited
      matrix and adds up the fills. The counts are the territories of the board. */
  method UpdateTerritories(board: array2<Cell>) returns (blackTerritory: int, whiteTerritory: int)
    requires Shaped(board)
    ensures (blackTerritory, whiteTerritory) == Territories(Snapshot(board))
  {
    ghost var g := Snapshot(board);
    assert Shows(board, g);
    var visited := new bool[N, N]((_, _) => false);
    assert Marks(visited, {});
    blackTerritory, whiteTerritory := ScanBoard(board, visited, g);
  }

  /** The row loop of `updateTerritories`, from an unmarked visited matrix. */
  method ScanBoard(board: array2<Cell>, visited: array2<bool>, ghost g: Grid)
    returns (blackTerritory: int, whiteTerritory: int)
    requires Shaped(board) && Shaped(visited) && Shows(board, g) && Marks(visited, {})
    modifies visited
    ensures (blackTerritory, whiteTerritory) == Territories(g)
  {
    ghost var vb: set<Pos> := {};
    ghost var vw: set<Pos> := {};
    ghost var total := Territories(g);
    blackTerritory, whiteTerritory := 0, 0;
    ScanStart(g, vb, vw);
    for r := 0 to N
      invariant Shows(board, g) && Marks(visited, vb + vw) && Scanned(g, vb, vw, r, 0)
      invariant blackTerritory + ScanRows(g, r, vb + vw).0 == total.0
      invariant whiteTerritory + ScanRows(g, r, vb + vw).1 == total.1
    {
      blackTerritory, whiteTerritory, vb, vw :=
        TerritoryRow(board, visited, r, blackTerritory, whiteTerritory, g, total, vb, vw);
    }
    ScanDone(g, vb + vw);
  }

  /** The scan starts with nothing visited and nothing counted. */
  lemma ScanStart(g: Grid, vb: set<Pos>, vw: set<Pos>)
    requires vb == {} && vw == {}
    ensures Scanned(g, vb, vw, 0, 0) && Territories(g) == ScanRows(g, 0, vb + vw)
  {
    assert Credit(g, Black, {}) == {} && Credit(g, White, {}) == {};
    assert vb + vw == {};
  }

  /** Past the last row the scan adds nothing. */
  lemma ScanDone(g: Grid, v: set<Pos>)
    ensures ScanRows(g, N, v) == (0, 0)
  {
  }

  /** The inner loop of `updateTerritories`: the cells of row `r`, left to right. */
  method TerritoryRow(board: array2<Cell>, visited: array2<bool>, r: int,
                      blackTerritory: int, whiteTerritory: int,
                      ghost g: Grid, ghost total: (int, int), ghost vb: set<Pos>, ghost vw: set<Pos>)
    returns (blackTerritory': int, whiteTerritory': int, ghost vb': set<Pos>, ghost vw': set<Pos>)
    requires Shaped(board) && Shaped(visited) && Shows(board, g) && 0 <= r < N
    requires Marks(visited, vb + vw) && Scanned(g, vb, vw, r, 0)
    requires blackTerritory + ScanRows(g, r, vb + vw).0 == total.0
    requires whiteTerritory + ScanRows(g, r, vb + vw).1 == total.1
    modifies visited
    ensures Shows(board, g) && Marks(visited, vb' + vw') && Scanned(g, vb', vw', r + 1, 0)
    ensures blackTerritory' + ScanRows(g, r + 1, vb' + vw').0 == total.0
    ensures whiteTerritory' + ScanRows(g, r + 1, vb' + vw').1 == total.1
  {
    blackTerritory', whiteTerritory', vb', vw' := blackTerritory, whiteTerritory, vb, vw;
    for c := 0 to N
      invariant Shows(board, g) && Marks(visited, vb' + vw') && Scanned(g, vb', vw', r, c)
      invariant total.0 == blackTerritory' + ScanRow(g, r, c, vb' + vw').0
      invariant total.1 == whiteTerritory' + ScanRow(g, r, c, vb' + vw').1
    {
      blackTerritory', whiteTerritory', vb', vw' :=
        TerritoryCell(board, visited, r, c, blackTerritory', whiteTerritory', g, total, vb', vw');
    }
    RowEnd(g, r, vb', vw');
  }
}
