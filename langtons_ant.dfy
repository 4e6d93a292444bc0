/** Langton's ant page: the step rule on a boolean grid (true is a black cell),
    the ant's state, the starting patterns and `initializeGrid`. */
module LangtonsAnt {

  /** 0: up, 1: right, 2: down, 3: left. */
  type Direction = d: int | 0 <= d < 4

  /** The ant: column `x`, row `y`, heading `direction`. */
  datatype AntState = AntState(x: int, y: int, direction: Direction)

  /** Turn right, (d+1) % 4, on a white cell and left, (d+3) % 4, on a black one. */
  function Turn(d: Direction, black: bool): (e: Direction)
    ensures black ==> e == (if d == 0 then 3 else d - 1)
    ensures !black ==> e == (if d == 3 then 0 else d + 1)
  {
    if black then (d + 3) % 4 else (d + 1) % 4
  }

  /** One cell forward: 0 → y-1, 1 → x+1, 2 → y+1, 3 → x-1. */
  function Forward(a: AntState): AntState {
    match a.direction
    case 0 => a.(y := a.y - 1)
    case 1 => a.(x := a.x + 1)
    case 2 => a.(y := a.y + 1)
    case 3 => a.(x := a.x - 1)
  }

  /** The ant's move on a cell of the given colour: turn, then one cell forward. */
  function Advance(a: AntState, black: bool): AntState {
    Forward(a.(direction := Turn(a.direction, black)))
  }

  /** The move lands on a neighbour of the old cell, along the new heading. */
  lemma AdvanceIsNeighbour(a: AntState, black: bool)
    ensures var b := Advance(a, black);
      b.direction == Turn(a.direction, black)
      && (b.x - a.x) * (b.x - a.x) + (b.y - a.y) * (b.y - a.y) == 1
  {
  }

  // ---------------------------------------------------------------------------
  // The step on an unbounded plane, and its inverse

  /** The black cells, as (x, y) pairs, and the ant. */
  datatype World = World(black: set<(int, int)>, ant: AntState)

  /** `step` away from the grid's edges: flip the cell under the ant, turn by
      its old colour, move. */
  function StepWorld(w: World): World {
    var p := (w.ant.x, w.ant.y);
    var wasBlack := p in w.black;
    World(if wasBlack then w.black - {p} else w.black + {p}, Advance(w.ant, wasBlack))
  }

  /** One cell backward along the heading. */
  function Backward(a: AntState): AntState {
    match a.direction
    case 0 => a.(y := a.y + 1)
    case 1 => a.(x := a.x - 1)
    case 2 => a.(y := a.y - 1)
    case 3 => a.(x := a.x + 1)
  }

  /** The step run backwards: back off one cell, read the old colour of that
      cell (the opposite of its colour now), undo the turn and flip the cell. */
  function UnstepWorld(w: World): World {
    var back := Backward(w.ant);
    var p := (back.x, back.y);
    var wasBlack := p !in w.black;
    var d: Direction := if wasBlack then (w.ant.direction + 1) % 4 else (w.ant.direction + 3) % 4;
    World(if wasBlack then w.black + {p} else w.black - {p}, back.(direction := d))
  }

  /** The ant's rule is reversible: the step and its backwards run undo each other. */
  lemma StepReversible(w: World)
    ensures UnstepWorld(StepWorld(w)) == w
    ensures StepWorld(UnstepWorld(w)) == w
  {
    var p := (w.ant.x, w.ant.y);
    var s := StepWorld(w);
    if p in w.black {
      assert s.black + {p} == w.black;
    } else {
      assert s.black - {p} == w.black;
    }
    var u := UnstepWorld(w);
    var back := Backward(w.ant);
    var q := (back.x, back.y);
    if q in w.black {
      assert u.black + {q} == w.black;
    } else {
      assert u.black - {q} == w.black;
    }
  }

  // ---------------------------------------------------------------------------
  // Starting patterns

  /** `Math.floor(gridSize / 2)`. */
  function Center(gridSize: nat): nat {
    gridSize / 2
  }

  predicate InGrid(gridSize: nat, r: int, c: int) {
    0 <= r < gridSize && 0 <= c < gridSize
  }

  /** A fresh all-white grid. */
  method WhiteGrid(gridSize: nat) returns (g: array2<bool>)
    ensures fresh(g) && g.Length0 == gridSize && g.Length1 == gridSize
    ensures forall r, c :: InGrid(gridSize, r, c) ==> !g[r, c]
  {
    g := new bool[gridSize, gridSize]((_, _) => false);
  }

  /** The cross: the centre row and the centre column within ten cells of the centre. */
  predicate CrossCell(gridSize: nat, r: int, c: int) {
    var m: int := Center(gridSize);
    (r == m && -10 <= c - m <= 10) || (c == m && -10 <= r - m <= 10)
  }

  /** Both diagonals through the centre within fifteen rows of it. */
  predicate DiagonalCell(gridSize: nat, r: int, c: int) {
    var m: int := Center(gridSize);
    -15 <= r - m <= 15 && (c == r || r + c == 2 * m)
  }

  /** The border of the 21x21 square around the centre. */
  predicate SquareCell(gridSize: nat, r: int, c: int) {
    var m: int := Center(gridSize);
    -10 <= r - m <= 10 && -10 <= c - m <= 10 && (r - m == 10 || r - m == -10 || c - m == 10 || c - m == -10)
  }

  /** The "center" pattern: all white, the ant in the middle facing up. */
  method CenterPattern(gridSize: nat) returns (g: array2<bool>, ant: AntState)
    ensures fresh(g) && g.Length0 == gridSize && g.Length1 == gridSize
    ensures forall r, c :: InGrid(gridSize, r, c) ==> !g[r, c]
    ensures ant == AntState(Center(gridSize), Center(gridSize), 0)
  {
    g := WhiteGrid(gridSize);
    ant := AntState(gridSize / 2, gridSize / 2, 0);
  }

  /** The "corner" pattern: all white, the ant at (5, 5) facing right. */
  method CornerPattern(gridSize: nat) returns (g: array2<bool>, ant: AntState)
    ensures fresh(g) && g.Length0 == gridSize && g.Length1 == gridSize
    ensures forall r, c :: InGrid(gridSize, r, c) ==> !g[r, c]
    ensures ant == AntState(5, 5, 1)
  {
    g := WhiteGrid(gridSize);
    ant := AntState(5, 5, 1);
  }

  /** The "cross" pattern: the ant at the centre facing up. */
  method CrossPattern(gridSize: nat) returns (g: array2<bool>, ant: AntState)
    ensures fresh(g) && g.Length0 == gridSize && g.Length1 == gridSize
    ensures forall r, c :: InGrid(gridSize, r, c) ==> g[r, c] == CrossCell(gridSize, r, c)
    ensures ant == AntState(Center(gridSize), Center(gridSize), 0)
  {
    g := WhiteGrid(gridSize);
    var center := gridSize / 2;
    for i := -10 to 11
      invariant forall r, c :: InGrid(gridSize, r, c) ==>
        g[r, c] == ((r == center && -10 <= c - center < i) || (c == center && -10 <= r - center < i))
    {
      if center + i >= 0 && center + i < gridSize {
        g[center, center + i] := true;
        g[center + i, center] := true;
      }
    }
    ant := AntState(center, center, 0);
  }

  /** The "diagonal" pattern: the ant five cells up and left of the centre,
      facing right. */
  method DiagonalPattern(gridSize: nat) returns (g: array2<bool>, ant: AntState)
    ensures fresh(g) && g.Length0 == gridSize && g.Length1 == gridSize
    ensures forall r, c :: InGrid(gridSize, r, c) ==> g[r, c] == DiagonalCell(gridSize, r, c)
    ensures ant == AntState(Center(gridSize) - 5, Center(gridSize) - 5, 1)
  {
    g := WhiteGrid(gridSize);
    var center := gridSize / 2;
    for i := -15 to 16
      invariant forall r, c :: InGrid(gridSize, r, c) ==>
        g[r, c] == (-15 <= r - center < i && (c == r || r + c == 2 * center))
    {
      if center + i >= 0 && center + i < gridSize {
        g[center + i, center + i] := true;
        if center - i >= 0 && center - i < gridSize {
          g[center + i, center - i] := true;
        }
      }
    }
    ant := AntState(center - 5, center - 5, 1);
  }

  /** The "square" pattern: the ant at the centre facing up. */
  method SquarePattern(gridSize: nat) returns (g: array2<bool>, ant: AntState)
    ensures fresh(g) && g.Length0 == gridSize && g.Length1 == gridSize
    ensures forall r, c :: InGrid(gridSize, r, c) ==> g[r, c] == SquareCell(gridSize, r, c)
    ensures ant == AntState(Center(gridSize), Center(gridSize), 0)
  {
    g := WhiteGrid(gridSize);
    var center := gridSize / 2;
    var size := 20;
    for i := -size / 2 to size / 2 + 1
      invariant forall r, c :: InGrid(gridSize, r, c) ==>
        g[r, c] == (SquareCell(gridSize, r, c) && r - center < i)
    {
      for j := -size / 2 to size / 2 + 1
        invariant forall r, c :: InGrid(gridSize, r, c) ==>
          g[r, c] == (SquareCell(gridSize, r, c) && (r - center < i || (r - center == i && c - center < j)))
      {
        if center + i >= 0 && center + i < gridSize && center + j >= 0 && center + j < gridSize {
          if i == 10 || i == -10 || j == 10 || j == -10 {
            g[center + i, center + j] := true;
          }
        }
      }
    }
    ant := AntState(center, center, 0);
  }

  /** The "random" pattern with its hundred draws given: each draw (dx, dy),
      both in 0..49, blackens the cell (center + dx - 25, center + dy - 25)
      when it lies on the grid. */
  method RandomPattern(gridSize: nat, draws: seq<(int, int)>) returns (g: array2<bool>, ant: AntState)
    requires |draws| == 100 && forall k :: 0 <= k < |draws| ==> 0 <= draws[k].0 < 50 && 0 <= draws[k].1 < 50
    ensures fresh(g) && g.Length0 == gridSize && g.Length1 == gridSize
    ensures forall r, c :: InGrid(gridSize, r, c) ==>
      (g[r, c] <==> exists k :: 0 <= k < |draws| && Center(gridSize) + draws[k].1 - 25 == r && Center(gridSize) + draws[k].0 - 25 == c)
    ensures ant == AntState(Center(gridSize), Center(gridSize), 0)
  {
    g := WhiteGrid(gridSize);
    var center := gridSize / 2;
    for i := 0 to 100
      invariant forall r, c :: InGrid(gridSize, r, c) ==>
        (g[r, c] <==> exists k :: 0 <= k < i && center + draws[k].1 - 25 == r && center + draws[k].0 - 25 == c)
    {
      var x := center + draws[i].0 - 25;
      var y := center + draws[i].1 - 25;
      if x >= 0 && x < gridSize && y >= 0 && y < gridSize {
        g[y, x] := true;
      }
      forall r, c | InGrid(gridSize, r, c) && r == y && c == x
        ensures exists k :: 0 <= k < i + 1 && center + draws[k].1 - 25 == r && center + draws[k].0 - 25 == c
      {
        assert center + draws[i].1 - 25 == r && center + draws[i].0 - 25 == c;
      }
    }
    ant := AntState(center, center, 0);
  }

  // ---------------------------------------------------------------------------
  // Pattern sizes

  ghost function Cells(gridSize: nat, p: (nat, int, int) -> bool): set<(int, int)> {
    set r, c | 0 <= r < gridSize && 0 <= c < gridSize && p(gridSize, r, c) :: (r, c)
  }

  /** The cells f(lo), ..., f(hi). */
  ghost function Segment(lo: int, hi: int, f: int -> (int, int)): set<(int, int)> {
    set i | lo <= i <= hi :: f(i)
  }

  /** A segment of an injective `f` has hi - lo + 1 cells. */
  lemma {:induction false} SegmentCount(lo: int, hi: int, f: int -> (int, int))
    requires lo <= hi + 1
    requires forall i, j :: lo <= i <= hi && lo <= j <= hi && f(i) == f(j) ==> i == j
    ensures |Segment(lo, hi, f)| == hi - lo + 1
    decreases hi - lo
  {
    if lo <= hi {
      SegmentCount(lo, hi - 1, f);
      assert Segment(lo, hi, f) == Segment(lo, hi - 1, f) + {f(hi)};
    } else {
      assert Segment(lo, hi, f) == {};
    }
  }

  lemma InSegment(lo: int, hi: int, f: int -> (int, int), i: int)
    requires lo <= i <= hi
    ensures f(i) in Segment(lo, hi, f)
  {
  }

  /** The cross is its row segment and its column segment. */
  lemma CrossSegments(gridSize: nat)
    requires gridSize >= 21
    ensures var m: int := Center(gridSize);
      Cells(gridSize, CrossCell) == Segment(-10, 10, i => (m, m + i)) + Segment(-10, 10, i => (m + i, m))
  {
    var m: int := Center(gridSize);
    var row, column := i => (m, m + i), i => (m + i, m);
    forall q | q in Cells(gridSize, CrossCell)
      ensures q in Segment(-10, 10, row) + Segment(-10, 10, column)
    {
      if q.0 == m {
        InSegment(-10, 10, row, q.1 - m);
      } else {
        InSegment(-10, 10, column, q.0 - m);
      }
    }
  }

  /** The cross has 41 cells once the grid is 21 wide. */
  lemma CrossCount(gridSize: nat)
    requires gridSize >= 21
    ensures |Cells(gridSize, CrossCell)| == 41
  {
    var m: int := Center(gridSize);
    var row, column := i => (m, m + i), i => (m + i, m);
    SegmentCount(-10, 10, row);
    SegmentCount(-10, 10, column);
    CrossSegments(gridSize);
    var a, b := Segment(-10, 10, row), Segment(-10, 10, column);
    InSegment(-10, 10, row, 0);
    InSegment(-10, 10, column, 0);
    assert a * b == {(m, m)};
  }

  /** The diagonal pattern is its two diagonal segments. */
  lemma DiagonalSegments(gridSize: nat)
    requires gridSize >= 31
    ensures var m: int := Center(gridSize);
      Cells(gridSize, DiagonalCell) == Segment(-15, 15, i => (m + i, m + i)) + Segment(-15, 15, i => (m + i, m - i))
  {
    var m: int := Center(gridSize);
    var main, anti := i => (m + i, m + i), i => (m + i, m - i);
    forall q | q in Cells(gridSize, DiagonalCell)
      ensures q in Segment(-15, 15, main) + Segment(-15, 15, anti)
    {
      if q.1 == q.0 {
        InSegment(-15, 15, main, q.0 - m);
      } else {
        InSegment(-15, 15, anti, q.0 - m);
      }
    }
  }

  /** The diagonal pattern has 61 cells once the grid is 31 wide. */
  lemma DiagonalCount(gridSize: nat)
    requires gridSize >= 31
    ensures |Cells(gridSize, DiagonalCell)| == 61
  {
    var m: int := Center(gridSize);
    var main, anti := i => (m + i, m + i), i => (m + i, m - i);
    SegmentCount(-15, 15, main);
    SegmentCount(-15, 15, anti);
    DiagonalSegments(gridSize);
    var a, b := Segment(-15, 15, main), Segment(-15, 15, anti);
    InSegment(-15, 15, main, 0);
    InSegment(-15, 15, anti, 0);
    assert a * b == {(m, m)};
  }

  /** The cells (r, lo), ..., (r, hi) of row `r`. */
  ghost function RowCells(r: int, lo: int, hi: int): set<(int, int)> {
    set c | lo <= c <= hi :: (r, c)
  }

  /** The cells (lo, c), ..., (hi, c) of column `c`. */
  ghost function ColumnCells(c: int, lo: int, hi: int): set<(int, int)> {
    set r | lo <= r <= hi :: (r, c)
  }

  lemma {:induction false} RowCount(r: int, lo: int, hi: int)
    requires lo <= hi + 1
    ensures |RowCells(r, lo, hi)| == hi - lo + 1
    decreases hi - lo
  {
    if lo <= hi {
      RowCount(r, lo, hi - 1);
      assert RowCells(r, lo, hi) == RowCells(r, lo, hi - 1) + {(r, hi)};
    } else {
      assert RowCells(r, lo, hi) == {};
    }
  }

  lemma {:induction false} ColumnCount(c: int, lo: int, hi: int)
    requires lo <= hi + 1
    ensures |ColumnCells(c, lo, hi)| == hi - lo + 1
    decreases hi - lo
  {
    if lo <= hi {
      ColumnCount(c, lo, hi - 1);
      assert ColumnCells(c, lo, hi) == ColumnCells(c, lo, hi - 1) + {(hi, c)};
    } else {
      assert ColumnCells(c, lo, hi) == {};
    }
  }

  /** The four sides of the square around `m`: the top and bottom rows and the
      rest of the left and right columns. */
  ghost function SquareSides(m: int): set<(int, int)> {
    RowCells(m - 10, m - 10, m + 10) + RowCells(m + 10, m - 10, m + 10)
      + ColumnCells(m - 10, m - 9, m + 9) + ColumnCells(m + 10, m - 9, m + 9)
  }

  /** The square's border is its four sides. */
  lemma SquareSegments(gridSize: nat)
    requires gridSize >= 21
    ensures Cells(gridSize, SquareCell) == SquareSides(Center(gridSize))
  {
    var m: int := Center(gridSize);
    forall q | q in Cells(gridSize, SquareCell)
      ensures q in SquareSides(m)
    {
      if q.0 == m - 10 {
        assert q in RowCells(m - 10, m - 10, m + 10);
      } else if q.0 == m + 10 {
        assert q in RowCells(m + 10, m - 10, m + 10);
      } else if q.1 == m - 10 {
        assert q in ColumnCells(m - 10, m - 9, m + 9);
      } else {
        assert q in ColumnCells(m + 10, m - 9, m + 9);
      }
    }
    forall q | q in SquareSides(m)
      ensures q in Cells(gridSize, SquareCell)
    {
      assert SquareCell(gridSize, q.0, q.1);
    }
  }

  lemma CountFour(t: set<(int, int)>, b: set<(int, int)>, l: set<(int, int)>, r: set<(int, int)>)
    requires t !! b && t !! l && t !! r && b !! l && b !! r && l !! r
    ensures |t + b + l + r| == |t| + |b| + |l| + |r|
  {
    assert |t + b| == |t| + |b|;
    assert (t + b) !! l;
    assert |t + b + l| == |t| + |b| + |l|;
    assert (t + b + l) !! r;
  }

  /** The four sides do not overlap and have 80 cells. */
  lemma SquareSidesCount(m: int)
    ensures |SquareSides(m)| == 80
  {
    var t, b := RowCells(m - 10, m - 10, m + 10), RowCells(m + 10, m - 10, m + 10);
    var l, r := ColumnCells(m - 10, m - 9, m + 9), ColumnCells(m + 10, m - 9, m + 9);
    RowCount(m - 10, m - 10, m + 10);
    RowCount(m + 10, m - 10, m + 10);
    ColumnCount(m - 10, m - 9, m + 9);
    ColumnCount(m + 10, m - 9, m + 9);
    CountFour(t, b, l, r);
  }

  /** The square's border has 80 cells once the grid is 21 wide. */
  lemma SquareCount(gridSize: nat)
    requires gridSize >= 21
    ensures |Cells(gridSize, SquareCell)| == 80
  {
    SquareSegments(gridSize);
    SquareSidesCount(Center(gridSize));
  }

  // ---------------------------------------------------------------------------
  // The page

  /** The page's grid and ant refs and its step counter, running flag, grid
      size and selected pattern. */
  class AntPage {
    var grid: array2<bool>
    var ant: AntState
    var stepCount: int
    var isRunning: bool
    var gridSize: nat
    var selectedPattern: string

    /** The state before the first `initializeGrid`: an empty grid and the ant at (50, 50). */
    constructor ()
      ensures grid.Length0 == 0 && ant == AntState(50, 50, 0) && stepCount == 0 && !isRunning
      ensures gridSize == 100 && selectedPattern == "center"
    {
      grid := new bool[0, 0];
      ant := AntState(50, 50, 0);
      stepCount := 0;
      isRunning := false;
      gridSize := 100;
      selectedPattern := "center";
    }

    /** The bounds check of `step`. */
    predicate Inside()
      reads this
    {
      0 <= ant.x < gridSize && 0 <= ant.y < gridSize && ant.y < grid.Length0 && ant.x < grid.Length1
    }

    /** The page as a `World`: the black cells as (x, y) pairs, and the ant. */
    ghost function Plane(): World
      reads this, grid
    {
      World(set r, c | 0 <= r < grid.Length0 && 0 <= c < grid.Length1 && grid[r, c] :: (c, r), ant)
    }

    /** `step`. Inside the grid it is the plane's step. */
    method Step()
      modifies this, grid
      ensures grid == old(grid) && gridSize == old(gridSize) && selectedPattern == old(selectedPattern)
      ensures old(grid.Length0) == 0 ==>
        unchanged(grid) && ant == old(ant) && stepCount == old(stepCount) && isRunning == old(isRunning)
      ensures old(grid.Length0) != 0 && !old(Inside()) ==>
        unchanged(grid) && ant == old(ant) && stepCount == old(stepCount) && !isRunning
      ensures old(grid.Length0) != 0 && old(Inside()) ==>
        && (forall r, c :: 0 <= r < grid.Length0 && 0 <= c < grid.Length1 ==>
              grid[r, c] == if (r, c) == (old(ant.y), old(ant.x)) then !old(grid[r, c]) else old(grid[r, c]))
        && ant == Advance(old(ant), old(grid[ant.y, ant.x]))
        && stepCount == old(stepCount) + 1 && isRunning == old(isRunning)
      ensures old(grid.Length0) != 0 && old(Inside()) ==> Plane() == StepWorld(old(Plane()))
    {
      if grid.Length0 == 0 {
        return;
      }
      if ant.x < 0 || ant.x >= gridSize || ant.y < 0 || ant.y >= gridSize
         || ant.y >= grid.Length0 || ant.x >= grid.Length1 {
        isRunning := false;
        return;
      }
      var currentCell := grid[ant.y, ant.x];
      var direction: Direction;
      if currentCell {
        direction := (ant.direction + 3) % 4;
      } else {
        direction := (ant.direction + 1) % 4;
      }
      ghost var before := Plane();
      ghost var p := (ant.x, ant.y);
      grid[ant.y, ant.x] := !currentCell;
      ant := Forward(ant.(direction := direction));
      stepCount := stepCount + 1;
      assert p in before.black <==> currentCell;
      ghost var flipped := if currentCell then before.black - {p} else before.black + {p};
      forall q | q in flipped
        ensures q in Plane().black
      {
        assert 0 <= q.1 < grid.Length0 && 0 <= q.0 < grid.Length1 && grid[q.1, q.0];
      }
      assert Plane().black == flipped;
    }

    /** `initializeGrid`: build the selected pattern, falling back to "center"
        for an unknown id, and reset the counter. `draws` stands for the random
        numbers the "random" pattern consumes. */
    method InitializeGrid(draws: seq<(int, int)>)
      requires |draws| == 100 && forall k :: 0 <= k < |draws| ==> 0 <= draws[k].0 < 50 && 0 <= draws[k].1 < 50
      modifies this
      ensures fresh(grid) && grid.Length0 == gridSize && grid.Length1 == gridSize && stepCount == 0
      ensures gridSize == old(gridSize) && selectedPattern == old(selectedPattern) && isRunning == old(isRunning)
      ensures selectedPattern == "cross" ==>
        ant == AntState(Center(gridSize), Center(gridSize), 0)
        && forall r, c :: InGrid(gridSize, r, c) ==> grid[r, c] == CrossCell(gridSize, r, c)
      ensures selectedPattern == "diagonal" ==>
        ant == AntState(Center(gridSize) - 5, Center(gridSize) - 5, 1)
        && forall r, c :: InGrid(gridSize, r, c) ==> grid[r, c] == DiagonalCell(gridSize, r, c)
      ensures selectedPattern == "square" ==>
        ant == AntState(Center(gridSize), Center(gridSize), 0)
        && forall r, c :: InGrid(gridSize, r, c) ==> grid[r, c] == SquareCell(gridSize, r, c)
      ensures selectedPattern == "corner" ==>
        ant == AntState(5, 5, 1) && forall r, c :: InGrid(gridSize, r, c) ==> !grid[r, c]
      ensures selectedPattern == "random" ==>
        ant == AntState(Center(gridSize), Center(gridSize), 0)
        && forall r, c :: InGrid(gridSize, r, c) ==>
             (grid[r, c] <==> exists k :: 0 <= k < |draws| && Center(gridSize) + draws[k].1 - 25 == r
                                           && Center(gridSize) + draws[k].0 - 25 == c)
      ensures selectedPattern !in {"cross", "diagonal", "square", "corner", "random"} ==>
        ant == AntState(Center(gridSize), Center(gridSize), 0) && forall r, c :: InGrid(gridSize, r, c) ==> !grid[r, c]
    {
      var g: array2<bool>, a: AntState;
      if selectedPattern == "corner" {
        g, a := CornerPattern(gridSize);
      } else if selectedPattern == "cross" {
        g, a := CrossPattern(gridSize);
      } else if selectedPattern == "diagonal" {
        g, a := DiagonalPattern(gridSize);
      } else if selectedPattern == "square" {
        g, a := SquarePattern(gridSize);
      } else if selectedPattern == "random" {
        g, a := RandomPattern(gridSize, draws);
      } else {
        g, a := CenterPattern(gridSize);
      }
      grid := g;
      ant := a;
      stepCount := 0;
    }
  }
}
