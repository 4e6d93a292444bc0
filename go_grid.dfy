/** The 9x9 Go board as a value: cells, positions, 4-adjacency and stone groups.
    A group is the set of cells of one colour that a path of 4-adjacent cells of
    that colour links to a seed cell. */
module GoGrid {

  /** Side length of the board. */
  const N: int := 9

  datatype Color = Black | White

  function Opponent(c: Color): (o: Color)
    ensures o != c
  {
    if c == Black then White else Black
  }

  /** A cell is `null` (empty) or holds a stone of one colour. */
  datatype Cell = Empty | Stone(color: Color)

  /** A cell is empty, black or white. */
  lemma CellCases(c: Cell)
    ensures c == Empty || c == Stone(Black) || c == Stone(White)
  {
    if c.Stone? {
      assert c == Stone(c.color);
      assert c.color == Black || c.color == White;
    }
  }

  /** (row, column), both 0-based. */
  type Pos = (int, int)

  predicate InBoard(p: Pos) {
    0 <= p.0 < N && 0 <= p.1 < N
  }

  /** Row-major 9x9 grid of cells. */
  type Grid = g: seq<seq<Cell>> | |g| == N && forall r :: 0 <= r < N ==> |g[r]| == N
    witness seq(N, _ => seq(N, _ => Empty))

  function At(g: Grid, p: Pos): Cell
    requires InBoard(p)
  {
    g[p.0][p.1]
  }

  /** The grid with `p` set to `c`. */
  function Place(g: Grid, p: Pos, c: Cell): (h: Grid)
    requires InBoard(p)
    ensures At(h, p) == c
    ensures forall q :: InBoard(q) && q != p ==> At(h, q) == At(g, q)
  {
    g[p.0 := g[p.0][p.1 := c]]
  }

  /** The grid with every cell of `s` emptied. */
  function Clear(g: Grid, s: set<Pos>): (h: Grid)
    ensures forall q :: InBoard(q) ==> At(h, q) == if q in s then Empty else At(g, q)
  {
    seq(N, r requires 0 <= r < N => seq(N, c requires 0 <= c < N => if (r, c) in s then Empty else g[r][c]))
  }

  /** Grids are equal when they agree on every in-board cell. */
  lemma GridExt(g: Grid, h: Grid)
    requires forall q :: InBoard(q) ==> At(g, q) == At(h, q)
    ensures g == h
  {
    forall r | 0 <= r < N
      ensures g[r] == h[r]
    {
      forall c | 0 <= c < N
        ensures g[r][c] == h[r][c]
      {
        assert At(g, (r, c)) == At(h, (r, c));
      }
    }
  }

  function Up(p: Pos): Pos { (p.0 - 1, p.1) }
  function Down(p: Pos): Pos { (p.0 + 1, p.1) }
  function Left(p: Pos): Pos { (p.0, p.1 - 1) }
  function Right(p: Pos): Pos { (p.0, p.1 + 1) }

  /** 4-adjacency: up, down, left or right; never diagonal. */
  predicate Adjacent(p: Pos, q: Pos) {
    q == Up(p) || q == Down(p) || q == Left(p) || q == Right(p)
  }

  predicate IsColor(g: Grid, p: Pos, color: Color) {
    InBoard(p) && At(g, p) == Stone(color)
  }

  predicate IsEmpty(g: Grid, p: Pos) {
    InBoard(p) && At(g, p) == Empty
  }

  /** The four in-board neighbour tests of `isGroupCaptured` (igo.tsx:173-176). */
  predicate HasEmptyNeighbor(g: Grid, p: Pos)
    requires InBoard(p)
  {
    (p.0 > 0 && At(g, Up(p)) == Empty) ||
    (p.0 < N - 1 && At(g, Down(p)) == Empty) ||
    (p.1 > 0 && At(g, Left(p)) == Empty) ||
    (p.1 < N - 1 && At(g, Right(p)) == Empty)
  }

  lemma HasEmptyNeighborIff(g: Grid, p: Pos)
    requires InBoard(p)
    ensures HasEmptyNeighbor(g, p) <==> exists q :: Adjacent(p, q) && IsEmpty(g, q)
  {
    if HasEmptyNeighbor(g, p) {
      if p.0 > 0 && At(g, Up(p)) == Empty {
        assert Adjacent(p, Up(p)) && IsEmpty(g, Up(p));
      } else if p.0 < N - 1 && At(g, Down(p)) == Empty {
        assert Adjacent(p, Down(p)) && IsEmpty(g, Down(p));
      } else if p.1 > 0 && At(g, Left(p)) == Empty {
        assert Adjacent(p, Left(p)) && IsEmpty(g, Left(p));
      } else {
        assert Adjacent(p, Right(p)) && IsEmpty(g, Right(p));
      }
    }
  }

  /** Some member of `s` has an empty neighbour (a liberty). */
  ghost predicate HasLiberty(g: Grid, s: set<Pos>) {
    exists p :: p in s && InBoard(p) && HasEmptyNeighbor(g, p)
  }

  /** A non-empty walk over 4-adjacent cells that all hold `color`. */
  ghost predicate IsPath(g: Grid, color: Color, path: seq<Pos>) {
    && |path| > 0
    && (forall i :: 0 <= i < |path| ==> IsColor(g, path[i], color))
    && (forall i :: 0 <= i < |path| - 1 ==> Adjacent(path[i], path[i + 1]))
  }

  ghost predicate Linked(g: Grid, color: Color, p: Pos, q: Pos) {
    exists path :: IsPath(g, color, path) && path[0] == p && path[|path| - 1] == q
  }

  /** The maximal set of `color` cells 4-connected to `p` (empty when `p` is not `color`). */
  ghost function Component(g: Grid, color: Color, p: Pos): set<Pos> {
    set r, c | 0 <= r < N && 0 <= c < N && Linked(g, color, p, (r, c)) :: (r, c)
  }

  lemma InComponent(g: Grid, color: Color, p: Pos, q: Pos)
    ensures q in Component(g, color, p) <==> Linked(g, color, p, q)
  {
    if Linked(g, color, p, q) {
      var path :| IsPath(g, color, path) && path[0] == p && path[|path| - 1] == q;
      assert IsColor(g, path[|path| - 1], color);
      assert (q.0, q.1) == q;
    }
  }

  lemma LinkedEnds(g: Grid, color: Color, p: Pos, q: Pos)
    requires Linked(g, color, p, q)
    ensures IsColor(g, p, color) && IsColor(g, q, color)
  {
    var path :| IsPath(g, color, path) && path[0] == p && path[|path| - 1] == q;
    assert IsColor(g, path[0], color);
    assert IsColor(g, path[|path| - 1], color);
  }

  lemma LinkedRefl(g: Grid, color: Color, p: Pos)
    requires IsColor(g, p, color)
    ensures Linked(g, color, p, p)
  {
    assert IsPath(g, color, [p]);
  }

  lemma LinkedExtend(g: Grid, color: Color, p: Pos, q: Pos, s: Pos)
    requires Linked(g, color, p, q) && Adjacent(q, s) && IsColor(g, s, color)
    ensures Linked(g, color, p, s)
  {
    var path :| IsPath(g, color, path) && path[0] == p && path[|path| - 1] == q;
    var longer := path + [s];
    assert IsPath(g, color, longer);
    assert longer[|longer| - 1] == s;
  }

  function Reverse(path: seq<Pos>): (rev: seq<Pos>)
    ensures |rev| == |path|
    ensures forall i :: 0 <= i < |path| ==> rev[i] == path[|path| - 1 - i]
  {
    if path == [] then [] else Reverse(path[1..]) + [path[0]]
  }

  lemma LinkedSymmetric(g: Grid, color: Color, p: Pos, q: Pos)
    requires Linked(g, color, p, q)
    ensures Linked(g, color, q, p)
  {
    var path :| IsPath(g, color, path) && path[0] == p && path[|path| - 1] == q;
    var rev := Reverse(path);
    forall i | 0 <= i < |rev| - 1
      ensures Adjacent(rev[i], rev[i + 1])
    {
      var j := |path| - 2 - i;
      assert Adjacent(path[j], path[j + 1]);
    }
    assert IsPath(g, color, rev);
  }

  lemma LinkedTrans(g: Grid, color: Color, p: Pos, q: Pos, s: Pos)
    requires Linked(g, color, p, q) && Linked(g, color, q, s)
    ensures Linked(g, color, p, s)
  {
    var path1 :| IsPath(g, color, path1) && path1[0] == p && path1[|path1| - 1] == q;
    var path2 :| IsPath(g, color, path2) && path2[0] == q && path2[|path2| - 1] == s;
    var joined := path1 + path2[1..];
    forall i | 0 <= i < |joined| - 1
      ensures Adjacent(joined[i], joined[i + 1])
    {
      if i < |path1| - 1 {
        assert joined[i] == path1[i] && joined[i + 1] == path1[i + 1];
      } else {
        var j := i - |path1| + 1;
        assert joined[i] == path2[j] && joined[i + 1] == path2[j + 1];
      }
    }
    assert IsPath(g, color, joined);
  }

  /** Every `color` neighbour of `x` is in `v`. */
  ghost predicate NbrsOfColorIn(g: Grid, color: Color, x: Pos, v: set<Pos>) {
    && (IsColor(g, Up(x), color) ==> Up(x) in v)
    && (IsColor(g, Down(x), color) ==> Down(x) in v)
    && (IsColor(g, Left(x), color) ==> Left(x) in v)
    && (IsColor(g, Right(x), color) ==> Right(x) in v)
  }

  /** Every `color` cell of `v` outside `s` has all its `color` neighbours in `v`:
      the invariant of a flood fill whose open cells are `s`. */
  ghost predicate ClosedExcept(g: Grid, color: Color, v: set<Pos>, s: set<Pos>) {
    forall x :: x in v && x !in s && IsColor(g, x, color) ==> NbrsOfColorIn(g, color, x, v)
  }

  lemma ClosedStep(g: Grid, color: Color, v: set<Pos>, x: Pos, y: Pos)
    requires ClosedExcept(g, color, v, {}) && x in v && IsColor(g, x, color)
    requires Adjacent(x, y) && IsColor(g, y, color)
    ensures y in v
  {
    assert NbrsOfColorIn(g, color, x, v);
  }

  /** A closed set that holds the start of a path holds the whole path. */
  lemma {:induction false} ClosedHoldsPath(g: Grid, color: Color, v: set<Pos>, path: seq<Pos>, k: nat)
    requires ClosedExcept(g, color, v, {}) && IsPath(g, color, path) && path[0] in v
    requires k < |path|
    ensures path[k] in v
  {
    if k > 0 {
      ClosedHoldsPath(g, color, v, path, k - 1);
      assert Adjacent(path[k - 1], path[k]);
      ClosedStep(g, color, v, path[k - 1], path[k]);
    }
  }

  lemma ClosedHoldsLinked(g: Grid, color: Color, v: set<Pos>, p: Pos, q: Pos)
    requires ClosedExcept(g, color, v, {}) && p in v && Linked(g, color, p, q)
    ensures q in v
  {
    var path :| IsPath(g, color, path) && path[0] == p && path[|path| - 1] == q;
    ClosedHoldsPath(g, color, v, path, |path| - 1);
  }

  /** A closed set holds the whole component of each of its members. */
  lemma ClosedHoldsComponent(g: Grid, color: Color, v: set<Pos>, p: Pos)
    requires ClosedExcept(g, color, v, {}) && p in v
    ensures Component(g, color, p) <= v
  {
    forall q | q in Component(g, color, p)
      ensures q in v
    {
      InComponent(g, color, p, q);
      ClosedHoldsLinked(g, color, v, p, q);
    }
  }

  /** A closed set that misses `p` misses `p`'s whole component. */
  lemma ClosedMissesComponent(g: Grid, color: Color, v: set<Pos>, p: Pos)
    requires ClosedExcept(g, color, v, {}) && p !in v
    ensures Component(g, color, p) !! v
  {
    forall q | q in Component(g, color, p) && q in v
      ensures false
    {
      InComponent(g, color, p, q);
      LinkedSymmetric(g, color, p, q);
      ClosedHoldsLinked(g, color, v, q, p);
    }
  }

  /** A component has no `color` neighbour outside itself (it is maximal). */
  lemma {:induction false} ComponentClosed(g: Grid, color: Color, p: Pos)
    ensures ClosedExcept(g, color, Component(g, color, p), {})
  {
    var comp := Component(g, color, p);
    forall x | x in comp && IsColor(g, x, color)
      ensures NbrsOfColorIn(g, color, x, comp)
    {
      InComponent(g, color, p, x);
      forall y | y in [Up(x), Down(x), Left(x), Right(x)] && IsColor(g, y, color)
        ensures y in comp
      {
        LinkedExtend(g, color, p, x, y);
        InComponent(g, color, p, y);
      }
    }
  }

  lemma ComponentHasSeed(g: Grid, color: Color, p: Pos)
    requires IsColor(g, p, color)
    ensures p in Component(g, color, p)
  {
    LinkedRefl(g, color, p);
    InComponent(g, color, p, p);
  }

  lemma ComponentOfColor(g: Grid, color: Color, p: Pos, q: Pos)
    requires q in Component(g, color, p)
    ensures IsColor(g, q, color) && IsColor(g, p, color)
  {
    InComponent(g, color, p, q);
    LinkedEnds(g, color, p, q);
  }

  /** Any member of a group finds the same group. */
  lemma SameComponent(g: Grid, color: Color, p: Pos, q: Pos)
    requires q in Component(g, color, p)
    ensures Component(g, color, q) == Component(g, color, p)
  {
    InComponent(g, color, p, q);
    LinkedSymmetric(g, color, p, q);
    forall s | s in Component(g, color, q)
      ensures s in Component(g, color, p)
    {
      InComponent(g, color, q, s);
      LinkedTrans(g, color, p, q, s);
      InComponent(g, color, p, s);
    }
    forall s | s in Component(g, color, p)
      ensures s in Component(g, color, q)
    {
      InComponent(g, color, p, s);
      LinkedTrans(g, color, q, p, s);
      InComponent(g, color, q, s);
    }
  }

  /** Two groups of one colour are equal or disjoint. */
  lemma ComponentsDisjoint(g: Grid, color: Color, p: Pos, q: Pos)
    requires q !in Component(g, color, p)
    ensures Component(g, color, p) !! Component(g, color, q)
  {
    forall s | s in Component(g, color, p) && s in Component(g, color, q)
      ensures false
    {
      SameComponent(g, color, p, s);
      SameComponent(g, color, q, s);
      ComponentOfColor(g, color, q, s);
      ComponentHasSeed(g, color, q);
    }
  }

  /** More cells of `color` can only grow a group. */
  lemma ComponentMonotone(g: Grid, h: Grid, color: Color, p: Pos)
    requires forall x :: IsColor(g, x, color) ==> IsColor(h, x, color)
    ensures Component(g, color, p) <= Component(h, color, p)
  {
    forall q | q in Component(g, color, p)
      ensures q in Component(h, color, p)
    {
      InComponent(g, color, p, q);
      var path :| IsPath(g, color, path) && path[0] == p && path[|path| - 1] == q;
      assert IsPath(h, color, path);
      InComponent(h, color, p, q);
    }
  }

  lemma {:induction false} PathPrefixLinked(g: Grid, color: Color, path: seq<Pos>, k: nat)
    requires IsPath(g, color, path) && k < |path|
    ensures Linked(g, color, path[0], path[k])
  {
    var prefix := path[..k + 1];
    assert IsPath(g, color, prefix);
    assert prefix[0] == path[0] && prefix[|prefix| - 1] == path[k];
  }

  /** Removing `color` cells that lie outside the group of `p` leaves that group as it is. */
  lemma ComponentUnaffected(g: Grid, h: Grid, color: Color, p: Pos)
    requires forall x :: IsColor(h, x, color) ==> IsColor(g, x, color)
    requires forall x :: x in Component(g, color, p) ==> IsColor(h, x, color)
    ensures Component(h, color, p) == Component(g, color, p)
  {
    ComponentMonotone(h, g, color, p);
    forall q | q in Component(g, color, p)
      ensures q in Component(h, color, p)
    {
      InComponent(g, color, p, q);
      var path :| IsPath(g, color, path) && path[0] == p && path[|path| - 1] == q;
      forall i | 0 <= i < |path|
        ensures IsColor(h, path[i], color)
      {
        PathPrefixLinked(g, color, path, i);
        InComponent(g, color, p, path[i]);
      }
      assert IsPath(h, color, path);
      InComponent(h, color, p, q);
    }
  }

  /** Every cell of the board. */
  ghost const AllCells: set<Pos> := set r, c | 0 <= r < N && 0 <= c < N :: (r, c)

  lemma InAllCells(p: Pos)
    ensures p in AllCells <==> InBoard(p)
  {
    if InBoard(p) {
      assert (p.0, p.1) == p;
    }
  }

  lemma ClearNothing(g: Grid)
    ensures Clear(g, {}) == g
  {
    GridExt(Clear(g, {}), g);
  }

  lemma ClearTwice(g: Grid, s: set<Pos>, t: set<Pos>)
    ensures Clear(Clear(g, s), t) == Clear(g, s + t)
  {
    GridExt(Clear(Clear(g, s), t), Clear(g, s + t));
  }

  /** A stone next to `x` of `x`'s colour lies in the same group. */
  lemma LinkStep(g: Grid, color: Color, x: Pos, y: Pos, q: Pos)
    requires IsColor(g, x, color) && Adjacent(x, y) && Linked(g, color, y, q)
    ensures Linked(g, color, x, q)
  {
    LinkedEnds(g, color, y, q);
    LinkedRefl(g, color, x);
    LinkedExtend(g, color, x, x, y);
    LinkedTrans(g, color, x, y, q);
  }

  /** Closure survives adding cells, as long as every added cell is exempt. */
  lemma ClosedWiden(g: Grid, color: Color, v: set<Pos>, s: set<Pos>, v': set<Pos>, s': set<Pos>)
    requires ClosedExcept(g, color, v, s) && v <= v' && s <= s' && v' - v <= s'
    ensures ClosedExcept(g, color, v', s')
  {
  }

  /** The union of two closed sets is closed. */
  lemma ClosedUnion(g: Grid, color: Color, v: set<Pos>, w: set<Pos>)
    requires ClosedExcept(g, color, v, {}) && ClosedExcept(g, color, w, {})
    ensures ClosedExcept(g, color, v + w, {})
  {
    forall x | x in v + w && IsColor(g, x, color)
      ensures NbrsOfColorIn(g, color, x, v + w)
    {
      if x in v {
        assert NbrsOfColorIn(g, color, x, v);
      } else {
        assert NbrsOfColorIn(g, color, x, w);
      }
    }
  }

  /** Emptying cells of a closed set keeps it closed. */
  lemma ClosedUnderClear(g: Grid, color: Color, v: set<Pos>, s: set<Pos>)
    requires ClosedExcept(g, color, v, {})
    ensures ClosedExcept(Clear(g, s), color, v, {})
  {
    forall x | x in v && IsColor(Clear(g, s), x, color)
      ensures NbrsOfColorIn(Clear(g, s), color, x, v)
    {
      assert NbrsOfColorIn(g, color, x, v);
    }
  }

  /** A closed set that grew from a closed set by cells linked to a fresh seed
      grew by exactly the seed's group. */
  lemma GrownByComponent(g: Grid, color: Color, v: set<Pos>, v': set<Pos>, p: Pos)
    requires ClosedExcept(g, color, v, {}) && p !in v && v <= v'
    requires ClosedExcept(g, color, v', {}) && (IsColor(g, p, color) ==> p in v')
    requires forall q :: q in v' - v ==> Linked(g, color, p, q)
    ensures v' - v == Component(g, color, p)
  {
    forall q | q in v' - v
      ensures q in Component(g, color, p)
    {
      InComponent(g, color, p, q);
    }
    if IsColor(g, p, color) {
      ClosedHoldsComponent(g, color, v', p);
      ClosedMissesComponent(g, color, v, p);
    } else {
      forall q | q in Component(g, color, p)
        ensures false
      {
        ComponentOfColor(g, color, p, q);
      }
    }
  }
}
