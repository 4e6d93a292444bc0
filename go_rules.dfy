/** What the Go engine computes, stated on board values: the stones a move
    captures, the forbidden (suicide) test, dead-stone marking, and the facts
    that tie them together. */
module GoRules {
  import opened GoGrid

  /** Opponent stones whose whole group has no liberty. */
  ghost function Removed(g: Grid, player: Color): set<Pos> {
    set r, c | 0 <= r < N && 0 <= c < N && IsColor(g, (r, c), Opponent(player))
                 && !HasLiberty(g, Component(g, Opponent(player), (r, c))) :: (r, c)
  }

  lemma InRemoved(g: Grid, player: Color, q: Pos)
    ensures q in Removed(g, player) <==>
            IsColor(g, q, Opponent(player)) && !HasLiberty(g, Component(g, Opponent(player), q))
  {
    if IsColor(g, q, Opponent(player)) {
      assert (q.0, q.1) == q;
    }
  }

  /** The removed set is a union of whole opponent groups. */
  lemma RemovedHoldsGroups(g: Grid, player: Color, q: Pos, s: Pos)
    requires q in Removed(g, player) && s in Component(g, Opponent(player), q)
    ensures s in Removed(g, player)
  {
    InRemoved(g, player, q);
    SameComponent(g, Opponent(player), q, s);
    ComponentOfColor(g, Opponent(player), q, s);
    InRemoved(g, player, s);
  }

  /** The board once every zero-liberty opponent group is taken off. */
  ghost function Capture(g: Grid, player: Color): Grid {
    Clear(g, Removed(g, player))
  }

  /** The speculative board of a candidate move. */
  function Placed(g: Grid, p: Pos, player: Color): Grid
    requires InBoard(p)
  {
    Place(g, p, Stone(player))
  }

  /** A move is forbidden when it captures nothing and the placed stone's group
      is left without a liberty. */
  ghost predicate Forbidden(g: Grid, p: Pos, player: Color)
    requires InBoard(p)
  {
    var g1 := Placed(g, p, player);
    Removed(g1, player) == {} && !HasLiberty(g1, Component(g1, player, p))
  }

  /** The `surroundedByOwn` test (igo.tsx:148-159): every member is off the edge and
      has no opponent stone next to it. */
  ghost predicate SurroundedByOwn(g: Grid, group: set<Pos>, player: Color) {
    forall x :: x in group && InBoard(x) ==> Sheltered(g, x, player)
  }

  /** The per-stone condition of `surroundedByOwn`, in the source's order. */
  predicate Sheltered(g: Grid, x: Pos, player: Color)
    requires InBoard(x)
  {
    && x.0 > 0 && At(g, Up(x)) != Stone(Opponent(player))
    && x.0 < N - 1 && At(g, Down(x)) != Stone(Opponent(player))
    && x.1 > 0 && At(g, Left(x)) != Stone(Opponent(player))
    && x.1 < N - 1 && At(g, Right(x)) != Stone(Opponent(player))
  }

  /** The decision exactly as `isForbiddenMove` writes it, exemption included. */
  ghost predicate ForbiddenAsWritten(g: Grid, p: Pos, player: Color)
    requires InBoard(p)
  {
    var g1 := Placed(g, p, player);
    var group := Component(g1, player, p);
    if Removed(g1, player) != {} then false
    else if SurroundedByOwn(g1, group, player) then false
    else !HasLiberty(g1, group)
  }

  /** The "surrounded by own stones" exemption can never hold for a group without
      liberties: walking up from the placed stone stays inside the group (no empty
      cell, no opponent stone) until it reaches row 0, where the test fails. */
  lemma {:induction false} ExemptionNeverFires(g: Grid, p: Pos, player: Color)
    requires IsColor(g, p, player)
    requires !HasLiberty(g, Component(g, player, p))
    ensures !SurroundedByOwn(g, Component(g, player, p), player)
  {
    var group := Component(g, player, p);
    if SurroundedByOwn(g, group, player) {
      ComponentHasSeed(g, player, p);
      var k := 0;
      while k < p.0
        invariant 0 <= k <= p.0
        invariant (p.0 - k, p.1) in group
      {
        UpStaysInGroup(g, p, player, (p.0 - k, p.1));
        k := k + 1;
      }
      UpStaysInGroup(g, p, player, (0, p.1));
    }
  }

  /** One step of the walk: under the exemption a member of a group without
      liberties is off the top edge and the cell above belongs to the group. */
  lemma UpStaysInGroup(g: Grid, p: Pos, player: Color, x: Pos)
    requires x in Component(g, player, p)
    requires !HasLiberty(g, Component(g, player, p))
    requires SurroundedByOwn(g, Component(g, player, p), player)
    ensures x.0 > 0 && Up(x) in Component(g, player, p)
  {
    var group := Component(g, player, p);
    ComponentOfColor(g, player, p, x);
    assert Sheltered(g, x, player);
    assert !HasEmptyNeighbor(g, x);
    assert IsColor(g, Up(x), player);
    ComponentClosed(g, player, p);
    ClosedStep(g, player, group, x, Up(x));
  }

  /** The exemption never changes the answer: the source's decision equals `Forbidden`. */
  lemma ForbiddenAsWrittenIsForbidden(g: Grid, p: Pos, player: Color)
    requires InBoard(p)
    ensures ForbiddenAsWritten(g, p, player) == Forbidden(g, p, player)
  {
    var g1 := Placed(g, p, player);
    if Removed(g1, player) == {} && !HasLiberty(g1, Component(g1, player, p)) {
      assert IsColor(g1, p, player);
      ExemptionNeverFires(g1, p, player);
    }
  }

  /** Two different groups of one colour never touch, so taking one off the board
      never frees another. */
  lemma DistinctGroupsNotAdjacent(g: Grid, color: Color, x: Pos, y: Pos, a: Pos, b: Pos)
    requires y !in Component(g, color, x)
    requires a in Component(g, color, x) && b in Component(g, color, y)
    ensures !Adjacent(a, b)
  {
    if Adjacent(a, b) {
      InComponent(g, color, x, a);
      ComponentOfColor(g, color, y, b);
      LinkedExtend(g, color, x, a, b);
      InComponent(g, color, x, b);
      SameComponent(g, color, x, b);
      SameComponent(g, color, y, b);
      ComponentHasSeed(g, color, y);
    }
  }

  /** Emptying cells never takes a liberty away. */
  lemma LibertyKeptByClear(g: Grid, s: set<Pos>, group: set<Pos>)
    requires HasLiberty(g, group)
    ensures HasLiberty(Clear(g, s), group)
  {
    var m :| m in group && InBoard(m) && HasEmptyNeighbor(g, m);
    assert HasEmptyNeighbor(Clear(g, s), m);
  }

  /** Emptying `color` cells outside the group of `p` changes neither that group
      nor whether it has a liberty. */
  lemma ClearOutsideGroup(g: Grid, color: Color, p: Pos, s: set<Pos>)
    requires forall q :: q in s ==> IsColor(g, q, color)
    requires Component(g, color, p) !! s
    ensures Component(Clear(g, s), color, p) == Component(g, color, p)
    ensures HasLiberty(Clear(g, s), Component(g, color, p)) == HasLiberty(g, Component(g, color, p))
  {
    var h := Clear(g, s);
    var group := Component(g, color, p);
    ComponentUnaffected(g, h, color, p);
    if HasLiberty(h, group) {
      var m :| m in group && InBoard(m) && HasEmptyNeighbor(h, m);
      HasEmptyNeighborIff(h, m);
      var e :| Adjacent(m, e) && IsEmpty(h, e);
      if e in s {
        ComponentClosed(g, color, p);
        ComponentOfColor(g, color, p, m);
        ClosedStep(g, color, group, m, e);
        assert false;
      }
      HasEmptyNeighborIff(g, m);
    } else {
      if HasLiberty(g, group) {
        LibertyKeptByClear(g, s, group);
      }
    }
  }

  /** After the capture no opponent stone is left in a group without a liberty. */
  lemma CaptureLeavesOpponentLiberties(g: Grid, player: Color, x: Pos)
    requires IsColor(Capture(g, player), x, Opponent(player))
    ensures Component(Capture(g, player), Opponent(player), x) == Component(g, Opponent(player), x)
    ensures HasLiberty(Capture(g, player), Component(Capture(g, player), Opponent(player), x))
  {
    var o := Opponent(player);
    var r := Removed(g, player);
    assert x !in r && IsColor(g, x, o);
    forall y | y in Component(g, o, x) && y in r
      ensures false
    {
      InRemoved(g, player, y);
      SameComponent(g, o, x, y);
      InRemoved(g, player, x);
    }
    forall q | q in r
      ensures IsColor(g, q, o)
    {
      InRemoved(g, player, q);
    }
    ClearOutsideGroup(g, o, x, r);
    InRemoved(g, player, x);
  }

  /** Every stone is in a group with a liberty. */
  ghost predicate NoDeadGroups(g: Grid) {
    forall x :: Breathes(g, x)
  }

  /** A stone at `x`, if there is one, belongs to a group with a liberty. */
  ghost predicate Breathes(g: Grid, x: Pos) {
    InBoard(x) && At(g, x).Stone? ==> HasLiberty(g, Component(g, At(g, x).color, x))
  }

  /** The stones `checkLifeAndDeath` marks: members of groups without a liberty. */
  ghost function DeadStones(g: Grid): set<Pos> {
    set r, c | 0 <= r < N && 0 <= c < N && At(g, (r, c)).Stone?
                 && !HasLiberty(g, Component(g, At(g, (r, c)).color, (r, c))) :: (r, c)
  }

  lemma InDeadStones(g: Grid, q: Pos)
    ensures q in DeadStones(g) <==>
            InBoard(q) && At(g, q).Stone? && !HasLiberty(g, Component(g, At(g, q).color, q))
  {
    if InBoard(q) {
      assert (q.0, q.1) == q;
    }
  }

  lemma NoDeadGroupsMarksNothing(g: Grid)
    requires NoDeadGroups(g)
    ensures DeadStones(g) == {}
  {
    forall q | q in DeadStones(g)
      ensures false
    {
      assert Breathes(g, q);
      InDeadStones(g, q);
    }
  }

  lemma EmptyGridHasNoDeadGroups()
    ensures NoDeadGroups(seq(N, _ => seq(N, _ => Empty)))
  {
  }

  /** The mover's own stones come through the capture unchanged, group by group. */
  lemma CaptureKeepsMoverGroups(g: Grid, player: Color, x: Pos)
    requires IsColor(Capture(g, player), x, player)
    ensures IsColor(g, x, player)
    ensures Component(Capture(g, player), player, x) == Component(g, player, x)
  {
    var r := Removed(g, player);
    forall q | q in r
      ensures IsColor(g, q, Opponent(player))
    {
      InRemoved(g, player, q);
    }
    forall q | q in Component(g, player, x)
      ensures IsColor(Capture(g, player), q, player)
    {
      ComponentOfColor(g, player, x, q);
    }
    ComponentUnaffected(g, Capture(g, player), player, x);
  }

  /** Placing a stone on an empty cell leaves the opponent's stones and their groups as they were. */
  lemma PlacedKeepsOpponentGroup(g: Grid, p: Pos, player: Color, y: Pos)
    requires IsEmpty(g, p)
    ensures forall x :: IsColor(Placed(g, p, player), x, Opponent(player)) <==> IsColor(g, x, Opponent(player))
    ensures Component(Placed(g, p, player), Opponent(player), y) == Component(g, Opponent(player), y)
  {
    var o := Opponent(player);
    var g1 := Placed(g, p, player);
    assert forall x :: IsColor(g1, x, o) <==> IsColor(g, x, o);
    forall x | x in Component(g, o, y)
      ensures IsColor(g1, x, o)
    {
      ComponentOfColor(g, o, y, x);
    }
    ComponentUnaffected(g, g1, o, y);
  }

  /** The only empty cell a placed stone takes away is its own. */
  lemma PlacedNeighborStillEmpty(g: Grid, p: Pos, player: Color, m: Pos)
    requires IsEmpty(g, p) && InBoard(m) && HasEmptyNeighbor(g, m)
    requires !HasEmptyNeighbor(Placed(g, p, player), m)
    ensures Adjacent(m, p)
  {
    HasEmptyNeighborIff(g, m);
    var e :| Adjacent(m, e) && IsEmpty(g, e);
    if e != p {
      assert IsEmpty(Placed(g, p, player), e);
      HasEmptyNeighborIff(Placed(g, p, player), m);
    }
  }

  /** A removed opponent group had a liberty before the move; the placed stone
      filled it, so the placed stone touches a captured cell. */
  lemma CapturedGroupTouchesMove(g: Grid, p: Pos, player: Color, y: Pos) returns (m: Pos)
    requires NoDeadGroups(g) && IsEmpty(g, p)
    requires y in Removed(Placed(g, p, player), player)
    ensures m in Removed(Placed(g, p, player), player) && Adjacent(m, p)
  {
    var o := Opponent(player);
    var g1 := Placed(g, p, player);
    InRemoved(g1, player, y);
    PlacedKeepsOpponentGroup(g, p, player, y);
    assert IsColor(g, y, o);
    var group := Component(g, o, y);
    assert Breathes(g, y);
    m :| m in group && InBoard(m) && HasEmptyNeighbor(g, m);
    assert !HasEmptyNeighbor(g1, m);
    PlacedNeighborStillEmpty(g, p, player, m);
    RemovedHoldsGroups(g1, player, y, m);
  }

  /** A capturing or liberty-keeping move, on a board where every group breathes,
      leaves a board where every group still breathes: the mover's groups keep or
      gain a liberty and the capture removes every opponent group that lost its last. */
  lemma AcceptedMoveKeepsLiberties(g: Grid, p: Pos, player: Color)
    requires NoDeadGroups(g) && IsEmpty(g, p) && !Forbidden(g, p, player)
    ensures NoDeadGroups(Capture(Placed(g, p, player), player))
  {
    var g1 := Placed(g, p, player);
    var g2 := Capture(g1, player);
    forall x | InBoard(x) && At(g2, x).Stone?
      ensures HasLiberty(g2, Component(g2, At(g2, x).color, x))
    {
      if At(g2, x).color == Opponent(player) {
        CaptureLeavesOpponentLiberties(g1, player, x);
      } else {
        MoverGroupBreathes(g, p, player, x);
      }
    }
  }

  lemma MoverGroupBreathes(g: Grid, p: Pos, player: Color, x: Pos)
    requires NoDeadGroups(g) && IsEmpty(g, p) && !Forbidden(g, p, player)
    requires IsColor(Capture(Placed(g, p, player), player), x, player)
    ensures HasLiberty(Capture(Placed(g, p, player), player),
                       Component(Capture(Placed(g, p, player), player), player, x))
  {
    var g1 := Placed(g, p, player);
    CaptureKeepsMoverGroups(g1, player, x);
    if x in Component(g1, player, p) {
      SameComponent(g1, player, p, x);
      JoinedGroupBreathes(g, p, player);
    } else {
      OtherGroupBreathes(g, p, player, x);
    }
  }

  /** The group the placed stone joins: it has a liberty of its own, or the capture
      empties a cell next to the placed stone. */
  lemma JoinedGroupBreathes(g: Grid, p: Pos, player: Color)
    requires NoDeadGroups(g) && IsEmpty(g, p) && !Forbidden(g, p, player)
    ensures HasLiberty(Capture(Placed(g, p, player), player), Component(Placed(g, p, player), player, p))
  {
    var g1 := Placed(g, p, player);
    var g2 := Capture(g1, player);
    var group := Component(g1, player, p);
    if HasLiberty(g1, group) {
      LibertyKeptByClear(g1, Removed(g1, player), group);
    } else {
      var y :| y in Removed(g1, player);
      var m := CapturedGroupTouchesMove(g, p, player, y);
      LibertyFromCapture(g1, p, player, m);
    }
  }

  /** A stone next to a captured cell gets that cell as a liberty. */
  lemma LibertyFromCapture(g: Grid, p: Pos, player: Color, m: Pos)
    requires IsColor(g, p, player)
    requires m in Removed(g, player) && Adjacent(m, p)
    ensures HasLiberty(Capture(g, player), Component(g, player, p))
  {
    InRemoved(g, player, m);
    ComponentHasSeed(g, player, p);
    LibertyFromCleared(g, Removed(g, player), Component(g, player, p), p, m);
  }

  /** A group with a stone next to a cleared cell gets that cell as a liberty. */
  lemma LibertyFromCleared(g: Grid, s: set<Pos>, group: set<Pos>, p: Pos, m: Pos)
    requires p in group && InBoard(p) && InBoard(m) && m in s && Adjacent(m, p)
    ensures HasLiberty(Clear(g, s), group)
  {
    var h := Clear(g, s);
    assert IsEmpty(h, m) && Adjacent(p, m);
    HasEmptyNeighborIff(h, p);
    assert HasEmptyNeighbor(h, p);
  }

  /** A group of the mover that the placed stone does not join gains no stone and
      loses no liberty: its liberty in the old board is not the placed cell. */
  lemma OtherGroupBreathes(g: Grid, p: Pos, player: Color, x: Pos)
    requires NoDeadGroups(g) && IsEmpty(g, p)
    requires IsColor(Placed(g, p, player), x, player)
    requires x !in Component(Placed(g, p, player), player, p)
    ensures HasLiberty(Capture(Placed(g, p, player), player), Component(Placed(g, p, player), player, x))
  {
    var g1 := Placed(g, p, player);
    ComponentHasSeed(g1, player, p);
    assert IsColor(g, x, player);
    OldLibertySurvives(g, p, player, x);
    LibertyKeptByClear(g1, Removed(g1, player), Component(g1, player, x));
  }

  lemma OldLibertySurvives(g: Grid, p: Pos, player: Color, x: Pos)
    requires NoDeadGroups(g) && IsEmpty(g, p) && IsColor(g, x, player)
    requires x !in Component(Placed(g, p, player), player, p)
    ensures HasLiberty(Placed(g, p, player), Component(Placed(g, p, player), player, x))
  {
    var g1 := Placed(g, p, player);
    assert Component(g, player, x) <= Component(g1, player, x) by {
      assert forall y :: IsColor(g, y, player) ==> IsColor(g1, y, player);
      ComponentMonotone(g, g1, player, x);
    }
    assert Breathes(g, x);
    var m :| m in Component(g, player, x) && InBoard(m) && HasEmptyNeighbor(g, m);
    assert HasEmptyNeighbor(g1, m) by {
      ApartFromMove(g, p, player, x, m);
      if !HasEmptyNeighbor(g1, m) {
        PlacedNeighborStillEmpty(g, p, player, m);
      }
    }
  }

  lemma ApartFromMove(g: Grid, p: Pos, player: Color, x: Pos, m: Pos)
    requires InBoard(p)
    requires x !in Component(Placed(g, p, player), player, p)
    requires m in Component(Placed(g, p, player), player, x)
    ensures !Adjacent(m, p)
  {
    var g1 := Placed(g, p, player);
    ComponentHasSeed(g1, player, p);
    if p in Component(g1, player, x) {
      InComponent(g1, player, x, p);
      LinkedSymmetric(g1, player, x, p);
      InComponent(g1, player, p, x);
    }
    DistinctGroupsNotAdjacent(g1, player, x, p, m, p);
  }
}
