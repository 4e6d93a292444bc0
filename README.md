# umibows-blog rule engines in Dafny

This project models the rule engines behind several pages of the umibows blog
and proves what they compute.

- **Go page (`app/igo/igo.tsx`).** A 9×9 board of empty, black and white cells.
  The page keeps a session: whose turn it is, the move history, two capture
  tallies and two territory counts. The engine has four parts:
  - a flood fill that collects a stone group (`getStoneGroup`);
  - the liberty test (`isGroupCaptured`);
  - the in-place capture sweep (`checkAndRemoveCapturedStones`);
  - the suicide test on a copied board (`isForbiddenMove`).

  Around them sit the territory counter (`updateTerritories`), the dead-stone
  marker (`checkLifeAndDeath`) and the click and reset handlers.
- **4×4 Othello.** The `useOthello` hook (`hooks/othello-claude3/use-othello.ts`)
  holds the ray-walking move test, the disc flip, disc counting, pass handling,
  the winner rule and reset. The `OthelloGame` component lists the available
  moves, handles the human click and plays the CPU turn.
- **Langton's ant (`app/langtons-ant/page.tsx`).** The step rule on a boolean
  grid and the starting patterns.
- **LaTeX clean-up (`app/tex/actions.ts`).** The data-URL prefix strip and the
  trimming of fences and math delimiters from the model's reply.
- **Basic-auth gate (`middleware.ts`).** The credential check, the path
  matcher and the 401 route it rewrites to.
- **Image generator.** The Gemini request and the reading of its answer
  (`app/image-generator/actions.ts`), and the upload list of `ImageUploader`.
- **Storymaker book viewer.** Two pages per spread, with previous and next
  buttons.

## How the model is built

**Go.** The board is an `array2<Cell>`, and each algorithm is a method over
it. Each method is proved against value-level definitions:

- `GoGrid` defines groups as 4-connected components.
- `GoRules` defines the capture set, the forbidden test and the dead stones.
- `GoTerritory` defines the credited territory cells.

The page's recursive `getStoneGroup` and `checkTerritory` stay recursive
methods over a shared `visited` matrix. The session is the class
`GoSession.Igo`, whose invariant `GoLedger.SessionInvariant` says three things:

- every group has a liberty;
- the territory counts fit the board;
- stones on the board plus stones captured equal the moves played, per colour.

**A dead exemption.** While proving this, it turned out that the "surrounded by
own stones" exemption of `isForbiddenMove` (igo.tsx:148-163) can never fire
for a group without liberties. Walking up from the placed stone stays inside
the group until row 0, where the test fails. So the decision as written
(`GoRules.ForbiddenAsWritten`) equals the plain suicide test
(`GoRules.Forbidden`).

**Othello.** The hook is the class `OthelloHook.Othello`, with the board as an
`array2<Square>`. Its methods are proved against the functions of
`OthelloRules`: `ValidMove`, `Flip`, `AfterPlace`, `AfterPassCheck`,
`AfterEnd` and `Start`.

The component's `isValidMove` (OthelloGame.tsx:46-69) is the same code as the
hook's, with the board passed in. The component always passes the hook's
board, so it is modelled once, by `OthelloHook.Othello.IsValidMove`.

`flipDiscs` copies only the outer array (`[...board]`) and writes into the
shared rows. This is why the pass check that follows sees the flipped board,
as the model's sequential writes do.

**Langton's ant.** The page is the class `LangtonsAnt.AntPage`, with the grid
as an `array2<bool>`. The step and its inverse are also stated on values, in
`StepWorld` and `UnstepWorld`.

**The other modules** are functions over values, except the loops the source
has (`ScanParts`, `FilterValid`, `CompressAll`, `ReadPreviews`) and the
component's state: `ImageUploader.Uploader` and `Storymaker.BookViewer`.

**Inputs standing in for I/O:**

- Environment variables are string parameters; an unset one is the empty
  string.
- SDK calls, `atob`, canvas compression and `FileReader` are functions passed
  in.
- The random numbers are parameters, or an arbitrary choice.

## Model

| member | source | states |
|---|---|---|
| GoGrid.Opponent | app/igo/igo.tsx:111 | the other colour differs from the mover's |
| GoGrid.Place | app/igo/igo.tsx:94-95 | the placed cell holds the stone and every other cell is unchanged |
| GoGrid.Clear | app/igo/igo.tsx:215-217 | exactly the listed cells become empty, the rest keep their contents |
| GoGrid.HasEmptyNeighborIff | app/igo/igo.tsx:172-177 | the four bounded neighbour tests hold iff some 4-adjacent in-board cell is empty |
| GoGrid.InComponent | app/igo/igo.tsx:190-204 | a cell is in the group of p iff a same-colour 4-adjacent path links it to p |
| GoGrid.LinkedSymmetric | app/igo/igo.tsx:190-204 | connection within a colour is symmetric |
| GoGrid.LinkedTrans | app/igo/igo.tsx:190-204 | connection within a colour is transitive |
| GoGrid.ComponentClosed | app/igo/igo.tsx:190-204 | a group is closed: every same-colour neighbour of a member is a member, so it is maximal |
| GoGrid.ComponentHasSeed | app/igo/igo.tsx:190-204 | the seed stone belongs to its own group |
| GoGrid.ComponentOfColor | app/igo/igo.tsx:190-204 | every member of a group holds the group's colour |
| GoGrid.SameComponent | app/igo/igo.tsx:190-204 | any member of a group finds the same group |
| GoGrid.ComponentsDisjoint | app/igo/igo.tsx:206-221 | two groups of one colour are equal or disjoint |
| GoGrid.ComponentUnaffected | app/igo/igo.tsx:206-221 | removing same-colour stones outside a group leaves that group unchanged |
| GoGrid.ClearTwice | app/igo/igo.tsx:206-221 | clearing two sets in turn clears their union |
| GoGrid.GridExt | app/igo/igo.tsx:23-27 | two boards agreeing on all 81 cells are equal |
| GoEngine.CopyBoard | app/igo/igo.tsx:122-123 | the copy is fresh and holds the same cells as the input |
| GoEngine.GetStoneGroup | app/igo/igo.tsx:190-204 | the search marks in `visited` exactly the cells it pushes, once each; each is linked to the seed; the seed is reached when it has the colour; the visited set stays closed except for cells in progress |
| GoEngine.IsGroupCaptured | app/igo/igo.tsx:168-179 | true iff no member of the list has an empty in-board neighbour |
| GoEngine.IsGroupAlive | app/igo/igo.tsx:247-258 | true iff some member has an empty in-board neighbour |
| GoEngine.AllSurroundedByOwn | app/igo/igo.tsx:148-163 | `every` over the group equals the value-level exemption test |
| GoEngine.RemoveGroup | app/igo/igo.tsx:215-217 | the board afterwards is the old board with the group's cells emptied |
| GoEngine.FoundGroup | app/igo/igo.tsx:206-214 | on the partly swept board, a search from an unvisited opponent stone visits exactly its original group, with the same liberties as before the sweep |
| GoEngine.RecordGroup | app/igo/igo.tsx:210-219 | a searched group is dead iff its cells belong to the capture set; dead groups join the capture list, once each |
| GoEngine.SweepCell | app/igo/igo.tsx:206-221 | one scan cell keeps the sweep invariant: board = original minus the dead groups visited so far, and the list holds those cells once each |
| GoEngine.CheckAndRemoveCapturedStones | app/igo/igo.tsx:181-224 | the board afterwards is the original minus every zero-liberty opponent group, all else unchanged; the returned list holds exactly the removed cells, each once |
| GoEngine.IsForbiddenMove | app/igo/igo.tsx:115-166 | the answer equals `Forbidden` on the input board, and the input board is not modified |
| GoEngine.UnexemptedCapture | app/igo/igo.tsx:135-165 | forbidden iff the exemption fails and the placed stone's group has no liberty |
| GoEngine.MournGroup | app/igo/igo.tsx:260-270 | a searched group without a liberty joins the dead list, once each |
| GoEngine.LifeCell | app/igo/igo.tsx:260-270 | one scan cell keeps the marking invariant for both colours |
| GoEngine.CheckLifeAndDeath | app/igo/igo.tsx:225-273 | the result holds exactly the stones of groups without a liberty, each once |
| GoRules.InRemoved | app/igo/igo.tsx:206-219 | a cell is captured iff it is an opponent stone whose group has no liberty |
| GoRules.RemovedHoldsGroups | app/igo/igo.tsx:206-219 | the captured set is a union of whole opponent groups |
| GoRules.ExemptionNeverFires | app/igo/igo.tsx:148-163 | a stone's group without liberties never satisfies "surrounded by own stones" |
| GoRules.UpStaysInGroup | app/igo/igo.tsx:148-163 | under the exemption, every member of a libertyless group is off row 0 and the cell above it is in the group |
| GoRules.ForbiddenAsWrittenIsForbidden | app/igo/igo.tsx:115-166 | the decision as written, exemption included, equals the plain suicide test |
| GoRules.DistinctGroupsNotAdjacent | app/igo/igo.tsx:206-221 | two different groups of one colour never touch, so removing one never frees another and scan order does not matter |
| GoRules.LibertyKeptByClear | app/igo/igo.tsx:215-217 | emptying cells never takes a liberty away |
| GoRules.ClearOutsideGroup | app/igo/igo.tsx:206-221 | clearing same-colour cells outside a group changes neither the group nor whether it has a liberty |
| GoRules.CaptureLeavesOpponentLiberties | app/igo/igo.tsx:181-224 | after the sweep every remaining opponent stone is in its original group, and that group has a liberty |
| GoRules.CaptureKeepsMoverGroups | app/igo/igo.tsx:181-224 | the mover's stones and their groups come through the sweep unchanged |
| GoRules.PlacedKeepsOpponentGroup | app/igo/igo.tsx:94-95 | placing on an empty cell leaves the opponent's stones and groups as they were |
| GoRules.PlacedNeighborStillEmpty | app/igo/igo.tsx:94-95 | the only empty cell a placement takes away is the placed one |
| GoRules.CapturedGroupTouchesMove | app/igo/igo.tsx:102 | on a board where every group breathes, a captured group touches the placed stone |
| GoRules.AcceptedMoveKeepsLiberties | app/igo/igo.tsx:97-102 | an accepted click on a board where every group breathes leaves a board where every group breathes |
| GoRules.MoverGroupBreathes | app/igo/igo.tsx:97-102 | after an accepted move every group of the mover has a liberty |
| GoRules.JoinedGroupBreathes | app/igo/igo.tsx:97-102 | the group the placed stone joins has a liberty after the capture |
| GoRules.LibertyFromCapture | app/igo/igo.tsx:102 | a group next to a captured cell gets that cell as a liberty |
| GoRules.LibertyFromCleared | app/igo/igo.tsx:215-217 | a group with a member next to a cleared cell has a liberty |
| GoRules.OtherGroupBreathes | app/igo/igo.tsx:97-102 | a mover group the placed stone does not join keeps a liberty through the move |
| GoRules.OldLibertySurvives | app/igo/igo.tsx:94-95 | such a group's old liberty is not the placed cell |
| GoRules.ApartFromMove | app/igo/igo.tsx:94-95 | no member of such a group is adjacent to the placed cell |
| GoRules.InDeadStones | app/igo/igo.tsx:225-273 | a cell is marked iff it holds a stone whose group has no liberty |
| GoRules.NoDeadGroupsMarksNothing | app/igo/igo.tsx:225-273 | when every group breathes, nothing is marked |
| GoRules.EmptyGridHasNoDeadGroups | app/igo/igo.tsx:23-27 | the empty board has no dead group |
| GoTerritory.CheckTerritory | app/igo/igo.tsx:36-56 | the fill enters only cells a fill of its colour can walk to from (r, c); started with no fill in progress it enters exactly those cells; it returns the number of entered cells with no neighbour of the other colour, carries on from each of them and leaves the board unchanged |
| GoTerritory.FillNeighbors | app/igo/igo.tsx:50-53 | the four recursive fills reach every empty neighbour, stay within the reaches of the four neighbours and add up their credits |
| GoTerritory.FillTwo | app/igo/igo.tsx:50-53 | two successive fills reach both start cells when they are empty, stay within their two reaches and add up their credits |
| GoTerritory.CreditedFill | app/igo/igo.tsx:41-55 | a fill that credits (r, c) and then fills from its neighbours credits one cell more than they do, carries on from (r, c) and stays within the reach of (r, c), which it fills exactly when no other fill is in progress |
| GoTerritory.FillIsReach | app/igo/igo.tsx:36-56 | a closed fill that stays within the reach of its start cell entered exactly that reach |
| GoTerritory.ReachFilled | app/igo/igo.tsx:36-56 | the reach of an unvisited empty cell is closed: it holds every empty neighbour of each cell it credits |
| GoTerritory.ReachShrinks | app/igo/igo.tsx:38 | more visited cells never enlarge a reach |
| GoTerritory.TouchesOnBoard | app/igo/igo.tsx:61-66 | the seed test read from the array equals the value-level test |
| GoTerritory.OtherOnBoard | app/igo/igo.tsx:42-47 | the rejection test read from the array equals the value-level test |
| GoTerritory.CreditEntered | app/igo/igo.tsx:38-49 | entering one cell credits it exactly when it is empty with no neighbour of the other colour |
| GoTerritory.TerritoryCell | app/igo/igo.tsx:60-76 | an unvisited empty cell touching black adds the credit of a black fill's reach to the black count; otherwise, touching white, a white fill's to the white count; otherwise nothing changes; the scan invariant holds and the counts still add up to the scan function's |
| GoTerritory.ScanFill | app/igo/igo.tsx:67-74 | one fill marks its reach visited and adds the number of credited cells in it to its colour's count |
| GoTerritory.ScanFromCell | app/igo/igo.tsx:60-76 | the scan function at one cell, in its three cases |
| GoTerritory.ScanStep | app/igo/igo.tsx:60-74 | a fill seeded at an unvisited empty cell touching its colour keeps the scan invariant one cell on, and the credits add up |
| GoTerritory.ScanCellStep | app/igo/igo.tsx:59-77 | the scan function moves one cell on and keeps the scan invariant |
| GoTerritory.ScanLine | app/igo/igo.tsx:59-77 | the scan function runs through one row and keeps the scan invariant |
| GoTerritory.TerritoryRow | app/igo/igo.tsx:59-77 | the inner loop adds the scan function's counts for one row |
| GoTerritory.ScanBoard | app/igo/igo.tsx:58-78 | the row loop from an unmarked matrix returns the counts of the scan function |
| GoTerritory.ScanBound | app/igo/igo.tsx:58-78 | the black and white credits are disjoint sets of empty cells, so black + white ≤ empty cells |
| GoTerritory.LoneBlackTerritory | app/igo/igo.tsx:58-78 | with a single black stone, white fills never run and the black fills credit all 80 other cells |
| GoTerritory.FillsBoard | app/igo/igo.tsx:50-53 | with a single stone, a non-empty empty-closed set of cells is every other cell |
| GoTerritory.AllCellsCount | app/igo/igo.tsx:23-27 | the board has 81 cells |
| GoTerritory.UpdateTerritories | app/igo/igo.tsx:29-82 | the two counts are the scan function `Territories` of the board |
| GoTerritory.TerritoriesFacts | app/igo/igo.tsx:29-82 | the scan function's counts are the sizes of two disjoint sets of credited cells; together at most the empty cells; none for a colour without stones; 80/0 with a lone black stone |
| GoLedger.MovesBy | app/igo/igo.tsx:92-93 | a colour's move count is the number of history entries that colour played |
| GoLedger.TerritoriesFit | app/igo/igo.tsx:29-82 | the scan's counts fit the board: at most the empty cells, no white territory without white stones, 0/0 on an empty board, 80/0 with a lone black stone |
| GoLedger.EmptyGridFacts | app/igo/igo.tsx:16-27 | the initial state satisfies the session invariant |
| GoLedger.EmptyGridTerritories | app/igo/igo.tsx:29-82 | the empty board has territory 0/0 |
| GoLedger.EmptyGridCounts | app/igo/igo.tsx:84-86 | the recount of the empty board gives 0/0 and keeps the invariant |
| GoLedger.AcceptedKeepsInvariant | app/igo/igo.tsx:88-111 | an accepted move keeps the session invariant once the recounted territories fit the new board, with the capture added to the opponent's tally and the move appended |
| GoLedger.PlacedStones | app/igo/igo.tsx:94-95 | placing adds exactly the placed cell to the mover's stones and leaves the opponent's alone |
| GoLedger.CapturedStones | app/igo/igo.tsx:181-224 | the sweep keeps the mover's stones and removes exactly the captured set from the opponent's |
| GoLedger.MoveCounts | app/igo/igo.tsx:92-111 | over one move the mover gains one stone, and the opponent's stones plus the captured count are conserved |
| GoSession.NewBoard | app/igo/igo.tsx:23-27 | a fresh 9×9 board of empty cells |
| GoSession.PlaceAndCapture | app/igo/igo.tsx:94-102 | the new board is the old one with the stone placed at (row-1, col-1) and the opponent's dead groups removed; the count is the number removed |
| GoSession.Recount | app/igo/igo.tsx:84-86 | the recount's results are `Territories` of the board, and they fit it |
| GoSession.Igo.constructor | app/igo/igo.tsx:16-27 | empty board, no moves, Black to play, all counters 0, the invariant holds |
| GoSession.Igo.ClearBoard | app/igo/igo.tsx:275-285 | empty board, empty history, Black to move, both tallies 0, and territories 0/0, the recount of the empty board |
| GoSession.Igo.HandleClick | app/igo/igo.tsx:88-113 | an occupied cell changes nothing; a forbidden move only raises the notice; an accepted move places, captures, appends {player, [col,row]}, credits the capture to the right tally, flips the turn and recounts the territories of the new board, keeping the invariant |
| GoSession.Igo.TryPlay | app/igo/igo.tsx:94-111 | on an empty cell: a forbidden move only raises the notice, any other move is the accepted branch |
| GoSession.Igo.OpenSnackbar | app/igo/igo.tsx:97-99 | the notice is raised and nothing else changes |
| GoSession.Igo.Play | app/igo/igo.tsx:92-111 | the accepted branch: new board, history, tally, turn and territories as above |
| GoSession.Igo.Commit | app/igo/igo.tsx:104-111 | the setters write exactly the given values and keep the invariant |
| GoSession.Igo.MarkDeadStones | app/igo/igo.tsx:371 | on every board the session reaches, the render-time dead-stone marking is empty |
| OthelloRules.Other | hooks/othello-claude3/use-othello.ts:38 | the opponent differs from the player |
| OthelloRules.FlipUpTo | hooks/othello-claude3/use-othello.ts:83-105 | after the first j rays a square holds the mover's disc iff it is the placed square or lies in a bracketed run; every other square is unchanged |
| OthelloRules.FlipUpToZero | hooks/othello-claude3/use-othello.ts:83-85 | before any ray only the placed square differs |
| OthelloRules.OriginOffRays | hooks/othello-claude3/use-othello.ts:86-105 | no ray returns to the origin |
| OthelloRules.RaysDisjoint | hooks/othello-claude3/use-othello.ts:86-105 | two different rays from one origin share no square, so one ray's writes are never read by another |
| OthelloRules.RayVerdict | hooks/othello-claude3/use-othello.ts:50-66 | a walk that stops after t opponent discs brackets a run iff t ≥ 1 and the stopping square is the mover's |
| OthelloRules.RayStop | hooks/othello-claude3/use-othello.ts:56-62 | the walk stops at an off-board or non-opponent square and closes the run iff that square is the mover's |
| OthelloRules.RayExtend | hooks/othello-claude3/use-othello.ts:56-65 | an opponent disc extends the run by one and the walk moves one step on |
| OthelloRules.RayLeaves | hooks/othello-claude3/use-othello.ts:56 | a ray leaves the 4×4 board within 4 steps |
| OthelloRules.BracketUnique | hooks/othello-claude3/use-othello.ts:86-105 | a bracket along one ray has a single length |
| OthelloRules.RayAhead | hooks/othello-claude3/use-othello.ts:86-105 | before ray j is processed its squares read as on the original board |
| OthelloRules.RayDone | hooks/othello-claude3/use-othello.ts:86-105 | processing one ray flips its opponent run iff a mover's disc ends it; runs ending at an empty square or the edge stay put |
| OthelloRules.FlipsAreOpponents | hooks/othello-claude3/use-othello.ts:86-105 | turned squares were opponent discs and exclude the placed square |
| OthelloRules.ValidMoveFlips | hooks/othello-claude3/use-othello.ts:36-68 | a valid move turns at least one disc |
| OthelloRules.DiscsDisjoint | hooks/othello-claude3/use-othello.ts:22-32 | no square counts for both colours |
| OthelloRules.FlipMoverDiscs | hooks/othello-claude3/use-othello.ts:70-108 | the mover's discs afterwards are the old ones, the placed square and the turned ones |
| OthelloRules.FlipOpponentDiscs | hooks/othello-claude3/use-othello.ts:70-108 | the opponent's discs afterwards are the old ones minus the turned ones |
| OthelloRules.FlipCounts | hooks/othello-claude3/use-othello.ts:22-108 | after a valid move the mover gains 1+k discs and the opponent loses k, with k ≥ 1; the total grows by exactly one |
| OthelloRules.Judge | hooks/othello-claude3/use-othello.ts:156-162 | black wins iff it has more discs, white iff white has more, a draw iff equal |
| OthelloRules.AfterEnd | hooks/othello-claude3/use-othello.ts:153-163 | the game is over, the winner is the count verdict, and nothing else changes |
| OthelloRules.AfterPassCheck | hooks/othello-claude3/use-othello.ts:110-126 | returns true iff the player has no move. If they have one, nothing changes. If only the other colour can move, it shows the pass notice and hands over the turn. If neither can, the game ends. |
| OthelloRules.AfterPlace | hooks/othello-claude3/use-othello.ts:128-140 | accepted iff the game is on and the move is valid; a rejected placement changes nothing |
| OthelloRules.AcceptedPlacement | hooks/othello-claude3/use-othello.ts:128-140 | an accepted move flips the board. The turn then passes to the opponent if they can move. If only the mover can, it comes back with a "passes" notice. Otherwise the game ends with the count verdict. |
| OthelloRules.StartHasMoves | hooks/othello-claude3/use-othello.ts:9-14 | both colours can move on the starting board |
| OthelloRules.DownRun | hooks/othello-claude3/use-othello.ts:36-68 | an empty square above an opponent disc above a mover's disc is valid |
| OthelloRules.StartConsistent | hooks/othello-claude3/use-othello.ts:16-20 | the start state is consistent: not over, no winner |
| OthelloRules.PassCheckConsistent | hooks/othello-claude3/use-othello.ts:110-126 | the pass check keeps the consistency invariant (over only when neither side can move, then with the count verdict) |
| OthelloRules.PlaceConsistent | hooks/othello-claude3/use-othello.ts:128-140 | a placement keeps the consistency invariant |
| OthelloHook.Snapshot | hooks/othello-claude3/use-othello.ts:16 | the board value agrees with the array on every square |
| OthelloHook.DiscsBeforeStep | hooks/othello-claude3/use-othello.ts:25-29 | one more square adds one to a colour's count iff it holds that colour |
| OthelloHook.InRun | hooks/othello-claude3/use-othello.ts:89-97 | the collected run holds exactly the first squares of its ray |
| OthelloHook.RunFlipped | hooks/othello-claude3/use-othello.ts:100-104 | painting the run iff it is closed yields the next stage of `FlipUpTo` |
| OthelloHook.Othello.NewBoard | hooks/othello-claude3/use-othello.ts:9-14 | a fresh array holding the initial board |
| OthelloHook.Othello.constructor | hooks/othello-claude3/use-othello.ts:16-20 | the initial state: black to move, not over, no winner, empty message |
| OthelloHook.Othello.CountDiscs | hooks/othello-claude3/use-othello.ts:22-32 | the counts are the numbers of black and white discs |
| OthelloHook.Othello.CountRow | hooks/othello-claude3/use-othello.ts:24-30 | one row adds its discs to the running counts |
| OthelloHook.Othello.IsValidMove | hooks/othello-claude3/use-othello.ts:36-68 | true iff the square is empty and some ray has a run of opponent discs closed by a mover's disc inside the board |
| OthelloHook.Othello.RayHasRun | hooks/othello-claude3/use-othello.ts:50-66 | the while loop of one direction succeeds iff that ray brackets a run |
| OthelloHook.Othello.FlipDiscs | hooks/othello-claude3/use-othello.ts:70-108 | the board becomes `Flip` of the old board: placed square set, closed runs flipped, nothing else changed |
| OthelloHook.Othello.FlipRays | hooks/othello-claude3/use-othello.ts:86-105 | the eight rays take the board from the placed stage to the full flip |
| OthelloHook.Othello.FlipRay | hooks/othello-claude3/use-othello.ts:87-104 | one ray takes the board to the next stage of `FlipUpTo` |
| OthelloHook.Othello.WalkRay | hooks/othello-claude3/use-othello.ts:87-99 | the walk lists the consecutive opponent squares and reports whether a mover's disc ends them |
| OthelloHook.Othello.Paint | hooks/othello-claude3/use-othello.ts:100-103 | exactly the listed squares get the mover's disc |
| OthelloHook.Othello.HasValidMoves | hooks/othello-claude3/use-othello.ts:142-151 | true iff some square is a valid move |
| OthelloHook.Othello.EndGame | hooks/othello-claude3/use-othello.ts:153-163 | the state becomes `AfterEnd` of the old one |
| OthelloHook.Othello.CheckAndHandlePass | hooks/othello-claude3/use-othello.ts:110-126 | state and result are `AfterPassCheck` of the old state |
| OthelloHook.Othello.PlaceDisc | hooks/othello-claude3/use-othello.ts:128-140 | state and result are `AfterPlace` of the old state |
| OthelloHook.Othello.ResetGame | hooks/othello-claude3/use-othello.ts:165-171 | the state is the start state: initial board, black to move, not over, no winner, empty message |
| OthelloGame.IndexInjective | app/othello-claude3/OthelloGame.tsx:36-37 | different squares have different row-major positions |
| OthelloGame.IndexRowOrder | app/othello-claude3/OthelloGame.tsx:36-37 | a square of an earlier row comes earlier |
| OthelloGame.MovesStep | app/othello-claude3/OthelloGame.tsx:38-40 | testing one square extends the list by it iff it is valid |
| OthelloGame.MovesDone | app/othello-claude3/OthelloGame.tsx:34-44 | a complete list holds only valid squares and all of them, in strictly increasing row-major order, and is empty iff there is no move |
| OthelloGame.GetAvailableMoves | app/othello-claude3/OthelloGame.tsx:34-44 | the result is exactly the valid squares, in row-major order without duplicates, and is empty iff no valid move exists |
| OthelloGame.ScanRow | app/othello-claude3/OthelloGame.tsx:37-41 | one row appends its valid squares in order |
| OthelloGame.RejectedClick | app/othello-claude3/OthelloGame.tsx:71-78 | an invalid click never changes the board, and changes nothing while black has a move |
| OthelloGame.AcceptedClick | app/othello-claude3/OthelloGame.tsx:71-78 | a valid black click in a running game flips the board |
| OthelloGame.ClickConsistent | app/othello-claude3/OthelloGame.tsx:71-78 | a click keeps the consistency invariant |
| OthelloGame.CpuStepConsistent | app/othello-claude3/OthelloGame.tsx:20-32 | a CPU turn keeps the consistency invariant |
| OthelloGame.CpuMoveAddsOne | app/othello-claude3/OthelloGame.tsx:23-26 | a CPU move adds exactly one disc |
| OthelloGame.HandleCellClick | app/othello-claude3/OthelloGame.tsx:71-78 | ignored unless black is to move and the game is on; a rejected placement runs black's pass check |
| OthelloGame.CpuTurn | app/othello-claude3/OthelloGame.tsx:20-32 | on white's turn in a running game it plays some valid white move if there is one, else runs white's pass check; otherwise nothing happens |
| LangtonsAnt.Turn | app/langtons-ant/page.tsx:280-286 | left, (d+3)%4, on black and right, (d+1)%4, on white, staying in 0..3 |
| LangtonsAnt.AdvanceIsNeighbour | app/langtons-ant/page.tsx:280-305 | the ant turns, then lands on a 4-neighbour of its old cell |
| LangtonsAnt.StepReversible | app/langtons-ant/page.tsx:277-305 | the step (flip, turn, move) and its backward run undo each other |
| LangtonsAnt.WhiteGrid | app/langtons-ant/page.tsx:31-33 | a fresh gridSize×gridSize all-white grid |
| LangtonsAnt.CenterPattern | app/langtons-ant/page.tsx:26-39 | all white, ant at the centre facing up |
| LangtonsAnt.CornerPattern | app/langtons-ant/page.tsx:40-53 | all white, ant at (5, 5) facing right |
| LangtonsAnt.CrossPattern | app/langtons-ant/page.tsx:54-77 | black exactly on the centre row and column within ±10, ant at the centre facing up |
| LangtonsAnt.DiagonalPattern | app/langtons-ant/page.tsx:78-103 | black exactly on both diagonals within ±15, ant at (center-5, center-5) facing right |
| LangtonsAnt.SquarePattern | app/langtons-ant/page.tsx:104-136 | black exactly on the border of the 21×21 square around the centre, ant at the centre facing up |
| LangtonsAnt.RandomPattern | app/langtons-ant/page.tsx:137-161 | a cell is black iff one of the 100 draws lands on it |
| LangtonsAnt.CrossCount | app/langtons-ant/page.tsx:54-77 | the cross has 41 cells once the grid is at least 21 wide |
| LangtonsAnt.DiagonalCount | app/langtons-ant/page.tsx:78-103 | the diagonals have 61 cells once the grid is at least 31 wide |
| LangtonsAnt.SquareSegments | app/langtons-ant/page.tsx:116-129 | the square's border is its two full rows and the inner parts of its two columns |
| LangtonsAnt.SquareSidesCount | app/langtons-ant/page.tsx:116-129 | those four sides are disjoint and have 80 cells |
| LangtonsAnt.SquareCount | app/langtons-ant/page.tsx:104-136 | the square has 80 cells once the grid is at least 21 wide |
| LangtonsAnt.AntPage.constructor | app/langtons-ant/page.tsx:166-174 | empty grid, ant at (50, 50) facing up, count 0, not running, size 100, pattern "center" |
| LangtonsAnt.AntPage.Step | app/langtons-ant/page.tsx:255-308 | an empty grid changes nothing; an outside ant changes nothing but stops the run; otherwise exactly the ant's cell flips, the ant turns by the old colour and moves, and the count rises by one: the page's black cells and ant take one `StepWorld` step |
| LangtonsAnt.AntPage.InitializeGrid | app/langtons-ant/page.tsx:177-184 | builds the selected pattern on a fresh grid (unknown ids fall back to "center") and resets the count to 0 |
| TexActions.TrimStart | app/tex/actions.ts:49 | drops exactly the leading white space |
| TexActions.TrimEnd | app/tex/actions.ts:49 | drops exactly the trailing white space |
| TexActions.Trim | app/tex/actions.ts:49 | the result has no white space at either end |
| TexActions.TrimTrimmed | app/tex/actions.ts:49 | trimming a trimmed string changes nothing |
| TexActions.StripPrefix | app/tex/actions.ts:54-66 | removes the prefix once if present, else returns the input |
| TexActions.StripSuffix | app/tex/actions.ts:54-66 | removes the suffix once if present, else returns the input |
| TexActions.WordRun | app/tex/actions.ts:18 | the length of the leading run of `\w` characters |
| TexActions.StripDataUrl | app/tex/actions.ts:18 | removes a matching `data:image/\w+;base64,` prefix from the front, or returns the input when no prefix matches |
| TexActions.NoDataUrlPrefix | app/tex/actions.ts:18 | without a word run followed by `;base64,`, no prefix matches |
| TexActions.DataUrlPrefixUnique | app/tex/actions.ts:18 | at most one prefix matches, so the strip happens at most once |
| TexActions.StripFences | app/tex/actions.ts:54-61 | a "```latex" prefix goes with one trailing fence, else a "```" prefix does, then a trim; otherwise unchanged |
| TexActions.StripDelimiters | app/tex/actions.ts:64-66 | one delimiter step yields a trimmed string and leaves clean input alone |
| TexActions.StripMath | app/tex/actions.ts:64-66 | the three delimiter steps yield a trimmed string |
| TexActions.CleanTex | app/tex/actions.ts:49-66 | the cleaned text never has leading or trailing white space |
| TexActions.MathUnchanged | app/tex/actions.ts:64-66 | trimmed input without delimiters passes the three steps unchanged |
| TexActions.CleanInputUnchanged | app/tex/actions.ts:49-68 | a trimmed reply without fences or delimiters at its ends is returned unchanged |
| TexActions.FracUnchanged | app/tex/actions.ts:37-68 | `\frac{1}{2}` comes through untouched |
| TexActions.FencedReply | app/tex/actions.ts:49-66 | a latex-fenced reply, with the expression on its own line, comes out as the bare expression |
| TexActions.ErrorText | app/tex/actions.ts:71 | the message when non-empty, else "Failed to process image." |
| TexActions.GenerateTexFromImage | app/tex/actions.ts:9-73 | a missing key gives the key error. A text reply gives its cleaned text. A non-text block gives "Unexpected response format from Claude". A thrown error gives its message. There is an error iff tex is empty and no text reply was used, and tex is always trimmed. |
| Middleware.Split | middleware.ts:13-14 | the pieces contain no separator and join back to the input |
| Middleware.SplitJoin | middleware.ts:14 | splitting undoes joining separator-free pieces |
| Middleware.ValidUser | middleware.ts:16 | the configured user, or "admin" when unset or empty |
| Middleware.ValidPassword | middleware.ts:17 | the configured password, or "password" when unset or empty |
| Middleware.Token | middleware.ts:13 | the field handed to the decoder contains no space, or is "undefined" when the header has no second field |
| Middleware.AcceptsExactly | middleware.ts:14-19 | the check passes iff the decoded text is user, ':', password and any further colon-separated fields |
| Middleware.ColonPasswordRejected | middleware.ts:14-19 | a configured password containing ':' never matches |
| Middleware.AcceptsPair | middleware.ts:14-19 | "user:password" passes when neither contains a colon |
| Middleware.ExtraFieldsIgnored | middleware.ts:14-19 | fields after a second colon are ignored, so "admin:password:x" passes |
| Middleware.Decide | middleware.ts:3-27 | with the flag not exactly "true" the request passes. Otherwise it passes iff a non-empty header decodes to matching credentials. Every other outcome is a rewrite to /api/auth, or the decoder's exception. |
| Middleware.SchemeIgnored | middleware.ts:13 | the scheme word before the first space is never checked |
| Middleware.DefaultCredentials | middleware.ts:16-20 | with no credential variables set, admin/password passes |
| Middleware.NoSpaceHeader | middleware.ts:13 | a header without a space hands "undefined" to the decoder |
| Middleware.ExemptPrefixes | middleware.ts:39 | paths beginning with /api/auth, /_next/static, /_next/image or /favicon.ico skip the gate, including /api/authx |
| Middleware.GuardedPaths | middleware.ts:39 | every other path starting with '/' is guarded |
| Middleware.RootGuarded | middleware.ts:39 | the root path is guarded |
| Middleware.Route | app/api/auth/route.ts:3-9 | /api/auth answers 401 with `Basic realm="Secure Area"`; other paths serve their page |
| Middleware.AuthPathExempt | middleware.ts:24-39 | the rewrite target is itself exempt, so it is never checked again |
| Middleware.GateDisabled | middleware.ts:5-7 | with the gate off every path is served as if there were no middleware |
| Middleware.GateEnabled | middleware.ts:9-26 | with the gate on, a guarded request without a header, or with mismatching credentials, gets the 401 challenge; matching credentials reach the page |
| ImageActions.PluralWording | app/image-generator/actions.ts:36 | the prompt says "images" exactly when several images are sent |
| ImageActions.ReferenceIffSeveral | app/image-generator/actions.ts:38 | the prompt ends with the reference sentence iff more than one image is sent |
| ImageActions.ImageParts | app/image-generator/actions.ts:24-29 | one image/png inline part per image, in order |
| ImageActions.RequestParts | app/image-generator/actions.ts:35-40 | the prompt text first, then one image part per image, in order |
| ImageActions.LastIndex | app/image-generator/actions.ts:69-79 | the index of the last part whose field is non-empty, or -1 |
| ImageActions.LastFound | app/image-generator/actions.ts:69-79 | the last non-empty field, or "" iff every field is empty |
| ImageActions.ScanParts | app/image-generator/actions.ts:62-79 | the image data and the text are the last non-empty ones among the parts |
| ImageActions.Failure | app/image-generator/actions.ts:103-111 | failure with the message and no image |
| ImageActions.Choose | app/image-generator/actions.ts:82-101 | an image gives success with any text; else text gives success without image; else the failure "No valid content found in API response" |
| ImageActions.GenerateImage | app/image-generator/actions.ts:6-113 | a missing key, no candidates, missing parts and a throw each give the matching failure; otherwise the choice on the scan; a failure never carries an image and always has an error |
| ImageUploader.KeepValid | app/image-generator/components/ImageUploader.tsx:68-81 | keeps exactly the image/ files of at most 10 MB |
| ImageUploader.KeepValidAppend | app/image-generator/components/ImageUploader.tsx:68-81 | the filter works file by file, so input order is kept |
| ImageUploader.FilterValid | app/image-generator/components/ImageUploader.tsx:65-81 | the loop's result is the filter of the input |
| ImageUploader.Compress | app/image-generator/components/ImageUploader.tsx:42-53 | same name; a JPEG of the blob's size, or the original when there is no blob |
| ImageUploader.CompressAll | app/image-generator/components/ImageUploader.tsx:85-90 | the loop never finishes iff some valid file fails to decode (its image has no error handler); otherwise exactly one compressed file per valid file, in order |
| ImageUploader.ReadPreviews | app/image-generator/components/ImageUploader.tsx:93-112 | the count reaches the number of files iff every read succeeds; then, whatever order the reads end in, preview i is the data URL of file i |
| ImageUploader.Without | app/image-generator/components/ImageUploader.tsx:206-207 | drops element i and keeps the others in order (a multiset difference of one); an index out of range leaves the list unchanged |
| ImageUploader.Uploader.constructor | app/image-generator/components/ImageUploader.tsx:11-12 | both lists empty |
| ImageUploader.Uploader.HandleFiles | app/image-generator/components/ImageUploader.tsx:63-115 | with no valid file, a file that does not decode or a read that fails, nothing changes and there is no callback; otherwise the compressed files and their previews are appended, aligned, and reported together |
| ImageUploader.Uploader.Remove | app/image-generator/components/ImageUploader.tsx:204-211 | element i leaves both lists, they stay aligned, and the new lists are reported |
| ImageUploader.Uploader.ClearAll | app/image-generator/components/ImageUploader.tsx:249-253 | both lists become empty and ([], []) is reported |
| Storymaker.NextSpread | app/storymaker/page.tsx:16-20 | increments only while before the last spread, else a no-op, and stays in bounds |
| Storymaker.PreviousSpread | app/storymaker/page.tsx:22-26 | decrements only while above 0, else a no-op, and stays in bounds |
| Storymaker.DisabledMatchesGuards | app/storymaker/page.tsx:16-49 | each button is disabled exactly when its handler would do nothing |
| Storymaker.NextPressesReach | app/storymaker/page.tsx:16-20 | pressing next walks spread by spread to the last one and stays there |
| Storymaker.BookViewer.constructor | app/storymaker/page.tsx:14 | the spread starts at 0 |
| Storymaker.BookViewer.HandleNext | app/storymaker/page.tsx:16-20 | the spread becomes `NextSpread` of the old one, in bounds |
| Storymaker.BookViewer.HandlePrevious | app/storymaker/page.tsx:22-26 | the spread becomes `PreviousSpread` of the old one, in bounds |
| Storymaker.BookViewer.Spread | app/storymaker/page.tsx:35-42 | the pages shown are pages[2s] and pages[2s+1], both inside the list |

## Left out

**Rendering and services**
- Rendering is not modelled: the Go board's JSX, the Stone and Marker components, the Snackbar, the ant's canvas drawing and the Othello and upload views. They are presentation only.
- The Go page's captions (igo.tsx:395-396) name the two tallies the other way round. The tallies are modelled as the handler updates them (igo.tsx:106-110), and the labels are not modelled.
- GoSession.Igo.HandleClick: requires 1 ≤ row, col ≤ 9. The page calls the handler only from the touch areas of the 81 intersections.
- React mechanics are not modelled: `useState` batching, `useCallback`/`useEffect` dependencies and re-rendering. Every state write is applied at once, in program order. Territories are recounted after every board change, as the effect at igo.tsx:84-86 does.
- `console.log`, `console.error` and `alert` produce no state and are not modelled.
- The Anthropic and Google SDK calls are functions passed in. What they send apart from the modelled parts is not modelled: model name, token limits, generation settings.
- Date.now is not modelled: the latency field of generateImage and the `lastModified` stamp of a compressed file are absent.
- `process.env` values are string parameters; an unset variable is the empty string, as `||` and `!` treat it.
- `atob` is a function passed in. Base64 decoding (section 4 of RFC 4648) is not modelled. A decoder that throws gives the outcome `Thrown`.
- Next.js request objects are reduced to a path, an optional header and an outcome tag. The matcher is modelled as its regular expression, where the `.` of `favicon.ico` matches any character.
- Middleware.Accepts: the credential check departs from section 2 of RFC 7617. That section allows colons in the password; this code splits at every colon. The model states the code's behaviour (`ColonPasswordRejected`, `ExtraFieldsIgnored`).

**Timers and randomness**
- OthelloHook.Othello.CheckAndHandlePass: the two-second `setTimeout` is applied at once. It hands the turn over but keeps the pass notice, so the timer's clearing of the message (use-othello.ts:116) is not modelled.
- OthelloGame.CpuTurn: the CPU's one-second delay is not modelled. Its `Math.random` pick is an arbitrary member of the available moves, so the method promises only that some valid move is played.
- LangtonsAnt.RandomPattern: the 100 (x, y) draws of `Math.random` are a parameter, each coordinate in 0..49.
- The ant's animation loop, `setInterval` with `101 - speed`, is not modelled; each step is one call of `Step`. The speed, start/stop buttons and grid-size selector are plain fields.

**Approximations**
- LangtonsAnt.AntPage.Step: the grid is a rectangular `array2`. The source's row-length test `ant.x >= grid[ant.y].length` is the column bound.
- ImageUploader.Compress: the resize of `compressImage` (ImageUploader.tsx:24-35) is floating-point arithmetic and is not modelled. The blob's size is an input.
- ImageUploader.Uploader.HandleFiles: decoding, compressing and reading a file are input functions. The order in which the reads end is a parameter, each index exactly once. A handler that never finishes is modelled as one that changes nothing and makes no callback.
- The `disabled` gating of the uploader and the drag-and-drop and file-input plumbing only route files to `handleFiles`, and are not modelled.
- Storymaker.BeforeLast: `pages.length / 2 - 1` is a real division in the source. With four pages, `s < 4/2 - 1` is written as `2*s < 4 - 2`.
- The component's `isValidMove` (OthelloGame.tsx:46-69) has no member of its own. It is the hook's code with the board as a parameter, and the component passes the hook's board. Their agreement therefore holds by construction and is not stated as a lemma.
- The static 8×8 `othello/page.tsx`, the floating-point simulations (double pendulum, Lorenz, numerical comparison) and the static pages are not part of this model.
