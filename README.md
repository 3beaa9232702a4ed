# Network player, modelled in Dafny

This project models the automatic player for the board game Network (package
`player`). It covers the 8×8 board of spaces and its move rules, how pieces see
each other (connections), the depth-first search for a winning network, and the
machine player's minimax search with alpha-beta pruning.

The project has two layers.

- **The rules on values.** Modules `Pieces`, `PieceSets`, `Networks`, `Rules` and
  `Search` hold functions over a board value `Rules.State`. The state has the
  occupant code of each of the 64 cells, plus black's and white's piece lists.
- **Classes proved against those functions.** `Spaces.Space`,
  `PieceSets.PieceSet`, `Boards.Board` and `Players.MachinePlayer` follow the
  Java classes. Each method's `ensures` ties its result, or its new state, to
  the value-level definition.

Lemmas about the value-level definitions state what the source promises:

- victory holds exactly when a network exists;
- `isRule4Violation` flags exactly the clusters;
- every generated move is legal, and a legal move keeps the board invariant;
- minimax returns the last best child score among the children it examines, and
  stops at the first child after which alpha ≥ beta.

Modules follow the source's structure:

| file | module | models |
|---|---|---|
| common.dfy | Common | board constants, colours, positions, the `Move` kinds |
| space.dfy | Spaces | class `Space` of Board.java |
| piece.dfy | Pieces | Piece.java: `getXYShifts` and the ray casting of `getConnections` |
| pieceset.dfy | PieceSets | PieceSet.java: goal tests, counting, `hasNetwork`, `victory` |
| network.dfy | Networks | what `victory` decides: the network it finds |
| rules.dfy | Rules | the rules of Board.java on values |
| board.dfy | Boards | class `Board` of Board.java |
| stepgap.dfy | StepGap | a board on which `generateAllMoves` misses a legal STEP |
| search.dfy | Search | `minimax` of MachinePlayer.java on values |
| player.dfy | Players | class `MachinePlayer` |

Representation choices:

- A piece is its index in its colour's list of positions. Java compares pieces
  by reference in `seen.contains(curr)`; two pieces of one set are the same
  piece exactly when their indices are equal.
- `Space[][] board` is a sequence of 64 `Space` objects. The space at (x, y) is
  at index `x*8+y`. A ghost field `cells` mirrors their occupants.
- `Decision` (Decision.java) is a datatype. Its move part is a `Pick`:
  - `NoMove` for the `null` move at the depth limit;
  - `Blank` for the `new Move()` of a won position or of a node whose loop
    examined no move;
  - `Chosen(m)` for a generated move.
- A STEP move `Step(x1, y1, x2, y2)` goes from (x2, y2) to (x1, y1), as in the
  source.

## Model

| member | source | states |
|---|---|---|
| Common.IdxInjective | player/Board.java:15 | two cells share a flattened index of `board[x][y]` exactly when they are the same cell |
| Common.Other | player/MachinePlayer.java:111-115 | the opponent's colour is a colour other than the player's |
| Spaces.Space.constructor | player/Board.java:399-411 | a new space has the given coordinates and is empty |
| Spaces.Space.IsEmpty | player/Board.java:418-420 | definition: a space is empty exactly when its occupant code is -1 (`EMPTY`) |
| Spaces.Space.Equals | player/Board.java:487-492 | definition: false for `null`, otherwise true exactly when the coordinates agree |
| Spaces.Space.Place | player/Board.java:444-450 | `place(t)` succeeds exactly on an empty space and then holds t; otherwise nothing changes |
| Spaces.Space.Remove | player/Board.java:456-464 | `remove()` on an occupied space returns the occupant and empties the space; on an empty space it returns -1 and changes nothing |
| Pieces.Sign | player/Piece.java:45-50 | `d / abs(d)` (0 for 0) is -1, 0 or 1 with the sign of d |
| Pieces.XYShifts | player/Piece.java:38-53 | `getXYShifts(null)` is (0, 0); otherwise each component is the sign of the coordinate difference towards the other piece |
| Pieces.Ray | player/Piece.java:75-88 | a connection found along a direction is an in-bounds cell holding the piece's colour |
| Pieces.RayStep | player/Piece.java:85-87 | an empty in-bounds cell passes the walk on to the next cell, and the room left strictly decreases, so the while loop ends |
| Pieces.RaySound | player/Piece.java:75-88 | a connection lies t steps along the direction, with only empty cells before it |
| Pieces.RayStopsAtFirstPiece | player/Piece.java:78-84 | the first occupied cell ends the walk: it is the connection exactly when it holds the piece's colour, and an opponent's piece blocks the direction |
| Pieces.RayMissesOffBoard | player/Piece.java:75 | a walk over empty cells that leaves the board finds no connection |
| Pieces.PassOf | player/Piece.java:68-69 | pass 3(run+1)+(rise+1) of the two loops is direction (run, rise): run outer, rise inner |
| Pieces.HitOfPass | player/Piece.java:70-88 | a pass adds the ray's hit when its direction is scanned, and nothing otherwise |
| Pieces.PassStep | player/Piece.java:70-88 | a pass appends to the connections list the `getPiece` of its ray's hit, when its direction is scanned |
| Pieces.FirstAt | player/PieceSet.java:68-77 | `getPiece(s)` finds a piece exactly when some piece stands at s, and then the first such piece in list order |
| Pieces.LookUpAll | player/PieceSet.java:68-77 | element k of the looked-up list is `getPiece` of the k-th cell |
| Pieces.Connections | player/Piece.java:59-91 | one connection per sighting; when every own cell has its piece, each connection is the piece standing on that sighting |
| Pieces.SightingsAreOwnCells | player/Piece.java:80-82 | every cell where a connection is found is on the board and holds the colour |
| Pieces.SightingsPerDirection | player/Piece.java:66-90 | at most one connection per scanned direction |
| Pieces.SightingsBound | player/Piece.java:59-72 | at most 8 connections with `prev == null`, and at most 6 when prev lies in some direction (that direction and its opposite are skipped) |
| PieceSets.IsStartPiece | player/PieceSet.java:148-151 | definition: the piece is on the start goal, row y = 0 for black and column x = 0 for white |
| PieceSets.IsEndPiece | player/PieceSet.java:158-161 | definition: the piece is on the end goal, row y = 7 for black and column x = 7 for white |
| PieceSets.HasStart | player/PieceSet.java:184-193 | definition: 1 when some piece is on the start goal, else 0; `PieceSets.PieceSet.HasStartPiece` is proved equal to it |
| PieceSets.HasEnd | player/PieceSet.java:168-177 | definition: 1 when some piece is on the end goal, else 0; `PieceSets.PieceSet.HasEndPiece` is proved equal to it |
| PieceSets.StartPieces | player/PieceSet.java:200-210 | definition: the indices of the start-goal pieces in list order; characterised by `StartPiecesExactly` |
| PieceSets.TotalConnections | player/PieceSet.java:133-140 | definition: the sum over the pieces of their connections with `prev == null`; bounded by `TotalConnectionsBound` |
| PieceSets.NetworkFrom | player/PieceSet.java:221-253 | definition: `hasNetwork(curr, seen)` with its checks in the source's order (seen, repeated start, end goal with at least 6 pieces, ten pieces or no connections), then the loop `NetworkVia`; characterised by `Networks.SearchFindsNetwork` and `Networks.NetworkFromSearch` |
| PieceSets.NetworkVia | player/PieceSet.java:241-250 | definition: the loop over curr's connections, in order; characterised by `NetworkViaExists` |
| PieceSets.AnyStart | player/PieceSet.java:262-272 | definition: the loop of `victory()` over the start pieces, in order; characterised by `AnyStartExists` |
| PieceSets.Wins | player/PieceSet.java:262-272 | definition: `victory()` runs the search from each start-goal piece with nothing seen; characterised by `WinsFromSomeStart` and `Networks.VictoryIffNetwork` |
| PieceSets.StartPiecesExactly | player/PieceSet.java:148-151 | a piece is listed by `getStartPieces` exactly when it lies on the start goal (y = 0 for black, x = 0 for white), each once, in list order |
| PieceSets.ConnectionsUpToBound | player/PieceSet.java:133-140 | the connections of the first n pieces number between 0 and 8n |
| PieceSets.TotalConnectionsBound | player/PieceSet.java:133-140 | `countConnections` lies between 0 and 8 × the number of pieces |
| PieceSets.NetworkViaExists | player/PieceSet.java:241-250 | the loop over the connections succeeds exactly when the search from one of them succeeds, with curr put in front of seen |
| PieceSets.AnyStartExists | player/PieceSet.java:262-272 | the loop over the start pieces succeeds exactly when `hasNetwork(p, [])` holds for one of them |
| PieceSets.WinsFromSomeStart | player/PieceSet.java:200-272 | `victory()` holds exactly when some start-goal piece p has `hasNetwork(p, [])` |
| PieceSets.ListsUnique | player/PieceSet.java:87-113 | an array of rows lists exactly one sequence of positions, so `toList(toArray())` gives the pieces back in order |
| PieceSets.PieceSet.constructor | player/PieceSet.java:20-25 | a new set of the given colour has no pieces |
| PieceSets.PieceSet.FromArray | player/PieceSet.java:27-32 | the set's pieces are the array's rows, in order, and `numPieces` is their number |
| PieceSets.PieceSet.ToList | player/PieceSet.java:103-113 | one position per row of the array, in row order |
| PieceSets.PieceSet.ToArray | player/PieceSet.java:87-96 | a new array with one row [x, y] per piece, in list order |
| PieceSets.PieceSet.AddPiece | player/PieceSet.java:119-123 | the piece is appended at the end of the list and `numPieces` grows by one, keeping it equal to the list's length |
| PieceSets.PieceSet.MovePiece | player/Piece.java:114-116 | `move(s)`: piece i now stands at s and no other piece moves |
| PieceSets.PieceSet.GetPiece | player/PieceSet.java:68-77 | the result is the first piece standing at s, or null |
| PieceSets.PieceSet.GetConnections | player/Piece.java:59-91 | the loops' result is `Connections`: the pieces found by the scanned rays, in loop order |
| PieceSets.PieceSet.ScanDirection | player/Piece.java:70-88 | one pass finds the piece hit by the ray when the direction is scanned, and nothing otherwise |
| PieceSets.PieceSet.CountConnections | player/PieceSet.java:133-140 | the sum over the pieces of `getConnections(null).size()` |
| PieceSets.PieceSet.HasStartPiece | player/PieceSet.java:184-193 | 1 exactly when some piece lies on the start goal, else 0 |
| PieceSets.PieceSet.HasEndPiece | player/PieceSet.java:168-177 | 1 exactly when some piece lies on the end goal (y = 7 for black, x = 7 for white), else 0 |
| PieceSets.PieceSet.GetStartPieces | player/PieceSet.java:200-210 | the start-goal pieces in list order |
| PieceSets.PieceSet.HasNetwork | player/PieceSet.java:221-253 | the result is the search `NetworkFrom` on the set's pieces, which succeeds from a start piece with nothing seen exactly when a network exists (`Networks.VictoryIffNetwork`) |
| PieceSets.PieceSet.Victory | player/PieceSet.java:262-272 | the search from each start-goal piece in turn, with nothing seen |
| Networks.SearchStep | player/PieceSet.java:229-240 | a successful `hasNetwork(curr, seen)` has curr not in seen, curr not a start piece after the first, and at an end piece at least 6 pieces |
| Networks.SearchEnds | player/PieceSet.java:234-239 | at an unseen end piece the search succeeds once the chain has at least 6 pieces |
| Networks.SearchSucceeds | player/PieceSet.java:240-250 | the search at curr succeeds when the search from its k-th connection does |
| Networks.ExtendWalk | player/PieceSet.java:241-249 | a new non-start piece connected to the last piece of a walk extends the walk |
| Networks.SearchFindsNetwork | player/PieceSet.java:221-253 | completeness: every network is found by the search started from its piece at position \|seen\| |
| Networks.NetworkFromSearch | player/PieceSet.java:221-253 | soundness: a successful search yields a network that continues the walk so far |
| Networks.NetworkFromStart | player/PieceSet.java:262-272 | a search that succeeds from a start piece with nothing seen has found a network |
| Networks.WinsHasNetwork | player/PieceSet.java:262-272 | when `victory()` holds the colour has a network |
| Networks.NetworkWins | player/PieceSet.java:262-272 | a network makes `victory()` hold |
| Networks.VictoryIffNetwork | player/PieceSet.java:255-272 | `victory()` holds exactly when a network exists: 6 to 11 distinct pieces, the first on the start goal and only it, the last on the end goal and only it, each a connection of the one before with the one before that as prev |
| Rules.Rule4From | player/Board.java:163-177 | definition: the loop from neighbour d with the count so far; a crowded neighbour of the colour or a second one ends it with true; characterised by `Rule4FromClustered` |
| Rules.Rule4Violation | player/Board.java:160-178 | definition: the loop from the first neighbour with count 0; `Rule4Exactly` proves it is the cluster test |
| Rules.ValidLocation | player/Board.java:187-196 | definition: false on the colour's forbidden lines, else false on a taken cell, else no rule-4 violation; characterised by `EmptySpacesExactly` and `ValidAfterRemove` |
| Rules.LegalMove | player/Board.java:205-233 | definition: QUIT legal; ADD with fewer than ten pieces onto a valid location; STEP with ten pieces from a cell of the colour onto a location valid once that cell is emptied; `LegalMoveApplies` and `GeneratedMovesLegal` relate it to `makeMove` and `generateAllMoves` |
| Rules.ApplyMove | player/Board.java:62-82 | definition: `makeMove` as (result, new board); characterised by `AddApplies`, `StepApplies` and `LegalMoveApplies` |
| Rules.EmptySpaces | player/Board.java:245-255 | definition: the cells whose valid-location flag is set, x outer and y inner; characterised by `EmptySpacesExactly` and `EmptySpacesOrdered` |
| Rules.GenerateAllMoves | player/Board.java:262-293 | definition: STEPs of every piece to every empty space with ten pieces, else ADDs; characterised by `GeneratedMovesLegal`, `LegalAddsGenerated` and `StepGap.LegalStepNotGenerated` |
| Rules.Evaluate | player/Board.java:305-316 | definition: the sentinel scores for a network, else weighted connections and goal bonuses; characterised by `EvaluateRange` and `EvaluateNetworks` |
| Rules.NeighborsClipped | player/Board.java:95-150 | for a cell that is not a corner, entry d of `getNeighborSpaces` is the cell one step along compass direction d (N, NE, E, SE, S, SW, W, NW), and null exactly when that step leaves the board |
| Rules.Rule4Step | player/Board.java:163-176 | one turn of the loop: a crowded neighbour or a second neighbour of the colour ends it with true, otherwise it continues |
| Rules.Rule4FromClustered | player/Board.java:160-178 | the rest of the loop finds a violation exactly when the cell is clustered |
| Rules.Rule4Exactly | player/Board.java:160-178 | `isRule4Violation` holds exactly when at least two neighbours hold the colour, or one does and has another neighbour of the colour besides the target; straight or bent clusters alike |
| Rules.Initial | player/Board.java:31-40 | the empty board of a new game satisfies the board invariant |
| Rules.PlacedAfterAdd | player/Board.java:73-74 | adding a piece on an empty cell keeps the colour's list matching the grid |
| Rules.PlacedAfterStep | player/Board.java:76-78 | moving a piece from its cell to an empty cell keeps the colour's list matching the grid |
| Rules.AddApplies | player/Board.java:72-74 | a legal ADD succeeds, keeps the invariant, appends the piece and leaves the opponent alone |
| Rules.StepApplies | player/Board.java:75-79 | a legal STEP succeeds, keeps the invariant and the number of pieces, and leaves the source empty and the mover's colour on the destination |
| Rules.LegalMoveApplies | player/Board.java:62-82 | legal implies applied: `makeMove` of a legal move returns true and keeps the board invariant, and the opponent's pieces do not change |
| Rules.ValidAfterRemove | player/Board.java:216-218 | emptying a cell never makes a valid location invalid |
| Rules.ClusteredAfterRemove | player/Board.java:216-218 | emptying a cell cannot create a cluster |
| Rules.EmptySpacesExactly | player/Board.java:245-255 | `emptySpaces(color)` lists a cell exactly when it is a valid location for the colour |
| Rules.EmptySpacesOrdered | player/Board.java:247-249 | the listed cells are on the board, each once, in increasing index (x outer, y inner) |
| Rules.AddMoves | player/Board.java:285-290 | one ADD per target, in the targets' order |
| Rules.StepsFrom | player/Board.java:276-283 | one STEP per target from the given piece, in the targets' order |
| Rules.StepsFromExactly | player/Board.java:276-283 | a move is among a piece's steps exactly when it is a STEP from that piece to a target |
| Rules.StepMovesExactly | player/Board.java:273-284 | the STEP moves number pieces × targets, and a move is among them exactly when it steps one of the pieces to one of the targets |
| Rules.AddMovesLegal | player/Board.java:285-290 | an ADD to a listed target is legal while fewer than ten pieces are placed |
| Rules.StepMovesLegal | player/Board.java:273-284 | a STEP of a placed piece to a listed target is legal once ten pieces are placed |
| Rules.GeneratedMovesLegal | player/Board.java:257-293 | every move `generateAllMoves` returns is in bounds and satisfies `isLegalMove` |
| Rules.LegalAddsGenerated | player/Board.java:257-293 | before ten pieces are placed, every legal ADD is generated |
| Rules.EvaluateRange | player/Board.java:305-316 | `evaluate()` is `Integer.MAX_VALUE` exactly when white wins, `Integer.MIN_VALUE` exactly when black wins and white does not, and otherwise lies in -810..900 |
| Rules.EvaluateNetworks | player/Board.java:305-316 | the two sentinel scores mean networks: white has one, or black has one and white none |
| StepGap.StepGapValid | player/Board.java:31-82 | the witness board (ten black pieces, no white ones) satisfies the board invariant of legal play, so it can arise in a game |
| StepGap.LegalStepNotGenerated | player/Board.java:205-293 | on that board the STEP (4, 4) ← (3, 3) is legal, yet `generateAllMoves` does not return it, although its doc comment promises all legal moves |
| Boards.SelectCell | player/Board.java:247-252 | the scan's step at (x, y) collects the cell exactly when it is a valid location |
| Boards.StepsTo | player/Board.java:276-283 | the inner loop yields the STEP from the piece to each space, in order |
| Boards.StepsOf | player/Board.java:273-284 | the outer loop yields each piece's STEPs, pieces in list order |
| Boards.AddsTo | player/Board.java:285-290 | the ADD loop yields an ADD to each space, in order |
| Boards.InteriorNamed | player/Board.java:97-106 | the try block's table names the eight neighbours of an inner cell |
| Boards.WestNamed | player/Board.java:108-117 | the west wall's table names the neighbours, null to the south-west, west and north-west |
| Boards.NorthNamed | player/Board.java:118-127 | the north wall's table names the neighbours, null to the north, north-east and north-west |
| Boards.SouthNamed | player/Board.java:128-137 | the south wall's table names the neighbours, null to the south-east, south and south-west |
| Boards.EastNamed | player/Board.java:138-147 | the east wall's table names the neighbours, null to the north-east, east and south-east |
| Boards.Board.constructor | player/Board.java:31-40 | a board of 64 new empty spaces, each at its own coordinates, with the given piece sets |
| Boards.Board.GetNeighborSpaces | player/Board.java:95-150 | for a non-corner cell, entry d is the grid's space one step along direction d, and null exactly off the board |
| Boards.Board.IsRule4Violation | player/Board.java:160-178 | the loop's result is the rule-4 test on the board's cells |
| Boards.Board.NeighborTurn | player/Board.java:163-176 | one neighbour: the count grows when it holds the colour, and it is a violation when it is crowded or is the second such neighbour |
| Boards.Board.HasOtherNeighbor | player/Board.java:166-171 | the inner loop finds a neighbour of the colour other than the target exactly when there is one |
| Boards.Board.MakeMove | player/Board.java:62-82 | the result and new board are `ApplyMove`: QUIT changes nothing; ADD appends the piece (even onto a taken cell) and places it; STEP from a cell of the mover's colour moves that piece, empties the source and then places on the destination; any other STEP returns false |
| Boards.Board.IsValidLocation | player/Board.java:187-196 | false on the other colour's goal lines whatever the contents, else false on a taken cell, else no rule-4 violation |
| Boards.Board.IsLegalMove | player/Board.java:205-233 | QUIT is legal; ADD iff fewer than ten pieces and a valid target; STEP iff ten pieces, the source holds the mover's colour, and the target is valid once the source is emptied; the board itself is unchanged (a STEP is checked on a duplicate) |
| Boards.Board.RemoveAt | player/Board.java:456-464 | `board[x][y].remove()` empties an occupied cell and returns its occupant; no other cell changes |
| Boards.Board.PlaceAt | player/Board.java:444-450 | `board[x][y].place(t)` fills an empty cell and reports whether it did; no other cell changes |
| Boards.Board.EmptySpaces | player/Board.java:245-255 | the spaces collected are the grid's own spaces at the valid locations, x outer and y inner |
| Boards.Board.CollectCell | player/Board.java:249-251 | one turn of the nested loops appends the space exactly when it is a valid location |
| Boards.Board.GenerateAllMoves | player/Board.java:262-293 | with ten pieces a STEP per (piece, valid target) in list order, otherwise an ADD per valid target |
| Boards.Board.Evaluate | player/Board.java:305-316 | `Integer.MAX_VALUE` when white wins, else `Integer.MIN_VALUE` when black wins, else `10*(wc-bc) + 100*wS*wE - 10*bS*bE` |
| Boards.Board.Duplicate | player/Board.java:359-369 | a new board, new spaces and new piece sets, with the same occupant in every cell and the same pieces in the same order |
| Boards.Board.CopyPieceSet | player/Board.java:361-362 | `new PieceSet(color, ps.toArray(), out)` is a new set of the same colour with the same pieces in the same order |
| Boards.Board.GetPiece | player/Board.java:329-331 | the occupant at (x mod 8, y mod 8), which is the occupant at (x, y) on the board |
| Search.Won | player/MachinePlayer.java:63 | definition: black or white has a network (`victory()`); `NodeLeaf` shows minimax stops there |
| Search.Child | player/MachinePlayer.java:79-80 | the board after a legal move satisfies the invariant and the opponent's pieces are unchanged |
| Search.Update | player/MachinePlayer.java:82-90 | a maximising node keeps a reply ≥ the best so far as the new best and sets alpha to it, lowering alpha when the reply lies inside the window; a minimising node does the same with ≤ and sets beta to it, raising beta when the reply lies inside the window; beta (alpha) never changes; otherwise nothing changes |
| Search.Minimax | player/MachinePlayer.java:59-96 | the score fits in an `int`; the move is `null` exactly at the depth limit of an undecided game; a won position gives `new Move()` with a sentinel score |
| Search.Reply | player/MachinePlayer.java:79-81 | the reply score fits in an `int` |
| Search.ReplyOf | player/MachinePlayer.java:79-81 | the reply is the decision of the board after the move, searched with the other colour `(color+1)%2` one ply deeper |
| Search.Scan | player/MachinePlayer.java:76-95 | the loop's decision is `new Move()` or one of the generated moves, with a score in `int` range |
| Search.Trail | player/MachinePlayer.java:76-95 | the turns the loop takes: each examines the next move in order and updates the locals; all but the last leave alpha < beta, and the loop's result is the last frame's best |
| Search.LastAt | player/MachinePlayer.java:82-89 | the position of the last occurrence of a score, or -1 when it does not occur |
| Search.ChainBound | player/MachinePlayer.java:82-89 | after the turns, a maximising best is at least the start and every reply; a minimising one is at most them |
| Search.ChainLast | player/MachinePlayer.java:82-89 | the best move is that of the last reply equal to the best score (ties go to the later move), or the start when no reply equals it |
| Search.ChainMoves | player/MachinePlayer.java:76-78 | the turns examine the moves in the generated order, starting at the loop's index |
| Search.NodeLoop | player/MachinePlayer.java:70-76 | below the depth limit of an undecided game, minimax is its loop over the generated moves from MIN (maximising) or MAX (minimising) |
| Search.NodeLeaf | player/MachinePlayer.java:63-69 | a won position gives `new Move()` and `evaluate()` whatever the depth; otherwise at the depth limit `null` and `evaluate()` |
| Search.ScanStep | player/MachinePlayer.java:77-93 | one turn: the reply to the move updates the locals, and the loop returns at once when alpha ≥ beta |
| Search.MinimaxPicksLegal | player/MachinePlayer.java:76-80 | a chosen move is one of the generated moves, hence in bounds and legal |
| Search.FoldExtremum | player/MachinePlayer.java:70-90 | the loop's best from MIN or MAX is the extreme of the replies examined, with the last such move |
| Search.ChainExamines | player/MachinePlayer.java:76-94 | the turns are a prefix of the moves in order, empty only when there are no moves, stopping only at alpha ≥ beta |
| Search.SearchExtremum | player/MachinePlayer.java:70-90 | at a maximising node the score is the maximum of the child scores examined, at a minimising node the minimum; with no moves it is MIN or MAX with `new Move()`; ties go to the later move |
| Search.TrailReplies | player/MachinePlayer.java:76-93 | each turn of the loop examines the next move, and its reply is `Reply` of that move (the recursive search of the child) in the window alpha, beta the loop holds before that turn |
| Search.SearchReplies | player/MachinePlayer.java:70-93 | at a node below the depth limit of an undecided game, the k-th examined child is the k-th generated move, scored by the recursive search in the window held before it |
| Search.SearchPrunes | player/MachinePlayer.java:76-94 | the children examined are the generated moves in order up to the first after which alpha ≥ beta, or all of them |
| Players.MachinePlayer.constructor | player/MachinePlayer.java:21-25 | a player of the given colour on the empty board, search depth 3 |
| Players.MachinePlayer.WithDepth | player/MachinePlayer.java:33-36 | a player of the given colour on the empty board, with the given search depth |
| Players.MachinePlayer.ChooseMove | player/MachinePlayer.java:42-46 | the move returned is minimax's from the player's board at depth 0 with the full `int` window; a chosen move is legal and is recorded on the board as the player's own |
| Players.MachinePlayer.RecordPick | player/MachinePlayer.java:44 | a chosen move is made on the board; `null` or `new Move()` leaves it unchanged |
| Players.MachinePlayer.OpponentMove | player/MachinePlayer.java:109-121 | true exactly when the move is legal for the opponent's colour, and then it is applied; an illegal move leaves the board unchanged |
| Players.MachinePlayer.ForceMove | player/MachinePlayer.java:133-138 | true exactly when the move is legal for the player's colour, and then it is applied; an illegal move leaves the board unchanged |
| Players.MachinePlayer.Record | player/MachinePlayer.java:117-120 | `if (board.isLegalMove(m, c)) return board.makeMove(m, c); return false;` for a colour c |
| Players.MachinePlayer.Minimax | player/MachinePlayer.java:59-96 | the method's decision is `Search.Minimax`'s; the board passed in is left unchanged |
| Players.MachinePlayer.ExamineMoves | player/MachinePlayer.java:76-95 | the loop's decision is `Search.Scan`'s, from the given best and window |
| Players.MachinePlayer.TryMove | player/MachinePlayer.java:78-90 | one turn of the loop: the new locals are `Update` of the reply searched one ply deeper with the other colour |
| Players.MachinePlayer.SearchReply | player/MachinePlayer.java:78-81 | the reply to a legal move is `Search.Reply`: minimax of a copy of the board with the move made, for the other colour one ply deeper; the board passed in is left unchanged |
| Players.MachinePlayer.ChildBoard | player/MachinePlayer.java:78-79 | `b.duplicate()` then `test.makeMove(m, color)`: a fresh board holding `ApplyMove` of b's state |

## Left out

- `toString` of every class and `PieceSet.printConnections`: string building and console output.
- `Board()` and `Board.addPieceSet`: `duplicate` uses them to attach copies of the piece sets. `Boards.Board.Duplicate` creates the copies and passes them to the board's constructor.
- `Space.visible`, `Space.position` and `Space.type`: `visible` is unused by the core; the model reads the constant coordinates and the `kind` field directly. `Space.getBoard` is used: `getConnections` reads each scanned cell through it (Piece.java:77); the model reads that occupant from the grid passed in (next line).
- The back-references of `Space` to its `Board` and of `Piece`/`PieceSet` to their set and board (`getBoard`, `getSet`, `setSet`): a piece belongs to a set by being in its list, and the methods that read the board take the grid as a parameter.
- `PieceSet.getColor`, `getSize`, `getPieces` and `Piece.getSpace`: the fields are read directly.
- The `Piece` constructor: a piece is its position in its set's list, so creating one is appending that position (`AddPiece`, `ToList`).
- `Boards.Board.GetPiece`: requires non-negative coordinates. For a negative coordinate that is not a multiple of 8, Java's `%` gives a negative index, and the array access throws.
- The `null` board passed to the piece sets in the `MachinePlayer` constructor: construction plumbing with no effect on the model.
- The static `Board.isValidLocation(x, y)` is the predicate `Common.InBounds`.
- The `list` package is not part of this model. Lists are sequences, iteration is in list order, and `seen.contains` compares piece indices.
- `Move` and `Player` are not part of this model. `Move` is a datatype with `Quit`, `Add` and `Step`. The source's branches for an unknown move kind (`isLegalMove` and `makeMove` return false) cannot be reached with it.
- `Boards.Board.GetNeighborSpaces`: the precondition "not a corner" replaces the exception the catch block raises at a corner. Corners are never valid locations, and `Rules.Inv` keeps them empty.
- The exception-driven control flow of `getNeighborSpaces`: the model computes the clipped table it returns.
- `Boards.Board.IsLegalMove`, `IsValidLocation`: the in-bounds precondition replaces the source's unchecked array indexing. A colour code (0 or 1) is required because every caller passes one.
- `Boards.Board.MakeMove`: the in-bounds precondition replaces the source's unchecked array indexing. A colour code is required, where the source's `switch` would leave the piece set `null`. For a STEP from a cell of the mover's colour, the piece standing there must be in the colour's list (the same precondition is on `Rules.ApplyMove`). Otherwise the source's `getPiece` returns `null` (PieceSet.java:68-77) and `.move(...)` throws a NullPointerException (Board.java:76). `Rules.Inv` guarantees the piece is listed at every caller: `Rules.LegalMoveApplies` derives the precondition from it.
- `PieceSets.PieceSet.HasNetwork`, `Victory`: they require that every cell of the colour has its piece in the list (`Pieces.Covered`). The source's `getPiece` returns `null` otherwise, and the caller would fail on it. The board invariant guarantees this cover.
- `Players.MachinePlayer.ChooseMove`: the source calls `makeMove` on whatever move minimax returns. The model records only a chosen move (`RecordPick`). With search depth 0 or less on an undecided board, the source passes `null` and fails. For a won position, or a node with no moves, it passes `new Move()`, whose contents are not part of this model.
- `Boards.Board.GenerateAllMoves`: STEP targets are the valid locations computed with the moving piece still on its cell. So a legal STEP is left out whenever the source piece, still on its cell, counts against the target. That happens when the source is next to the target and the source or the target has another neighbour of its colour. It also happens when the source is next to a neighbour of the target that holds its colour, so that this neighbour counts as crowded; the target can then be two cells from the source. `StepGap.LegalStepNotGenerated` exhibits a legal STEP to a target next to its source that is not generated. The model follows the code. It proves every generated move legal (`Rules.GeneratedMovesLegal`), and every legal ADD generated (`Rules.LegalAddsGenerated`), but not every legal STEP.
- Integer width: scores and counts are unbounded integers. `Rules.EvaluateRange` and `Search.Minimax` prove that every score fits in a Java `int`, so no overflow can occur.
- Helper methods that are not in the source (`TryMove`, `SearchReply`, `ChildBoard`, `ExamineMoves`, `RecordPick`, `Record`, `CollectCell`, `StepsTo`/`StepsOf`/`AddsTo`, `NeighborTurn`, `HasOtherNeighbor`, `ScanDirection`, `CopyPieceSet`, `PlaceAt`/`RemoveAt`) are one loop body or one statement of the method that calls them, split off as their own method.
