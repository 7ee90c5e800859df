# Battleship core in Dafny

A functional model of the core of a two-player Battleship program (a
course project in C++). It has three parts.

- **The board** (`Board.cpp`). The board is a grid of characters: `'.'` is
  open water, `'o'` is a miss, `'X'` is a hit (or a temporary block), and
  each ship's own symbol marks the cells it occupies. The board also keeps
  a list of placed ship instances. The model covers ship placement and
  removal, attacks, and the two "destroyed" queries. It also covers
  `unblock` and `clear`.
- **The ship catalog** (`Game.cpp`, `Competition/CompeteGame.cpp`). This is
  the game's board size and its list of ship types, and the checks that
  `addShip` applies before it accepts a ship.
- **The targeting engine** of the GoodPlayer strategy (`Player.cpp`). It
  keeps missed cells, pending hits, the ship types it believes are still
  afloat, and a HUNT/TARGET mode. From these it builds a heat map and
  fires at the first cell with the largest weight. The competition build
  (`Competition/CompetePlayer.cpp`) has two copies of this engine,
  `Player1::GoodPlayer` and `Player2::GoodPlayer`, whose code is the same.
  They are modelled once, in `CompetePlayer`. The model also covers the two
  deterministic parts of the simple strategies: AwfulPlayer's backward sweep
  and MediocrePlayer's two-state machine. Finally, it covers both builds'
  `createPlayer` name dispatch.

Everything is a pure function over immutable values. A board is
`Board(grid, instances)`, and an operation returns the new board together
with the outcome. The C++ out-parameters of `attack` become fields of an
`AttackResult`. The engine is `Engine(missed, destroyed, alive, mode)`, and
recording a result returns the next engine. Heat maps are `seq<seq<int>>`
values. The argmax loop of `recommendAttack` is a method with loop
invariants.

Files, one module each:

| file | module | models |
|---|---|---|
| geometry.dfy | `Geometry`, `Results` | points, directions, spans; `Option`/`Result` |
| catalog.dfy | `Catalog` | `Game.cpp` validation and accessors |
| compete_catalog.dfy | `CompeteCatalog` | the competition build's `addShip` |
| boards.dfy | `Boards` | `BoardImpl` operations |
| board_proofs.dfy | `BoardProofs` | the board invariant, the place/unplace round trip, repeat attacks |
| targeting.dfy | `Targeting` | what both GoodPlayer builds share |
| good_player.dfy | `GoodPlayer` | `Player.cpp`'s GoodPlayer |
| compete_player.dfy | `CompetePlayer` | `Player1`/`Player2::GoodPlayer` and the competition `createPlayer` |
| simple_players.dfy | `SimplePlayers` | AwfulPlayer, MediocrePlayer, the main `createPlayer` |
| dispatch.dfy | `Dispatch` | the name-table search both `createPlayer`s use |

Assumptions about code outside these files:
- `MAXROWS` and `MAXCOLS` are 10. `globals.h` is not part of this model.
- A default-constructed `Point` is (0, 0) (`Geometry.Origin`).
- The turn loop (`GameImpl::playerAttack`) passes a sink to
  `recordAttackResult` only together with a hit and the id of a catalog
  ship. Both engine models take this as a precondition.

Points where the code does less, or other, than its own comments say:
- The comment at `Player.cpp:770` says a sink removes "the" ship from the
  roster. The loop at `Player.cpp:777-784` erases every entry with the sunk
  ship's symbol. Symbols are distinct in any catalog `addShip` accepts, so
  this is one entry in practice (`GoodPlayer.SinkRemovesOneEntry`).
- The competition build (`Competition/CompetePlayer.cpp:274-357`) never
  removes entries from the roster.
- `recommendAttack` picks the first cell with the largest strictly positive
  weight and otherwise returns the default point (0, 0), which need not be a
  legal shot. In HUNT mode a positive weight exists whenever some alive ship
  still has a legal placement: the cell of that placement on the shortest
  ship's parity class counts it (`Targeting.HuntHasTarget`). So in HUNT mode
  the recommendation is a valid point whenever any alive ship still fits.

## Model

| member | source | states |
|---|---|---|
| Catalog.NewGame | Game.cpp:217-230 | A game exists exactly when 1 <= rows <= MAXROWS and 1 <= cols <= MAXCOLS; it starts with no ships |
| Catalog.SymbolTaken | Game.cpp:283-292 | The duplicate-symbol scan answers true exactly when an earlier ship has the symbol |
| Catalog.ShipChecks | Game.cpp:257-297 | The checks `Game::addShip` makes, in order: length < 1, length greater than both dimensions, unprintable or reserved symbol, duplicate symbol, total length above rows*cols; no error exactly when all of them pass |
| Catalog.ImplAddShip | Game.cpp:75-86 | Refuses exactly a duplicate name; otherwise appends the ship and keeps the earlier ones |
| Catalog.AddShip | Game.cpp:257-299 | Every refusal leaves the catalog unchanged; success exactly when every check passes and the name is new, and then the catalog is the old one plus the new ship |
| Catalog.TotalLengthAppend | Game.cpp:282-297 | Adding a ship adds its length to the total ship length |
| Catalog.NewGameWellFormed | Game.cpp:217-230 | A new game has distinct symbols and names, positive lengths, and total length within rows*cols |
| Catalog.AddShipPreservesWellFormed | Game.cpp:257-299 | An accepted ship keeps symbols and names distinct, lengths positive and the total within rows*cols |
| Catalog.AddShipAccessors | Game.cpp:88-101 | After an accepted add, nShips grows by one and id nShips-1 reports the given length and symbol |
| CompeteCatalog.ImplAddShip | Competition/CompeteGame.cpp:69-91 | Refuses a length below 1 or above MAXROWS or MAXCOLS, then a duplicate name; otherwise appends |
| CompeteCatalog.AddShip | Competition/CompeteGame.cpp:196-238 | A failed main-build check is returned first; once they pass, a length above MAXROWS or MAXCOLS is refused, then a duplicate name, and otherwise the catalog is the old one plus the new ship |
| CompeteCatalog.SameAsMainBuild | Competition/CompeteGame.cpp:69-91 | On a board within MAXROWS x MAXCOLS the extra length check never fires, so both builds accept and refuse the same ships |
| Boards.NewBoard | Board.cpp:43-47 | A new board is all open water with no instances |
| Boards.Clear | Board.cpp:53-59 | Every cell becomes open water; the instance list is untouched |
| Boards.Unblock | Board.cpp:92-100 | Every 'X' becomes '.', every other cell is unchanged |
| Boards.SpanFree | Board.cpp:124-142 | True exactly when each of the ship's cells is on the board and open water |
| Boards.HasShip | Board.cpp:113-117 | True exactly when some recorded instance has the ship id |
| Boards.FindInstance | Board.cpp:172-185 | The index of the first instance matching (point, id, direction), or the list size when none does |
| Boards.PlaceShip | Board.cpp:106-162 | An invalid id, an id already placed, or a blocked or off-board span returns false with nothing changed; on success exactly the span gets the symbol, one instance is appended, and no other cell changes |
| Boards.UnplaceShip | Board.cpp:168-208 | Succeeds exactly when an instance matches (point, id, direction); then only that instance is erased and only its span becomes open water |
| Boards.ShipInstanceDestroyed | Board.cpp:251-275 | True exactly when no cell of the instance's span still holds its symbol |
| Boards.AllShipsDestroyed | Board.cpp:327-339 | True exactly when every recorded instance is destroyed; true with no instances |
| Boards.FindBySymbol | Board.cpp:307-312 | The first instance whose ship symbol matches |
| Boards.MatchedInstanceOwnsCell | Board.cpp:305-321 | On a board that keeps the invariant, the symbol search finds the instance whose span covers the attacked cell |
| Boards.Attack | Board.cpp:283-322 | Off-board or already-attacked cells are refused with (false, false, -1) and no change; open water becomes 'o'; a ship cell becomes 'X', reports the owning instance's id, and reports a sink exactly when that instance is then destroyed; no other cell changes |
| BoardProofs.WellFormedSymbolsOk | Game.cpp:257-299 | Any catalog the add checks accept has positive lengths and unreserved, distinct symbols, which is all the board invariant assumes of it |
| BoardProofs.NewBoardInv | Board.cpp:43-47 | A fresh board satisfies the invariant: every ship symbol on the grid is owned by exactly one recorded instance covering it |
| BoardProofs.OwnerUnique | Board.cpp:307-312 | Under the invariant, each ship symbol on the grid has exactly one owning instance |
| BoardProofs.PlacePreservesInv | Board.cpp:106-162 | Placement keeps the invariant |
| BoardProofs.UnplacePreservesInv | Board.cpp:168-208 | Removal keeps the invariant |
| BoardProofs.AttackPreservesInv | Board.cpp:283-322 | An attack keeps the invariant |
| BoardProofs.UnblockAndClearPreserveInv | Board.cpp:53-100 | `unblock` and `clear` keep the invariant |
| BoardProofs.PlaceUnplaceRoundTrip | Board.cpp:106-208 | Removing a ship right after placing it with the same arguments succeeds and restores the grid and the instance list exactly |
| BoardProofs.RoundTripInstances | Board.cpp:168-208 | After a placement, removal with the same arguments succeeds and leaves exactly the old instance list |
| BoardProofs.RoundTripGrid | Board.cpp:168-208 | After a placement, removal with the same arguments restores every grid cell |
| BoardProofs.RepeatAttackInvalid | Board.cpp:283-303 | After an accepted attack, attacking the same cell again is refused and changes nothing |
| Targeting.NewEngine | Player.cpp:441-449 | A new engine has no history, the whole catalog alive, and HUNT mode |
| Targeting.ValidPlace | Player.cpp:525-555 | True exactly when the start and every one of the `len` cells along the direction are in bounds and not in `missed` |
| Targeting.RunValid | Player.cpp:531-553 | The loop over the ship's cells succeeds exactly when every cell is a valid point |
| Catalog.IsValid | Game.cpp:57-62 | True exactly when the point lies within the game's rows and columns |
| Catalog.NShips | Game.cpp:88-91 | The number of catalog ships; for a well-formed catalog it never exceeds rows*cols |
| Catalog.ShipLength | Game.cpp:93-96 | The length of ship `shipId`; for a well-formed catalog it is at least 1 and fits in one of the dimensions |
| Catalog.ShipSymbol | Game.cpp:98-101 | The symbol of ship `shipId`; for a well-formed catalog it is printable, not reserved, and no other ship has it |
| Targeting.Covering | Player.cpp:586-598 | The number of legal placements through the anchor covering the cell, among the first `k` start offsets, is at most `k` |
| Targeting.CoverSum | Player.cpp:582-600 | The placement weight is 0 with no ship alive and at least each alive ship's vertical plus horizontal count |
| Targeting.CoveringCounts | Player.cpp:586-598 | The placement count equals the number of start offsets below `k` whose placement is legal and covers the cell |
| Targeting.CoveringPositive | Player.cpp:586-598 | One legal placement among the start offsets that covers the cell makes the count positive |
| Targeting.CoverSumSupport | Player.cpp:582-600 | A cell that gets placement weight is a valid point on the crosshair of the anchor |
| Targeting.HuntCountsStarts | Player.cpp:582-600 | Around its own cell, each start offset below the ship length covers the cell, so the count is the number of legal starts |
| Targeting.MinLength | Player.cpp:606-611 | The parity length is an alive length and no alive length is shorter |
| Targeting.HuntProb | Player.cpp:577-622 | The hunt map spans exactly the game's rows and columns, and each cell carries that cell's hunt weight |
| Targeting.HuntCellMeaning | Player.cpp:577-622 | One hunt cell is 0 off the parity class of the shortest alive length and the placement count on it; it is never negative and positive only on a valid point |
| Targeting.HuntHeatMeaning | Player.cpp:577-622 | Off the parity class the hunt weight is 0, on it the weight is the placement count; weights are never negative and positive only on valid points |
| Targeting.ParityOffset | Player.cpp:617-621 | Among the first m cells from any start along either direction there is one on the parity class (row and column equal modulo m) |
| Targeting.PlacementWeighsItsCells | Player.cpp:582-600 | A legal placement of an alive ship gives each of its own cells positive hunt weight |
| Targeting.HuntHasTarget | Player.cpp:577-622 | If some alive ship has a legal placement, the hunt map has a positive cell |
| Targeting.ArgMax | Player.cpp:731-746 | Returns the first row-major cell with the largest positive weight, or the default point when no weight is positive |
| Targeting.SunkSpanAsWritten | Player.cpp:786-815 | The reconstructed cells always lie on the sinking shot's row or column |
| Targeting.SunkSpan | Player.cpp:786-846 | Agrees with the source's reconstruction whenever the sinking shot is not the first pending hit |
| Targeting.SunkSpanCoversShip | Player.cpp:786-846 | For any shot collinear with the first pending hit, the span is exactly `len` consecutive cells containing the shot, starts at the shot when it precedes the first hit and ends at it when it follows; when the two are closer than the ship length it contains the first hit too |
| Targeting.FirstHitSinkMovesNothing | Player.cpp:786-815 | As written, a ship of any length sunk by the hit that started its pursuit produces no cells; the corrected span has `len` cells starting at that hit |
| Targeting.RemoveCells | Player.cpp:838-846 | Erases exactly the span's cells from the pending hits; the first survivor is the first pending hit outside the span |
| Targeting.RemoveCellsAppend | Player.cpp:838-845 | Erasing distributes over concatenation, so the surviving hits keep their relative order |
| Targeting.RemoveCellsDisjoint | Player.cpp:838-845 | A pending list with no cell in the span is left exactly as it was |
| Targeting.RemoveShip | Player.cpp:777-785 | Removes exactly the entries with the sunk ship's symbol from the roster |
| Targeting.RemoveShipAppend | Player.cpp:777-784 | Removal distributes over concatenation, so the remaining roster entries keep their order and multiplicity |
| Targeting.RemoveShipDistinct | Player.cpp:777-785 | In a roster with distinct symbols, removing a present symbol drops exactly one entry |
| Targeting.RemoveShipAbsent | Player.cpp:777-785 | Removing an absent symbol leaves the roster unchanged |
| Targeting.NoteShot | Player.cpp:759-766 | A hit becomes pending and sets TARGET; a non-hit becomes missed and keeps the mode |
| Targeting.Reconstruct | Player.cpp:786-850 | The span is appended to `missed`, its cells leave the pending hits with the rest in their order, and the mode is HUNT exactly when nothing stays pending |
| Targeting.ReconstructAsWritten | Player.cpp:786-850 | The sink step with the as-written span: that span is appended to `missed`, its cells leave the pending hits with the rest in their order, HUNT exactly when nothing stays pending |
| Targeting.FirstHitSinkStaysTarget | Player.cpp:753-850 | From HUNT mode, a hit that sinks a ship at once leaves the as-written engine in TARGET with that hit pending and nothing added to `missed`; the corrected engine is back in HUNT with nothing pending |
| GoodPlayer.LineScaleSign | Player.cpp:675-705 | Line amplification only scales existing weight: 0 stays 0 and nothing becomes negative |
| GoodPlayer.TargetProb | Player.cpp:636-710 | The target map spans exactly the game's rows and columns, and each cell carries that cell's target weight |
| GoodPlayer.TargetCellMeaning | Player.cpp:636-710 | A target weight is 0 off the first pending hit's crosshair and on every pending hit, positive only on valid points, non-zero only where placements cover the cell, and equal to the placement count off the amplified lines |
| GoodPlayer.TargetHeatMeaning | Player.cpp:636-710 | The whole target map is 0 off the crosshair and on pending hits, never negative, and positive only on valid points that are not pending hits |
| GoodPlayer.RecommendAttack | Player.cpp:716-747 | With no ship alive the result is the default point; otherwise it is the first strict maximum of the mode's heat map, and it is a valid point that is not a pending hit whenever some weight is positive; in HUNT mode it is a valid point whenever some alive ship has a legal placement |
| GoodPlayer.RecordAttackResult | Player.cpp:753-851 | No change with an empty roster; a hit becomes pending in TARGET mode; a miss becomes missed; a sink removes exactly the entries with the ship's symbol from the roster, keeping the others in order, moves the span from pending to missed, keeps the other pending hits in order with the sinking shot last, and returns to HUNT exactly when nothing is pending |
| GoodPlayer.SinkRemovesOneEntry | Player.cpp:775-785 | With distinct symbols in the roster, a sink of a ship still in the roster shrinks the roster by exactly one entry |
| GoodPlayer.RecordKeepsEngineOk | Player.cpp:753-851 | Recording keeps TARGET mode equivalent to having pending hits, and keeps alive lengths positive |
| GoodPlayer.ModeTransitions | Player.cpp:753-851 | HUNT becomes TARGET exactly on a hit that does not sink; TARGET becomes HUNT exactly on a sink that leaves nothing pending |
| CompetePlayer.TargetCellMeaning | Competition/CompetePlayer.cpp:200-247 | A target weight is 0 off the crosshair and on pending hits, positive only on valid points, and otherwise the placement count doubled on the shared row and doubled on the shared column through the first pending hit, with no distance factor |
| CompetePlayer.TargetProb | Competition/CompetePlayer.cpp:200-247 | The competition target map spans exactly the game's rows and columns, and each cell carries that cell's doubled-line weight |
| CompetePlayer.TargetHeatMeaning | Competition/CompetePlayer.cpp:200-247 | The whole competition target map is 0 off the crosshair and on pending hits, positive only on valid points that are not pending hits, and elsewhere the placement count doubled on the shared row and doubled on the shared column |
| CompetePlayer.AmplificationDominates | Competition/CompetePlayer.cpp:229-243 | On a board within 10 x 10, the main build's distance-scaled weight is never below the competition's doubled weight, and the two agree off the amplified lines |
| CompetePlayer.ScaleAtLeastDouble | Player.cpp:686-688 | While the distance to the anchor is at most 10, the factor 10 / distance is at least 1, so the scaling is at least a doubling |
| CompetePlayer.RecommendAttack | Competition/CompetePlayer.cpp:249-272 | No empty-roster guard: HUNT needs a ship; the result is the first strict maximum, and a valid point that is not a pending hit whenever some weight is positive; in HUNT mode it is a valid point whenever some alive ship has a legal placement |
| CompetePlayer.RecordAttackResult | Competition/CompetePlayer.cpp:274-357 | The roster never changes; a hit becomes pending in TARGET; a miss becomes missed; a sink moves the span from pending to missed, keeps the other pending hits in order with the sinking shot last, and returns to HUNT exactly when nothing is pending |
| CompetePlayer.RosterIsCatalog | Competition/CompetePlayer.cpp:63-357 | After any sequence of results from a fresh engine, the roster is still the catalog and the mode matches the pending hits, so `recommendAttack` stays defined for a non-empty catalog |
| CompetePlayer.RecordKeepsEngineOk | Competition/CompetePlayer.cpp:274-357 | Recording keeps TARGET mode equivalent to having pending hits |
| CompetePlayer.ModeTransitions | Competition/CompetePlayer.cpp:274-357 | HUNT becomes TARGET exactly on a hit that does not sink; TARGET becomes HUNT exactly on a sink that leaves nothing pending |
| CompetePlayer.CreatePlayer | Competition/CompetePlayer.cpp:723-739 | "good1" yields Player1, "good2" yields Player2, any other name yields nothing |
| Dispatch.Lookup | Player.cpp:859-866 | The position of the first table entry equal to the name, or the table size when none is |
| SimplePlayers.AwfulRecommend | Player.cpp:44-57 | From an in-bounds cell the result is in bounds; from (0, 0) it wraps to (rows-1, cols-1) |
| SimplePlayers.AwfulStepIndex | Player.cpp:44-57 | Each step moves one place back in row-major order, and from (0, 0) to the last place |
| SimplePlayers.AwfulAfterAdd | Player.cpp:44-57 | Successive recommendations compose |
| SimplePlayers.AwfulSweep | Player.cpp:31-57 | From the constructor's (0, 0), the n-th recommendation is the cell n places before the end, so the first rows*cols recommendations visit every cell once |
| SimplePlayers.IndexInjective | Player.cpp:44-57 | A board cell is determined by its row-major position |
| SimplePlayers.AwfulPeriodic | Player.cpp:31-57 | The recommendations repeat with period rows*cols |
| SimplePlayers.NewMediocre | Player.cpp:187 | A new MediocrePlayer is in state 1 with transition point (5, 5) and no earlier attacks |
| SimplePlayers.PointNotChosen | Player.cpp:272-282 | True exactly when the point is not among the earlier attacks |
| SimplePlayers.RecordMediocre | Player.cpp:355-370 | State 1 with a hit that does not sink goes to 2 and stores the point; state 2 with a sink goes to 1; anything else changes nothing |
| SimplePlayers.MediocreStates | Player.cpp:355-370 | The state stays 1 or 2, and it changes exactly on the two transitions |
| SimplePlayers.CreatePlayer | Player.cpp:857-875 | "human", "awful", "mediocre" and "good" select their kinds; any other name yields nothing |

## Left out

- Console output is not modelled: `BoardImpl::display`, `printProbArray`, and every `cout`/`cerr` line.
- `HumanPlayer` is not modelled, because it only reads keyboard input.
- `GameImpl::play` and `playerAttack` are not modelled; they are the turn loop and printing. Their one promise the engines rely on (a sink comes with a hit and a catalog id) is a precondition.
- Randomness is not modelled: `BoardImpl::block`, `randomPoint`, every `placeShips`/`recursivePlace`, and MediocrePlayer's random and crosshair `recommendAttack`.
- `main.cpp`, `Competition/compete.cpp` and `utility.h` are not modelled; they are drivers and an unused struct.
- Ship names are kept only as catalog data for the duplicate-name check; `shipName` is not modelled.
- 32-bit `int` overflow is not modelled. On a 10 x 10 board the counts stay far below it.
- Writes outside the game's board are not modelled. `resetProbArray` clears the whole MAXROWS x MAXCOLS array, but the model's heat maps only cover the game's rows and columns, which is all `recommendAttack` reads.
- `validShot` is not used: both engines ignore it.
- Boards.UnplaceShip, Boards.Attack, Boards.AllShipsDestroyed: these require the instance list to be consistent with the catalog (ids in range, spans on the board), and `Attack` requires the full board invariant. The source reads out of bounds or through an end iterator otherwise. The lemmas in `BoardProofs` show that every board operation keeps the invariant.
- GoodPlayer.RecordAttackResult, CompetePlayer.RecordAttackResult: the reconstructed span follows the corrected rule of the finding below, not the code as written, when the sinking shot is the first pending hit.
- GoodPlayer.ModeTransitions, CompetePlayer.ModeTransitions: these hold for the corrected engine only. With the as-written span, a HUNT-mode hit that sinks its ship at once leaves TARGET mode on with the hit still pending (`Targeting.FirstHitSinkStaysTarget`).
- Targeting.SunkSpan: when the sinking shot is the first pending hit and the ship is longer than one cell, the code gives no way to tell where the ship lay. The corrected span runs downward from the shot; this is a choice of the model, not something the code does. For a length-1 ship it is exactly the ship's cell.
- GoodPlayer.RecommendAttack, CompetePlayer.RecommendAttack: both require alive lengths of at least 1, because the parity step takes `r % m` with the shortest length `m`, and a pending hit in TARGET mode, because `targetProb` reads the first one. Every catalog `addShip` accepts and every engine state reachable by recording results meets both.
- CompetePlayer.RecommendAttack: HUNT mode requires a non-empty roster, because the source reads the first roster entry without a guard. `CompetePlayer.RosterIsCatalog` shows this holds for a non-empty catalog.

## Findings

| source | as written | input that shows it | evidently intended | confidence | as-written member | corrected member |
|---|---|---|---|---|---|---|
| Player.cpp:786-815; Competition/CompetePlayer.cpp:293-320 | When the sinking shot `p` equals `m_destroyed.front()`, none of the four comparisons holds, so `start = end = 0` and the span is empty | A length-1 ship hit while no hit is pending: the hit is pushed, then sinks; nothing moves to `missed`, the hit stays pending, and the mode stays TARGET on a sunk ship | The sunk ship's single cell (generally its `len` cells from `p`) moves to `missed`, and HUNT resumes when nothing else is pending | not executed | Targeting.FirstHitSinkStaysTarget | Targeting.SunkSpanCoversShip |
