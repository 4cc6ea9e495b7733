# blast-it board engine in Dafny

A model of the rule engine of the blast-it tile puzzle. The engine lives in the Unity
scripts `TileManager` and `Tile`. The board is a list of tiles. Each tile has grid
coordinates, one of `colorCount` colours and one of four icon segments. The model covers:

- the flood fill `GetSameColorTiles`, which finds a tile's same-colour group;
- the deadlock test `IsDeadlock`;
- the shuffle `ShuffleBoard`, which recolours the board until some group can be cleared;
- the icon tiers set by `ReassignIcons` and `SetIconsBySegment`, chosen by the group's
  size against the three thresholds;
- the click `TileClicked` and the refill `ClearAndGenerateTiles` / `GenearateTileAtColumn`;
- the first fill `GenearateTiles`, row by row;
- the `Tile` constructor, `RandomColor` and the sprite index `tileIndex`.

Layout:

- `tiles.dfy` (module `Tiles`): the tile, as a class whose colour and segment the engine
  overwrites, and the sprite-index arithmetic.
- `lists.dfy` (module `Lists`): the `List<T>` operations the engine uses (`Remove`, and
  removing a list of elements one by one), on sequences.
- `board.dfy` (module `Board`): the rules on values. A board is a `seq<TileState>`, and a
  tile is named by its position in it. This module defines orthogonal adjacency,
  same-colour groups as 4-connected components, deadlock, the tier of a group size, and
  the first-fill order. It holds the lemmas about them, and the step lemmas that carry
  the loop invariants of the fill and of the icon pass.
- `tile_manager.dfy` (module `Manager`): `class TileManager`, whose field `tiles` is the
  list of tiles on the board. It has one method per operation of `TileManager`, each
  proved against the functions of `Board`.

Every coroutine step runs at once and in order. A tile controller is represented by its
tile, and a list of controllers by the positions of their tiles in `tiles`. Two tiles are
the same tile only when they are the same object; `Valid` keeps the list free of
repetitions. Random colours are a nondeterministic choice in `[0, colorCount)`. Each tile
also keeps, as a ghost constant `spawnColor`, the colour it was created with. The game never
reads it. It lets a contract name the board just after a spawn even when a later shuffle
recoloured that tile.

The shuffle's do-while has no bound in the code. Here it runs at most `maxRounds`
rounds and reports whether the board ended up solvable. `Settled(settled)` states the
result: `settled` is true exactly when the board is not deadlocked, and every tile shows
the icon for its own group's size.

The model follows the code where a cleaner design of the game would differ:

- a refill spawns one tile per removed tile, at that tile's coordinates, rather than one
  per emptied column;
- the shuffle and the icon pass run after every single spawned tile;
- a removal does not check its selection;
- the flood fill rescans the whole tile list at every level of its recursion.

## Model

| member | source | states |
|---|---|---|
| Tiles.Tile.constructor | Assets/Scripts/Tile.cs:13-16 | the tile keeps the given coordinates and gets a colour below `colorCount` and the default icon; that colour is recorded as `spawnColor` |
| Tiles.Tile.RandomRange | Assets/Scripts/Tile.cs:21 | `Random.Range(0, n)` on integers yields a value in `[0, n)`, the upper bound excluded |
| Tiles.Tile.RandomColor | Assets/Scripts/Tile.cs:19-23 | the segment is reset to the default icon and the new colour lies in `[0, colorCount)`; coordinates cannot change |
| Tiles.Tile.TileIndex | Assets/Scripts/Tile.cs:12 | the sprite index divided by 4 is the colour and its remainder is the segment's enum value |
| Tiles.SpriteIndexDecodes | Assets/Scripts/Tile.cs:12 | `color * 4 + segment` decodes back to the colour and the segment |
| Tiles.SpriteIndexInjective | Assets/Scripts/Tile.cs:8-12 | two (colour, segment) pairs share a sprite index exactly when they are equal |
| Tiles.SpriteIndexBound | Assets/Scripts/Tile.cs:8-12 | a colour below `colorCount` gives an index below `colorCount * 4`, inside the sprite list |
| Board.OffsetMatchIsAdjacent | Assets/Scripts/Managers/TileManager.cs:185-193 | the offset loops (skipping (0, 0) and the diagonals) match `t` to `tc` exactly when `Abs(dx) + Abs(dy) == 1` |
| Board.UnlistedShrinks | Assets/Scripts/Managers/TileManager.cs:195-197 | each recursive fill call starts with one more tile listed, so the set of unlisted tiles strictly shrinks and the recursion ends |
| Board.FillStep | Assets/Scripts/Managers/TileManager.cs:195-197 | appending a same-colour neighbour and filling from it keeps the list's prefix and keeps "fresh, same colour, linked to an earlier entry, neighbours listed" for every appended tile |
| Board.SeededFillIsComponent | Assets/Scripts/Managers/TileManager.cs:183-198 | a fill seeded with `[t]` lists `t` first, no tile twice, and exactly the 4-connected same-colour component of `t` |
| Board.ComponentClosed | Assets/Scripts/Managers/TileManager.cs:183-198 | a group holds every same-colour orthogonal neighbour of its members |
| Board.ComponentLeast | Assets/Scripts/Managers/TileManager.cs:183-198 | a group lies inside every closed set that holds its tile, so it is the smallest such set |
| Board.ComponentOfMember | Assets/Scripts/Managers/TileManager.cs:133-152 | every member of a group has that same group, so the groups partition the board |
| Board.DeadlockIffSingletons | Assets/Scripts/Managers/TileManager.cs:157-168 | no two orthogonal neighbours share a colour exactly when every tile's group has size 1 |
| Board.LayoutDeadlocked | Assets/Scripts/Managers/TileManager.cs:58-61 | changing only icons cannot make a board deadlocked or undo a deadlock |
| Board.LayoutComponent | Assets/Scripts/Managers/TileManager.cs:171-177 | writing icons leaves every group as it was |
| Board.SegmentForRanges | Assets/Scripts/Managers/TileManager.cs:141-148 | with `a < b < c` the tiers are sizes `> c`, `(b, c]`, `(a, b]` and `<= a`, each in both directions |
| Board.SegmentForMonotone | Assets/Scripts/Managers/TileManager.cs:141-148 | a larger group never gets a lower tier |
| Board.DefaultThresholdTiers | Assets/Scripts/Managers/TileManager.cs:14-16 | with thresholds 4, 7, 9: sizes 1 and 4 get the default icon, 5 and 7 the first, 8 and 9 the second, 10 the third |
| Board.TieredGroupsUniform | Assets/Scripts/Managers/TileManager.cs:141-152 | once every tile shows its tier, all members of a group show the same icon |
| Board.IconsStep | Assets/Scripts/Managers/TileManager.cs:138-152 | setting a whole group's icon to the tier of its size and adding it to `checkedTiles` keeps every checked tile right |
| Board.IconsSkip | Assets/Scripts/Managers/TileManager.cs:137 | skipping a tile already in `checkedTiles` keeps every checked tile right |
| Board.IconsMatchTiered | Assets/Scripts/Managers/TileManager.cs:135-153 | once every tile is checked, every tile shows the tier of its own group's size |
| Board.GridCoordsCover | Assets/Scripts/Managers/TileManager.cs:45-51 | the first-fill order visits a cell exactly when `0 <= x < column` and `0 <= y < row` |
| Board.GridCoordsDistinct | Assets/Scripts/Managers/TileManager.cs:45-51 | the first-fill order visits no cell twice |
| Board.GridCoords | Assets/Scripts/Managers/TileManager.cs:45-51 | the first-fill order, row by row and left to right within a row, has `row * column` cells |
| Board.IsolatedStaysDeadlocked | Assets/Scripts/Managers/TileManager.cs:80-87 | on a board where no two tiles are orthogonal neighbours every recolouring is deadlocked, so the do-while's exit test never fails |
| Board.SmallBoardsIsolated | Assets/Scripts/Managers/TileManager.cs:59-60 | the empty board and every one-tile board have no neighbours |
| Board.SpawnStep | Assets/Scripts/Managers/TileManager.cs:110-114 | one more spawn extends the trace: the new tile's state is appended to the current board, and that board's colours survive the settling unless it was deadlocked (lines 73-74) |
| Board.SpawnTraceKeepsLayout | Assets/Scripts/Managers/TileManager.cs:73-74 | when no board of a run of spawns was deadlocked, no shuffle ran: the board ends as the starting tiles in their colours and places, followed by each new tile in the colour and place it was spawned with |
| Manager.SpawnedAt | Assets/Scripts/Managers/TileManager.cs:66-71 | entry i of the spawned states is tile i at its coordinates, in its first colour, with the default icon |
| Manager.SpawnedStep | Assets/Scripts/Managers/TileManager.cs:110-114 | a spawned tile appended to the current board extends the spawn trace by that board and by the tile's spawn state |
| Lists.RemoveFirst | Assets/Scripts/Managers/TileManager.cs:107 | `List.Remove` drops one element when it is present and changes nothing otherwise |
| Lists.Without | Assets/Scripts/Managers/TileManager.cs:105-109 | the survivors are exactly the elements not removed, without repetitions when the list had none |
| Lists.RemoveFirstWithout | Assets/Scripts/Managers/TileManager.cs:105-109 | removing one more element with `List.Remove` is removing it from the original list together with the earlier ones |
| Lists.RemoveNext | Assets/Scripts/Managers/TileManager.cs:105-109 | each `Remove` of the next group tile drops exactly one tile |
| Lists.PickMember | Assets/Scripts/Managers/TileManager.cs:100-104 | a tile is among the group's tiles exactly when its position is in the group |
| Manager.TileManager.constructor | Assets/Scripts/Managers/TileManager.cs:9-16 | an empty board with the given size, colour count and thresholds |
| Manager.TileManager.GenearateTiles | Assets/Scripts/Managers/TileManager.cs:43-62 | appends `row * column` fresh tiles whose coordinates are the cells in fill order, keeps the old tiles, then leaves the board settled |
| Manager.TileManager.FillRow | Assets/Scripts/Managers/TileManager.cs:47-56 | appends one fresh tile per column of row `y`, at `(j, y)` from left to right |
| Manager.TileManager.GetSameColorTiles | Assets/Scripts/Managers/TileManager.cs:182-203 | keeps the list passed in as a prefix; appends only new board tiles of the start tile's colour, each linked to the start or an earlier entry; lists every same-colour neighbour of the start and of each appended tile |
| Manager.TileManager.SameColorGroup | Assets/Scripts/Managers/TileManager.cs:161-163 | the list seeded with `[k]` and filled is exactly the group of `k` (`ListsGroup`): `k` first, each member once |
| Manager.TileManager.IsDeadlock | Assets/Scripts/Managers/TileManager.cs:157-168 | true exactly when every tile's group has size 1 (so true on an empty board), and exactly when the board is deadlocked |
| Manager.TileManager.RecolorAll | Assets/Scripts/Managers/TileManager.cs:82-85 | every tile gets a colour below `colorCount` and the default icon; the list and all coordinates stay |
| Manager.TileManager.ShuffleBoard | Assets/Scripts/Managers/TileManager.cs:80-87 | resets every icon to the default, keeps the list and every tile's coordinates, reports solved exactly when the board is not deadlocked, and on a board without neighbours gives up unsolved |
| Manager.TileManager.SetIconsBySegment | Assets/Scripts/Managers/TileManager.cs:171-177 | the listed tiles show `segment`, every other tile keeps its icon, and no colour or place changes |
| Manager.TileManager.ReassignIcons | Assets/Scripts/Managers/TileManager.cs:129-154 | every tile shows the tier for its own group's size; colours and places are unchanged |
| Manager.TileManager.Settle | Assets/Scripts/Managers/TileManager.cs:58-61 | the result is true exactly when the board ends not deadlocked, and every tile shows its group's tier; a board that was not deadlocked keeps every colour and place (only icons change) and is reported settled; a board without neighbours is reported unsettled |
| Manager.TileManager.GenearateTileAtColumn | Assets/Scripts/Managers/TileManager.cs:65-77 | appends one fresh tile at the given coordinates, with a spawn colour below `colorCount`, then settles the board; the board right after the append is the old board followed by that tile in its spawn colour with the default icon, and when that board is not deadlocked no tile changes colour or place |
| Manager.TileManager.RemoveGroup | Assets/Scripts/Managers/TileManager.cs:105-109 | the board loses exactly the group's tiles; the others stay in their order |
| Manager.TileManager.SpawnTiles | Assets/Scripts/Managers/TileManager.cs:110-114 | appends one fresh tile per coordinate, in order, keeps the other tiles, and leaves the board settled; the boards right after each append form a spawn trace from the board on entry to the final board, each extending the settled previous board by the new tile in its spawn colour |
| Manager.TileManager.GroupCoordinates | Assets/Scripts/Managers/TileManager.cs:100-104 | the copied array holds the group tiles' coordinates in group order |
| Manager.TileManager.ClearAndGenerateTiles | Assets/Scripts/Managers/TileManager.cs:99-115 | the survivors keep their order; behind them come fresh tiles at the removed tiles' coordinates, in group order; the count is unchanged and the board is settled; the spawns form a spawn trace from the survivors' board (`survivors`) |
| Manager.TileManager.TileClicked | Assets/Scripts/Managers/TileManager.cs:90-97 | the group is the clicked tile's component, with the clicked tile first, so the first new tile takes its place; a lone tile changes nothing; otherwise the group is cleared and refilled, the tile count is preserved, and the spawns form a spawn trace from the survivors' board, so with no deadlocked board along the way the board ends as the survivors followed by the new tiles in their spawn colours |

## Left out

- `TileController`, the sprite renderer, tile names and sorting order (`Initialize`, `SetName`, `ResetSprite`, `ResetTileSortingOrder`, `OnMouseDown`) are presentation and input. The model keeps the tile a controller stands for.
- Spawn points, `Instantiate`, `Destroy`, `Rigidbody2D` velocities and float world positions (`GenerateSpawnPoints`, `tileWidth`) are Unity object work. A new tile is only "a tile at these coordinates"; `column <= 10` stands for the ten spawn points.
- `WaitForSeconds` and `WaitForEndOfFrame` are animation timing. The model runs each coroutine to its end at the point the code starts it. In the game, the code after a `yield` runs later. `ReassignCoordinates` starts at line 72 and waits for the end of the frame (line 119), so it runs after the deadlock check and the shuffle that follow its start (lines 73-74). `ReassignIcons` starts after that check (line 76) and also waits for the end of the frame (line 130), so it runs after `ReassignCoordinates`. Each refill spawn after the first runs in a later frame (line 113).
- `ReassignCoordinates` (TileManager.cs:118-126) is not modelled. In the game, at the end of every frame in which a tile was spawned, it rewrites every tile's row from its Unity sibling index, and so compacts the columns after a removal. The Unity transform hierarchy is not part of this model. Here every tile keeps the coordinates it was created with (`coordinates` is a constant). After a click, the survivors keep their old rows and each new tile sits at the place of a removed tile. So the icon passes, and the deadlock checks of every spawn after the first, see these uncompacted coordinates, where the game sees compacted columns. The groups, deadlocks and tiers computed after a click are those of the uncompacted board.
- `Random.Range` is a nondeterministic choice of a colour in `[0, colorCount)`. A seed or distribution is not modelled.
- Manager.TileManager.ShuffleBoard: the unbounded do-while is cut off after `maxRounds` rounds, and `solved` says whether the last round left the board solvable. On a board without orthogonal neighbours the source's loop never ends (see Findings), and the model gives up unsolved there. On other boards the source's loop ends with probability 1, which is not modelled: the model may give up after `maxRounds` unlucky rounds.
- Manager.TileManager.Settle: `settled` is false only when the shuffle ran out of rounds. The board is then still deadlocked but tiered.
- `TileColor` and `TileSegment` are enums declared outside the two modelled files. Colours are naturals below `colorCount`, and the segments are taken to be in the order default, first, second, third, with values 0 to 3.
- A `colorCount` of 0 or less is excluded by the constructor's precondition. What `Random.Range` does with such an empty range is not modelled.

## Findings

| source | as written | input that shows it | evidently intended | confidence | as-written member | corrected member |
|---|---|---|---|---|---|---|
| Assets/Scripts/Managers/TileManager.cs:80-87 | the do-while recolours every tile until `IsDeadlock()` is false, with no other exit | a board where no two tiles are orthogonal neighbours: the empty board (`row * column == 0`) or a 1 x 1 board at line 59, or a 1 x 2 board after its pair is clicked, where the first refill spawn leaves one tile at line 73; every recolouring of such a board is deadlocked, so the loop never ends | give up when no recolouring can help, and report the board as unsolved | not executed | Board.IsolatedStaysDeadlocked | Manager.TileManager.ShuffleBoard |
