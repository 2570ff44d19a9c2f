# GeoTech Minesweeper rules engine in Dafny

This project models the rules engine of the GeoTech Minesweeper editor plugin. That engine is `FMinesweeperGame` plus the rule-bearing methods of `FMinesweeperTile`. The model proves properties of it with the Dafny verifier.

The game owns a flat, row-major `Width * Height` array of tiles. Each tile knows:
- its position;
- whether it is a mine, is exposed or is flagged;
- the number of mines around it, cached when it is exposed.

The game also keeps the `FlagsPlaced` and `SpacesExposed` counters and an `EMinesweeperGameState`.

**Construction.** Construction clamps the mine count into `[1, Width * Height]` and gives every tile its position. It then places mines by rejection sampling.

**Clicking a tile.** A click does nothing once the game is over. Otherwise it exposes the tile:
- Exposing bumps `SpacesExposed`, caches a safe tile's adjacency count and checks for a win or a loss.
- A loss force-exposes every mine.
- On a safe tile, the click then runs the recursive flood fill `UnlockSurroundingTilesIfEmpty` with radius 1. The fill's list of checked positions makes it terminate.

**Right-clicking a tile** toggles its flag, unless the game is over or the tile is exposed. The flag counter follows the flag.

Around the engine sit a few numeric rules of the settings panel:
- the difficulty presets;
- the clamps of the size and mine-count entry boxes;
- the "Mines Remaining" label.

Files:

- `geometry.dfy` covers positions, the bounds check of `GetTile`, the flat index `X + Y * Width` and its injectivity, and the Chebyshev square used for neighbours.
- `tiles.dfy` covers the tile as a value, `IsEnabled` and `GetText` with the decimal rendering of the count, tallies over a board, and the lose reveal as a function.
- `neighbourhood.dfy` is the specification of `GetMineCountInArea` over the mine layout: what a zero count means, the upper bound, and the 1x1 board.
- `settings.dfy` covers `FMath::Clamp`, the presets, the entry-box clamps and the remaining-mines label.
- `game.dfy` holds the `Game` class. Its fields are the board array, the dimensions, the counters and the state. The class has:
  - the constructor;
  - the methods `GetTile`, `GetMineCountInArea`, `SetState`, `OnTileExposed`, `Expose`, `UnlockSurroundingTilesIfEmpty`, `OnClicked` and `OnRightClicked`;
  - the invariant `Valid()`.

**`Valid()`.** It says:
- exactly `mineCount` tiles are mines, and they never move;
- `FlagsPlaced` counts the flagged tiles;
- until a loss, `SpacesExposed` counts the exposed tiles and no mine is exposed;
- a loss shows every mine, and a win has every safe tile exposed;
- while the game is in play and something is exposed, fewer tiles are exposed than there are safe tiles, so the state is `FinishWin` exactly when every safe tile is exposed, when the board has at least one safe tile;
- every exposed safe tile caches its true adjacency count.

**`Settled`.** A second invariant, `Settled`, is kept by every click and right click. It says that no exposed safe tile with zero mines around has a hidden neighbour. It is what makes a repeated click a no-op.

## Model

| member | source | states |
|---|---|---|
| Geometry.IndexInRange | Source/GeoTechMinesweeper/GeoTechMinesweeper.cpp:541-546 | a position that passes `GetTile`'s bounds check has a flat index `X + Y * Width` inside `[0, Width * Height)` |
| Geometry.IndexInjective | Source/GeoTechMinesweeper/GeoTechMinesweeper.cpp:541-546 | two positions whose columns lie in `[0, Width)` share a flat index only if they are the same position |
| Geometry.IndexUnique | Source/GeoTechMinesweeper/GeoTechMinesweeper.cpp:541-553 | an in-bounds position's slot is inside the array and belongs to no other in-bounds position |
| Geometry.PointOfIndex | Source/GeoTechMinesweeper/GeoTechMinesweeper.cpp:310-317 | every slot `k` of a `Width * Height` array is the slot of the in-bounds position `(k % Width, k / Width)`, so the layout loop reaches every tile (that no other position shares the slot is `IndexUnique`) |
| Tiles.Tile.GetText | Source/GeoTechMinesweeper/GeoTechMinesweeper.h:150-166 | the label is non-empty exactly when the tile is exposed, is not a mine and has a nonzero count. It then consists of decimal digits that read back as the count, with no leading zero |
| Tiles.Tile.IsEnabled | Source/GeoTechMinesweeper/GeoTechMinesweeper.h:125-128 | a tile that still accepts clicks shows no label |
| Tiles.Decimal | Source/GeoTechMinesweeper/GeoTechMinesweeper.h:159 | the rendering of a count is a non-empty string of digits with no leading zero |
| Tiles.DecimalRoundTrip | Source/GeoTechMinesweeper/GeoTechMinesweeper.h:159 | reading the rendered digits back gives the count that was rendered |
| Tiles.SafeTally | Source/GeoTechMinesweeper/GeoTechMinesweeper.cpp:637-640 | while no mine is exposed, exposed tiles plus mines number at most the board size, and exactly the board size iff every safe tile is exposed |
| Tiles.RevealMinesKeeps | Source/GeoTechMinesweeper/GeoTechMinesweeper.cpp:505-516 | the lose reveal leaves every mine exposed and keeps the mine layout, the number of mines and the number of flags |
| Neighbourhood.AreaCountZero | Source/GeoTechMinesweeper/GeoTechMinesweeper.cpp:555-579 | the count around `c` is zero iff no in-bounds cell of the radius-`d` square around `c`, other than `c`, is a mine |
| Neighbourhood.AreaCountBound | Source/GeoTechMinesweeper/GeoTechMinesweeper.cpp:555-579 | the count is at most `(2d+1)^2 - 1` |
| Neighbourhood.SingleCellCount | Source/GeoTechMinesweeper/GeoTechMinesweeper.cpp:555-579 | on a 1x1 board the count is 0 |
| Settings.Clamp | Source/GeoTechMinesweeper/GeoTechMinesweeper.cpp:304 | with `Min <= Max` the result lies in `[Min, Max]` and is the input when the input already does. An input below `Min` gives `Min`, and an input at or above both `Min` and `Max` gives `Max` |
| Settings.ClampIdempotent | Source/GeoTechMinesweeper/GeoTechMinesweeper.cpp:304 | clamping a clamped value changes nothing |
| Settings.ClampSide | Source/GeoTechMinesweeper/GeoTechMinesweeper.cpp:143-169 | the width and height boxes yield a value in `[1, 256]`: the entry when it is already in range, 1 below the range and 256 above it |
| Settings.ClampMineEntry | Source/GeoTechMinesweeper/GeoTechMinesweeper.cpp:191-193 | the mine box yields a value in `[1, Height * Width]`: the entry when it is already in range, 1 below the range and `Width * Height` above it |
| Settings.SelectDifficulty | Source/GeoTechMinesweeper/GeoTechMinesweeper.cpp:89-109 | every preset is playable (sides in `[1, 256]`, mines in `[1, W*H]`) with at most one mine per five cells; `Custom` keeps the current configuration |
| Settings.PresetsSurviveClamps | Source/GeoTechMinesweeper/GeoTechMinesweeper.cpp:89-109 | every preset is a fixed point of the entry-box clamps and of the engine's mine clamp |
| Settings.MinesRemaining | Source/GeoTechMinesweeper/GeoTechMinesweeper.cpp:369-372 | the label is never negative, is at least `MineCount - FlagsPlaced`, and is 0 or exactly that difference |
| Settings.RemainingAfterFlag | Source/GeoTechMinesweeper/GeoTechMinesweeper.cpp:369-372 | one more flag lowers the label by one while flags are fewer than mines, and leaves it at 0 otherwise |
| Minesweeper.LayOutTiles | Source/GeoTechMinesweeper/GeoTechMinesweeper.cpp:306-317 | the new array has `Width * Height` fresh tiles (no mine, hidden, unflagged) and tile `k` sits at the in-bounds position whose index is `k` |
| Minesweeper.PlaceMines | Source/GeoTechMinesweeper/GeoTechMinesweeper.cpp:319-332 | the board's mines are exactly the distinct cells among the draws consumed, which number `MineCount`. Consumption stops at the first draw that completes the quota. Repeats do not use up quota, and nothing but `IsMine` changes |
| Minesweeper.TwoCellWin | Source/GeoTechMinesweeper/GeoTechMinesweeper.cpp:637-640 | on a 2x1 board with one mine, exposing the safe cell wins the game at once |
| Minesweeper.Game.constructor | Source/GeoTechMinesweeper/GeoTechMinesweeper.cpp:298-335 | the dimensions are stored and `MineCount` is the requested count clamped into `[1, W*H]`. The mines are drawn as `PlaceMines` says. No tile is exposed or flagged, both counters are 0, the state is `Playing`, and the game is `Valid` and settled |
| Minesweeper.Game.TileIndex | Source/GeoTechMinesweeper/GeoTechMinesweeper.cpp:541-546 | the slot of an in-bounds `(X, Y)` is in the array and belongs to no other in-bounds position |
| Minesweeper.Game.GetTile | Source/GeoTechMinesweeper/GeoTechMinesweeper.cpp:541-553 | the tile returned for `(X, Y)` is the one positioned at `(X, Y)`, and it is a mine iff the layout says so |
| Minesweeper.Game.GetMineCountInArea | Source/GeoTechMinesweeper/GeoTechMinesweeper.cpp:555-579 | the nested loops return the number of mines within Chebyshev distance `d`, centre excluded and off-board cells ignored, and change nothing |
| Minesweeper.Game.WinTestMeansAllSafeExposed | Source/GeoTechMinesweeper/GeoTechMinesweeper.cpp:637-640 | in a game that is not lost, the win test `Width * Height - MineCount <= SpacesExposed` holds iff every safe tile is exposed |
| Minesweeper.Game.IsGameComplete | Source/GeoTechMinesweeper/GeoTechMinesweeper.cpp:536-539 | the game is complete exactly when it was started and is no longer `Playing` |
| Minesweeper.Game.WonIffAllSafeExposed | Source/GeoTechMinesweeper/GeoTechMinesweeper.cpp:637-640 | in a game that is not lost and has a safe tile, the state is `FinishWin` exactly when every safe tile is exposed |
| Minesweeper.Game.CompleteGameIsDecided | Source/GeoTechMinesweeper/GeoTechMinesweeper.cpp:536-539 | a complete game shows its outcome: after a loss every mine is exposed; after a win every safe tile is exposed and some mine is still hidden |
| Minesweeper.Game.SetState | Source/GeoTechMinesweeper/GeoTechMinesweeper.cpp:458-516 | the state is set; on `FinishLose` the board becomes the lose reveal of the old board (mines exposed, everything else unchanged), and otherwise the board is unchanged |
| Minesweeper.Game.SafeExposureKeeps | Source/GeoTechMinesweeper/GeoTechMinesweeper.cpp:622-640 | a safe exposure with its count cached restores the invariant with one more exposure counted, and the state becomes `FinishWin` exactly when the win test passes |
| Minesweeper.Game.MineExposureKeeps | Source/GeoTechMinesweeper/GeoTechMinesweeper.cpp:631-634 | exposing a mine and then running the lose reveal leaves a consistent lost game |
| Minesweeper.Game.OnTileExposed | Source/GeoTechMinesweeper/GeoTechMinesweeper.cpp:622-641 | `SpacesExposed` goes up by exactly 1. A mine leads to `FinishLose` and the lose reveal. A safe tile gets its adjacency count, no other tile changes, and the state becomes `FinishWin` iff the win test passes, else stays |
| Minesweeper.Game.AfterExposeIdempotent | Source/GeoTechMinesweeper/GeoTechMinesweeper.h:98-106 | after exposing, the tile is exposed, and exposing it again changes nothing |
| Minesweeper.Game.WinIsFinal | Source/GeoTechMinesweeper/GeoTechMinesweeper.cpp:622-640 | once the game is won, exposing a safe tile changes neither the board nor the state, because every safe tile is already exposed |
| Minesweeper.Game.Expose | Source/GeoTechMinesweeper/GeoTechMinesweeper.h:98-106 | an exposed tile leaves everything unchanged; otherwise the board, `SpacesExposed` (+1) and the state change as one `OnTileExposed` call says. The flag and `FlagsPlaced` are never touched |
| Minesweeper.Game.NoMineNear | Source/GeoTechMinesweeper/GeoTechMinesweeper.cpp:611-617 | a neighbour of a position with zero mines around is not a mine, so the flood fill never exposes one |
| Minesweeper.Game.UnvisitedShrinks | Source/GeoTechMinesweeper/GeoTechMinesweeper.cpp:583-613 | adding an unchecked in-bounds position to the checked list strictly shrinks the set of in-bounds positions left to check, which is why the recursion stops |
| Minesweeper.Game.UnlockSurroundingTilesIfEmpty | Source/GeoTechMinesweeper/GeoTechMinesweeper.cpp:581-620 | the call terminates and returns the checked list grown by `p` and then only by fully explored positions. Each of those sits next to an earlier position of the same call with no mine around, so the fill spreads from `p` only through zero-count tiles. It exposes only safe tiles next to a zero-count checked position, and every zero-count tile it exposes is checked. A nonzero count at `p` changes nothing. Otherwise every neighbour of `p` ends exposed or checked, and every zero-count neighbour ends checked. The state only moves to `FinishWin`, and when the board has a safe tile the state ends `FinishWin` exactly when every safe tile is exposed. On a settled board from an exposed `p` nothing changes |
| Minesweeper.Game.SweepColumn | Source/GeoTechMinesweeper/GeoTechMinesweeper.cpp:592-618 | the fill's inner loop over one column of the square keeps the fill's progress invariant through the whole column. The state only moves to `FinishWin`, and on a settled board from an exposed `p` nothing changes |
| Minesweeper.Game.VisitNeighbour | Source/GeoTechMinesweeper/GeoTechMinesweeper.cpp:597-617 | one pass of the fill's inner loop on an in-bounds, unchecked neighbour keeps the fill's progress invariant up to and including that neighbour |
| Minesweeper.Game.RevealKeepsSettled | Source/GeoTechMinesweeper/GeoTechMinesweeper.cpp:505-516 | the lose reveal exposes only mines, so a settled board stays settled |
| Minesweeper.Game.ClickKeepsSettled | Source/GeoTechMinesweeper/GeoTechMinesweeper.h:114-120 | exposing a safe tile and flood-filling from it keeps a settled board settled |
| Minesweeper.Game.OnClicked | Source/GeoTechMinesweeper/GeoTechMinesweeper.h:108-123 | a finished game changes nothing. Otherwise the tile ends exposed, no mine moves, and `SpacesExposed` never decreases. A mine means `FinishLose`, the lose reveal of the old board, and exactly one more `SpacesExposed`. A safe tile means the game is not lost, and the state is `FinishWin` exactly when every safe tile is exposed. If the safe tile has a mine around it, the click is exactly one `Expose`: only that tile changes, and `SpacesExposed` and the state move as `Expose` says. Otherwise the ghost result `checked` is the fill's checked list, as `UnlockSurroundingTilesIfEmpty` leaves it: it starts at the clicked tile, and every later entry has no mine around and sits next to an earlier entry with no mine around. Every other tile the click exposed is a safe tile next to a checked zero-count tile, and every neighbour of the clicked tile ends exposed or checked. A settled board stays settled, and clicking an exposed tile of a settled board changes nothing |
| Minesweeper.Game.OnClickedTwice | Source/GeoTechMinesweeper/GeoTechMinesweeper.h:108-123 | on a settled board, the second of two clicks on the same tile leaves the board, `SpacesExposed` and the state as the first left them |
| Minesweeper.Game.OnRightClicked | Source/GeoTechMinesweeper/GeoTechMinesweeper.h:82-96 | a finished game or an exposed tile leaves everything unchanged. Otherwise only that tile's flag flips, and `FlagsPlaced` moves by +1 or -1 to match. No mine moves and the board stays settled |
| Minesweeper.Game.FlagKeeps | Source/GeoTechMinesweeper/GeoTechMinesweeper.h:92-93 | toggling a hidden tile's flag with the counter following keeps the invariant and the settled property |
| Minesweeper.Game.OnRightClickedTwice | Source/GeoTechMinesweeper/GeoTechMinesweeper.h:92-95 | two right clicks on the same tile restore the board and `FlagsPlaced` |

## Left out

- The Slate user interface is not modelled. This covers module start-up and shutdown, the toolbar and menu entries, the modal window, the custom mouse button, `SetPlayArea`'s widget tree, and the end-of-game dialog. Those parts only build or drive widgets.
- Other side effects of `SetState` are not modelled: the `TotalPlayCount` nagging, `LaunchURL`, and the message pumping. They are user-interface and operating-system effects.
- `GetImage`, `GetColor` and `GetBackgroundColor` are not modelled, because they return brushes and colours.
- The destructor and `PlayAreaGridWidgets` are not modelled; they are memory management only.
- The tile's widget pointers (`Button`, `Image`, `Text`) are not fields of the model. Its back-pointer `Game` is not a field either: the tile's methods are `Game` methods that take the tile's coordinates.
- `FMath::RandRange` is replaced by a parameter, `samples`: the sequence of positions the random draws would return. The constructor requires that the draws are in bounds and contain at least the clamped mine count of distinct cells. The source's loop only ends under that condition, which holds with probability 1. Uniformity of the draws is not modelled.
- Minesweeper.Game.constructor requires `Width >= 1` and `Height >= 1`. The engine itself does not check this. With a zero side, the layout loops do nothing. A requested count of at least 1 then clamps to `FMath::Clamp`'s `Max`, which is 0, so no mine is drawn and the constructor finishes with an empty board, `MineCount` 0 and state `Playing`. A requested count of 0 or less clamps to 1, and that first draw fails `GetTile`'s bounds check. The model does not cover these empty boards. The settings panel never passes a zero side, because it clamps both sides into `[1, 256]`.
- Minesweeper.Game.Expose requires that the game is not lost. The same holds for `OnTileExposed`, `UnlockSurroundingTilesIfEmpty` and `VisitNeighbour`. Their only callers never expose a tile after a loss: `OnClicked` returns on a complete game, and the flood fill never exposes a mine. After a loss, the reveal exposes mines without counting them, so `SpacesExposed` no longer equals the number of exposed tiles.
- Minesweeper.Game.SweepColumn is the fill's inner loop, and Minesweeper.Game.VisitNeighbour is that loop's body. Each is split out into its own method, and both are mutually recursive with `UnlockSurroundingTilesIfEmpty`. The loops and the passes happen exactly as in the source.
- `FString::FormatAsNumber` is modelled as plain decimal digits, without digit-group separators. Counts never exceed 8, so no separator could appear.
- `int` overflow is not modelled: integers are unbounded. The counters stay within `[0, Width * Height]`, and the settings panel keeps `Width * Height` at or below 65536.
- The engine follows the code, not an idealised game, in three places:
  - Flags survive exposure. Exposing a flagged tile, which the flood fill may do, leaves its flag set and `FlagsPlaced` unchanged.
  - `OnTileExposed` does not check whether the game is already won. This never matters: a win leaves every safe tile exposed, so every later `Expose` in the same flood fill returns at once (`WinIsFinal`).
  - A neighbour with a nonzero count is never added to the checked list, so it may be exposed more than once. Exposing is idempotent, so this is harmless.
