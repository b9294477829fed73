# Minesweeper core in Dafny

A model of the game engine and the leaderboard of a browser minesweeper
written in TypeScript (`main.ts`), with proofs of what each operation does.

- `Board` (board.dfy) is the pure part of the board. It covers:
  - positions and the neighbour list of `_get_surrounding_tiles`;
  - the tile record that stands in for a button's `textContent` and `className`;
  - the adjacency count `_set_numbers` writes;
  - the flag cycle of a right-click;
  - relations between two snapshots of the board ("only uncovered", "only safe tiles uncovered", "flood closed").
- `Engine` (engine.dfy) is the running game: class `Game`.
  - It holds the `tiles` grid as an `array2` and the globals `amount_mines`, `amount_flags`, `discovered_tiles`, `first_click_happened` and `game_over` as fields.
  - Its methods are `reveal_tile` and its helpers: `_first_click`, `_set_mines`, `_set_numbers`, `_reveal_empty_tiles` and `_reveal_all_tile_contents`.
  - Its invariant `Valid()` ties the counters to the board:
    - `amount_flags` is the number of flags;
    - `discovered_tiles` is the number of uncovered safe tiles;
    - after the first click, every tile holds exactly what `_set_numbers` computes from the mines.
- `Leaderboard` (leaderboard.dfy) is the class `LeaderboardSize`:
  - the sorted, capped `leaders` table;
  - `add_user`;
  - the two-layer base64 form it keeps in `localStorage`, and reading that form back.
- `Base64` (base64.dfy) models the browser's `btoa` and `atob` (section 4 of RFC 4648).
- `Text` (text.dfy) models `String(n)`, `parseInt` and `split` with a one-character separator.
- `TimeFormat` (timeformat.dfy) models `_convert_time_to_string`.

The browser is not part of the model, and neither is anything it provides:
- DOM elements, images and screens;
- `console`;
- the clock behind `TimeTracker`;
- `Math.random`.

Where the source reads those, the model takes the value as a parameter or leaves the step out (see below). `localStorage` is a `Storage` object holding a map from keys to strings.

## Model

| member | source | states |
|---|---|---|
| Engine.Game.constructor | main.ts:1291-1297 | `create_field` / the end of `custom_setup`: a width by height grid of undiscovered empty tiles, counters at zero, no first click, game not over, invariant established |
| Engine.CustomSetupAccepts | main.ts:1329 | the guard of `custom_setup` accepts a board exactly when at least nine tiles are left without a mine |
| Engine.ThinBoardAccepted | main.ts:1329 | as written, the guard admits a one-column board (1 by 9 without mines passes it); on such a board one reader of the corner step of `_set_numbers` lands outside the grid |
| Engine.NegativeCountAccepted | main.ts:1329 | as written, the guard also accepts a negative mine count (such as −1 on 3 by 3); the win target width·height − `amount_mines` then exceeds the number of tiles, which `discovered_tiles` never does |
| Engine.CornerReadsInGrid | main.ts:811-836 | every reader called by the corner step of `_set_numbers` stays on the board if and only if the board has at least two columns and two rows |
| Engine.PlayableSetup | main.ts:1329 | `SetupPlayable`, the guard the constructor requires, holds exactly when the source's guard holds, every reader of the corner step stays on the board, and the mine count is not negative; the win target width·height − `amount_mines` then lies between 9 and the number of tiles |
| Engine.Game.SetMines | main.ts:760-787 | `_set_mines`: exactly `amount_mines` distinct in-grid mines, none of them among the excluded tiles, each written as "M", every other tile left empty and undiscovered |
| Engine.Game.DrawMines | main.ts:760-773 | the draw loop: the excluded tiles are kept in front and followed by `amount_mines` distinct in-grid positions outside them |
| Engine.Game.WriteMines | main.ts:775-777 | the loop from `exclude_length`: a tile holds "M" exactly when it is among the drawn positions |
| Engine.Game.IsMine | main.ts:628-700 | `_top_is_mine` … `_bottom_right_is_mine`: the reader for a direction gives 1 exactly when the tile it looks at is a mine |
| Engine.Game.CornerSum | main.ts:812-836 | the sum of the three readers a corner uses is that corner's number of adjacent mines |
| Engine.Game.RowEdgeSum | main.ts:838-855 | the sum of the five readers a top- or bottom-row tile uses is its number of adjacent mines |
| Engine.Game.ColumnEdgeSum | main.ts:857-874 | the sum of the five readers a first- or last-column tile uses is its number of adjacent mines |
| Engine.Game.InnerSum | main.ts:876-885 | the sum of all eight readers is the number of adjacent mines of an inner tile |
| Engine.Game.NumberCorner | main.ts:812-836 | one corner gets its number ("" for none, "M" kept), and no other tile changes |
| Engine.Game.NumberCorners | main.ts:812-836 | the four corners are numbered |
| Engine.Game.NumberRowEdge | main.ts:838-855 | the first (then the last) row, without its corners, is numbered, and earlier blocks stay numbered |
| Engine.Game.NumberColumnEdge | main.ts:857-874 | the first (then the last) column, without its corners, is numbered, and earlier blocks stay numbered |
| Engine.Game.NumberInner | main.ts:876-886 | every inner tile is numbered, and the border stays numbered |
| Engine.Game.SetNumbers | main.ts:811-887 | `_set_numbers`: every tile ends up holding "M" for a mine, else its count of adjacent mines ("" for zero), all undiscovered |
| Engine.Game.PlaceMines | main.ts:796-804 | the clicked tile and its neighbours are excluded; the mines are laid and the board is numbered, so the clicked tile is empty and none of its neighbours is a mine |
| Engine.Game.FirstClick | main.ts:789-809 | `_first_click`: on the first click the board is seeded away from the clicked tile, which then holds "", and it is exactly the fresh numbered board with every tile undiscovered; on later clicks nothing changes; no counter and no visibility changes either way |
| Engine.Game.DiscoveredBound | main.ts:1193-1206 | `discovered_tiles` stays between 0 and the number of tiles |
| Engine.Game.ExposeMine | main.ts:1174-1179 | a hidden mine becomes uncovered: exactly one more exploded tile, flags unchanged |
| Engine.Game.ExposeSafe | main.ts:1193-1194 | a hidden safe tile becomes uncovered and `discovered_tiles` goes up by one |
| Engine.Game.RevealEmptyTiles | main.ts:584-612 | `_reveal_empty_tiles`: only safe tiles are uncovered; every uncovered empty tile, the start included, is left with no undiscovered neighbour; every tile uncovered is reached from the start through a chain of adjacent empty tiles that were undiscovered before the call; flags and exploded tiles unchanged |
| Engine.Game.RevealNeighbour | main.ts:590-611 | one pass of its loop: the neighbour is no longer undiscovered afterwards; only safe tiles were uncovered, the flood stays closed, and every tile uncovered is reached from the empty tile through a chain of adjacent empty tiles that were undiscovered before the pass |
| Engine.Game.WinTargetMeansSafeUncovered | main.ts:1277 | `discovered_tiles` reaches width·height − `amount_mines` exactly when every safe tile is uncovered |
| Engine.Game.CycleMark | main.ts:1242-1268 | a right-click cycles undiscovered → flag → question mark → undiscovered; `amount_flags` follows the set of flags (`_add_flag` / `_remove_flag`) |
| Engine.Game.RevealUndiscovered | main.ts:1171-1206 | a left-click on an undiscovered tile uncovers it. On a mine the game is over, every undiscovered tile is uncovered, and flags and question marks stay. On a safe tile only safe tiles are uncovered, each reached from the clicked tile through adjacent empty tiles that were undiscovered before the click, and the flood closes around every empty one. During the reveal after a loss, only this tile changes |
| Engine.Game.RevealMine | main.ts:1174-1190 | uncovering a mine ends the game and, outside the reveal after a loss, uncovers every undiscovered tile while flags and question marks stay |
| Engine.Game.RevealSafe | main.ts:1192-1205 | uncovering "" or a number counts one discovered tile; only safe tiles are uncovered, each reached from the clicked tile through adjacent empty tiles that were undiscovered before the click; on "" it floods with `_reveal_empty_tiles` and the flood closes around every empty tile, except during the reveal after a loss, when only this tile changes |
| Engine.Game.RevealAllTileContents | main.ts:1074-1080 | `_reveal_all_tile_contents`: every undiscovered tile is uncovered, so none is left undiscovered; flags, question marks and the flag count stay, and the game stays lost |
| Engine.Game.FlagsAround | main.ts:1216-1226 | the scan of the surroundings stops at a question mark exactly when one is adjacent; otherwise it counts the adjacent flags |
| Engine.Game.Chord | main.ts:1210-1238 | a click on a number: blocked exactly when a neighbour holds a question mark; with a different flag count nothing changes; with as many flags as the number, every adjacent tile ends up uncovered, except mines left covered because the game was won first. Tiles are only uncovered and the flood stays closed; unless a mine was hit (a wrong flag), only safe tiles are uncovered, each reached from a neighbour of the number that was undiscovered, through adjacent empty tiles that were undiscovered before the chord |
| Engine.Game.RevealClick | main.ts:1167-1282 | the left-click branch of `reveal_tile` and its win check, case by case: an undiscovered tile (a mine loses and uncovers every undiscovered tile; a safe tile uncovers only safe tiles reached from it), a chord on a number, and flags, question marks and uncovered tiles that stay inert; the flood stays closed and, unless a mine was hit, only safe tiles are uncovered |
| Engine.Game.RevealTile | main.ts:1157-1283 | `reveal_tile`. A click on a finished game does nothing. The first click opens an empty tile away from every mine and never loses. A left-click only uncovers, starting from the freshly numbered board on the first click: the flood stays closed and, unless a mine was hit, only safe tiles are uncovered, each reached from the clicked tile (or, for a chord, from an undiscovered neighbour of it) through adjacent empty tiles that were undiscovered before the click. A right-click, the first one included (which also lays the mines), changes only the mark of the clicked tile and the flag count. After every click the game is over exactly when a mine was uncovered or every safe tile was |
| Engine.Game.FlagClick | main.ts:1241-1282 | the right-click branch followed by the win check: the mark cycles, the flag count follows it, nothing is uncovered |
| Engine.Game.CheckWin | main.ts:1272-1282 | `game_over` becomes true exactly when it was already true or `discovered_tiles` reached the number of safe tiles |
| Board.Cells | main.ts:711-759 | the positions of the grid `_create_tiles` builds: exactly the in-grid pairs |
| Board.CellsSize | main.ts:711-759 | a width by height grid has width·height positions |
| Board.Neighbours | main.ts:546-583 | `_get_surrounding_tiles`: exactly the in-grid positions adjacent to the tile, without repetition, at most eight |
| Board.NeighbourCount | main.ts:546-583 | counting mines along that list gives the number of adjacent mines |
| Board.AdjacentByDirection | main.ts:628-700 | the eight directional readers, added up, count the adjacent mines |
| Board.CornerBits | main.ts:812-836 | at a corner, the three readers the source calls count all adjacent mines |
| Board.RowEdgeBits | main.ts:838-855 | on the top or bottom row, the five readers the source calls count all adjacent mines |
| Board.ColumnEdgeBits | main.ts:857-874 | on the first or last column, the five readers the source calls count all adjacent mines |
| Board.NumberedRange | main.ts:811-887 | a numbered tile is "M" exactly for a mine, "" exactly when no neighbour is a mine, otherwise a number from 1 to 8 equal to the adjacent-mine count |
| Board.NoAdjacentMine | main.ts:584-612 | around a tile numbered "" no neighbour is a mine (why the flood of `_reveal_empty_tiles` is safe) |
| Board.MarkCycle | main.ts:1242-1268 | three right-clicks bring a covered tile back, never uncover it, and leave the flag count as it was |
| Board.FloodTrans | main.ts:584-612 | floods that only uncover compose: flood closure is kept across successive reveals |
| Board.ReachesThrough | main.ts:596-609 | a flood from an uncovered empty tile arrives wherever a flood from one of its undiscovered neighbours does |
| Board.ReachedOnlySelf | main.ts:597-602 | a flood from a tile with no undiscovered neighbour uncovers nothing but that tile, even next to empty tiles uncovered by earlier clicks |
| Board.ReachedTrans | main.ts:584-612 | successive floods from the same tile compose: every tile uncovered is still reached from it |
| Board.UncoverThenFlood | main.ts:596-609 | uncovering a safe neighbour and flooding from it when it is empty uncovers only safe tiles, each reached from that neighbour, and keeps the flood closed |
| Board.ChordStep | main.ts:1231-1235 | one step of the chord loop keeps the flood closed and, unless a mine was hit, uncovers only safe tiles reached from an undiscovered neighbour of the number |
| Board.ChordedWhen | main.ts:1231-1235 | after the chord loop, a neighbour can stay undiscovered only when it is a mine and the game was won |
| Leaderboard.InsertedSorted | main.ts:237-262 | `add_user` keeps the table sorted by time |
| Leaderboard.InsertedLength | main.ts:237-262 | after `add_user` the table has min(n + 1, `amount_users`) rows |
| Leaderboard.InsertedOrder | main.ts:237-262 | the new row lands at its slot when there is room there, and the old rows keep their relative order; if the slot is past the cap, the table is unchanged |
| Leaderboard.InsertedStable | main.ts:240-246 | rows before the new one have times at most its time (a tie goes after the existing rows); rows after it are strictly slower |
| Leaderboard.Slot | main.ts:240-246 | the insertion index: every earlier row is no slower, the row at it is strictly slower |
| Leaderboard.LeaderboardSize.Insert | main.ts:238-258 | the splice loop and the pop compute exactly the inserted, capped table |
| Leaderboard.LeaderboardSize.AddUser | main.ts:237-265 | `add_user`: the table becomes the inserted, capped table, which is then saved |
| Leaderboard.LeaderboardSize.SetToLocalStorage | main.ts:210-221 | `set_to_localstorage`: stores the serialised table under the key; when `btoa` would throw, nothing is stored |
| Leaderboard.LeaderboardSize.GetFromLocalStorage | main.ts:110-159 | `get_from_localstorage`: a missing key is created with ""; otherwise the rows read from the stored value are appended to `leaders`, and the store is untouched |
| Leaderboard.LeaderboardSize.ReadParts | main.ts:133-158 | the loop over the parts appends exactly the rows that decode, split in two and parse; an undecodable part ends the reading |
| Leaderboard.LeaderboardSize.ParsePart | main.ts:135-155 | one part is read as the row function says |
| Leaderboard.LeaderboardSize.constructor | main.ts:81-105 | the key is "LEADERBOARD_SIZE_w_h_m" and `leaders` starts as what `get_from_localstorage` reads |
| Leaderboard.KeyFields | main.ts:91 | `LS_KEY` is "LEADERBOARD_SIZE_" followed by the width, height and mine count joined with "_" |
| Leaderboard.KeyDistinct | main.ts:91 | two board setups share a storage key only when width, height and mine count are all equal |
| Leaderboard.Storage.GetItem | main.ts:112 | `localStorage.getItem`: the stored value for a present key, null (None) for a missing one |
| Leaderboard.Storage.SetItem | main.ts:117 | `localStorage.setItem`: the key maps to the new value and every other key is kept |
| Leaderboard.ParseRow | main.ts:135-155 | one part of the stored value: unreadable exactly when `atob` fails; a row read has a name without the divider, a time that `parseInt` reads from the text after the divider, and the display `_convert_time_to_string` gives that time |
| Leaderboard.RoundTrip | main.ts:110-159 | saving a table whose names are bytes without "\|" succeeds, and reading back what was stored gives the same names and times in order, each time shown anew |
| Leaderboard.ParseRowItem | main.ts:137-155 | one encoded row reads back as the same name and time |
| Leaderboard.SerialisedNone | main.ts:210-221 | saving fails (`btoa` throws) exactly when some name has a character above 255 |
| Leaderboard.ListingNone | main.ts:213-215 | the inner layer fails exactly when some name has a character above 255 |
| Leaderboard.ListingSome | main.ts:213-215 | for storable names the inner layer is the row encodings, each followed by "\|" |
| Leaderboard.ConcatJoin | main.ts:213-217 | dropping the last character of that string joins the encodings with "\|" |
| Leaderboard.Item | main.ts:214 | the inner string of a row is bytes exactly when the name is |
| Leaderboard.Redisplayed | main.ts:154 | the rows read back have the stored names and times |
| Base64.Btoa | main.ts:214-218 | `btoa`: defined exactly on byte strings; its output has a length divisible by four, no "\|", only bytes |
| Base64.AtobBtoa | main.ts:110-159 | `atob(btoa(s)) == s` for every byte string s |
| Base64.DecodeUnpadded | main.ts:110-159 | decoding the unpadded base64 digits of s gives back s |
| Base64.UnpaddedLength | main.ts:214-218 | the unpadded digits never have a length of the form 4k + 1 and are empty only for the empty string |
| Base64.Atob | main.ts:122 | `atob` returns only byte strings |
| TimeFormat.Breakdown | main.ts:444-452 | the floor divisions: h·3600000 + min·60000 + s·1000 + ms is the time, with ms, s, min in range |
| TimeFormat.ConvertTimeToString | main.ts:443-466 | for a non-negative time, the text is "" exactly below one second |
| TimeFormat.ReadBack | main.ts:443-466 | from one second up, the shown tokens ("3h", "12min", "5s") add up to the whole seconds of the time |
| TimeFormat.ShownAsTokens | main.ts:454-463 | the text is its tokens joined by single spaces |
| Text.NatToString | main.ts:91 | `String(n)`: at least one digit, and no leading zero except for 0 itself |
| Text.ParseIntOfString | main.ts:153 | `parseInt(String(i)) == i` for every integer |
| Text.JoinSplit | main.ts:133 | joining the pieces of a split restores the string |
| Text.SplitJoin | main.ts:133 | splitting pieces joined by a character they lack gives the pieces back |
| Text.IntToString | main.ts:91 | `String(i)`: never empty, a leading minus sign exactly for a negative number, and only digits besides it |
| Text.ParseInt | main.ts:153 | `parseInt`: no number exactly when no digit follows the leading spaces and sign |
| Text.Split | main.ts:133 | `split`: at least one piece, and no piece holds the separator |

## Left out

- The DOM is not modelled: buttons, images, class names as strings, the victory and death screens, `console`, and the UI code of `LeaderboardSize` (`create_ui`, `add_option`, `reload_ui`, `hide`, `show`). A tile is a (content, visibility) record.
- `click_mode` is a parameter of `RevealTile`, not a global. `toggle_click_mode` is not modelled.
- The chord in `reveal_tile` saves and restores `click_mode` around its recursive calls. Because `click_mode` is a parameter, there is nothing to save.
- `TimeTracker` and the clock are not modelled. `time_tracker.start()`/`end()` are left out.
- `_init_flags` only draws the flag counter and is left out. `_add_flag`/`_remove_flag` are modelled as their change to `amount_flags`.
- Engine.Game.DrawMines models only the accepted draws. `Math.random` is a nondeterministic choice of an in-grid position not yet drawn. Draws that hit an already chosen tile are rejected and change nothing, so they are not modelled. Uniformity is not modelled. Termination of the source's rejection loop relies on chance and is not modelled.
- Engine.Game.constructor requires `SetupPlayable`, which is stronger than the source's guard: it also demands two columns and two rows, and a mine count that is not negative (see Findings). With a negative count the source lays no mine and its win check can never fire; the model does not build such a game.
- Reading the form inputs of `custom_setup` (`Number(x.value)`, a missing element) is not modelled. Neither are `back_button`, `toggle_custom_input` or `set_score`.
- `LeaderboardHandler`, the map of all leaderboards and its own storage key, is not part of this model.
- Leaderboard.LeaderboardSize.GetFromLocalStorage: in a browser `atob` throws instead of returning null. The model reads a throw as the end of the reading (`complete == false`) and keeps the rows read so far. The exception that then escapes the constructor is not modelled.
- Leaderboard.ParseRow: when `parseInt` finds no digits, the source pushes a row whose time is NaN. The model skips that row, since its integers have no NaN.
- Leaderboard.LeaderboardSize.SetToLocalStorage: a `btoa` that throws is modelled as nothing stored (`saved == false`). The exception itself is not modelled.
- Leaderboard.LeaderboardSize.constructor: the divider is one character (default "|"), whereas the source accepts any string.
- Base64.Atob decodes strictly within the alphabet. The forgiving decoder's stripping of ASCII white space is not modelled.
- Text.ParseInt reads base ten only. The "0x" prefix is not modelled, and the white space skipped is the ASCII set, not every Unicode space.
- TimeFormat.ConvertTimeToString takes whole milliseconds (the source applies `Math.floor` to a number). The "" result is stated for non-negative times only, since a negative time gives non-empty text.

## Findings

| source | as written | input that shows it | evidently intended | confidence | as-written member | corrected member |
|---|---|---|---|---|---|---|
| main.ts:1329 | `custom_setup` accepts a negative mine count: `amount + 9 > width * height` only rejects too many mines, so `_set_mines` lays none and the win check waits for width·height − `amount_mines` uncovered tiles, more than the board has | width 3, height 3, −1 mines, then uncover every tile | reject a negative mine count | high; not executed | Engine.NegativeCountAccepted | Engine.PlayableSetup |
| main.ts:1329 | `custom_setup` accepts any board with `amount + 9 <= width * height`, so a board one column (or one row) wide gets through, and `_set_numbers` then reads `tiles[0][1]` (via `_right_is_mine(0, 0)`) outside the grid on the first click | width 1, height 9, 0 mines, then any left-click | a board needs at least two columns and two rows before `_set_numbers` runs | high; not executed | Engine.ThinBoardAccepted | Engine.PlayableSetup |
