# One-line Scrabble: a verified model of the game logic

This project models the game logic of a browser game of one-line Scrabble
(`js/main.js`) in Dafny, separated from the jQuery and drag-and-drop code
around it, and proves properties of it.

- **Board** (`board.dfy`): fifteen slots (`BOARD_SIZE`), each empty or holding
  a tile (letter and value). It also holds the searches the game runs over the
  board: `findIndex`, `findLastIndex`, and the count of occupied slots.
- **Scoring** (`scoring.dfy`): the special-square table (`SPECIAL_TILES`:
  double word at 2 and 12, double letter at 6 and 8).
  - `WordScore` states the scoring rule directly.
  - `UpdateScore` mirrors the scan of `updateScore` and is proved to
    compute exactly `WordScore`.
  - Lemmas cover the empty-board rule, the gap rule, the closed score formula,
    the single-tile score and the effect of one tile on the score.
- **Placement** (`placement.dfy`): `isPlacementValid` and the board write of
  `handleTileDrop`. The drop is refused when the square is taken or the rule
  says no.
- **Inventory** (`inventory.dfy`): `resetTileInventory` and `dealNewTiles`.
  - The list of available letters is laid out in the inventory's enumeration
    order.
  - Each draw splices one entry out of the list at a given index and takes one
    tile of that letter off the inventory.
- **Session** (`session.dfy`): the game state (total score, board, inventory,
  rack) and its transitions:
  - `submitWord`, `restart`, `clearBoard`
  - placing a rack tile on the board, dragging a board tile back to the rack,
    and dragging a board tile to another square
  - a session invariant that every transition keeps: inventory within the
    original distribution, tiles in play carrying their catalog values, at most
    seven tiles in play, and per-letter conservation.

The catalog of letters (value and original count per letter) is a parameter.
So are two things the source gets from the runtime:
- the random index of every draw: `picks`, with `picks[i]` in range for the
  list as it stands at draw `i`;
- the enumeration order of the inventory's keys (`order`). This order decides
  which letter a given index draws.

A submit rejects every word that scores 0, not only a broken one.
`ZeroPointWordRejected` shows that a single blank tile (value 0) is one
unbroken run and is still rejected, with the message that the word must be
continuous. The model keeps this behaviour as written.

## Model

| member | source | states |
|---|---|---|
| Board.FirstOccupied | js/main.js:309 | the result is -1 exactly when the board is empty; otherwise it is an occupied slot and every slot before it is empty |
| Board.LastOccupied | js/main.js:310 | the result is -1 exactly when the board is empty; otherwise it is an occupied slot and every slot after it is empty |
| Board.OccupiedCount | js/main.js:216 | the count is at most the board size and is 0 exactly when no slot holds a tile |
| Board.CountAfterPlace | js/main.js:205-208 | writing a tile into an empty slot raises the count of placed tiles by exactly one |
| Board.CountAfterLift | js/main.js:129 | emptying an occupied slot lowers the count by exactly one |
| Board.LettersAfterPlace | js/main.js:205-208 | writing a tile into an empty slot adds exactly its letter to the letters on the board |
| Board.LettersAfterLift | js/main.js:129 | emptying a slot removes exactly its tile's letter from the letters on the board |
| Board.LettersMatchCount | js/main.js:216 | the board holds one letter per occupied slot |
| Scoring.SquareAt | js/main.js:22-27 | a square is double word exactly at 2 and 12 and double letter exactly at 6 and 8; every other square is plain |
| Scoring.UpdateScore | js/main.js:305-344 | the scan returns exactly the score of the scoring rule, and 0 on an empty board |
| Scoring.ScanSpan | js/main.js:317-340 | over a span without gaps the loop yields the bonus-weighted sum and 2 to the number of double-word squares; at an empty slot it yields 0 and 1 |
| Scoring.EmptyInSpanScoresZero | js/main.js:320-324 | an empty slot anywhere between the first and last tile makes the score 0 |
| Scoring.NotContiguousScoresZero | js/main.js:317-324 | tiles that are not one unbroken run score 0, whatever their values |
| Scoring.ScoreFormula | js/main.js:317-342 | for one unbroken run, the score is the sum of value times letter bonus, doubled once per double-word square the run covers; two double-word squares compound to four |
| Scoring.GaplessScoreFormula | js/main.js:317-342 | when every slot from the first tile to the last holds a tile, the score is the bonus-weighted sum of the whole board, doubled for each of squares 2 and 12 the run covers |
| Scoring.LetterSumUpdate | js/main.js:326-339 | replacing the contents of one slot of a range with a tile changes the range's bonus-weighted sum by the value difference times that square's letter bonus |
| Scoring.SingleTileScore | js/main.js:326-342 | a lone tile scores its value times its square's letter bonus, doubled on a double-word square; on a plain square it scores its value |
| Scoring.PositiveScoreIffContiguous | js/main.js:317-342 | when every tile is worth at least a point, the score is positive exactly when the board holds one unbroken run |
| Scoring.TileContribution | js/main.js:326-339 | replacing one tile of a run changes the score by the value difference times that square's letter bonus times the word multiplier |
| Scoring.DoubleWordsInRange | js/main.js:329-336 | the double-word squares in a range are exactly the ones among 2 and 12 that it covers |
| Placement.IsPlacementValid | js/main.js:215-233 | every index is valid on an empty board; otherwise an index is valid exactly when its left or right neighbour holds a tile, with neighbours off the board counting as empty |
| Placement.PlacementIgnoresTarget | js/main.js:216-232 | apart from the empty-board test, the rule never looks at the target slot: with another tile on the board, its verdict does not depend on that slot |
| Placement.TargetCountsOnEmptyTest | js/main.js:216-232 | the empty-board test does count the target: on an empty board every index is valid, but with a lone tile on the target itself that index is refused |
| Placement.Drop | js/main.js:185-208 | a drop is accepted exactly when the square is empty and the rule allows it; the tile lands on that square and every other square is unchanged |
| Placement.FirstDropAccepted | js/main.js:216-220 | any drop onto an empty board is accepted |
| Placement.DropAddsOneTile | js/main.js:205-208 | an accepted drop adds exactly one tile |
| Placement.DropKeepsContiguous | js/main.js:214-233 | a drop onto a board whose tiles form one run extends that run at one end |
| Placement.AdjacentDropKeepsGap | js/main.js:228-232 | on a board with a gap, a drop touching one piece is still accepted and the word stays broken |
| Inventory.Reset | js/main.js:44-49 | the inventory has exactly the catalog's letters, each at its original count |
| Inventory.ResetIsFull | js/main.js:44-49 | the reset inventory is within the distribution, and no inventory within it holds more tiles |
| Inventory.Repeat | js/main.js:268-270 | the inner loop pushes exactly `currentCount` copies of the letter |
| Inventory.Available | js/main.js:263-271 | the list has one entry per remaining tile: its length is the total, and each letter appears as often as its count |
| Inventory.DrawCount | js/main.js:273-279 | the number drawn is `min(count, remaining)`, none when that is not positive, never more than remain |
| Inventory.Draw | js/main.js:279-284 | the draw takes exactly `n` letters, each present in the inventory, and per letter the remaining count plus the letters drawn equals the count before |
| Inventory.Deal | js/main.js:261-289 | a deal hands out `min(count, remaining)` tiles with their catalog values; for each letter the count falls by exactly the number of its tiles drawn; the total falls by the number drawn |
| Inventory.TotalAfterDraw | js/main.js:279-283 | taking the drawn letters off the inventory lowers the total by exactly their number |
| Inventory.DealStaysWithinCatalog | js/main.js:283 | a deal never raises a count, so the inventory stays within the original distribution |
| Session.ClearBoard | js/main.js:358-363 | every slot is emptied and the word score is 0; total, inventory and rack are untouched |
| Session.ClearBoardKeepsValid | js/main.js:358-363 | clearing keeps the invariant; the cleared tiles leave play |
| Session.Submit | js/main.js:237-257 | empty board: nothing changes. Score 0: rejected and nothing changes. Otherwise accepted exactly when the score is positive: the total rises by the score, the board is emptied, the old rack is kept, and `min(7 - rack size, remaining)` dealt tiles are appended from the inventory. The total never falls |
| Session.Bank | js/main.js:249-254 | the accepting branch adds the points, empties the board and refills the rack from the inventory with per-letter conservation |
| Session.SubmitKeepsValid | js/main.js:237-257 | a submit keeps the session invariant |
| Session.SubmitAcceptsExactlyUnbrokenWords | js/main.js:244-247 | when every tile is worth at least a point, a submit is accepted exactly for one unbroken run and rejected exactly for a broken one |
| Session.ZeroPointWordRejected | js/main.js:244-247 | a lone blank tile is one unbroken run and is still rejected |
| Session.ExampleGap | js/main.js:317-324 | tiles on 1 and 3 with 2 empty score 0, and the submit is rejected with the game unchanged |
| Session.ExampleWord | js/main.js:305-344 | A on square 2 scores 2; B added on square 1 makes 8; submitting adds 8 and clears the board |
| Session.Restart | js/main.js:348-355 | the total is 0 and the board is empty; `min(7, tiles in the distribution)` tiles are dealt; per letter the inventory plus the rack equals the original count; every rack tile carries its catalog value |
| Session.RestartIsValid | js/main.js:348-355 | a restart starts a session that satisfies the invariant |
| Session.RestartDealsFullRack | js/main.js:354 | with at least seven tiles in the distribution, a restart deals a full rack of seven |
| Session.PlaceFromRack | js/main.js:180-210 | the tile moves from the rack to the square exactly when the square is empty and the rule allows it; otherwise nothing changes |
| Session.PlaceKeepsValid | js/main.js:205-208 | placing a rack tile keeps the invariant |
| Session.MoveToRack | js/main.js:126-129 | a tile dragged off a square empties that slot and joins the rack |
| Session.MoveToRackKeepsValid | js/main.js:126-129 | moving a board tile back to the rack keeps the invariant |
| Session.MoveOnBoard | js/main.js:118-168 | the rule is applied to the board without the dragged tile; an accepted move empties the old square and fills the new one; a refused move leaves the game as it was |
| Session.MoveOnBoardKeepsValid | js/main.js:152-161 | moving a tile between squares keeps the invariant |

## Left out

- DOM and jQuery work is not modelled: building squares, tile images, CSS, placeholders, the score display and the `alert` messages. The outcome of a submit (ignored, rejected, accepted) stands for the alerts.
- The word score is read back from the page text at js/main.js:239. The model uses the score function directly.
- Tile ids built from `Date.now` are not modelled, because they do not affect the game state.
- `Math.random` is replaced by the `picks` parameter.
- The `ScrabbleTiles` catalog is a parameter. Its content, and the start-up guard when it is missing (js/main.js:31-33), are not modelled.
- JavaScript's `for..in` key order is replaced by the `order` parameter.
- The rack droppable set-up at js/main.js:291-300 is gesture wiring. Only its effect, a tile joining the rack, is modelled, in `Session.MoveToRack`.
- Dragging a rack tile and dropping it back onto the rack is not modelled. The rack droppable at js/main.js:295-297 re-appends the tile, which only reorders the rack; the model's rack order changes only when a tile leaves it or a board tile joins it at the end.
- When a drop is refused, the page leaves the tile where the pointer released it. The model only keeps the state unchanged.
- The check for a tile already on the target square is read from the DOM in the source. The model reads it from the board, which agrees with the DOM whenever both are in sync.
- Drag start and stop on the same square are covered by `Session.MoveOnBoard` with `from == to`. The model puts the tile back.
- `Session.Submit`: the tiles to deal are `7 - |rack|`, with the rack as a sequence of tiles. The source counts `.tile` elements in the rack element.
- `Inventory.DrawCount`: the source checks `tilesToDraw === 0` before the loop. A negative count skips the loop instead, and the model folds both cases into drawing none.
