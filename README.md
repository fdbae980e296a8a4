# Counter Buddy: the counter-list store

Counter Buddy is a small web app that keeps a list of named counters. Each
counter has an id, a name, a count, a history of entries (most recent first,
each with a timestamp, a delta and an optional note), and creation and update
times. The app changes the list through a handful of operations: add a counter
in front, remove one, rename, reset, count up (optionally with a note), undo the
last count, and reorder: one step up or down, to the top or bottom, or by drag
and drop. It also cycles a colour theme and shows "how long ago" a counter was
updated.

This project models those operations in Dafny and proves what they guarantee:

- `wrappers.dfy`: the `Option` type for JavaScript's absent values.
- `seqs.dfy`: the two `splice` calls of `reorderCounters` as `RemoveAt` and
  `InsertAt`, their composition `Moved`, and the proofs that a move is a
  permutation that keeps every other element's relative order.
- `counters.dfy`: the `Rec` and `Counter` records, the lookup by id, the
  most-recent-positive-entry search, and `Bump`, the change `inc` makes to one
  counter. The invariant "count equals the number of positive entries" is
  `Consistent`. It is proved to survive the UI's +1 and -1 calls.
- `reorder.dfy`: which move (source index, target index) the up/down menu
  items, the top/bottom items and the two drop handlers ask for, and what
  the list looks like afterwards.
- `store.dfy`: the `CounterStore` class with the `counters` field and one
  method per operation. Each method's postcondition gives the new list as a
  function of the old list and says the invariant is kept. Removal by id is
  also here, with its lemmas.
- `helpers.dfy`: the theme cycle and the elapsed-time buckets of `timeAgo`.

Fresh ids and the current time come from `Math.random` and `Date` in the app.
Here they are parameters (`id`, `now`, `nowMs`). Nothing reads a clock or a
random source. The app writes the whole state to `localStorage` (app.js:259-271);
that step is not modelled.

## Model

| member | source | states |
|---|---|---|
| `Seqs.RemoveAt` | app.js:680 | `splice(i, 1)` shortens the list by one: elements before i stay, elements after i shift down by one |
| `Seqs.InsertAt` | app.js:681 | `splice(i, 0, x)` puts x at index i: elements before i stay, elements from i shift up by one |
| `Seqs.RemoveInsert` | app.js:680-681 | removing the element just inserted at i gives back the original list |
| `Seqs.InsertRemove` | app.js:680-681 | putting a removed element back at its index gives back the original list |
| `Seqs.RemoveAtMultiset` | app.js:680 | `splice(i, 1)` takes exactly the element at i out of the multiset of counters |
| `Seqs.InsertAtMultiset` | app.js:681 | `splice(i, 0, x)` adds exactly x to the multiset of counters |
| `Seqs.Moved` | app.js:678-682 | reorderCounters keeps the length of the list and puts the counter taken from src at dst |
| `Seqs.MovedIsPermutation` | app.js:678-682 | reordering keeps the length and the multiset of counters, puts the moved counter at dst, and taking it out again leaves the others in their old order |
| `Seqs.MovedAt` | app.js:678-682 | where every element ends up: the moved one at dst, the ones between src and dst shifted one step towards src, the rest unchanged |
| `Seqs.MovedInPlace` | app.js:678-682 | a move of a counter onto its own index leaves the list unchanged |
| `Seqs.MovedAdjacentSwaps` | app.js:678-682 | a move by one position exchanges the counter with its neighbour |
| `Seqs.MovedToFront` | app.js:678-682 | a move to index 0 gives the counter followed by the others in their old order |
| `Seqs.MovedToBack` | app.js:678-682 | a move to the last index gives the others in their old order followed by the counter |
| `Counters.NewCounter` | app.js:300-307 | a new counter has the given id and name, count 0, createdAt and updatedAt now, and is consistent (no history) |
| `Counters.NoteOrEmpty` | app.js:362 | `note || ''`: a given note is stored as it is, and the stored note is empty exactly when none or an empty one was given |
| `Counters.IndexOf` | app.js:241 | the lookup by id (`findIndex` and `find`) gives -1 exactly when no counter has the id; otherwise it gives the first counter with that id |
| `Counters.FirstPositive` | app.js:372 | the undo search gives -1 exactly when no entry is positive; otherwise it gives a positive entry with only non-positive entries before it, which is the most recent positive one |
| `Counters.AddHistory` | app.js:361-364 | addHistory puts exactly one entry in front of the unchanged history: timestamp now, the given delta, and the note or '' when there is none. The positive count grows by one exactly when the delta is positive. Nothing else in the counter changes |
| `Counters.Bump` | app.js:366-384 | inc's change to a counter: id, name and createdAt are kept. An undo at count <= 0 is a no-op, so updatedAt is not bumped either. Any other call stamps updatedAt with now and leaves a non-negative count. A delta >= 0 sets the count to max(0, count + delta) and puts exactly the entry (now, delta, note or '') in front of the old history |
| `Counters.BumpWritesNoNegative` | app.js:369-379 | inc never writes a negative entry: an undo only takes entries out (its history is a sub-multiset of the old one), and any entry that was not there before has a delta >= 0 |
| `Counters.PositiveCountRemoveAt` | app.js:373 | taking one entry out lowers the number of positive entries by one exactly when that entry was positive |
| `Counters.FirstPositiveFinds` | app.js:372-373 | the undo search finds an entry exactly when some entry is positive |
| `Counters.UndoDropsMostRecentPositive` | app.js:369-375 | an undo at a positive count sets count to count - 1 and stamps updatedAt. If a positive entry exists, the history loses exactly the first one, the rest keep their order, and the positive count drops by one. Otherwise the history is unchanged |
| `Counters.BumpKeepsConsistent` | app.js:366-384 | for any delta <= 1 (the UI's calls use +1 and -1), inc keeps count equal to the number of positive entries, so the count is never negative |
| `Counters.UndoCancelsIncrement` | app.js:366-384 | a +1 followed by an undo gives back the count and the history as they were; only updatedAt differs |
| `Reorder.Clamp` | app.js:244 | the clamped target lies within the list, and a target already within it is kept |
| `Reorder.StepMove` | app.js:240-248 | moveCounterById moves from the counter's index to index - 1 for a negative delta and index + 1 otherwise, within the list. It does nothing exactly when the id is missing or the clamped target equals the index |
| `Reorder.StepMoveSwapsNeighbours` | app.js:240-248 | an up/down step exchanges the counter with its neighbour and moves nothing else |
| `Reorder.EdgeMove` | app.js:250-257 | moveCounterToEdge targets index 0 for 'top' and the last index for any other edge. It does nothing exactly when the id is missing or the counter is already there |
| `Reorder.EdgeMoveTop` | app.js:250-257 | after moveCounterToEdge with 'top' the counter is first and the others keep their order. This also holds when nothing moved |
| `Reorder.EdgeMoveBottom` | app.js:250-257 | after moveCounterToEdge with any other edge the counter is last and the others keep their order. This also holds when nothing moved |
| `Reorder.CardDropMove` | app.js:613-629 | a drop on a card only ever asks for an in-range move of the dragged counter to a different index, so the reorder's precondition always holds |
| `Reorder.DropIndex` | app.js:623-624 | the drop target is the target card's index in the list without the dragged card, plus one for the bottom half; it is never negative for two indexes found in the list |
| `Reorder.DropOnCardFound` | app.js:620-625 | when both counters are in the list and differ, a card drop asks for the move to the adjusted target, or for nothing when that is where the dragged counter already is |
| `Reorder.MovedInFrontOf` | app.js:623-624 | moving src to the adjusted top-half target leaves it directly in front of the card it was dropped on |
| `Reorder.MovedBehind` | app.js:623-624 | moving src to the adjusted bottom-half target leaves it directly behind the card it was dropped on |
| `Reorder.DropOnTopHalf` | app.js:613-629 | a counter dropped on the top half of another counter's card ends up directly in front of it |
| `Reorder.DropOnBottomHalf` | app.js:613-629 | a counter dropped on the bottom half of another counter's card ends up directly behind it |
| `Reorder.EndDropMove` | app.js:633-642 | a drop on the empty area only ever asks to move the dragged counter to the last index, and only when it is not there yet |
| `Reorder.DropAtEndResult` | app.js:633-642 | after a drop on the empty area the dragged counter is last and the others keep their order |
| `Reorder.ApplyIsPermutation` | app.js:678-682 | every move the menu items or the drop handlers make keeps the length and the multiset of counters |
| `Store.NameOrDefault` | app.js:299 | the default name is used only when no name is passed; a passed name, even an empty one, is kept |
| `Store.IncIn` | app.js:366-384 | inc changes only the first counter with the id, as Bump describes; no id changes and every other counter is kept |
| `Store.RenameIn` | app.js:352-359 | renameCounter changes only the first counter with the id, as Renamed describes; no id changes and every other counter is kept |
| `Store.ResetIn` | app.js:1025-1033 | resetCounter changes only the first counter with the id, as Reset describes; no id changes and every other counter is kept |
| `Store.WithoutId` | app.js:347 | the removal filter never makes the list longer |
| `Store.WithoutIdMembers` | app.js:347 | after the removal filter, the list holds exactly the old counters whose id differs |
| `Store.WithoutAbsentId` | app.js:347 | removing an id that no counter has leaves the list unchanged |
| `Store.WithoutIdAppend` | app.js:347 | the removal filter distributes over concatenation, so the kept counters stay in their relative order |
| `Store.WithoutIdKeepsOthers` | app.js:347 | every counter with another id is kept as many times as it occurred |
| `Store.WithoutIdIdempotent` | app.js:336-343 | running the removal filter a second time (both transitionend and the timeout call finish) changes nothing |
| `Store.RemoveUndoesAdd` | app.js:299-350 | removing a counter that was just added with a fresh id gives back the list as it was |
| `Store.Renamed` | app.js:352-356 | rename sets the new name, or keeps the old one when the new name is empty. updatedAt becomes now and nothing else changes |
| `Store.Reset` | app.js:1025-1030 | reset sets count to 0, empties the history and stamps updatedAt, which makes the counter consistent. id, name and createdAt are kept |
| `Store.IncKeepsAllConsistent` | app.js:366-384 | with delta <= 1, inc keeps every counter of the list consistent |
| `Store.CounterStore.constructor` | app.js:8-9 | the store starts with no counters |
| `Store.CounterStore.AddCounter` | app.js:299-308 | the new counter (count 0, empty history, created and updated now, the default name when none is given) is put in front of the old list. The invariant is kept |
| `Store.CounterStore.RemoveCounter` | app.js:314-350 | while the card is on screen the list is left unchanged (the filter waits for the leave animation); otherwise the list becomes the removal filter of the old list. The invariant is kept |
| `Store.CounterStore.FinishRemoval` | app.js:336-341 | the deferred `finish` callback filters the list as it is when it runs. The invariant is kept |
| `Store.CounterStore.RenameCounter` | app.js:352-359 | only the first counter with the id is renamed, and a missing id changes nothing. The invariant is kept |
| `Store.CounterStore.Inc` | app.js:366-384 | only the first counter with the id changes, as Bump describes, and a missing id changes nothing. With delta <= 1 the invariant is kept |
| `Store.CounterStore.ResetCounter` | app.js:1025-1033 | only the first counter with the id is reset, and a missing id changes nothing. The invariant is kept |
| `Store.CounterStore.ReorderCounters` | app.js:678-682 | the list becomes the old list with the counter at src moved to dst. It is a permutation of the old list, and the invariant is kept |
| `Store.CounterStore.MoveCounterById` | app.js:240-248 | the list becomes the old list with StepMove's move applied. It is a permutation, and the invariant is kept |
| `Store.CounterStore.MoveCounterToEdge` | app.js:250-257 | the list becomes the old list with EdgeMove's move applied. It is a permutation, and the invariant is kept |
| `Store.CounterStore.DropOnCard` | app.js:613-629 | the list becomes the old list with the card-drop move applied. It is a permutation, and the invariant is kept |
| `Store.CounterStore.DropAtEnd` | app.js:633-642 | the list becomes the old list with the empty-area drop move applied. It is a permutation, and the invariant is kept |
| `Theme.IndexOfTheme` | app.js:1135 | `indexOf` gives -1 exactly when the theme is not listed; otherwise it gives the theme's first position |
| `Theme.NextTheme` | app.js:1134-1137 | a click always lands on a listed theme, and on 'pink' when the current theme is not listed |
| `Theme.NextThemeSteps` | app.js:1126-1136 | the clicks go pink to mint, mint to sky, and sky to pink |
| `Theme.NextThemeCycles` | app.js:1126-1136 | from a listed theme, the next two clicks give other themes and the third click comes back |
| `Theme.StartTheme` | app.js:1129 | the starting theme is the stored one when it is non-empty, and 'pink' otherwise |
| `Elapsed.TimeAgo` | app.js:282-283 | the '-' phrase is chosen exactly when there is no timestamp |
| `Elapsed.NestedFloors` | app.js:286-293 | the nested floors (seconds, then minutes, hours, days) equal the elapsed milliseconds floored by a minute, an hour and a day |
| `Elapsed.TimeAgoBuckets` | app.js:286-295 | each phrase covers one interval of elapsed time: under 10 s, under a minute, under an hour, under a day, under two days ('yesterday'), under a week, and older. The number shown is the elapsed time in whole units of that phrase |

## Left out

- Rendering, popovers, modals, confirmation dialogs, FLIP and rename animations, drag images, long-press and tap handling, panel dragging: these are presentation. The model starts where the list changes.
- `save`, `load`, `exportJSON`, `importJSON`: these are `localStorage`, file and clipboard I/O. The model has no persist step. Data loaded or imported from outside may break the consistency invariant, so the invariant appears as a condition in the methods' postconditions, not as a class invariant.
- `uid()` and `nowISO()`: ids and timestamps are parameters. Fresh-id uniqueness appears only where a lemma needs it (`Store.RemoveUndoesAdd`).
- Store.CounterStore.AddCounter: the source reads the clock twice, once for createdAt and once for updatedAt, so the two may differ by a millisecond. The model uses one `now` for both.
- Store.CounterStore.Inc: the source reads the clock twice, once for the new entry's timestamp and once for updatedAt. The model uses one `now` for both.
- Counters are JavaScript objects updated in place inside the array. The model replaces the counter value at the index the lookup found. Nothing else reads the counter between the lookup and the update, so the effect on the list is the same. Object identity and aliasing are not modelled.
- Store.CounterStore.ReorderCounters: requires both indexes to be in range. Every caller checks this (proved for the four callers). What JavaScript's `splice` does with out-of-range indexes is not modelled.
- JavaScript numbers are doubles. Counts and deltas are modelled as unbounded integers, and NaN deltas are not modelled.
- The `h &&` guard in the undo search (app.js:372) skips null history entries. The model has no null entries.
- Elapsed.TimeAgo: models only the choice of phrase and the number it shows. The model does not cover the calendar text for 'yesterday' and older dates, which uses local-time `Date` getters. It also does not cover unparsable timestamps, where JavaScript computes NaN. `fmtTime` is not modelled.
- Editing a history note (app.js:817-823) and clearing all counters (app.js:1018) are dialog handlers outside the modelled operations.
- Store.CounterStore.RemoveCounter: when the card is on screen the filter runs later, in FinishRemoval, on the list as it is then. Which operations run before it depends on transitionend and the 280 ms timer, which are not modelled; the caller of the model picks that order by calling FinishRemoval when it chooses.
- `forceUpdateAssets` and sw.js are service-worker caching and network plumbing, so they are not modelled.
