# Puzzle room of the 3D portfolio, modelled in Dafny

The portfolio's "puzzle room" is a first-person 3D room with three puzzle
stations. Each station opens a puzzle, and solving it reveals facts about the
author, five per puzzle:

- **Connection puzzle** ("Experience", type `logic`). The player joins six
  fixed nodes with directed connections. Each of the five links of
  Start → Analysis → Design → Development → Testing → End that is present
  reveals one fact.
- **Pair-match puzzle** ("Interests", type `memory`). Ten face-down cards show
  five symbols twice each. Two flipped cards with the same symbol stay matched,
  and each matched pair reveals one fact.
- **Placement puzzle** ("Skills", type `shape`). Five shapes are dragged onto
  their outlines. A drop within planar distance 1.0 places a shape for good,
  and each placement reveals one fact.

The **puzzle screen** hosts the active puzzle. When a session starts, it pins
that session's puzzle type. It then relays the puzzle's progress reports
upward under that type.

The **room controller** does the following:

- It owns the player's position and look direction.
- It owns the single active-puzzle slot and its lock. Activation settles after
  a deferred step.
- It keeps the snapshot of the player's position and look direction, and
  restores it on exit.
- It keeps the per-puzzle progress records and the completed set.
- It publishes the de-duplicated list of every fact revealed so far.

State that the source changes in place becomes a Dafny `class`:

- The components' `useState` fields and refs become class fields.
- Every method says in its `modifies` clause what it may change.
- Each `setTimeout` callback becomes an explicit method that the caller
  invokes later: `MemoryPuzzle.PairMatchPuzzle.ResolveMatch`,
  `MemoryPuzzle.PairMatchPuzzle.ResolveMismatch` and
  `PuzzleRoom.Room.FireActivation`.

The pure parts become functions, and their properties are stated as lemmas:

- the fixed data;
- the correctness of a connection;
- one evaluation pass over the connections;
- the de-duplication;
- the per-station status list.

Further modelling choices:

- A JavaScript `null`, `undefined` or `''` puzzle tag is the empty string.
- `Math.min(100, Math.round(k / total * 100))` is computed in integer
  arithmetic by `Common.CappedPercent`. Its contract pins the rounding:
  `total·(2r−1) ≤ 200k < total·(2r+1)`.

Files: `common.dfy` (shared datatypes, percentages, distinct sequences),
`logic_puzzle.dfy`, `memory_puzzle.dfy`, `puzzle_game.dfy`,
`puzzle_screen.dfy` and `puzzle_room.dfy`, one module each.

## Model

| member | source | states |
|---|---|---|
| Common.RoundPercent | src/components/PuzzleRoom.jsx:818-820 | `Math.round(k/total·100)` as an integer: the result r satisfies total·(2r−1) ≤ 200k < total·(2r+1), i.e. it is the nearest integer to the percentage, halves rounded up |
| Common.CappedPercent | src/components/LogicPuzzle.jsx:218 | `Math.min(100, Math.round(...))`: never above 100, equal to the rounded percentage up to k = total, and 100 from there on |
| Common.RoundPercentOfFive | src/components/PuzzleScreen.jsx:104-113 | with five facts per puzzle every percentage is exactly 20 per fact, capped at 100 |
| Common.Slice | src/components/LogicPuzzle.jsx:231 | `progressFacts.slice(0, n)`: the first min(n, length) entries, so a count past the end gives the whole list |
| LogicPuzzle.NodeIds | src/components/LogicPuzzle.jsx:26-33 | `nodes.find(n => n.id === id)` succeeds exactly for ids 1..6 |
| LogicPuzzle.CorrectConnectionShape | src/components/LogicPuzzle.jsx:401-413 | a connection is correct iff it goes from node i to node i+1 for 1 ≤ i ≤ 5, in that direction; the reversed edge of a correct one is never correct |
| LogicPuzzle.CorrectOnes | src/components/LogicPuzzle.jsx:130 | the connections filtered by correctness: an element is kept iff it is in the input and correct |
| LogicPuzzle.Evaluate | src/components/LogicPuzzle.jsx:196-215 | the evaluation loop's counters: the correct count equals the number of correct connections; hasStart iff some connection leaves node 1; hasEnd iff some connection enters node 6 |
| LogicPuzzle.CountConnections | src/components/LogicPuzzle.jsx:196-215 | the `for` loop with its three mutable counters computes exactly `Evaluate` |
| LogicPuzzle.RemoveAt | src/components/LogicPuzzle.jsx:420-422 | `splice(index, 1)` on a copy: one entry fewer, the others kept in order; an index past the end removes nothing |
| LogicPuzzle.ConnectionPuzzle.constructor | src/components/LogicPuzzle.jsx:8-13 | no node selected, no connections, progress 0, no warning |
| LogicPuzzle.ConnectionPuzzle.CheckSolution | src/components/LogicPuzzle.jsx:190-254 | returns solved iff start edge, end edge and five correct; sets progress to the capped percentage of correct connections; leaves at most one warning (path warning first, then incorrect-connection warning, none on a solve); reports the first `correct` facts tagged "logic" on a solve or when anything is correct |
| LogicPuzzle.ConnectionPuzzle.NodeClick | src/components/LogicPuzzle.jsx:119-187 | with nothing selected: selects and reports the facts earned so far; on the selected node: deselects, adds nothing; on another node: appends exactly one connection iff both nodes exist and the unordered pair is not yet joined, re-evaluates, and always clears the selection; the warning is cleared first; no self-loop and no duplicate pair is ever introduced |
| LogicPuzzle.ConnectionPuzzle.RemoveConnection | src/components/LogicPuzzle.jsx:418-426 | the connection list becomes `RemoveAt(old, index)` and progress, warning and report are those of re-evaluating the new list (so progress may drop) |
| LogicPuzzle.AppendKeepsValid | src/components/LogicPuzzle.jsx:150-171 | appending a connection between two existing distinct nodes that no connection joins keeps "no self-loops" and "no duplicate pairs" |
| LogicPuzzle.RemoveKeepsValid | src/components/LogicPuzzle.jsx:418-423 | removing an entry keeps both invariants |
| LogicPuzzle.CorrectOnesDistinct | src/components/LogicPuzzle.jsx:158-163 | with no duplicate pairs the correct connections are pairwise different |
| LogicPuzzle.CorrectAtMostFive | src/components/LogicPuzzle.jsx:200-218 | at most five connections are ever correct, and five correct ones are all of the correct sequence |
| LogicPuzzle.SolvedIffAllCorrect | src/components/LogicPuzzle.jsx:218-237 | the puzzle is solved iff five connections are correct iff progress is 100 iff all five correct edges are on the board, whatever incorrect extras there are; progress is 20 per correct connection |
| LogicPuzzle.AllCorrectPresentCountsFive | src/components/LogicPuzzle.jsx:197-215 | when the correct connections are pairwise different, a board holding every correct edge counts at least five of them |
| LogicPuzzle.ExtraIncorrectConnection | src/components/LogicPuzzle.jsx:234-246 | an extra incorrect connection changes neither the correct count nor a solve, and an unsolved board whose last connection is incorrect carries a warning |
| MemoryPuzzle.Pairs | src/components/MemoryPuzzle.jsx:37-40 | `flatMap(card => [card, card])`: twice as many cards as symbols |
| MemoryPuzzle.PairsAt | src/components/MemoryPuzzle.jsx:37-40 | card i of the paired deck shows symbol i/2 and is unmatched |
| MemoryPuzzle.PairedDeckIsDeck | src/components/MemoryPuzzle.jsx:17-61 | the deck before shuffling has 10 unmatched cards, each of the five symbols on exactly two of them |
| MemoryPuzzle.MatchedPairsBound | src/components/MemoryPuzzle.jsx:97-105 | `matchedPairs` holds at most the five symbols, and all five exactly when every card is matched |
| MemoryPuzzle.MatchKeepsPairs | src/components/MemoryPuzzle.jsx:97-103 | marking both cards of a pair and appending its symbol keeps "matched iff symbol in matchedPairs" and the distinctness of `matchedPairs` |
| MemoryPuzzle.PairMatchPuzzle.constructor | src/components/MemoryPuzzle.jsx:35-64 | any arrangement satisfying the deck invariant, nothing flipped, nothing matched, unlocked, progress 0 |
| MemoryPuzzle.PairMatchPuzzle.FlipCard | src/components/MemoryPuzzle.jsx:67-132 | ignored when locked, already flipped or matched; otherwise appends the index, reports the facts earned so far on the first flip of a turn, and on the second flip locks and schedules the match or mismatch resolution according to the two symbols; never more than two distinct flipped cards |
| MemoryPuzzle.PairMatchPuzzle.ResolveMatch | src/components/MemoryPuzzle.jsx:96-125 | marks exactly the two cards matched, appends the symbol, empties the flips and unlocks; progress is the capped percentage of pairs-before + 1 and the first pairs-before + 1 facts are reported; matched flags only go from false to true |
| MemoryPuzzle.PairMatchPuzzle.ResolveMismatch | src/components/MemoryPuzzle.jsx:128-131 | empties the flips and unlocks; cards, pairs and progress unchanged |
| PuzzleGame.InitialPieces | src/components/PuzzleGame.jsx:253-261 | five pieces; piece i has id i, shape i, target i, and is unplaced |
| PuzzleGame.TargetsDistinct | src/components/PuzzleGame.jsx:230-236 | each piece has its own outline |
| PuzzleGame.SnapShape | src/components/PuzzleGame.jsx:272-278 | a drop on the outline snaps; a drop a whole unit off in x or y never snaps; the height of the drop plays no part |
| PuzzleGame.FactsAtPercent | src/components/PuzzleGame.jsx:315-320 | fact i is included iff the percentage reaches 20·(i+1), and the result is a prefix of the fact list |
| PuzzleGame.CorrectPiecesAsWritten | src/components/PuzzleGame.jsx:310 | the `isCorrect` filter over placed ids counts at most the placed entries |
| PuzzleGame.EffectPercent | src/components/PuzzleGame.jsx:311 | `Math.floor(correct/total·100)`: total·r ≤ 100·correct < total·(r+1) |
| PuzzleGame.EffectAsWrittenIgnoresPlacement | src/components/PuzzleGame.jsx:309-312 | the effect as written counts 0 correct pieces and computes 0 percent whatever is placed, which differs from the drop handler's percentage once anything is placed |
| PuzzleGame.CorrectedEffectPercent | src/components/PuzzleGame.jsx:309-312 | counting placed pieces, the effect's floor percentage equals the drop handler's rounded one: 20 per piece |
| PuzzleGame.PlacementPuzzle.constructor | src/components/PuzzleGame.jsx:223-262 | the initial pieces, nothing placed, progress 0 |
| PuzzleGame.PlacementPuzzle.DropPiece | src/components/PuzzleGame.jsx:270-306 | given the position the piece was dragged to (the intended behaviour; see Findings): a drop that does not snap, or re-drops a placed piece, changes nothing; otherwise the piece becomes placed, its id is appended once, progress is the rounded percentage of placed pieces and the first |placed| facts are reported tagged "shape"; placed flags only go from false to true |
| PuzzleGame.PlacementPuzzle.StartDrag | src/components/PuzzleGame.jsx:31-41 | with the parent's interaction handler wired in, as intended (see Findings): a placed piece cannot start a drag; any other piece reports the first |placed| facts tagged "shape" |
| PuzzleGame.PlacementPuzzle.ReleaseAsWritten | src/components/PuzzleGame.jsx:19-53 | as written, releasing a piece drops it at its initial position, which changes nothing and reports nothing |
| PuzzleGame.InitialPositionNeverSnaps | src/components/PuzzleGame.jsx:230-243 | no piece's initial position is within snapping distance of its own outline |
| PuzzleGame.PointerDownAsWritten | src/components/PuzzleGame.jsx:31-41 | `handlePointerDown` as written: a placed piece does nothing; otherwise it calls itself back through its own `userData` with a label, and that call throws |
| PuzzleGame.DragStartAsWrittenNeverReports | src/components/PuzzleGame.jsx:31-41 | as written a drag start never reports, and it throws exactly on an unplaced piece |
| PuzzleGame.PlacementPuzzle.ProgressEffectAsWritten | src/components/PuzzleGame.jsx:309-326 | the effect as written sets progress to 0 and reports no facts |
| PuzzleGame.PlacementPuzzle.ReportProgress | src/components/PuzzleGame.jsx:309-326 | the corrected effect keeps the drop handler's progress and reports the first |placed| facts |
| PuzzleGame.PlacedCount | src/components/PuzzleGame.jsx:285-287 | `placedPieces` lists each placed piece once, so it has at most five entries, five exactly when every piece is placed |
| PuzzleGame.PlacementProgress | src/components/PuzzleGame.jsx:291 | progress is 20 per placed piece, at most 100, and 100 exactly when every piece is placed |
| PuzzleScreen.Dispatch | src/components/PuzzleScreen.jsx:155-180 | "memory", "logic" and "shape" select the three puzzles, each exactly for its tag; anything else gives the unknown-type view |
| PuzzleScreen.DispatchMatchesSolverTags | src/components/PuzzleScreen.jsx:157-176 | the puzzle chosen for a type reports under that very type |
| PuzzleScreen.Screen.constructor | src/components/PuzzleScreen.jsx:12-15 | no session type, no facts, progress 0, no error |
| PuzzleScreen.Screen.Activate | src/components/PuzzleScreen.jsx:25-69 | the session type is set only while unset and only from a present type; error, facts and progress are reset |
| PuzzleScreen.Screen.Deactivate | src/components/PuzzleScreen.jsx:123-128 | the session type is reset |
| PuzzleScreen.Screen.HandleProgress | src/components/PuzzleScreen.jsx:86-120 | facts that are not an array, or a present tag other than the expected type, change nothing and forward nothing; otherwise facts and the capped percentage are stored and the report is forwarded under the expected type, never the child's tag |
| PuzzleRoom.FindByType | src/components/PuzzleRoom.jsx:686 | finds the catalogue station with that type, or none when no station has it |
| PuzzleRoom.CatalogueShape | src/components/PuzzleRoom.jsx:10-53 | ids 1, 2, 3 in order, five facts each, and each puzzle's own fact list is its station's |
| PuzzleRoom.OtherFacts | src/components/PuzzleRoom.jsx:840-844 | a fact is collected iff some record other than the current id's holds it |
| PuzzleRoom.Dedup | src/components/PuzzleRoom.jsx:850 | `[...new Set(list)]`: no repetitions, same elements, no longer than the input |
| PuzzleRoom.DedupFirstOccurrenceOrder | src/components/PuzzleRoom.jsx:850 | the kept elements appear in the order of their first occurrences in the input |
| PuzzleRoom.DedupOfDistinct | src/components/PuzzleRoom.jsx:850 | a list without repetitions is left unchanged |
| PuzzleRoom.Enhanced | src/components/PuzzleRoom.jsx:855-861 | one entry per station in catalogue order; progress is the record's or 0 without one; completed iff the id is in the completed list |
| PuzzleRoom.EnhancedInRange | src/components/PuzzleRoom.jsx:818-861 | every station's shown progress is within 0..100 |
| PuzzleRoom.Room.constructor | src/components/PuzzleRoom.jsx:634-647 | player at the origin looking straight ahead, nothing active, unlocked, no records, no snapshot |
| PuzzleRoom.Room.ActivatePuzzle | src/components/PuzzleRoom.jsx:667-744 | a no-op while locked or without the player; otherwise snapshots the current position and look first, then for a known station moves the player to the approach and schedules the deferred step; the lock and active slot are untouched |
| PuzzleRoom.Room.FireActivation | src/components/PuzzleRoom.jsx:728-742 | the deferred step sets the lock and makes the station's puzzle, with its type and title, the active one |
| PuzzleRoom.Room.Deactivate | src/components/PuzzleRoom.jsx:747-758 | clears the active puzzle and the lock and restores position and look exactly to the snapshot when there is one |
| PuzzleRoom.Room.Escape | src/components/PuzzleRoom.jsx:615-617 | Escape while a puzzle is active deactivates it, restoring the snapshot, or leaving the player in place without one; otherwise nothing changes; records, completion, snapshot and pending activations are never touched |
| PuzzleRoom.Room.HandleProgress | src/components/PuzzleRoom.jsx:795-853 | a missing tag, a tag other than the active puzzle's (checked only while one is active) or an unknown type changes nothing; otherwise only that id's record is overwritten with the facts and their capped percentage, the id is added to the completed list once when all facts are in, and the published list is the de-duplicated other records' facts followed by the submitted ones |
| PuzzleRoom.Room.OnScreenProgress | src/components/PuzzleRoom.jsx:969-978 | a missing tag falls back to the active puzzle's type, and a known type is handed to `HandleProgress`; an accepted report overwrites that puzzle's record, completes it once when all five facts are in, and publishes the de-duplicated facts; a report under the session type is always recorded for the active puzzle |
| PuzzleRoom.CollectOtherFacts | src/components/PuzzleRoom.jsx:836-847 | the `forEach` accumulation over the records equals `OtherFacts` in id order |
| PuzzleRoom.OtherFactsByKey | src/components/PuzzleRoom.jsx:840-844 | with every record under a catalogue id, a fact is collected iff some other record holds it |
| PuzzleRoom.PublishedIsGlobalFactSet | src/components/PuzzleRoom.jsx:836-852 | the published list has no duplicates and holds exactly the facts of all records once the submitted facts are recorded |
| PuzzleRoom.MismatchedReportChangesNothing | src/components/PuzzleRoom.jsx:803-806 | a report tagged for another puzzle than the active one changes no record, no completion and publishes nothing |
| PuzzleRoom.VisitRestoresPlayer | src/components/PuzzleRoom.jsx:680-758 | activate, let the deferred step run, and leave: the player is back at exactly the position and look held before |
| PuzzleRoom.SecondActivationBeforeSettle | src/components/PuzzleRoom.jsx:667-742 | a second activation before the deferred step is not rejected; its snapshot is the first activation's approach position, and both deferred steps are pending |

## Left out

- Rendering, animation, lighting, particles, colours and `shiftHue`
  (LogicPuzzle.jsx:57-116) are presentation and floating-point colour
  arithmetic.
- The camera and player geometry is left out: the approach position and
  look angles computed at PuzzleRoom.jsx:688-718, pointer and keyboard
  movement, and the camera effect. `PuzzleRoom.Room.ActivatePuzzle` takes the
  resulting approach position and look direction as parameters.
- The scene hide/restore in PuzzleScreen.jsx:36-82 and the fallback timer in
  PuzzleRoom.jsx:761-791 only touch the 3D scene.
- The error-message clearing timer (PuzzleScreen.jsx:131-142) is UI timing.
- The card shuffle (MemoryPuzzle.jsx:43) is random. The deck is any
  arrangement that satisfies `MemoryPuzzle.IsDeck`.
- The celebration timers (`recentlySolved`, `recentMatch`, `recentlyPlaced`)
  are presentation.
- `handleErrorMsg` (LogicPuzzle.jsx:15-21) goes either to the screen's error
  message or to a local one. Both are modelled as the puzzle's `warning`
  field.
- The puzzles call `onProgress` only when it is present. The model assumes a
  host that always provides it.
- Every percentage is computed over exact rationals. JavaScript floating point
  gives the same results for the totals that occur, which are always 5.
- PuzzleGame.PlacementPuzzle.StartDrag: models the intended wiring of the
  parent's `handlePieceInteraction`. As written, no drag start reports, which
  `PuzzleGame.DragStartAsWrittenNeverReports` states (see Findings).
- PuzzleGame.PlacementPuzzle.DropPiece: takes the position the piece was
  dragged to as a parameter. As written, the reported position never changes
  from the initial one, which `PuzzleGame.PlacementPuzzle.ReleaseAsWritten`
  models (see Findings).
- PuzzleRoom.Room.FireActivation: the deferred step checks nothing when it
  fires. A deferred step still pending after an exit therefore re-activates
  the puzzle, and the model keeps that behaviour.
- PlayerController.jsx, PuzzleStation.jsx and the pages are not part of this
  model. They contain pointer lock, presentation, page layout and a network
  call.

## Findings

| source | as written | input that shows it | evidently intended | confidence | as-written member | corrected member |
|---|---|---|---|---|---|---|
| src/components/PuzzleGame.jsx:309-326 | the progress effect counts `placedPieces.filter(p => p.isCorrect)`, but the entries are numeric piece ids with no `isCorrect`, so it always computes 0% and reports an empty fact list right after every placement | place piece 0: the drop handler sets progress 20 and reports the first fact; the effect then sets progress 0 and reports `[]` | count the placed pieces, which keeps the drop handler's progress and its prefix of facts | high, not executed | PuzzleGame.EffectAsWrittenIgnoresPlacement, PuzzleGame.PlacementPuzzle.ProgressEffectAsWritten | PuzzleGame.CorrectedEffectPercent, PuzzleGame.PlacementPuzzle.ReportProgress |
| src/components/PuzzleGame.jsx:19-51 | `currentPosition` is set once from the piece's initial position and never updated (there is no pointer-move handler, and the plane and raycaster at lines 21-22 are unused), so every drop reports the initial position (x, −1, 0) against the target (x, 1, 0) | drag piece 0 onto its outline and release: the drop reports (−2, −1, 0), at distance 2 from (−2, 1, 0), so nothing is placed and no piece can ever be placed | report the position the piece was dragged to | high, not executed | PuzzleGame.InitialPositionNeverSnaps, PuzzleGame.PlacementPuzzle.ReleaseAsWritten | PuzzleGame.PlacementPuzzle.DropPiece |
| src/components/PuzzleGame.jsx:31-41 | the mesh's `userData` (line 83) holds the piece's own `handlePointerDown`, and the parent's `userData` prop (line 371) is never read; the handler calls itself with the string "start-drag", and `e.stopPropagation()` on a string throws a `TypeError` | press the pointer on any unplaced piece: the self-call throws at line 34 and no progress is reported | call the parent's `handlePieceInteraction("start-drag")`, which reports the facts so far | high, not executed | PuzzleGame.PointerDownAsWritten, PuzzleGame.DragStartAsWrittenNeverReports | PuzzleGame.PlacementPuzzle.StartDrag |
