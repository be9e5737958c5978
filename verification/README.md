# Mahjong rule engine and meta-tag comparison, modelled in Dafny

This project models two parts of a small browser repository.

**The mahjong game** (`mahjong/game.js`) is a four-seat game. Seat 0 is the
human and always deals; seats 1-3 are computer players. The model covers:

- the 144-tile set (`createTiles`) and the Fisher–Yates shuffle;
- the round-robin deal of 53 tiles from the front of the wall;
- flower replacement from the back of the wall (`checkFlowers`) and hand
  sorting (`sortHand`);
- the winning-hand test (`checkHu` with its recursive `checkSets`) and the
  claim predicates (`canPlayerHu`, `canPlayerPeng`, `canPlayerChi`, `canGang`);
- the hand edits of pung, chow and kong;
- the turn flow: discard, the claim scan, the computer seats' arbitration,
  the next seat, the draw, and the computer turn with its discard choice.

The game is one immutable record (`Game.Game`). Every callback the browser
would run after a timer becomes a `pending` step that `Game.Tick` runs; the
human's buttons are commands (`Game.Step`). `Math.random` is an oracle
parameter:

- a sequence of picked indices for the shuffle;
- a sequence of coins for each computer decision.

**The meta-tag comparison** (`meta-tools/script.js`) compares the `<meta>` tags
of two pages. The model covers the equality test on two tags' attribute maps
(`areMetaTagsEqual`) and the alignment of the two tag lists into rows keyed by
the `name` attribute (`displayCompareResults`).

Modules:

| file | module | contents |
|---|---|---|
| tiles.dfy | Tiles | tiles, counting, flower filters, sequence helpers |
| wall.dfy | Wall | tile set, shuffle, deal schedule |
| hand.dfy | Hand | sorting, flower replacement, pung/chow/kong removals, the computer's discard choice |
| evaluator.dfy | Evaluator | `checkSets`, `checkHu` and the claim predicates |
| hand_examples.dfy | HandExamples | concrete hands that show what the evaluator accepts and rejects |
| game.dfy | Game | the game record, the turn flow and its invariant |
| start.dfy | Start | `startGame`: create, shuffle, deal, settle |
| meta_compare.dfy | MetaCompare | tag equality and the comparison rows |

Where the code departs from the usual rules of the game, the model follows
the code:

- **Flower replacement is a single pass.** A replacement that is itself a
  flower stays in the hand, and the removed flowers are dropped.
- **`canGang` accepts three or more copies, but `playerGang` needs four.**
- **Claims are settled by seat order, not by claim priority.** A nearer
  computer seat's accepted pung beats a farther seat's win.
- **The computer's discard is not "a tile of the smallest group".** The
  running minimum starts at 1. A tile replaces the choice only when it is
  single and its coin comes up, so the choice is the last such tile, or
  position 0.
- **There is no claimed kong.** `playerGang` only takes a concealed quad.
- **The win check after a meld can never succeed.** The length guard of
  `checkHu` rejects every hand that has a meld.
- **The 144 tiles are not conserved during play.** Flowers are dropped, and
  a pungged discard stays on the pile while a copy goes into the meld.
  Conservation is stated for the opening only, with the set-aside flowers.

## Model

| member | source | states |
|---|---|---|
| Wall.CreateTiles | mahjong/game.js:54-106 | The catalogue has 144 tiles. Every wan/tiao/tong value 1-9, wind 0-3 and dragon 0-2 occurs exactly four times, each flower 0-7 exactly once, and nothing else occurs. |
| Wall.ShuffleTiles | mahjong/game.js:108-113 | `shuffleTiles`, the backward Fisher–Yates loop, with the picked index for each position as a parameter. `Wall.ShufflePermutes` and `Wall.ShuffleReachesEveryArrangement` state that its results are exactly the rearrangements of the tiles. |
| Wall.ShufflePermutes | mahjong/game.js:108-113 | The shuffle, under any valid picks, is a permutation of the tiles. |
| Wall.ShuffleReachesEveryArrangement | mahjong/game.js:108-113 | Conversely, every rearrangement of the tiles is produced by some sequence of valid picks (each pick `j` for position `i` is at most `i`). |
| Wall.Deal | mahjong/game.js:130-153 | The round-robin deal of 53 tiles from the front of the wall, starting at the dealer. `Wall.DealSchedule` gives each seat's tiles by position, and `Wall.DealConserves` shows no tile is lost. |
| Wall.DealSchedule | mahjong/game.js:130-153 | Dealing succeeds exactly when the wall has at least 53 tiles. The `k`-th tile of seat `p` is wall tile `4k + ((p - dealer) mod 4)`. The dealer gets 14 tiles and the others 13. The wall left is everything after the first 53 tiles, in order. |
| Wall.DealConserves | mahjong/game.js:130-153 | The four dealt hands and the rest of the wall hold exactly the tiles of the wall, as a multiset. |
| Hand.SortHand | mahjong/game.js:195-204 | `sortHand` with the suit-then-value comparator. `Hand.SortHandPermutes`, `Hand.SortHandSorted` and `Hand.SortHandCharacterised` state that on flower-free hands it is the one ordered permutation. |
| Hand.CmpOrder | mahjong/game.js:195-203 | On non-flower tiles the comparator is a total order: it returns at most 0 exactly when the first tile is no later in suit order, then value, and two tiles that precede each other are equal. |
| Hand.SortHandPermutes | mahjong/game.js:195-204 | Sorting a hand is a permutation of it. |
| Hand.SortHandSorted | mahjong/game.js:195-204 | A flower-free hand comes out in suit order, then value order. |
| Hand.SortHandCharacterised | mahjong/game.js:195-204 | For a flower-free hand, the sorted result is the one ordered permutation, whatever sort algorithm the engine uses. |
| Hand.SortHandIdempotent | mahjong/game.js:195-204 | Sorting a flower-free hand twice gives the same order as sorting it once. |
| Hand.CheckFlowers | mahjong/game.js:178-193 | `checkFlowers`: each flower present on entry is removed and replaced by a tile popped from the wall, then the hand is sorted. `Hand.FlowersClosedForm`, `Hand.CheckFlowersSpec` and `Hand.CheckFlowersSorted` state what goes in and out. |
| Hand.FlowersClosedForm | mahjong/game.js:181-191 | Replacing the flowers present on entry, one by one, leaves the non-flowers in order, then the replacements popped from the wall's end. The wall loses as many tiles as there were flowers, or all of its tiles if it is shorter. |
| Hand.CheckFlowersSpec | mahjong/game.js:178-193 | `checkFlowers` takes `m = min(flowers, wall)` tiles from the back of the wall. The new hand holds the old non-flowers plus exactly those `m` tiles. Hand, wall and dropped flowers together keep every tile. |
| Hand.CheckFlowersSorted | mahjong/game.js:192 | When no replacement is itself a flower, the settled hand is flower-free and sorted. |
| Hand.RemoveFirstSpec | mahjong/game.js:461-471 | Removing the first `n` matching tiles removes `min(n, matches)` tiles, all matching; those plus the kept tiles are the hand. |
| Hand.PengTake | mahjong/game.js:512-522 | The pung removal: the first two copies of the discard leave the hand. `Hand.PengTakeSpec` and `Hand.PengTakeShape` state which tiles go and that the rest keep their order. |
| Hand.PengTakeSpec | mahjong/game.js:512-522 | With two or more copies of the discard, the pung removal gives up exactly two copies and keeps every other tile. |
| Hand.PengTakeShape | mahjong/game.js:461-471 | The pung removal deletes precisely the first two positions holding the discard, and the other tiles stay in order. |
| Hand.ChiRun | mahjong/game.js:563-573 | The run `playerChi` picks: the first of the three neighbour patterns the hand completes. `Hand.ChiRunAgrees` ties it to `canPlayerChi` in both directions. |
| Hand.ChiRunAgrees | mahjong/game.js:400-420 | For a suited discard, `playerChi` finds a run exactly when `canPlayerChi` holds. The run contains the discard's value, and the hand holds its other two values. |
| Hand.ChiTake | mahjong/game.js:575-586 | The chow removal: the first two tiles of the run's suit whose values lie in the run. `Hand.ChiTakeSpec` and the two `HandExamples.ChiTakes…` lemmas state what leaves. |
| Hand.ChiTakeSpec | mahjong/game.js:575-586 | The chow removal gives up exactly two tiles, the first two of the run's suit whose values lie in the run, which may include the discard's own value. Nothing else changes. |
| Hand.GangTile | mahjong/game.js:621-630 | The quad `playerGang` looks for, in first-occurrence order. `Hand.GangTileSpec` states it is found exactly when some tile occurs four times, and which. |
| Hand.GangTileSpec | mahjong/game.js:621-630 | The kong tile is found exactly when some tile occurs four times, and it is the earliest such tile in the hand. |
| Hand.GangTake | mahjong/game.js:631-640 | The kong removal. `Hand.GangTakeSpec` states all four copies leave and nothing else does. |
| Hand.GangTakeSpec | mahjong/game.js:631-640 | The kong removal takes out all four copies and nothing else. |
| Hand.GangTileCanGang | mahjong/game.js:687-701 | Whenever `playerGang` finds a quad, `canGang` holds. |
| Hand.CanGangWithoutKong | mahjong/game.js:629 | The converse fails: three copies satisfy `canGang`, but `playerGang` finds nothing. |
| Hand.LastPickedSpec | mahjong/game.js:810-823 | The reference choice is a position of the hand, or 0. A non-zero choice is a tile occurring exactly once whose coin came up. |
| Hand.AiChooseDiscard | mahjong/game.js:801-824 | The loop returns the reference choice: the last single tile whose coin came up, or 0. No later position qualifies. |
| Hand.NoCoinsFirstTile | mahjong/game.js:810-823 | With every coin down, however many were supplied, the computer discards position 0. |
| Evaluator.CheckHu | mahjong/game.js:826-860 | `checkHu`: 13 or 14 tiles, flowers aside, the rest 2 modulo 3, then some tile gives up its last two copies as the pair and the rest passes `checkSets`. `Evaluator.HuByTriplets`, `Evaluator.HonoursHu` and `Game.MeldedCannotWin` state its properties. |
| Evaluator.CheckSets | mahjong/game.js:862-921 | `checkSets`: the empty list, or a triplet or run removed from the back and the rest accepted. `Evaluator.CheckSetsLength`, `Evaluator.TripletsAccepted` and `Evaluator.HonoursNeedTriplets` state its properties; the `HandExamples` lemmas show the run removal's quirks. |
| Evaluator.CanPlayerHu | mahjong/game.js:386-390 | `canPlayerHu`: `checkHu` of the hand with the discard appended. `Game.HumanClaims` and `Game.MeldedCannotWin` use it. |
| Evaluator.CanPlayerPeng | mahjong/game.js:392-398 | `canPlayerPeng`: two or more copies of the discard. `Hand.PengTakeSpec` states the removal it allows. |
| Evaluator.CanPlayerChi | mahjong/game.js:400-420 | `canPlayerChi`: no chow of an honour or flower; otherwise one of the three neighbour pairs is in hand. `Hand.ChiRunAgrees` states it agrees with the run `playerChi` finds. |
| Evaluator.CanGang | mahjong/game.js:687-702 | `canGang`: some tile occurs three or more times. `Hand.GangTileCanGang` and `Hand.CanGangWithoutKong` relate it to the quad `playerGang` needs. |
| Evaluator.RemoveLast | mahjong/game.js:876-883 | Removing the last `n` target tiles removes `min(n, matches)` of them, leaves a sub-multiset, and keeps every non-target count. |
| Evaluator.CheckSetsLength | mahjong/game.js:862-921 | Every list `checkSets` accepts has a length divisible by three. |
| Evaluator.TripletsAccepted | mahjong/game.js:862-889 | `checkSets` accepts every list in which each tile's count is a multiple of three (unions of triplets, the empty list included), in any order. |
| Evaluator.HonoursNeedTriplets | mahjong/game.js:891-893 | Runs are tried only for wan/tiao/tong, so a wind-and-dragon list passes exactly when it is a union of triplets. |
| Evaluator.HuByTriplets | mahjong/game.js:826-860 | A 13- or 14-tile hand whose non-flower tiles are a pair plus triplets wins, whatever the order of its tiles and wherever its flowers sit. |
| Evaluator.HonoursHu | mahjong/game.js:826-860 | A hand of winds, dragons and flowers wins exactly when it has 13 or 14 tiles and its non-flower tiles are a pair plus triplets. |
| HandExamples.RunRemovalAcceptsUnevenList | mahjong/game.js:904-912 | The run removal takes the last three tiles valued in {v, v+1, v+2}, so `[1,1,1,2,3,3]` (wan) is accepted. |
| HandExamples.RunRemovalRejectsTwoRuns | mahjong/game.js:904-912 | `[1,1,2,2,3,3]` (wan), two runs, is rejected. |
| HandExamples.CheckSetsDependsOnOrder | mahjong/game.js:876-912 | Two orderings of the same tiles get different answers from `checkSets`. |
| HandExamples.FourTripletsAndPairWin | mahjong/game.js:826-856 | Four triplets and a pair form a winning 14-tile hand. |
| HandExamples.RunsAndPairWin | mahjong/game.js:826-856 | Four runs and a pair form a winning 14-tile hand. |
| HandExamples.ChiTakesOwnValue | mahjong/game.js:575-589 | Chowing a 3 with 2-3-4 in hand gives up the 2 and the hand's own 3, keeping the 4. |
| HandExamples.ChiTakesTwoCopies | mahjong/game.js:575-589 | Chowing a 3 with 2-2-4 in hand gives up both 2s, keeping the 4. |
| Game.Discard | mahjong/game.js:330-342 | `discardTile`: the tile leaves the hand for the pile, then the claim scan runs. `Game.ReleaseSpec` and `Game.CheckOthersSpec` state the two halves. |
| Game.CheckOthers | mahjong/game.js:344-384 | `checkOtherPlayersActions`. `Game.CheckOthersSpec`, `Game.CheckOthersKeeps`, `Game.HumanClaims` and `Game.ChiOnlyForNextSeat` state its outcome. |
| Game.ReleaseSpec | mahjong/game.js:330-336 | Discarding removes exactly the tile at the index and appends it to the pile. It records the tile and the current seat as the last discard, and the other seats are untouched. |
| Game.CheckOthersSpec | mahjong/game.js:344-384 | With no claim, play passes to the next seat. When some seat can claim, the human's flags are raised from the human's own claims only. The game waits for the human if a flag is up; otherwise the computer claim step is due. |
| Game.CheckOthersKeeps | mahjong/game.js:344-384 | The claim scan changes no hand, the wall or the pile. |
| Game.HumanClaims | mahjong/game.js:347-370 | The human's claims are win, pung, and chow; chow counts only when the human is the next seat after the discarder. |
| Game.ChiOnlyForNextSeat | mahjong/game.js:365 | The scan raises the chow flag only when the human sits right after the discarder. |
| Game.NextPlayer | mahjong/game.js:720-746 | `nextPlayer`. `Game.NextPlayerSpec` states the seat, the cleared flags and the end of the round. |
| Game.NextPlayerSpec | mahjong/game.js:720-737 | The next seat is `current + 1 mod 4`, and the last discard, all three flags and all four buttons are cleared. An empty wall ends the round; otherwise a draw is due. Hands, wall and pile are unchanged. |
| Game.Draw | mahjong/game.js:748-786 | `drawTileWithAnimation`: the current seat draws from the wall's end and replaces its flowers. `Game.TakeFromWallSpec` and `Game.DrawSpec` state what moves. |
| Game.TakeFromWallSpec | mahjong/game.js:752-766 | Drawing takes the wall's last tile. Replacements come from the new end, and the hand gains the drawn tile and the replacements, flowers aside. |
| Game.DrawSpec | mahjong/game.js:748-766 | The draw step refills the current seat's hand that way and leaves every other seat unchanged. |
| Game.ProcessAi | mahjong/game.js:422-440 | `processAiActions`: the computer seats decide in turn order from the discarder's successor. `Game.FirstTakerTakes` and `Game.PengBeatsLaterHu` state who takes the tile. |
| Game.FirstTakerTakes | mahjong/game.js:422-440 | Seats are tried in turn order from the discarder's successor. The first computer seat that wins, or pungs with its coin up, takes the tile; if none does, play passes to the next seat. |
| Game.PengBeatsLaterHu | mahjong/game.js:423-436 | If the next computer seat cannot win but can pung and its coin is up, it takes the tile, whatever any later seat could do. |
| Game.AiPeng | mahjong/game.js:454-486 | `aiPeng`. `Game.AiPengSpec` states the hand edit, the new meld and the turn. |
| Game.AiPengSpec | mahjong/game.js:454-485 | A computer pung removes the first two copies of the discard, adds one meld and makes the claimant current with its turn due. The last discard is cleared, the discard stays on the pile, and nothing else changes. |
| Game.PlayerPeng | mahjong/game.js:503-550 | `playerPeng`. `Game.PlayerPengSpec` states the edit, the flags and the no-op path. |
| Game.PlayerPengSpec | mahjong/game.js:503-549 | The human's pung edits the hand the same way and clears the pung and chow flags. The win flag and the Hu button end up on exactly when the new hand is complete, and the Pung and Chow buttons end up off. Without the flag, a last discard or two copies, nothing happens. |
| Game.AiTurn | mahjong/game.js:788-799 | `aiTurn`. `Game.AiTurnSpec` states the win and the discard. |
| Game.AiTurnSpec | mahjong/game.js:788-799 | A computer seat with a complete hand wins with it. Otherwise the tile `aiChooseDiscard` picks (a single tile, or position 0) moves from its hand to the pile. |
| Game.EmptyHandStalls | mahjong/game.js:788-810 | A computer seat with an empty hand cannot win and has no tile to discard. Its turn only clears the schedule, and no later callback changes the game. |
| Game.PlayerHu | mahjong/game.js:488-501 | `playerHu`. `Game.HuTrustsFlag` and `Game.StaleWinFlag` state that it trusts the flag and what that allows. |
| Game.HuTrustsFlag | mahjong/game.js:488-499 | `playerHu` checks only the flag: with the flag up, the human is marked as winner and the round ends, whatever the hand. |
| Game.StaleWinFlag | mahjong/game.js:775-777 | A win flag raised by the human's draw survives the human's discard when another seat can claim it. The Hu button is enabled with it, so a later `playerHu` declares a win with the hand the discard broke. |
| Game.MeldedCannotWin | mahjong/game.js:827 | A seat with a meld holds at most 11 concealed tiles, so `checkHu` rejects its hand and it can win no discard. |
| Game.PengNeverOffersWin | mahjong/game.js:539-543 | After the human's pung the win flag is never raised. |
| Game.PlayerChi | mahjong/game.js:552-615 | `playerChi`. `Hand.ChiRunAgrees`, `Hand.ChiTakeSpec` and `Game.ChiNeverOffersWin` state the run, the removal and the flags. |
| Game.ChiNeverOffersWin | mahjong/game.js:603-607 | After the human's chow the win flag is never raised. |
| Game.PlayerGang | mahjong/game.js:617-671 | `playerGang`. `Hand.GangTileSpec`, `Hand.GangTakeSpec`, `Game.KongSize` and `Game.GangNeverOffersWin` state the quad, the removal and the replacement draw. |
| Game.GangNeverOffersWin | mahjong/game.js:656-660 | The human's kong never changes the win flag. |
| Game.KongSize | mahjong/game.js:638-650 | A kong leaves the concealed hand at least three tiles shorter, even after the replacement draw. |
| Game.Step | mahjong/game.js:44-52 | The human's tile clicks and the Hu, Peng, Chi and Gang buttons. A button click is accepted only while that button is enabled. `Game.StepInv` states that every step keeps the game invariant, and `Game.ButtonsStep` states what the buttons allow. |
| Game.ButtonsStep | mahjong/game.js:673-718 | Every step and every scheduled step keeps the buttons in agreement with the flags: an enabled Hu, Peng or Chi button has its flag up, and the Gang button is never enabled. So a Gang click never changes the game. |
| Game.AllOffNoClaims | mahjong/game.js:704-718 | While every button is disabled, a Hu, Peng, Chi or Gang click changes nothing. |
| Game.StepInv | mahjong/game.js:330-799 | Every step keeps the game invariant: four seats, and each seat's concealed tiles plus three per meld are at most 13. The seat that has drawn or claimed and not yet discarded may hold 14. |
| Start.SettleConserves | mahjong/game.js:155-160 | Sorting and replacing the flowers of each dealt hand in seat order keeps every tile: settled hands, wall and set-aside flowers make up the dealt hands and the wall. |
| Start.SettleSizes | mahjong/game.js:155-160 | Settling never grows a hand or the wall, and leaves every seat without melds and not winning. |
| Start.OpeningInv | mahjong/game.js:153-175 | After the deal the game satisfies the invariant, and no seat has a meld or has won. |
| Start.OpeningConserves | mahjong/game.js:130-160 | After the deal, hands, wall and set-aside flowers hold exactly the shuffled wall's tiles. |
| Start.OpeningSizes | mahjong/game.js:130-175 | From the 144-tile set the wall left by the deal outlasts every replacement: the dealer holds 14 tiles, every other seat 13, and the wall keeps 91 tiles minus one per flower set aside. |
| Start.StartGame | mahjong/game.js:206-222 | A new game is started with the dealer current, an empty pile, no last discard and the claim flags as they were. No seat has a meld or has won, and the invariant holds. The dealer holds 14 tiles and every other seat 13, and the wall holds 91 tiles minus one per flower set aside. Hands, wall and set-aside flowers hold the 144-tile set exactly. Every button is disabled, so by `Game.AllOffNoClaims` no claim can be made on the opening deal, however the previous game left the flags. |
| MetaCompare.AreMetaTagsEqual | meta-tools/script.js:282-299 | The loop answers true exactly when the two attribute maps are equal, and false at once when their key counts differ. |
| MetaCompare.TagsEqualIsMapEquality | meta-tools/script.js:284-298 | "Same key count and every key of the first has the same value in the second" is map equality, so it is reflexive and symmetric. |
| MetaCompare.BelowTotal | meta-tools/script.js:354 | The sort order on strings is total. |
| MetaCompare.BelowTransitive | meta-tools/script.js:354 | The sort order on strings is transitive. |
| MetaCompare.SortDistinctSpec | meta-tools/script.js:336-354 | The collected names come out strictly ascending, and hold exactly the names collected. |
| MetaCompare.AscendingUnique | meta-tools/script.js:354 | Two strictly ascending lists with the same names are equal, so the rows do not depend on the sort algorithm. |
| MetaCompare.FindIndex | meta-tools/script.js:358-359 | The lookup returns the first tag whose name equals the row's name, or reports that none does. |
| MetaCompare.CompareRows | meta-tools/script.js:336-383 | The rows `displayCompareResults` builds. `MetaCompare.RowNames`, `MetaCompare.RowCards` and `MetaCompare.CompareSymmetric` state their names, cards and symmetry. |
| MetaCompare.RowNames | meta-tools/script.js:336-354 | The rows are strictly ascending by name, so each name appears once. Every row name is the non-empty name of some tag on one side, and every non-empty name on either side has a row. A tag without a non-empty name never produces a row. |
| MetaCompare.ColumnSpec | meta-tools/script.js:365-383 | A side's card is a placeholder carrying the name exactly when no tag on that side has the name. Otherwise it shows the first tag that does. |
| MetaCompare.SameSpec | meta-tools/script.js:362-378 | A card is marked "same" exactly when both sides have the tag and the two tags are equal. Otherwise a present card is marked "different". |
| MetaCompare.RowCards | meta-tools/script.js:356-383 | Per row, the name is non-empty, and each side is a placeholder exactly when that side lacks the name. Both cards are "same" exactly when both tags are present and equal. |
| MetaCompare.CompareSymmetric | meta-tools/script.js:336-383 | Comparing the pages the other way round gives the same rows with the two columns swapped. |

## Left out

- Rendering, the DOM, messages, modals, the Sort button, scores (+100), and the `display`, `id`, `dealing` and `justDrawn` fields: presentation only. Tiles are compared by kind and value alone.
- Timers: each delayed callback is one `pending` step run by `Game.Tick`. The model accepts a human command only while nothing is scheduled, so a click that lands while a timer is outstanding is not modelled.
- `Math.random`: the shuffle takes the picked index for each position directly, and each computer decision takes a coin. Uniformity and probabilities are distributional claims and are not stated.
- The coins of `processAiActions` are indexed by the seat's position in the scan, while the source draws a random number only when a seat can pung. Both give each deciding seat an independent coin, so the reachable behaviours are the same.
- The animated deal (`dealTilesWithAnimation`) is collapsed into one step. Its early return on a short wall cannot happen with 144 tiles, and `Start.Opening` requires 53 tiles.
- `sortHand` with flowers in the hand: the comparator returns 0 for any flower, which is not a consistent order, so the engine's result is unspecified. The model uses a stable insertion sort with that comparator, and states sortedness and uniqueness only for flower-free hands.
- The constructor's `canGang = false` field hides the `canGang` method, so `enableActionButtons` throws at mahjong/game.js:680, after setting the Hu, Pung and Chow buttons and before touching the Gang button. The model keeps the Gang button as it was (`Game.Enabled`). The only statement that enables it comes after the throw, and `startGame` disables it, so from the start of a game a Gang click does nothing (`Game.ButtonsStep`). The throw always comes after the last state change of its caller's branch, so nothing else is skipped.
- Before the first `startGame` there are no players, and the page sets the buttons up itself. The model starts from `Start.StartGame`.
- An out-of-range discard index leaves the game unchanged in the model. Only rendered tiles can be clicked, so this matters only for a computer seat whose hand is empty. That can happen: after four pungs a seat holds one concealed tile, which can be a flower that replaced a flower (the single pass of mahjong/game.js:181-191). If the seat then draws the wall's last tile and it is a flower too, `checkFlowers` drops both and has nothing to replace them with. `aiChooseDiscard` then returns 0 (mahjong/game.js:810). `discardTile(0)` records an undefined last discard, pushes it onto the pile, and throws while rendering (mahjong/game.js:330-338). The model leaves the game as it was. In both, no callback is scheduled, so the game stalls (`Game.EmptyHandStalls`).
- `waitingForAction` and `wind` are written but never read by the rules, so they are not in the record. `dealer` is read by the deal (mahjong/game.js:123 and mahjong/game.js:134), but `startGame` always sets it to 0 (mahjong/game.js:214), so the model uses the constant `Game.Dealer` in its place. `gameStarted` is kept as `started`; as in the source, no step checks it.
- A discard is modelled as one event (`DiscardEvent`), not as the select-then-confirm pair of clicks. The source reads `selectedTile` at mahjong/game.js:321 to tell the two clicks apart. When the discard throws (reached through mahjong/game.js:322), the reset at mahjong/game.js:323 is skipped and the tile stays selected; the model does not track the selection.
- The manual "sort my hand" button (`sortPlayerHand`) is cosmetic.
- Game.StepInv: does not state conservation of the 144 tiles during play, because the source drops replaced flowers and keeps a pungged discard on the pile while copying it into the meld.
- No lemma claims "accepted iff a pair plus four sets", because the run removal makes that false; the counterexamples are the HandExamples lemmas. The pair-plus-triplets direction holds for every hand (`Evaluator.HuByTriplets`), and both directions hold for hands without numbered suits (`Evaluator.HonoursHu`).
- `meta-tools/script.js`: `fetchHtmlContent` (network fetch through a proxy), `extractMetaTags` (the browser's HTML parser), card construction, and the loading and error display are I/O and foreign calls. A tag is given as its attribute map.
- MetaCompare.Below: compares characters by code point, while the default array sort compares UTF-16 code units. The two orders differ only between characters above U+FFFF and those in U+E000–U+FFFF.
- `diesel-engine-simulation/main.js` is not part of this model.
