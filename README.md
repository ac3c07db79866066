# Wedding lottery: the round and pool state machine

This project models the controller of a browser lottery, the class `WeddingLottery` in
`script.js`. The controller loads a list of cards, either one per image file or ten placeholder
guests. A click starts a shuffle that keeps landing on random cards of the pool. The next click
stops the shuffle. The card under the current index is the round's winner: it leaves the pool
and goes to the end of the winners. After four rounds the click handler is removed and an alert
lists the winners. `restart` puts everything back.

Layout:

- `decimal.dfy` (module `Decimal`): how a template literal prints a natural number below
  10^21 (the controller never prints one above 11), and how to read it back.
- `image_names.dfy` (module `ImageNames`): the display name of an image file. One trailing
  `.jpg|.jpeg|.png|.gif|.webp|.heic` is removed, matched without regard to ASCII case.
- `cards.dfy` (modules `Options`, `Cards`): the card variants, the image cards and the ten
  placeholders.
- `labels.dfy` (module `Labels`): the round-counter text and the closing winners summary.
- `lottery_state.dfy` (module `LotteryState`): all fields of the controller as one `State`
  value, with one function per handler and the invariant `Valid`. The properties are proved
  here as lemmas. The functions and the lemmas that state what each one does:
  - `Load` (loadImages, script.js:26-54): `InitialCards`;
  - `EnableClicks` (setupEventListeners, script.js:56-72): `Lottery.WeddingLottery.SetupEventListeners`;
  - `Tick` (shuffle, script.js:133-178): `TickEffect`, `TickPreservesValid`;
  - `Start` (startShuffle, script.js:115-131): `StartEffect`;
  - `Commit` (showWinner, script.js:192-221): `CommitEffect`;
  - `Stop` (stopShuffle, script.js:180-190): `StopEffect`;
  - `Click` (the click handler, script.js:63-69): `ClickPreservesValid`, `ClickRoundStep`;
  - `Reset` (restart, script.js:318-346): `ResetEffect`;
  - `Step` and `RunEvents` (any interleaving of clicks, ticks and restarts): `EventsPreserveValid`.
- `lottery.dfy` (module `Lottery`): the class `WeddingLottery`, whose fields are updated in
  place. `LoadImages`, `SetupEventListeners`, `Click`, `StartShuffle`, `Shuffle`, `StopShuffle`,
  `ShowWinner` and `Restart` each ensure `Snapshot() == F(old(Snapshot()))` for the matching
  function `F` of `LotteryState`. `HandleAllRoundsComplete` ensures that only `clickEnabled`
  changes, to false. `Click` and `Restart` keep `Valid()`, and `Shuffle` keeps it when it held
  before. Two client methods play a round and a whole game through the class.

`Valid` says five things:
- pool plus winners is, as a multiset, the full card list;
- `currentRound == |usedCards| + 1`, and the round is at most `maxRounds + 1`;
- the click handler is attached exactly while `currentRound <= maxRounds`;
- no shuffle runs without the handler;
- while shuffling over a non-empty pool, `currentIndex` is an index of the pool.

Behaviour of the code that the model keeps as written:

- The code starts a shuffle even when the pool is empty (script.js:115-131).
- `showWinner` reads `availableCards[currentIndex]` without a check (script.js:203). With fewer
  images than rounds, a stop click can come while the pool is empty. The code then pushes
  `undefined` and throws at script.js:207. `LotteryState.OneImageReachesUnguardedCommit` shows
  that a one-image list reaches this state. `LotteryState.EnoughCardsClickDefined` shows that
  with at least as many cards as rounds it is never reached. No guard is added. A stop click requires a card under
  the index (see `WeddingLottery.Click` below).
- In the placeholder branch, `loadImages` pushes onto the existing `cards` (script.js:41-47). It
  does not replace them. `Load` keeps this. From the constructor the list starts empty, so
  there are exactly ten cards.
- `restart` does not reset `shuffleIteration`. `Reset` keeps it too.

Randomness enters as a parameter `pick`. It must be below the pool size whenever the pool is
non-empty, which is all that `Math.floor(Math.random() * n)` promises.

## Model

| member | source | states |
|---|---|---|
| `Decimal.NatToString` | script.js:44 | the printed number is non-empty, all digits, and starts with 0 only for 0 |
| `Decimal.ParseNatToString` | script.js:44 | reading the printed digits back gives the number, so different numbers print differently |
| `ImageNames.StripExtension` | script.js:31 | when the name ends in "." and an extension (any case), exactly that suffix is removed; a name with no such suffix is unchanged |
| `ImageNames.ExtensionMatchUnique` | script.js:31 | at most one alternative of the pattern can match a given name, so the removed suffix is well defined |
| `ImageNames.StripAppendedExtension` | script.js:31 | base + "." + any case variant of an extension strips back to base |
| `ImageNames.StripRemovesAtMostOneExtension` | script.js:31 | the name is the file name, or the file name minus one "." and one extension that matches up to case |
| `Cards.ImageCards` | script.js:29-33 | one image card per file, in list order; card i has path "images/" + file i and the stripped file name as its name |
| `Cards.ImageCardsDistinct` | script.js:29-33 | distinct file names give distinct cards, because the path keeps the whole file name |
| `Cards.PlaceholdersShape` | script.js:36-47 | exactly ten placeholders; card i is named "Guest " + (i+1) and has colour i mod 10; no two are equal |
| `Labels.RoundLabel` | script.js:298-302 | the counter reads "All Rounds Complete!" if and only if the round is past the last one |
| `Labels.ParseRoundLabelInverse` | script.js:298-302 | while rounds remain, the text "Round c of m" gives back c and m; afterwards it is not of that form |
| `Labels.JoinLinesAppend` | script.js:314 | joining with a newline and then adding a line is the same as joining the longer list |
| `Labels.SplitJoinLines` | script.js:314 | splitting the joined text at newlines gives back the lines, provided no line holds a newline |
| `Labels.WinnersSummaryLines` | script.js:314 | when no winner name holds a newline, the alert text is three header lines and then one line per winner in round order; line i reads "Round " + (i+1) + ": " + the name of winner i |
| `Labels.WinnersSummaryAppend` | script.js:314 | each further winner adds exactly one numbered line at the end of the summary |
| `LotteryState.RemoveAt` | script.js:205 | splice(i, 1) drops exactly position i; the cards before it stay in place, the cards after it move down by one, and the multiset loses just that card |
| `LotteryState.InitialCards` | script.js:26-54 | after loading, the pool equals the cards; with an image list the cards are its image cards; otherwise they are the ten placeholders; the invariant holds |
| `LotteryState.TickEffect` | script.js:133-178 | a tick is a no-op when not shuffling or when the pool is empty; otherwise it changes only the index, which lands in the pool, and adds one to the iteration count |
| `LotteryState.StartEffect` | script.js:115-131 | start is a no-op while shuffling; otherwise shuffling is on, the count restarts from 0 before the first tick, and that tick has been taken; pool, winners and round are untouched |
| `LotteryState.CommitEffect` | script.js:192-221 | the winner is the card under the index and is appended to the winners; the pool loses exactly that position; the multiset of pool plus winners is unchanged; the round goes up by one; clicks stop past the last round |
| `LotteryState.StopEffect` | script.js:180-190 | stop is a no-op unless shuffling; otherwise the shuffle is off, the card under the index leaves the pool at exactly that position and goes to the end of the winners, the round goes up by one, the handler stays attached only while rounds remain, and the card list, index and iteration count are unchanged |
| `LotteryState.ClickPreservesValid` | script.js:63-69 | every click keeps the invariant and leaves the card list alone |
| `LotteryState.TickPreservesValid` | script.js:133-178 | every tick keeps the invariant and leaves the card list alone |
| `LotteryState.ClickDefinedUnderValid` | script.js:203 | under the invariant, a click is well defined unless it is a stop click over an empty pool |
| `LotteryState.EnoughCardsClickDefined` | script.js:203-205 | under the invariant, with at least as many cards as rounds, every click is well defined: a stop click always finds a card under the index, so only a list with fewer cards than rounds reaches the unchecked read |
| `LotteryState.ClickRoundStep` | script.js:213-214 | a stop click adds exactly one round and one winner; any other click leaves round, pool and winners alone |
| `LotteryState.CompleteIsFinal` | script.js:305-311 | past the last round, clicks and ticks change nothing |
| `LotteryState.ResetEffect` | script.js:318-346 | from any state, restart leaves the pool equal to the cards, no winners, round 1, no shuffle, index 0, clicks on, and the invariant holds |
| `LotteryState.ValidNoDuplicates` | script.js:203-205 | if the cards have no duplicates, each card is in the pool or among the winners but not both, and no card is in either one twice |
| `LotteryState.RunPreservesValid` | script.js:63-69 | after any run of clicks the invariant holds, pool plus winners is a permutation of the cards, their lengths add up to the card count, and the round is at most maxRounds + 1 |
| `LotteryState.EventsPreserveValid` | script.js:63-346 | after any interleaving of clicks, timer ticks and restarts, each well defined where it arrives, the invariant holds, the card list is unchanged, pool plus winners is a permutation of the cards, and the round is at most maxRounds + 1 |
| `LotteryState.StartThenStop` | script.js:115-221 | a start click over a non-empty pool and then a stop click commit the picked card and close the round |
| `LotteryState.Round` | script.js:115-221 | one start/stop round keeps the invariant, adds the picked card to the winners, shrinks the pool by one and moves the round by one |
| `LotteryState.FourRoundsOfPlaceholders` | script.js:214-220 | four rounds over the placeholders leave four distinct winners and six cards, with clicks off; a fifth click changes nothing |
| `LotteryState.LastCardLastRound` | script.js:203-220 | in the last round with one card left, start and stop take that card and finish the lottery |
| `LotteryState.OneImageReachesUnguardedCommit` | script.js:130-140 | with one image, the third click starts a shuffle over an empty pool that stays shuffling, so the next stop click has no card to take |
| `Lottery.WeddingLottery.constructor` | script.js:2-24 | construction plus init gives the loaded state with the handler attached, and the invariant holds |
| `Lottery.WeddingLottery.LoadImages` | script.js:26-54 | the fields become `Load` of the old fields: image cards, or the old cards plus the ten placeholders pushed one by one, then the pool is a copy of the cards |
| `Lottery.WeddingLottery.SetupEventListeners` | script.js:56-72 | the click handler is attached; nothing else changes |
| `Lottery.WeddingLottery.Click` | script.js:63-69 | the fields become `Click` of the old fields; the invariant holds; the winners alert comes back exactly when this click completed the last round |
| `Lottery.WeddingLottery.StartShuffle` | script.js:115-131 | the fields become `Start` of the old fields |
| `Lottery.WeddingLottery.Shuffle` | script.js:133-178 | the fields become `Tick` of the old fields, and the invariant is kept |
| `Lottery.WeddingLottery.StopShuffle` | script.js:180-190 | the fields become `Stop` of the old fields; the alert comes back only when a commit completed the last round |
| `Lottery.WeddingLottery.ShowWinner` | script.js:192-221 | the fields become `Commit` of the old fields; the alert comes back exactly when the round is now past the last one |
| `Lottery.WeddingLottery.HandleAllRoundsComplete` | script.js:305-316 | the handler is removed and the message is the winners summary; nothing else changes |
| `Lottery.WeddingLottery.Restart` | script.js:318-346 | the fields become `Reset` of the old fields, and the invariant holds whatever the state was before |
| `Lottery.WeddingLottery.RoundCounterText` | script.js:296-303 | the counter text is the completion text exactly when the round is past maxRounds |
| `Lottery.PlayRound` | script.js:63-69 | two clicks on the object perform one `Round` of the state machine |
| `Lottery.PlayFourRounds` | script.js:214-220 | a whole game on the object over the placeholders gives four distinct placeholder winners, six cards left, and the alert listing those winners |

## Left out

- Rendering in `updateCard`, and the image-load probe with its `onerror` fallback (script.js:74-113). These only draw the card.
- The transform and rhythm arithmetic in `shuffle` (script.js:145-169). It mixes floating point, `Math.sin`/`Math.cos` and the clock, and affects only the look of the card.
- `showCelebration`, `stopCelebration` and `createConfetti` (script.js:223-294). These are timers and styled elements with random floating-point positions.
- Timer scheduling (`setTimeout`, `clearTimeout`). A tick is the method `Shuffle`, and the timer calls it only while `isShuffling`. Cancelling the pending tick is `isShuffling := false`, because a tick that fires after that does nothing.
- `console.log`, the `async` ordering of `init`, and the `DOMContentLoaded` bootstrap (script.js:349-353). The constructor runs init to completion, since no click can arrive before it finishes.
- Adding and removing the document listener is modelled only as the boolean `clickEnabled`.
- The distribution of `Math.random()`. A pick is any index in range.
- Writing the counter text into the page. `updateRoundDisplay` is the function `Labels.RoundLabel`, which the class exposes as `RoundCounterText`.
- Decimal.NatToString: prints every natural number in plain digits. JavaScript switches to exponent notation from 10^21 and is inexact above 2^53; the controller prints only round numbers and guest numbers up to 11.
- Card identity. Cards are values, so two images with the same file name give equal cards. The no-duplicate properties assume distinct cards, which `Cards.PlaceholdersShape` and `Cards.ImageCardsDistinct` supply.
- WeddingLottery.Click: requires that a stop click finds a card under `currentIndex`. The source does not check this. When it fails, the source pushes `undefined` and throws at script.js:207. `LotteryState.OneImageReachesUnguardedCommit` shows when that happens, and `LotteryState.EnoughCardsClickDefined` shows the requires always holds with at least as many cards as rounds.
- WeddingLottery.StopShuffle: requires, while shuffling, a card under `currentIndex`, for the same unchecked read in `showWinner` as `WeddingLottery.Click`.
- WeddingLottery.ShowWinner: requires a card under `currentIndex`. The source reads `availableCards[currentIndex]` without a check (script.js:203) and throws at script.js:207 when there is none.
- WeddingLottery.HandleAllRoundsComplete: returns the alert text at once. The source shows it two seconds later and reads `usedCards` at that moment. A `restart` within those two seconds would change what the source shows.
- ImageNames.StripExtension: case-insensitive matching folds only ASCII letters. Without the `u` flag, the pattern folds no other letter onto the ASCII letters of the extensions.
