# Dice tray of the TTRPG dice roller popup

This project models the browser popup of the TTRPG dice roller
(`popup/popup.js`). The user builds a set of dice (d4, d6, d8, d10, d12, d20)
by clicking die icons, rolls them with the Roll button, re-rolls single dice
by clicking them, and rolls one die at once with a right click. The popup
keeps three pieces of state:

- `selectedDice`, a count per die type;
- `lastRollsConfig`, the configuration last rolled;
- `lastRollResults`, one `{type, result}` per die of the last roll.

The Roll button's text and enabled flag are built from that state.

The model has six modules:

- `Wrappers` (`wrappers.dfy`): the `Option` type for a value that may be missing.
- `Decimal` (`decimal.dfy`): the decimal text that template literals write and `parseInt` reads back.
- `Dice` (`dice.dfy`): the die types, their keys `"dN"`, and count objects.
- `Rolling` (`rolling.dfy`): `rollDie`, the face image paths, the expansion of a configuration into one die per count, and the displayed total.
- `RollButton` (`button.dfy`): the button text in "NdX + …" notation.
- `Tray` (`tray.dfy`): the state as a class `DiceTray` whose methods are the click handlers, and a class `RollInFlight` for one roll whose dice are still animating (`completedRolls`, `currentRollResults`).

`Math.random()` is a parameter: a real in [0, 1) for a single die, or a
function from die index to such a real for a whole roll. Every animation is one
atomic step, because each result is fixed before its animation starts.
`RollInFlight.DieFinished` is the end of one die's animation.

Beyond the contracts of each handler, the model proves these results:

- Each face k of a dN comes up exactly for random values in [(k-1)/N, k/N).
- The button's notation determines the positive counts it names. So two states whose buttons read the same roll the same dice in the same order, and the button is enabled exactly when a click on it rolls something.
- After a roll from a selection, the button offers the same dice again as "Roll Again: …".
- A roll's results are published exactly when every die's animation has ended.
- A re-roll changes the total by the difference between the new and the old value.

## Model

| member | source | states |
|---|---|---|
| `Decimal.IntToString` | popup/popup.js:31 | `${count}` of a non-negative count is a non-empty run of digits whose value is the count; a negative count gets a '-' before the digits of its magnitude |
| `Decimal.ParseLeadingInt` | popup/popup.js:74 | `parseInt` of a key's tail yields no number exactly when the text does not start with a digit |
| `Decimal.ParseNatToString` | popup/popup.js:74 | reading back the digits of `n`, followed by a non-digit or nothing, yields `n` |
| `Dice.MaxFaces` | popup/popup.js:74 | `parseInt(dieType.substring(1))` is the die's face count N |
| `Dice.NameInjective` | popup/popup.js:4 | the six keys `d4` … `d20` are distinct |
| `Dice.CountSum` | popup/popup.js:312 | the `reduce` over `selectedDice`: with no negative count the sum is never negative, and it is 0 exactly when every count is 0 |
| `Dice.CountSumOfNonNegative` | popup/popup.js:312 | with no negative count, the plain sum of counts (the `reduce` of `performRoll`) equals the sum of positive counts that the button uses |
| `Rolling.RollDie` | popup/popup.js:73-76 | `rollDie("dN")` returns an integer in 1..N for any random value in [0, 1) |
| `Rolling.RollDieOutcome` | popup/popup.js:73-76 | `rollDie("dN")` returns k exactly when the random value lies in [(k-1)/N, k/N), so the faces split [0, 1) into equal parts |
| `Rolling.EveryFaceCanComeUp` | popup/popup.js:73-76 | every face 1..N is returned for some random value |
| `Rolling.RandomFaceImage` | popup/popup.js:58-70 | the tumbling image is `../images/{type}_face{n}.png` with n drawn exactly as `rollDie` draws it; the `&& false` branch is unreachable |
| `Rolling.SelectedIconImage` | popup/popup.js:121-132 | a selected die is shown by the image of its highest face |
| `Rolling.EffectiveValue` | popup/popup.js:449-456 | a result in 1..N stands for itself; a d10 result of 0 stands for 10 |
| `Rolling.SettledImage` | popup/popup.js:195-201 | the face a die settles on (also lines 274-282 and 403-411): the face of its result, and face 10 for a d10 result of 0 |
| `Rolling.SumOfResults` | popup/popup.js:447-458 | the `reduce` of effective values: for results that are faces of their dice, the sum lies between the number of dice and the sum of their face counts |
| `Rolling.TotalSum` | popup/popup.js:445-458 | no total is produced exactly when the result list is empty; the total of rolled dice lies between the number of dice and the sum of their face counts |
| `Rolling.SumAfterReplace` | popup/popup.js:286-289 | replacing one result changes the total by the new value minus the old one |
| `Rolling.Repeat` | popup/popup.js:338-340 | the inner loop pushes `count` copies of the type, none for a count of 0 or less |
| `Rolling.Expanded` | popup/popup.js:336-341 | `diceToAnimate`, key by key: the list has one die per positive count |
| `Rolling.ExpandedCounts` | popup/popup.js:336-341 | each die type appears in the expansion exactly its count times |
| `Rolling.ExpandedMembers` | popup/popup.js:336-341 | every expanded die is a key of the configuration with a positive count |
| `Rolling.ExpandedInKeyOrder` | popup/popup.js:337-341 | the expansion lists the dice grouped by type in key order |
| `Rolling.RollAll` | popup/popup.js:357-369 | the roll's results are index-aligned with the dice: one entry per die, of its type, with a result in 1..N |
| `RollButton.ButtonFor` | popup/popup.js:36-54 | the three label cases; the button is enabled exactly when its text is not "Roll: Select dice below" |
| `RollButton.ButtonEnabled` | popup/popup.js:36-54 | the button is enabled exactly when some count is positive or the last configuration has a key |
| `RollButton.RollAgainShowsRolledDice` | popup/popup.js:36-48 | a selection labelled "Roll: X", once rolled, is offered as "Roll Again: X" |
| `RollButton.PartInjective` | popup/popup.js:31 | different positive counts or types give different "NdX" parts |
| `RollButton.JoinInjective` | popup/popup.js:37 | joining blank-free parts with " + " loses nothing: equal texts come from equal part lists |
| `RollButton.PartsInjective` | popup/popup.js:29-34 | over keys in key order, equal part lists come from equal positive counts |
| `RollButton.NotationInjective` | popup/popup.js:27-37 | two count objects with the same notation agree on every positive count |
| `RollButton.NotationStartsWithDigit` | popup/popup.js:31 | the notation of a non-empty selection starts with a digit |
| `RollButton.SameTextSameDice` | popup/popup.js:26-55 | two buttons with the same text agree on being enabled and on every positive count they show |
| `RollButton.SingleDieNotation` | popup/popup.js:207 | the notation of the configuration `{dieType: 1}` is "1dX" |
| `Tray.RollConfig` | popup/popup.js:312-330 | the configuration `performRoll` picks: none exactly when the selection's sum is not positive and `lastRollsConfig` is empty; otherwise the selection or `lastRollsConfig` |
| `Tray.ExpandConfig` | popup/popup.js:336-341 | the nested loops build exactly the expansion of the configuration |
| `Tray.RollEach` | popup/popup.js:357-369 | the loop that fills `currentRollResults` builds exactly `RollAll` of the dice: die i of its type with the i-th draw |
| `Tray.ButtonEnabledIffRollPossible` | popup/popup.js:312-330 | the popup rolls something exactly when the button is enabled, and it rolls the counts the button shows |
| `Tray.ExpandedByPositiveCounts` | popup/popup.js:337-341 | the expansion depends only on the positive counts |
| `Tray.SameButtonSameRoll` | popup/popup.js:26-55 | two states whose buttons read the same roll the same dice in the same order |
| `Tray.FinishedWithinRange` | popup/popup.js:418-420 | the completion counter never exceeds the number of dice, and reaches it only when every die has finished |
| `Tray.DiceTray.constructor` | popup/popup.js:4-9 | the popup opens with every count 0, no configuration, no results and the button "Roll: Select dice below", disabled |
| `Tray.DiceTray.UpdateRollButtonDisplay` | popup/popup.js:26-55 | the loops build the button `ButtonFor(selectedDice, lastRollsConfig)` |
| `Tray.DiceTray.AddDie` | popup/popup.js:115-145 | a left click raises that type's count by exactly 1, leaves the other counts and the results alone, empties `lastRollsConfig`, and shows the highest face |
| `Tray.DiceTray.RemoveSelectedDie` | popup/popup.js:79-95 | a click on a selected icon lowers that count by exactly 1 only when it is positive, then empties `lastRollsConfig`; otherwise nothing changes; no count goes negative |
| `Tray.DiceTray.PerformInstantRoll` | popup/popup.js:153-220 | after an instant roll the results are exactly one entry for that die, the configuration is exactly `{dieType: 1}`, and the selection is kept |
| `Tray.DiceTray.PerformInstantRollClearingSelection` | popup/popup.js:153-220 | the instant roll with the selection also cleared; the button then reads "Roll Again: 1dX" |
| `Tray.DiceTray.HandleDiceClick` | popup/popup.js:99-149 | only clicks on original icons act; a right click rolls that die at once (one result, configuration `{dieType: 1}`, selection kept) and a left click adds it |
| `Tray.DiceTray.HandleDiceClickClearingSelection` | popup/popup.js:99-149 | the handler with the corrected instant roll (see Findings): a right click also clears the selection and the button reads "Roll Again: 1dX" |
| `Tray.DiceTray.Reroll` | popup/popup.js:225-304 | a click on a rolled die shows its new face; only the `result` at `index` changes, and only when `0 <= index < length`; the length and all other entries stay; the total changes by the difference |
| `Tray.DiceTray.PerformRoll` | popup/popup.js:308-434 | rolls the selection (then resets every count to 0) when its sum is positive, else the last configuration when it has a key, else changes nothing; the configuration rolled becomes `lastRollsConfig`; the dice are its expansion and their results are fixed |
| `Tray.RollInFlight.constructor` | popup/popup.js:352-354 | a new roll holds its dice and results with no animation finished |
| `Tray.RollInFlight.DieFinished` | popup/popup.js:398-427 | a finished die shows its result; when the last die finishes, `lastRollResults` becomes the roll's results, and not before |
| `Tray.InstantRollKeepsSelectionOnButton` | popup/popup.js:153-211 | with dice selected, after the instant roll the button still reads "Roll: …" for the selection, and a click rolls that selection |
| `Tray.InstantRollCounterexample` | popup/popup.js:153-211 | one d6 selected, then a right click on the d20: the button reads "Roll: 1d6" |
| `Tray.InstantRollAfterSelection` | popup/popup.js:99-211 | from the opened popup, a left click on d6 and a right click on d20 through the handlers leave the button reading "Roll: 1d6" |
| `Tray.InstantRollAfterSelectionClearing` | popup/popup.js:99-211 | the same clicks through the corrected handler leave the button reading "Roll Again: 1d20" |
| `Tray.InstantRollOffersRollAgain` | popup/popup.js:204-211 | with the selection cleared and the configuration `{dieType: 1}`, the button reads "Roll Again: 1dX", enabled |

## Left out

- The DOM is not modelled: creating, appending and removing images, `innerHTML`, CSS classes, `dataset`, event listeners, `preventDefault` and `pointerEvents`. A handler's class checks are boolean parameters (`isOriginal`, `isSelectedIcon`, `isRolledDie`), and an image put on screen is a returned path.
- Audio playback (`rollSound`) and `console` output are not modelled. They are side effects with no bearing on the state.
- Timers, `Date.now()`, the random animation durations and the interval falloff are not modelled. They are timing and floating point only. An animation is one atomic step at its end.
- `Math.random()` is not modelled. The random value is an input: a real in [0, 1). Arithmetic is on reals, not IEEE doubles; for N ≤ 20, `Math.floor(r * N)` stays below N in doubles too.
- Tumbling faces are not modelled as a sequence. Only one draw of `getRandomFaceImage` is modelled (`Rolling.RandomFaceImage`); the face shown during the animation changes nothing in the state.
- JavaScript object key order is not modelled directly. Every configuration the popup builds is the `selectedDice` literal, a spread copy of it, or `{dieType: 1}`. So `for … in` visits the keys in the order d4, d6, d8, d10, d12, d20, and the model iterates that order and skips absent keys.
- `Decimal.ParseLeadingInt` does not model leading blanks, a sign or a radix. `parseInt` only ever reads the digits of `"dN"` here.
- `dataset.index` is given to `Tray.DiceTray.Reroll` as an integer, because the popup writes it from an integer.
- The delay between a re-roll click and the write into `lastRollResults` is not modelled. `Reroll` writes at once. A `Reroll` between two `DieFinished` calls writes into the previous results, as the source does.
- `create_placeholders.py`, the cropping scripts and the animation generator (`animation creation/dice_animation.py`, the 3D rendering, rotation and encoding engine) are not part of this model.

## Findings

| source | as written | input that shows it | evidently intended | confidence | as-written member | corrected member |
|---|---|---|---|---|---|---|
| popup/popup.js:153-211 | `performInstantRoll` empties the results area, which removes the selected-dice icons, but it leaves `selectedDice` as it was. The button then reads "Roll: …" for a selection no longer on screen, and the next Roll click rolls it. | Left click on d6, then right click on d20: the button reads "Roll: 1d6", not "Roll Again: 1d20". | Reset `selectedDice` as `performRoll` does at line 320, so the button reads "Roll Again: 1dX" as the comment at line 211 says. | medium; not executed | `Tray.DiceTray.PerformInstantRoll`; `Tray.InstantRollCounterexample`; `Tray.InstantRollAfterSelection` | `Tray.DiceTray.PerformInstantRollClearingSelection`; `Tray.InstantRollOffersRollAgain`; `Tray.InstantRollAfterSelectionClearing` |
