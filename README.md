# MMT price alert: a Dafny model

This project models the monitoring core of the MMT on-chain price alert bot
(`price-alert.js`). The bot watches liquidity pools on Sui. For each pool it turns
the on-chain Q64 square-root price into a price. It sends a breach alert when the
price leaves the pool's `[min, max]` band and a recovery alert when it comes back.
Chat commands add, edit and remove pools through a small per-chat dialogue.

The model has three parts.

- **Price derivation** (`price.dfy`, module `PriceMath`). `calcPriceFromSqrt` is
  computed with exact `real` arithmetic:
  - the price is `(sqrtPriceX64 / 2^64)^2 · 10^(decimals0 − decimals1)`;
  - with the invert flag it is the reciprocal of that;
  - it is rounded to the nearest multiple of 1e-10, a tie going away from zero,
    as the decimal library's `toFixed(10)` does by default.
  A zero square-root price with invert set divides one by zero. The decimal library
  answers positive infinity there, and the model has a `PosInfinity` quote for it.
- **Alert state machine** (`alerts.dfy`, module `Alerts`).
  - `PoolStep` is the loop body of `checkPools` for one pool.
  - `Cycle` is one whole poll over the registry, in order.
  - The zone table maps pool id to `Inside` or `Outside`. A missing id reads as `Inside`.
  - The fetched price of each pool is an input (`Option<Quote>`). `FetchedPrice`
    gives the part of `getPoolData` after the network call.
- **Registry and dialogue** (`registry.dfy`, `text.dfy`, `monitor.dfy`).
  - Class `Bot.Monitor` holds `pools` (insertion-ordered), `status` (keyed by pool
    id alone, as in the source) and `pending` (the per-chat dialogue mode).
  - There is one method per transition: a poll, `/add`, `/edit`, `/remove`,
    `/cancel`, and each mode of the plain-message handler.
  - Its invariant `Valid()` says every status entry belongs to a registered pool.
  - `Text` models `trim`, `split("\n")` and the lower-casing of the invert flag.
  - `parseInt` and `parseFloat` are parameters: abstract parse results.

A malformed or missing `sqrt_price` makes `getPoolData` return `null`; the model's
`None` fetch covers that.

## Model

| member | source | states |
|---|---|---|
| `PriceMath.RawPrice` | price-alert.js:32-41 | the un-inverted price is non-negative, and zero exactly when the square-root price is zero |
| `PriceMath.InvertIsReciprocal` | price-alert.js:44-46 | for a positive square-root price, the inverted price times the plain price is exactly 1 |
| `PriceMath.InvertedPriceFormula` | price-alert.js:40-46 | the inverted price is `(2^64/sqrt)^2 · 10^(d1−d0)`: inverting swaps the roles of the two tokens |
| `PriceMath.DecimalShift` | price-alert.js:40-41 | one more decimal on token0 multiplies the price by exactly ten |
| `PriceMath.PriceMonotone` | price-alert.js:36-46 | a larger square-root price gives a strictly larger plain price and a strictly smaller inverted one |
| `PriceMath.PegPrice` | price-alert.js:33-46 | with equal decimals the exact price, inverted or not, is 1 if and only if the square-root price is 2^64 |
| `PriceMath.ToFixed10` | price-alert.js:48 | the result is a whole multiple of 1e-10 and the nearest one to the input: a non-negative value rounds half up, a negative one half down (ties away from zero); it moves a value by at most 5e-11 and keeps non-negative values non-negative |
| `PriceMath.ToFixedZero` | price-alert.js:48 | a non-negative price is reported as 0 exactly when it is below 5e-11 |
| `PriceMath.ToFixedIdempotent` | price-alert.js:48 | rounding an already rounded price changes nothing |
| `PriceMath.CalcPriceFromSqrt` | price-alert.js:26-49 | a finite reported price is non-negative and lies within 5e-11 of the exact (inverted or plain) price; it is infinite exactly when invert is set and the square-root price is zero |
| `Alerts.DecimalsOrDefault` | price-alert.js:92-93 | a zero (missing) decimals setting becomes 6, and any other value is kept unchanged |
| `Alerts.FetchedPrice` | price-alert.js:84-96 | a price is produced exactly when the pool has a `sqrt_price` |
| `Alerts.PoolStep` | price-alert.js:108-155 | a failed or zero price changes nothing; otherwise the pool's zone becomes the price's classification against `[min, max]`; an alert is emitted iff the zone changes (breach iff it was inside); at most one alert, for this pool and price; no other id's entry changes |
| `Alerts.Cycle` | price-alert.js:104-157 | a poll emits no more alerts than there are pools, and adds status entries only for registered ids |
| `Alerts.CycleFrame` | price-alert.js:107-155 | a poll leaves the entry of every unregistered id exactly as it was |
| `Alerts.StepOtherZone` | price-alert.js:114-155 | evaluating one pool leaves every other id's zone unchanged |
| `Alerts.CycleZone` | price-alert.js:107-155 | with distinct ids, after a poll each pool's zone is the classification of its new price, or its old zone when its fetch failed; one failure does not stop the others |
| `Alerts.StepAlertsByZone` | price-alert.js:114-139 | what a pool's step emits depends only on that pool's own zone, not on other entries |
| `Alerts.CycleIsIndependent` | price-alert.js:107-155 | with distinct ids, the poll's alerts are exactly the alerts of each pool evaluated alone, in registry order |
| `Alerts.NoRepeatedBreach` | price-alert.js:124-138 | once a price is outside, the next poll of that pool emits nothing or a recovery, never a second breach |
| `Alerts.ZeroSqrtPrice` | price-alert.js:108-115 | a zero square-root price is skipped when not inverted and puts the pool outside when inverted |
| `Alerts.TinyPriceSkipped` | price-alert.js:108-112 | a positive un-inverted price below 5e-11 rounds to 0 and the pool is skipped like a failed fetch |
| `Text.TrimStart` | price-alert.js:446 | the result is a suffix of the input, only white space was dropped, and it does not start with white space |
| `Text.TrimEnd` | price-alert.js:446 | the result is a prefix of the input, only white space was dropped, and it does not end with white space |
| `Text.Trim` | price-alert.js:446 | the result is no longer than the input and has no white space at either end |
| `Text.TrimSlice` | price-alert.js:446 | what `trim` keeps is one contiguous slice of the input, and only white space lies before and after it |
| `Text.TrimIdempotent` | price-alert.js:446 | trim is a normal form: a trimmed text has nothing left to trim |
| `Text.Split` | price-alert.js:446 | there is at least one part and no part contains the separator |
| `Text.JoinSplit` | price-alert.js:446 | joining the parts of a split with the separator gives back the input |
| `Text.SplitJoin` | price-alert.js:446 | splitting the join of separator-free parts gives back the parts |
| `Text.SplitCount` | price-alert.js:446 | a string splits into one more part than it has separators |
| `Text.Lines` | price-alert.js:384 | a message has one more line than its trimmed text has newlines, and the lines rejoin to the trimmed text |
| `Text.LowerChar` | price-alert.js:460 | ASCII capitals map to their lower-case letter; every other character is kept |
| `Text.Lower` | price-alert.js:460 | lower-casing keeps the length and lower-cases each character |
| `Text.TrueFlagSpellings` | price-alert.js:460 | the invert flag is set exactly by the four letters of "true" in any mix of cases |
| `Registry.NewPool` | price-alert.js:446-478 | an add request is accepted iff it has 4 or 5 lines and numeric min and max; the pool has trimmed id and name, the parsed bounds, decimals 6/6, and invert iff a fifth line lower-cases to "true"; a wrong line count is reported before bad numbers |
| `Registry.RemoveAt` | price-alert.js:434 | one pool fewer; the pools before the position stay, the ones after shift down by one in order; the multiset loses exactly the removed pool |
| `Registry.RemoveAtIds` | price-alert.js:434-435 | removing a pool can lose no id but the removed pool's own |
| `Registry.SetBounds` | price-alert.js:406-410 | only the chosen pool changes, and only its min and max; the ids are the same |
| `Bot.ChosenIndex` | price-alert.js:364-366 | a 1-based answer selects position `n−1` exactly when `1 ≤ n ≤` the number of pools |
| `Bot.Monitor.constructor` | price-alert.js:15-21 | the bot starts with no pools, no status entries and no dialogues |
| `Bot.Monitor.CheckPools` | price-alert.js:104-157 | the loop leaves the status table and the alert list that `Cycle` specifies; pools and dialogues are unchanged; every status entry still belongs to a pool |
| `Bot.Monitor.StartAdd` | price-alert.js:267-269 | the chat enters the add dialogue; nothing else changes |
| `Bot.Monitor.StartEdit` | price-alert.js:308-326 | with no pools nothing changes; otherwise the chat starts choosing a pool to edit |
| `Bot.Monitor.StartRemove` | price-alert.js:329-345 | with no pools nothing changes; otherwise the chat starts choosing a pool to remove |
| `Bot.Monitor.Cancel` | price-alert.js:348-352 | the chat's dialogue is dropped; pools and status are unchanged |
| `Bot.Monitor.ChoosePoolToEdit` | price-alert.js:363-380 | a valid position moves the chat to editing that pool's values; anything else is rejected and changes nothing; pools and status never change |
| `Bot.Monitor.SubmitBounds` | price-alert.js:383-423 | two numeric lines set exactly the chosen pool's min and max, reset its id's status to inside and end the dialogue; the wrong line count, a bad number or a position past the end of the registry changes nothing |
| `Bot.Monitor.ChoosePoolToRemove` | price-alert.js:426-442 | a valid position removes exactly that pool, keeps the others' order, deletes its id's status and ends the dialogue; an invalid one changes nothing |
| `Bot.Monitor.SubmitPool` | price-alert.js:445-488 | a well-formed request appends exactly its pool at the end and ends the dialogue; any other input changes nothing; the status table never changes |
| `Bot.Monitor.HandleMessage` | price-alert.js:355-489 | commands and chats with no dialogue are ignored without change; otherwise the chat's mode decides which of the four steps runs, and the reply says which outcome happened |

## Left out

- Network I/O: the RPC request and the response-shape handling in `getPoolData` are not modelled. Each pool's fetch result is an input to the poll.
- Notification delivery (`notifier.notify`, `bot.sendMessage`) and all message text are not modelled. Alerts are values in the poll's output, and chat answers are `Reply` values.
- The `/start`, `/help`, `/list` and `/status` handlers only display; `/status` re-fetches prices but never writes the status table.
- The timer (`setInterval`) and the HTTP health server are not modelled.
- The async interleaving of a poll with chat handlers at each `await` is not modelled. Each poll and each command is one atomic step.
- Which handlers fire for a message is not modelled. Command handlers match their regular expression anywhere in the text, and that dispatch belongs to the chat library.
- The crash on a message with no text is not modelled.
- Decimal precision is not modelled. The decimal library rounds `div` and `pow` to its configured significant digits; the model computes exactly.
- `parseFloat` of the rounded price is not modelled. The model reports the exact ten-decimal value, not the nearest double.
- JavaScript `parseInt` and `parseFloat` semantics on user text are parameters of the handlers.
- Bounds are finite reals, so `parseFloat` answers of `Infinity` are not represented.
- `PoolConfig` is a value: assigning `pool.min` and `pool.max` in place is modelled as replacing that element of `pools`. Only the registry holds pool records, so no aliasing is lost.
- The decimals settings are always present in a config, so `DecimalsOrDefault` models a missing setting as its zero case.
- `sqrt_price` is taken to be an unsigned integer, as the chain stores it. A malformed string makes the source's `getPoolData` return `null`, which the model's `None` covers.
- `Text.LowerChar`: lower-casing is modelled on ASCII letters only; it is used only to compare with "true".
- `Alerts.CycleZone` and `Alerts.CycleIsIndependent` assume distinct pool ids. The source does not deduplicate ids. Two pools with one id share one status entry, and `Cycle` models that sharing, but these two lemmas say nothing about it.
- `Bot.Monitor.HandleMessage` states each mode's outcome only coarsely; the four step methods it calls state them in full.
- Alert delivery failures are not modelled. The source awaits `bot.sendMessage` before it writes the new zone (price-alert.js:136-138 and 152-154). A rejected delivery leaves the zone unwritten, so the same alert is sent again on the next poll, and the rest of that poll's pools are skipped. Neither the first poll nor the timer's polls (price-alert.js:493-494) are awaited, so such a rejection goes unhandled. The model treats every delivery as successful.
- The status table's JavaScript object semantics are not modelled. `alertStatus` is a plain object (price-alert.js:21), so an id that names an inherited property such as `constructor` or `toString` reads a truthy non-zone value at price-alert.js:114. Such a pool never alerts until an edit writes its own entry. For the id `__proto__` even that write (price-alert.js:413) has no effect. The model reads a missing entry as `Inside` for every id.
- `Bot.Monitor.SubmitBounds`: a selected position past the end of the registry is answered with `StaleSelection` and changes nothing. In the source, `pool` is `undefined` there and `pool.min = min` (price-alert.js:409) throws a `TypeError`: no reply is sent, and the dialogue stays in edit mode, as in the model. A stale position that is still in range edits whichever pool now sits there, in the source and in the model alike, because the dialogue stores a position, not a pool id.
