# Mobile bridge and market ordering: a Dafny model

This project models two pieces of decision logic from the trading front-end.

1. **The mobile-bridge hook (`useMobileBridge`).** `isBridgeAvailable` decides whether the host mobile shell's
   channel (`window.DerivAppChannel.postMessage`) can be used. `sendBridgeEvent(event, fallback?)` either posts
   `JSON.stringify({ event })` to that channel or runs a caller-supplied fallback. It catches every error, logs
   it with `console.error`, and resolves to a boolean.
2. **The chart's market order (`getMarketsOrder`).** It sorts the active symbols by `underlying_symbol || symbol`,
   maps them to their markets, and removes duplicates, keeping first occurrences. `synthetic_index` is put first
   when any symbol belongs to it. The same container's `barriers` list and `max_ticks` rule are modelled too.

All the models are pure functions:

- The hook's surroundings become an explicit environment:
  - `Env.isDesktop` replaces the device-classification hook.
  - `Env.channel` holds the JavaScript value of `window.DerivAppChannel`.
  - The fallback is described by the outcome of its k-th call.
- The hook's behaviour becomes a `Run`: how the async function completes, plus the ordered trace of effects (post,
  fallback call, error log).
- `Js` models the JavaScript semantics the probe depends on: truthiness and optional chaining `?.`.
- `Wire` holds the event tokens, the JSON wire form and a parser for that form.
- `LexOrder` models JavaScript's `<` on strings.

Files: `wrappers.dfy`, `js.dfy`, `wire.dfy`, `mobile_bridge.dfy`, `lex_order.dfy`, `trade_chart.dfy`.

## Behaviour of the code that a reader may not expect (the model follows the code)

- **Availability is a truthiness test.** Line 35 of `useMobileBridge.ts` uses `!!window.DerivAppChannel?.postMessage`.
  It checks that the member is *truthy*, not that it is callable. A truthy non-function therefore counts as
  "available". Calling it at line 11 then throws a `TypeError`, which the `catch` at line 18 handles like a throwing
  `postMessage` (`MobileBridge.NonFunctionPostPath`).
- **Both handlers can run in one call.** When `postMessage` throws, the `catch` at lines 18-24 logs the failure and
  then calls the fallback. That post-then-fallback sequence is the one the hook's test at
  `useMobileBridge.spec.ts:221-248` expects.
- **The fallback can run twice.** The `await fallback()` at line 14 sits inside the same `try` as the post. A fallback
  that throws there is caught at line 18, logged as a *bridge* failure at line 19, and called a second time at
  line 23. The handler's log message and its comment at line 20 ("Execute fallback on error") show it was written
  for bridge failures. The model proves "post at most once, fallback at most twice" (`MobileBridge.SendBridgeEvent`)
  and reports the double call under Findings.

## Model

| member | source | states |
|---|---|---|
| `Js.OptionalMember` | packages/core/src/App/Hooks/useMobileBridge.ts:35 | `channel?.postMessage` is `undefined` on a nullish channel or one without that member (own or inherited). Otherwise it is exactly that member's value, whether the channel is an object or a function |
| `MobileBridge.IsBridgeAvailable` | packages/core/src/App/Hooks/useMobileBridge.ts:34-36 | available iff not desktop AND the channel is an object or function AND it has a `postMessage` member AND that member is truthy; never available on desktop, even with a channel present |
| `MobileBridge.SendBridgeEvent` | packages/core/src/App/Hooks/useMobileBridge.ts:7-32 | on every environment and fallback the dispatch completes normally (never raises). It returns true exactly when some post or fallback call returned, and that call is the last effect. At most one post, only when available, always carrying the event's wire form. At most two fallback calls, none without a fallback. At most one bridge-failure log |
| `MobileBridge.ChannelPath` | packages/core/src/App/Hooks/useMobileBridge.ts:9-12 | available channel whose `postMessage` returns: exactly one post of `{"event":"<token>"}`, result true, fallback not called |
| `MobileBridge.FallbackPath` | packages/core/src/App/Hooks/useMobileBridge.ts:13-15 | channel unavailable, fallback completes: the fallback runs once, nothing is posted or logged, result true |
| `MobileBridge.NoOpPath` | packages/core/src/App/Hooks/useMobileBridge.ts:13-17 | channel unavailable, no fallback: result false, empty trace (nothing posted, called or logged) |
| `MobileBridge.PostThrowsWithFallback` | packages/core/src/App/Hooks/useMobileBridge.ts:18-28 | `postMessage` throws, fallback given: post, one bridge-failure log, one fallback call. The result is true iff that call returns; if it throws, one fallback-failure log follows |
| `MobileBridge.PostThrowsNoFallback` | packages/core/src/App/Hooks/useMobileBridge.ts:18-30 | `postMessage` throws, no fallback: result false after the post and exactly one bridge-failure log |
| `MobileBridge.NonFunctionPostPath` | packages/core/src/App/Hooks/useMobileBridge.ts:9-24 | truthy but non-callable `postMessage`: nothing is posted, the first effect is a bridge-failure log, and the result is true iff a supplied fallback's first call returns |
| `MobileBridge.FallbackRunsTwice` | packages/core/src/App/Hooks/useMobileBridge.ts:13-23 | channel unavailable and the fallback's first call throws: that throw is logged as a bridge failure and the fallback runs a second time. The second call's outcome decides the result; the fallback count is exactly 2 |
| `MobileBridge.DoubleFallbackWitness` | packages/core/src/App/Hooks/useMobileBridge.ts:13-23 | concrete case: a phone with no channel and a fallback that throws once. The code as written calls the fallback twice and returns true; the corrected dispatch calls it once and returns false |
| `MobileBridge.SendBridgeEventIntended` | packages/core/src/App/Hooks/useMobileBridge.ts:7-32 | corrected dispatch: never raises; true iff a handler returned. At most one post, at most one fallback call. A bridge failure is logged only when the channel was tried |
| `MobileBridge.AsWrittenMatchesIntended` | packages/core/src/App/Hooks/useMobileBridge.ts:13-28 | the as-written and corrected dispatches agree on every input except one: channel unavailable and the fallback's first call throws |
| `Wire.Token` | packages/core/src/App/Hooks/useMobileBridge.ts:7 | each event token is non-empty and contains no quote, backslash or control character, so JSON serialisation writes it verbatim |
| `Wire.Serialize` | packages/core/src/App/Hooks/useMobileBridge.ts:10-11 | the wire forms are exactly the literals the hook's tests expect: `{"event":"trading:back"}` and `{"event":"trading:home"}` |
| `Wire.Parse` | packages/core/src/App/Hooks/useMobileBridge.ts:10-11 | a wire string is accepted only if it is exactly the canonical `{"event":"<token>"}` serialisation of the event returned |
| `Wire.ParseSerialize` | packages/core/src/App/Hooks/useMobileBridge.ts:10-11 | round trip: reading back the posted string gives the event that was sent |
| `Wire.SerializeInjective` | packages/core/src/App/Hooks/useMobileBridge.ts:10-11 | different events never produce the same wire string |
| `LexOrder.LessOrEqualTransitive` | packages/trader/src/Modules/Trading/Containers/trade-chart.tsx:95 | `<=` on strings (as "not `b < a`") is transitive; this rests on the trichotomy and transitivity of `<` |
| `TradeChart.SortKey` | packages/trader/src/Modules/Trading/Containers/trade-chart.tsx:95 | a non-empty underlying symbol is the key; an absent or empty one falls back to the symbol, so an empty key only arises from an empty symbol |
| `TradeChart.SortedPairwise` | packages/trader/src/Modules/Trading/Containers/trade-chart.tsx:94-96 | a list sorted between neighbours is ordered by key between any two positions |
| `TradeChart.Insert` | packages/trader/src/Modules/Trading/Containers/trade-chart.tsx:94-96 | inserting into a key-sorted list keeps it sorted and adds exactly the inserted symbol |
| `TradeChart.SortByKey` | packages/trader/src/Modules/Trading/Containers/trade-chart.tsx:92-96 | the sorted copy is ordered by key and is a permutation of the input (same multiset) |
| `TradeChart.SortedPermutationUnique` | packages/trader/src/Modules/Trading/Containers/trade-chart.tsx:94-96 | with distinct keys, any two key-sorted permutations of the same symbols are equal |
| `TradeChart.MarketsOf` | packages/trader/src/Modules/Trading/Containers/trade-chart.tsx:97 | the market list has one entry per symbol, the market of the symbol at the same position |
| `TradeChart.HasMarket` | packages/trader/src/Modules/Trading/Containers/trade-chart.tsx:91 | true iff some symbol belongs to the market, equivalently iff the market occurs in the mapped market list |
| `TradeChart.IndexOf` | packages/trader/src/Modules/Trading/Containers/trade-chart.tsx:100 | `indexOf` returns -1 iff the value is absent; otherwise a position holding it with no earlier occurrence |
| `TradeChart.Collect` | packages/trader/src/Modules/Trading/Containers/trade-chart.tsx:98-103 | from a duplicate-free seed: the result has no duplicates and keeps the seed as a prefix. Its markets are exactly those of the seed and the input. Nothing after the seed repeats a seed entry |
| `TradeChart.CollectFollowsFirstOccurrence` | packages/trader/src/Modules/Trading/Containers/trade-chart.tsx:98-102 | after the seed, collected markets appear in increasing order of their first position in the input |
| `TradeChart.FirstOccurrencePrecedes` | packages/trader/src/Modules/Trading/Containers/trade-chart.tsx:94-101 | in a key-sorted list, if market a first occurs before market b, then some symbol of a has a key no greater than every symbol of b |
| `TradeChart.GetMarketsOrder` | packages/trader/src/Modules/Trading/Containers/trade-chart.tsx:89-105 | no duplicates. The output markets are exactly the markets of the input symbols. `synthetic_index` comes first when present. After it, every market precedes later ones by smallest symbol key. Empty input gives empty output |
| `TradeChart.MarketsOrderSortIndependent` | packages/trader/src/Modules/Trading/Containers/trade-chart.tsx:92-104 | with distinct keys, collecting from any key-sorted copy gives the same list as `getMarketsOrder`, so the engine's sort algorithm does not matter |
| `TradeChart.Barriers` | packages/trader/src/Modules/Trading/Containers/trade-chart.tsx:160 | the extra barriers are kept unchanged as the suffix. The main barrier, when present, is added at the front and only there |
| `TradeChart.MaxTicks` | packages/trader/src/Modules/Trading/Containers/trade-chart.tsx:163 | the mobile tick cap is 8 exactly for granularity 0 and 24 for every other granularity |

## Left out

- React plumbing: the `useCallback` memoisation, the `useDevice` hook and the hook's pass-through `isDesktop` value. Device classification is an input (`Env.isDesktop`).
- The `window` global: `window.DerivAppChannel` is read once per call as a value (`Env.channel`). A property getter that throws is not modelled.
- `console.error`: modelled as `Logged(message, cause)` effects. The error object is reduced to which call threw.
- Async scheduling: `await fallback()` is one atomic call that returns or throws. A fallback that never settles (the dispatch hangs with it) is not modelled.
- JavaScript numbers in the probe are integers: NaN and fractional values are not needed to decide truthiness of a `postMessage` member.
- String order: JavaScript compares UTF-16 code units, and the model compares code points. The two orders differ only for characters above U+FFFF.
- TradeChart.GetMarketsOrder: the order after `synthetic_index` is stated up to ties in the sort key. The comparator never answers "equal", so the engine may order equal keys either way. With distinct keys the order is fixed (`TradeChart.MarketsOrderSortIndependent`).
- The input list is not mutated: all values are immutable here, so the copy taken before sorting is implicit. `TradeChart.SortByKey` shows that the sorted copy loses and adds nothing.
- TradeChart.MaxTicks: granularity is an integer; a missing (`undefined`) granularity, which also gives 24, is not modelled.
- The mock quote feeds `getQuotes`, `subscribeQuotes` and `unsubscribeQuotes` (trade-chart.tsx:107-158): they depend on `Math.random`, `Math.sin`, `Date.now` and timers.
- Chart settings, `SmartChart` props and the rest of the container's rendering, plus the other view components (header logo, account actions, menu title, routes, entry/exit details): view composition whose logic sits in external formatters.
- Profit-table formatting (`format-response.ts`): floating-point defaulting and external money formatting.
- Build configuration (`webpack.config.js`).

## Findings

| source | as written | input that shows it | evidently intended | confidence | as-written member | corrected member |
|---|---|---|---|---|---|---|
| packages/core/src/App/Hooks/useMobileBridge.ts:13-23 | when the channel is unavailable, a fallback that throws is caught by the outer `catch`. The throw is logged as "Failed to send bridge message:" and the fallback is called a second time; if that call succeeds the result is true | not desktop, `window.DerivAppChannel` undefined, a fallback that throws on its first call and returns on its second | the fallback runs once; its failure is logged as "Fallback execution failed:" and the dispatch resolves false, which is what the handler's log message and its "Execute fallback on error" comment (lines 19-20) are written for | medium; not executed | `MobileBridge.FallbackRunsTwice` (also `MobileBridge.DoubleFallbackWitness`) | `MobileBridge.SendBridgeEventIntended` |
