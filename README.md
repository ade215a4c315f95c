# Market dapp client core, modelled in Dafny

This project models the client-side core of a small marketplace dapp. The
dapp mirrors "items" published on a ledger contract into a reactive list.
Two components are modelled:

- **`MarketSite`** (js/marketSite.js), the wrapper around the contract. It
  keeps a registry from event name to callbacks. It dispatches each
  incoming contract event to that name's callbacks, isolating callbacks
  that throw. It caches the publication cost, which a `PublicationCost`
  event refreshes. It retrieves items in descending id order, and it
  checks the value range before publishing an item.
- **`PageViewModel`** (js/itemListViewModel.js), the knockout view model.
  It holds an observable list of `{ipfs, item, updated}` entries and keeps
  that list up to date from retrievals and events. It also provides the
  address predicates used for rendering (`isOwn`, `canOffer`,
  `compactAddress`) and the filter for the claim list.

Files and modules:

| file | module | contents |
|---|---|---|
| wrappers.dfy | `Wrappers` | `Option`, `Result` |
| ledger.dfy | `Ledgers` | `Item`, the item states, the ledger as `itemsCount` plus `getItem(id)` over ids 1..itemsCount |
| retrieval.dfy | `Retrieval` | `retrieveItems` and `retrieveAllItems` as written, the corrected windowed pager, and their lemmas |
| market_site.dfy | `Market` | class `MarketSite` (registry, `publishCost`, dispatch, `publishItem`), and lemmas about dispatch |
| item_rules.dfy | `ItemRules` | `toUpperCase`, `isOwn`, `canOffer`, the claim filter, `compactAddress` with JavaScript `substring` clamping |
| item_list.dfy | `ItemList` | class `PageViewModel` (the entry list, pending timers, the steps that change them), and an example scenario |

Modelling choices:

- **Handlers.** A handler is an opaque id plus a flag saying whether calling
  it throws. `Dispatch` returns the trace of calls it attempts. Each call
  records the handler, the event name and payload it received, the cached
  cost at the time of the call, and whether the handler threw (and so was
  logged and skipped).
- **Asynchronous steps.** Each asynchronous completion is an explicit method
  call, and its result is a parameter: the record `retrieveItem` returned,
  or the content the IPFS gateway served. `Promise.all` is an
  order-preserving map (`AllResolved`) that fails if any read fails. The
  5-second `clearItemStatus` timer is the step `PageViewModel.Expire(e)`.
- **Object identity.** Every object literal the source puts into the list
  gets a fresh token. This lets knockout's identity-based `replace` be
  stated exactly: it overwrites the first occurrence of the old object and
  does nothing if that object is gone. A late timer therefore never
  overwrites a newer entry.
- **`retrieveItems` as written.** The loop at js/marketSite.js:121-123
  tests `count` but never decrements it. The first batch reads every id
  from `from` down to 1, so the recursion at js/marketSite.js:127-129 can
  never run. `RetrieveItems` models this: its dead branch is an
  `assert false`. It returns every match in `[1, from]` in descending id
  order, without truncating to `count`. Had the recursion been reachable,
  restarting at `from - 1` would have skipped one id, because the loop has
  already moved `from` below the last id it read. The intended quota-bounded
  pager is `RetrieveWindowed`, which restarts directly below its window.
  The two agree whenever `count` is at least the number of matches. This
  always holds in `retrieveAllItems`, which passes
  `count = from = itemsCount`.
- **Behaviour of the code a reader might not expect:**
  - retrieval is not bounded by `count` (see Findings);
  - `unload` clears every registered handler, including other components'
    handlers, not only the view model's own;
  - reversion timers are never cancelled or replaced, and a superseded
    timer is a no-op because `replace` finds nothing;
  - nothing stops the list from holding two entries with the same
    `itemId`, so the model does not claim uniqueness.

## Model

| member | source | states |
|---|---|---|
| `Market.MarketSite.constructor` | js/marketSite.js:9-14 | a new wrapper has an empty registry and the given publication cost |
| `Market.Added` | js/marketSite.js:63-71 | the name's list becomes the old list (or nothing) followed by `cb`; every other name's list is unchanged; the key set gains the name |
| `Market.MarketSite.AddEventHandler` | js/marketSite.js:63-71 | the registry becomes `Added(old, name, cb)`: the name's list gains `cb` at its end and every other name keeps its list |
| `Market.DuplicatesAreKept` | js/marketSite.js:63-70 | adding the same callback twice leaves it in the list twice |
| `Market.Cleared` | js/marketSite.js:78-80 | only the named entry is removed; every other name keeps its list |
| `Market.MarketSite.ClearEventHandler` | js/marketSite.js:78-80 | the registry becomes `Cleared(old, name)` |
| `Market.ClearedNameRunsNothing` | js/marketSite.js:78-80 | after clearing a name, dispatching that name calls nothing |
| `Market.MarketSite.ClearAllEventHandlers` | js/marketSite.js:85-87 | the registry is empty |
| `Market.FanOut` | js/marketSite.js:46-53 | the dispatch loop makes exactly one call per handler in the list |
| `Market.CostAfter` | js/marketSite.js:40-42 | a `PublicationCost` event sets the cost to its `publicationCost`; every other delivery keeps the cost |
| `Market.MarketSite.Dispatch` | js/marketSite.js:34-55 | a transport error calls nothing and keeps the cost; an event first refreshes the cost, then looks up the list registered under its name (none when the name has no entry) and calls exactly `FanOut` of that list, with the refreshed cost; the registry is unchanged |
| `Market.FanOutCallsEachInOrder` | js/marketSite.js:44-54 | call `i` of the dispatch loop is handler `i` of the list, with the event's name and payload and the current cost, and it threw (was caught and logged) iff that handler throws; one call per handler |
| `Market.ThrowingHandlerIsIsolated` | js/marketSite.js:46-53 | a handler that throws is recorded as thrown, and every later handler in the list is still called |
| `Market.OnlyNamedHandlersRun` | js/marketSite.js:44-45 | every handler called is one registered under the event's name |
| `Market.AddedHandlerRunsLast` | js/marketSite.js:44-71 | after `addEventHandler(n, cb)`, dispatching `n` makes the earlier calls and then calls `cb` |
| `Market.MarketSite.PublishItem` | js/marketSite.js:164-174 | rejected with the source's message iff `maxValue < initialValue`, and then no call is made; otherwise it asks for the user's address, adds the JSON to IPFS, then sends `publishItem(hash, initialValue, maxValue)` from that address with `value` equal to the cached `publishCost` |
| `Retrieval.AllResolved` | js/marketSite.js:124-125 | `Promise.all` succeeds iff every read succeeded, and then yields their values in order |
| `Retrieval.IdsRangeDescending` | js/marketSite.js:121-123 | the requested ids are `hi, hi-1, …, lo+1`: strictly descending, exactly the ids in `(lo, hi]`, one each |
| `Retrieval.ReadRangeResolves` | js/marketSite.js:121-125 | reads of ids inside `1..itemsCount` all succeed and yield those records, newest first |
| `Retrieval.ReadRangeFails` | js/marketSite.js:122-135 | a batch that starts above `itemsCount` fails as a whole |
| `Retrieval.ReadRange` | js/marketSite.js:121-123 | the batch issues `hi - lo` reads (none when `hi <= lo`), read `k` being `getItem(hi - k)` |
| `Retrieval.Filter` | js/marketSite.js:126 | `v.filter(predicate)` returns no more than its input, and every element it returns satisfies the predicate |
| `Retrieval.FilterMembers` | js/marketSite.js:126 | a record survives the filter iff it was fetched and satisfies the predicate |
| `Retrieval.FilterKeepsDescending` | js/marketSite.js:126 | filtering keeps the strictly descending id order |
| `Retrieval.FilterConcat` | js/marketSite.js:126-129 | filtering distributes over concatenation: the step the corrected pager's proof uses for `filtered.concat(res)` |
| `Retrieval.FilterKeepsAll` | js/marketSite.js:145 | with a predicate that accepts everything, filtering returns its input |
| `Retrieval.RetrieveItems` | js/marketSite.js:118-137 | for `count > 0` it requests ids `from, …, 1` exactly once, in that order, and returns the filtered records of `[1, from]` without truncating to `count`; an empty result when `count <= 0` or `from <= 0`; a failure when `from` is above `itemsCount` |
| `Retrieval.RetrievedItems` | js/marketSite.js:118-137 | on a well-formed ledger the result holds exactly the records with id in `[1, from]` that satisfy the predicate: every element is the ledger's record for its id, in that range, and satisfies the predicate, and every such record is present; strictly descending by id |
| `Retrieval.RetrieveAllItems` | js/marketSite.js:144-154 | requests every id once, newest first; returns all matching items in descending order; returns every item when no predicate is given; returns empty on an empty ledger; equals the corrected pager's result |
| `Retrieval.AsWrittenIgnoresCount` | js/marketSite.js:121-123 | with every item matching and `0 < count < from`, the result has `from` elements, more than `count` |
| `Retrieval.TakeConcat` | js/marketSite.js:127-129 | taking `c` from `f + m` with `|f| < c` is `f` followed by `c - |f|` taken from `m` (the accumulation step of the recursion) |
| `Retrieval.ItemsRangeSplit` | js/marketSite.js:127-129 | the records of `(lo, hi]` are those of `(mid, hi]` followed by those of `(lo, mid]`: a batch and the rest below it |
| `Retrieval.ItemsRangeIds` | js/marketSite.js:121-122 | on a well-formed ledger the batch holds the records with ids `hi` down to `lo+1`, in that order |
| `Retrieval.RetrieveWindowed` | js/marketSite.js:118-137 | the corrected pager returns empty when `count <= 0` or `from <= 0`, and never more than `count` records |
| `Retrieval.WindowedReturnsFirstMatches` | js/marketSite.js:110-137 | the corrected pager returns the first `count` matches from `from` downwards |
| `Retrieval.WindowedAgreesWhenCountCovers` | js/marketSite.js:127-132 | when `count` is at least the number of matches, the corrected pager returns every match, which is what `RetrieveItems` returns |
| `ItemRules.ToUpper` | js/itemListViewModel.js:97 | upper-casing keeps the length and maps each character to its upper case |
| `ItemRules.UpperEqualIffSameUpToCase` | js/itemListViewModel.js:97 | two strings upper-case to the same string iff they have the same length and agree letter by letter up to case |
| `ItemRules.IsOwn` | js/itemListViewModel.js:96-98 | `isOwn` holds iff the two addresses have the same length and agree letter by letter up to case |
| `ItemRules.IsOwnIgnoresCase` | js/itemListViewModel.js:96-98 | `isOwn` ignores the case of either address, and is reflexive and symmetric |
| `ItemRules.CanOffer` | js/itemListViewModel.js:100-104 | `canOffer` holds iff the state is at most Offered and the actor differs, up to case, from both the owner and the current bidder |
| `ItemRules.CannotOfferOnOwnOrFinished` | js/itemListViewModel.js:100-104 | the owner and the current bidder, in any spelling, cannot offer; nobody can once the state is past Offered |
| `ItemRules.Claimable` | js/itemListViewModel.js:65-67 | the claim filter accepts an item iff its owner is the actor up to case and its state is at least Finished |
| `ItemRules.ClaimableExcludesOffer` | js/itemListViewModel.js:100-101 | a claimable item is never open for an offer |
| `ItemRules.Substring` | js/itemListViewModel.js:107 | `substring` clamps both indices into `[0, length]` and swaps them when out of order: it never returns more than the string; with ordered in-range indices it is the slice, with reversed ones the slice between them; an end past the length gives the suffix, a negative start gives the prefix, and both give the whole string |
| `ItemRules.CompactAddress` | js/itemListViewModel.js:106-109 | null iff the address is null, undefined or empty; otherwise up to 6 leading characters, "..", and up to 4 trailing characters of the address |
| `ItemRules.CompactAddressLong` | js/itemListViewModel.js:106-109 | for at least 6 characters: the first 6, "..", the last 4; 12 characters in all |
| `ItemRules.CompactAddressKeepsEnds` | js/itemListViewModel.js:106-109 | for at least 10 characters the kept head and tail do not overlap |
| `ItemRules.CompactAddressShort` | js/itemListViewModel.js:106-109 | shorter addresses repeat characters, because `substring` clamps its indices |
| `ItemRules.CompactAddressFalsy` | js/itemListViewModel.js:106-109 | the result is null iff the address is null, undefined or empty |
| `ItemList.FindFirst` | js/itemListViewModel.js:39 | the index returned is the first element satisfying the predicate; none means no element does |
| `ItemList.Replace` | js/itemListViewModel.js:42 | knockout `replace` keeps the length, leaves every entry of another identity in place, only writes the new object where the old identity was, and the new object is present whenever the old one was |
| `ItemList.ReplaceAt` | js/itemListViewModel.js:42 | with distinct identities, `replace` of the object at `k` overwrites position `k` and nothing else |
| `ItemList.ReplaceAbsent` | js/itemListViewModel.js:20 | `replace` of an object no longer in the list changes nothing |
| `ItemList.ExpirePresentKeeps` | js/itemListViewModel.js:18-22 | firing a timer whose object is still listed keeps the list's identity invariant |
| `ItemList.ExpireAbsentKeeps` | js/itemListViewModel.js:18-22 | firing a timer whose object was superseded keeps the invariant |
| `ItemList.PageViewModel.constructor` | js/itemListViewModel.js:1-5 | a new view model is not loaded, has an empty list, and uses the selected address or "" |
| `ItemList.PageViewModel.AddItem` | js/itemListViewModel.js:24-34 | the list grows by one: index 0 is `{content, item, updated: true}`, the old entries follow unchanged and in order, and a reversion is scheduled for the new entry |
| `ItemList.PageViewModel.UpdateItem` | js/itemListViewModel.js:36-46 | if an entry has that `itemId`, the first such entry is replaced at its index by a new entry with the old content, the new item and `updated: true`, and a reversion is scheduled; if none matches, nothing changes |
| `ItemList.PageViewModel.Expire` | js/itemListViewModel.js:18-22 | if the captured entry is still listed, it is replaced at its position by a copy with `updated: false`; if it was superseded, the list is unchanged; the length never changes |
| `ItemList.PageViewModel.AppendFetched` | js/itemListViewModel.js:7-16 | appends `{content, item, updated: false}` with a fresh identity, and the existing entries keep their place and identity |
| `ItemList.PageViewModel.AppendAll` | js/itemListViewModel.js:51 | appends one `updated: false` entry per retrieved item, in retrieval order; the existing entries keep their place and identity, and every appended entry has a fresh identity |
| `ItemList.PageViewModel.Load` | js/itemListViewModel.js:48-62 | appends every ledger item, newest first, behind the existing entries, which keep their place and identity, with fresh identities for the new ones; sets `loaded`; registers the `ValueChanged` and then the `PublishedItem` callback |
| `ItemList.PageViewModel.LoadClaimList` | js/itemListViewModel.js:64-72 | empties the list, then appends one `updated: false` entry per owned item that is Finished or Paid, newest first; no pending reversion timer refers to a listed entry afterwards, so each is a no-op |
| `ItemList.PageViewModel.InstallForClaimList` | js/itemListViewModel.js:74-90 | with an address, loads the claim list; without one, keeps the list; always sets `loaded` and registers the reload callback for `ItemSold` and then `ItemPaid` |
| `ItemList.PageViewModel.Unload` | js/itemListViewModel.js:92-94 | the whole registry is empty afterwards, including callbacks registered by others |

## Findings

| source | as written | input that shows it | evidently intended | confidence | as-written member | corrected member |
|---|---|---|---|---|---|---|
| js/marketSite.js:121-123 | the batching loop tests `count > 0` but only decrements `from`, so the first batch reads every id down to 1 and the result holds every match | a ledger of 2 items, `retrieveItems(2, 1, () => true)`: 2 items are returned | at most `count` results: the first `count` matches below `from`, read in windows of at most `count` ids (the doc comment's "Results count") | not executed; high | `Retrieval.RetrieveItems`, `Retrieval.AsWrittenIgnoresCount` | `Retrieval.RetrieveWindowed`, `Retrieval.WindowedReturnsFirstMatches` |

`RetrieveAllItems`, which both `load` and `loadClaimList` use, is proved
equal to the corrected pager (`Retrieval.WindowedAgreesWhenCountCovers`).
Whichever definition is used, the rest of the model sees the same list.

## Left out

- js/app.js: DOM alerts, navbar loading and web3/MetaMask bootstrapping are not part of this model. `getUserAddress` is represented only by the address it resolves to, passed to `PublishItem`.
- js/ipfs.js: the IPFS client wrappers are not part of this model. A content fetch is a function from hash to `Content`, passed to the loading methods, and `ipfs.addJSON` is represented by the hash it resolves to.
- `createOffer`, `claim`, `owner`, `transferOwnership`, `setPublicationCost` (js/marketSite.js:184-241): one-line contract sends, so there is nothing to verify.
- Error routing to `_errorHandler` and console logging: a failed read is a `Failure` value, a thrown handler is the `threw` flag of its call, and a transport error yields an empty trace. In the source a failed read leaves the `retrieveItems` promise pending for ever: the `.catch(_errorHandler)` at js/marketSite.js:135 sits on the inner `Promise.all` chain and neither `resolve` nor `reject` is called. So after a failed read `load` never appends and never sets `loaded`, and `installForClaimList` never sets `loaded` either. In the model `load` and `loadClaimList` read only ids `1..itemsCount`, which the ledger always answers, so they never meet a failed read; only a direct `RetrieveItems` call above the count returns a `Failure`.
- `itemsCount()` failing: its `.catch(_errorHandler)` would resolve to `undefined` and make the retrieval return empty. In the model the count is always available.
- Reads beyond `itemsCount`: the model assumes the contract's `getItem` rejects them. They only arise when `retrieveItems` is called directly with `from` above the count.
- Out-of-order completion of the `$.get` fetches and of `Promise.all`: content completions are applied in retrieval order.
- ItemList.PageViewModel.AppendAll: states the list only for in-order completion of the content fetches. With out-of-order completion, the source gives the same entries, less any whose fetch failed, in completion order.
- ItemList.PageViewModel.Load: does not model a failed content fetch. Neither `$.get` (js/itemListViewModel.js:8-15, js/itemListViewModel.js:27-28) has a failure callback, so in the source an item whose gateway fetch fails is silently left out of the list by `load` and `loadClaimList`, and `addItem` adds nothing; the model's `fetch` always returns a `Content`.
- ItemList.PageViewModel.LoadClaimList: does not model a failed content fetch. The `$.get` at js/itemListViewModel.js:8-15 has no failure callback, so in the source an owned Finished or Paid item whose gateway fetch fails is silently left out of the claim list; the model's `fetch` always returns a `Content`.
- ItemList.PageViewModel.AddItem: does not model a failed content fetch. The `$.get(...).done(...)` at js/itemListViewModel.js:27-28 has no failure callback, so in the source a published item whose gateway fetch fails is never added.
- ItemList.PageViewModel.Load: ensures `loaded` together with the full list. The source sets `loaded(true)` at js/itemListViewModel.js:52 right after starting the content fetches, before any entry has been appended.
- ItemList.PageViewModel.Load: registers its callbacks after the retrieval completes. The source registers them while the retrieval is still in flight; the final registry is the same.
- knockout and jQuery themselves: the model states `unshift`, `push`, `replace` (identity lookup with `indexOf`, a no-op when the object is absent) and `removeAll` as their effects on the sequence.
- Real timers: the 5-second delay is the explicit `Expire` step, which the environment may take for any pending timer at any time.
- `endDate` (js/itemListViewModel.js:111-113): relies on `Date` and `toISOString`, library date conversion.
- Re-entrancy: handlers do not add or remove handlers during dispatch.
- Event payloads: only `itemId` and `publicationCost` are modelled. The owner fields of `OwnershipTransferred` are not read by the core.
- JavaScript coercions: values the contract returns as decimal strings (ids, states, counts, costs) are integers in the model, so `<`, `<=` and `==` compare numbers.
- ItemRules.ToUpper: handles ASCII letters only. Unicode case mapping (including mappings that change the length) is not modelled; addresses are hexadecimal.
- Registry keys that collide with `Object.prototype` properties (such as `"toString"`): the source's plain-object registry would misbehave on them. The model's registry is a plain map.
