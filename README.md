# Pub/sub relay: subscriber registry and fan-out

This project models the core of a small HTTP publish/subscribe relay written in
Go (`main.go`). Clients register callback URLs with `POST /subscribe`, remove them
with `POST /unsubscribe` and read them with `GET /subscriber`. `POST /publish`
forwards a payload to every registered URL and reports the URLs whose delivery
failed. All registry state is one process-wide slice, `subscribersSlice`. It is
kept in ascending order by `sort.Strings` and searched with `sort.SearchStrings`.

The files:

- `order.dfy` (module `StringOrder`): Go's lexicographic order on strings, `Less`.
  It is proved to be a strict total order. The file also defines sortedness (`Sorted`:
  non-decreasing) and strict ascent (`StrictlySorted`).
- `search.dfy` (module `Search`): `sort.SearchStrings` as a binary-search method.
  Its specification is `LowerBound`, the first index whose element is not below the key.
- `sorting.dfy` (module `Sorting`): the effect of `sort.Strings`. An insertion sort
  stands in for it. `SortedPermutationUnique` proves that every correct sort of strings
  gives the same result, so the choice of algorithm does not matter.
- `delivery.dfy` (module `Delivery`): the failure list that `publish` collects.
- `handlers.dfy` (module `Handlers`): each registry handler's effect as a value
  (status, new registry), with lemmas. It holds the handlers as written and the
  corrected ones that check equality at the search index.
- `relay.dfy` (module `PubSub`): class `Relay`. Its field `subscribers` is
  `subscribersSlice` and its constant `isUrl` is the validator `IsUrl`. The handlers
  are methods that change the field in place. `Publish` is a loop over the registry.

The class invariant `Valid()` says the registry is strictly ascending (sorted, no
duplicates) and that every member passed the validator. Every handler keeps it.

The handlers' own messages say they test membership. The 403 body says "URL is
already registered" (main.go:58), and the 404 body says "URL is not registered"
(main.go:88). Both mean exact membership. Yet main.go:51 and main.go:85 only test
`index == len(subscribersSlice)`: the element at the search index is never compared
with the URL. The class methods `Subscribe` and `Unsubscribe` model the code as written. The consequences
are proved as lemmas and listed under "Findings". `CheckedSubscribe` and
`CheckedUnsubscribe` are the corrected handlers.

## Model

| member | source | states |
|---|---|---|
| `StringOrder.LessIsStrictTotalOrder` | main.go:50-53 | the string order used by the search and the sort is irreflexive, asymmetric, transitive and total |
| `StringOrder.StrictlySortedIff` | main.go:17 | a strictly ascending registry is exactly a sorted registry without duplicate URLs |
| `Search.LowerBound` | main.go:50 | the search index is at most the length; every element before it is below the URL; the element at it, if any, is not below the URL |
| `Search.LowerBoundPartitions` | main.go:84 | on a sorted registry every element from the search index on is not below the URL |
| `Search.SearchStrings` | main.go:50 | the binary search returns the index in [0, len] with every element before it below the URL and every element from it on not below the URL; this is `LowerBound` |
| `Sorting.SortStrings` | main.go:53 | the sort returns a sorted permutation of its input |
| `Sorting.SortedPermutationUnique` | main.go:53 | two sorted sequences with the same strings are equal, so any correct `sort.Strings` returns this result |
| `Sorting.SortOfSorted` | main.go:52-53 | re-sorting an already sorted registry leaves it unchanged |
| `Delivery.Failures` | main.go:108-114 | the failure list is no longer than the registry and holds exactly the members whose delivery errored |
| `Delivery.FailuresAppend` | main.go:109-113 | the failure list is collected in registry order: the failures of a concatenation are the failures of each part, concatenated |
| `Delivery.FailuresStrictlySorted` | main.go:108-114 | the failure list of a strictly ascending registry is strictly ascending, so it has no duplicates and keeps registry order |
| `Handlers.SubscribeAppendsGreatest` | main.go:47-61 | subscribe answers 200 exactly for a valid URL strictly above every member; the new registry is then the old one plus the URL at the end; every other outcome leaves the registry unchanged; the invariant is kept |
| `Handlers.SubscribeForbiddenAtSearchIndex` | main.go:50-60 | subscribe answers 403 exactly for a valid URL whose search index is below the length; every valid member gets 403 with the registry unchanged |
| `Handlers.SubscribeRejectsInvalid` | main.go:30-45 | an unreadable body (500), an undecodable body or an invalid URL (400) leaves the registry untouched |
| `Handlers.SubscribeRefusesBelowMember` | main.go:50-60 | a valid URL that sorts below some member gets 403 and the registry is unchanged, even when the URL is not a member |
| `Handlers.SubscribeTwice` | main.go:50-60 | after a successful subscribe the same URL gets 403, and the registry holds it exactly once |
| `Handlers.UnsubscribeRemovesAtSearchIndex` | main.go:81-94 | unsubscribe answers 404 exactly when the URL is above every member (including an empty registry), and then changes nothing; it answers 200 exactly when the search index is below the length (so every member gets 200); on 200 it splices out the element at the search index, the first member not below the URL; the length drops by one; the URL is not a member afterwards; the invariant is kept |
| `Handlers.UnsubscribeRejectsUndecoded` | main.go:64-79 | an unreadable body (500) or an undecodable body (400) leaves the registry untouched |
| `Handlers.UnsubscribeRemovesNextLarger` | main.go:84-93 | unsubscribe of an absent URL below some member answers 200 and removes the least member above that URL |
| `Handlers.SubscribeThenUnsubscribe` | main.go:50-92 | a successful subscribe followed by unsubscribe of the same URL restores the registry |
| `Handlers.RoundTripLosesMember` | main.go:50-92 | for a valid absent URL below some member, subscribe answers 403, the following unsubscribe answers 200, and the registry loses a member |
| `Handlers.SubscribeBelowMemberExample` | main.go:50-56 | subscribing "http://a" to ["http://b"] answers 403 and leaves ["http://b"] |
| `Handlers.UnsubscribeAbsentExample` | main.go:84-93 | unsubscribing "http://a" from ["http://b"] answers 200 and leaves the registry empty |
| `Handlers.CheckedSubscribeInserts` | main.go:50-56 | corrected subscribe: 200 exactly for a valid URL that is not a member; the URL is placed at its search index; the members are then the old ones plus the URL; otherwise nothing changes |
| `Handlers.CheckedUnsubscribeRemoves` | main.go:84-92 | corrected unsubscribe: 200 exactly when the URL is a member, 404 exactly when it is not; on 200 only that URL is removed |
| `Handlers.CheckedRoundTrip` | main.go:50-92 | with the correction, subscribing and then unsubscribing any valid absent URL restores the registry |
| `PubSub.Relay.constructor` | main.go:17 | the registry starts empty |
| `PubSub.Relay.Subscribe` | main.go:30-61 | the handler as written: keeps the invariant and ends in the outcome `SubscribeOutcome` gives; 200 exactly for a valid URL above every member, with the URL appended; otherwise the registry is unchanged |
| `PubSub.Relay.Unsubscribe` | main.go:64-95 | the handler as written: keeps the invariant and ends in the outcome `UnsubscribeOutcome` gives; 404 exactly when the URL is above every member; afterwards the URL is not a member; the length drops by one on 200 |
| `PubSub.Relay.CheckedSubscribe` | main.go:47-61 | corrected subscribe: 200 exactly for a valid non-member, which is then added; otherwise the registry is unchanged |
| `PubSub.Relay.CheckedUnsubscribe` | main.go:81-94 | corrected unsubscribe: 200 exactly for a member; afterwards the members are the old ones without the URL |
| `PubSub.Relay.Publish` | main.go:97-126 | 500 when the body cannot be read; otherwise 409 with the members whose delivery errored, in registry order, when there are any, and 200 otherwise; Conflict exactly when some member's delivery errored; the registry is not changed |
| `PubSub.Relay.List` | main.go:128-135 | 200 with exactly the registry contents, strictly ascending; nothing changes |

## Findings

| source | as written | input that shows it | evidently intended | confidence | as-written member | corrected member |
|---|---|---|---|---|---|---|
| main.go:50-51 | subscribe takes any in-range search index as "already registered" | registry ["http://b"], subscribe "http://a": 403, registry unchanged | 200, registry ["http://a", "http://b"] | not executed; high (proved about the model) | `Handlers.SubscribeBelowMemberExample` | `Handlers.CheckedSubscribeInserts` |
| main.go:84-85, main.go:92 | unsubscribe takes any in-range search index as "registered" and splices out that element | registry ["http://b"], unsubscribe "http://a": 200, registry [] | 404, registry unchanged | not executed; high (proved about the model) | `Handlers.UnsubscribeAbsentExample` | `Handlers.CheckedUnsubscribeRemoves` |

The general forms are `Handlers.SubscribeRefusesBelowMember`,
`Handlers.UnsubscribeRemovesNextLarger` and `Handlers.RoundTripLosesMember`.
The corrected handlers are also methods of `Relay`: `CheckedSubscribe` and
`CheckedUnsubscribe`. `Subscribe` and `Unsubscribe` keep the behaviour of the code.

## Left out

- HTTP plumbing is not modelled: reading bodies, writing headers and bodies, the gorilla/mux
  router, and port selection and `ListenAndServe` in `main` (main.go:142-161). A handler
  receives its body as `Body` (`Unreadable`, `Malformed` or `Decoded(url)`) and returns a
  `Status`. `Status.Code` gives the HTTP code.
- JSON is not modelled. This includes the error bodies. `SubscribePayload` and
  `ErrorPayload` have only unexported fields, so `encoding/json` neither fills nor emits
  them. The model takes the decoded URL as given and does not model what the response
  bodies contain.
- What follows from the unexported field is not modelled. As written, `payload.url` is
  always `""` after a successful decode. So every well-formed `POST /subscribe` takes the
  branch at main.go:41-43 and panics. Every well-formed `POST /unsubscribe` searches `""`,
  so on a non-empty registry it removes the first member. The model, its lemmas and the
  inputs under "Findings" describe the handler logic with the URL the request carries,
  that is, once decoding fills the field.
- The invalid-URL branch of subscribe calls `Error()` on a nil error (main.go:43) and
  panics at run time. The model answers 400 there. In both cases the registry is unchanged.
- `IsUrl` is not modelled: it rests on `url.Parse`, a library call. It is the
  function-valued constant `isUrl` of `Relay`, fixed at construction.
- `sync.RWMutex` locking is not modelled. Each handler is one atomic step.
- `http.Post` is not modelled. Whether the post to a URL errors is the oracle `postFails`.
  The registry has no duplicates, so one outcome per URL is one outcome per delivery. The
  payload and the `application/json` content type are not modelled.
- The algorithm inside `sort.Strings` is not modelled. An insertion sort stands in for it.
  `SortedPermutationUnique` shows that any correct sort gives the same sequence.
- Strings are Dafny strings (sequences of characters) compared by code point. Go compares
  UTF-8 bytes. For valid UTF-8 the two orders agree. Strings holding invalid UTF-8 are
  not represented.
- The midpoint `int(uint(i+j) >> 1)` of `sort.Search` is `(lo + hi) / 2` on unbounded
  integers. Both are equal for indices within a slice's length.
- `Search.SearchStrings` requires a sorted slice, as `sort.SearchStrings` documents. The
  registry invariant provides this on every call.
