# Pokédex favourites store and order-by formatter, in Dafny

This project models the two pieces of logic in the Pokédex front-end.

- **The favourites / notification store** (`useAppStore`, `src/stores/app.ts`). Its state holds the favourite Pokémon ids in insertion order, a `showDialog` flag, and the dialog's title and icon. It has three actions:
  - `addFavourite` appends an id unless it is already present. On a duplicate it shows "Pokemon already exists".
  - `removeFavourite` splices out the first occurrence of an id. On a missing id it shows "Can not find Pokemon".
  - `setShowDialog` is the notification primitive the other two use.
- **The order-by formatter** (`convertGqlOrderBy`, `src/utils/convert-gql-order-by.js`). It turns a list of `{key, order}` records into the text `"key: order, key: order, …"`.

The store is an immutable `State` datatype. Each action is a pure function from one state to the next. The timer callback that hides the dialog is a separate `Dismiss` transition. `Run` folds a sequence of actions (add, remove, a direct `setShowDialog` call, or the timer firing) over a state, so an invariant can be stated for every reachable state.

Files:
- `wrappers.dfy`: `Option`, used for the optional icon argument.
- `find_index.dfy`: the identifier search.
- `app_store.dfy`: the store.
- `order_by.dfy`: the formatter.

The store's `find-index` utility (`@/utils/find-index`) is not part of this model. `addFavourite` uses that utility. `removeFavourite` uses the built-in `Array.prototype.findIndex` with `id === pokemonId`. The model assumes that the utility behaves like the built-in: a first-match linear scan with exact equality that returns -1 when the id is absent. `Identifiers.FindIndex` models both calls with that contract.

`if (icon)` in `setShowDialog` uses JavaScript truthiness. For an optional string, that means the icon is present and non-empty. The model writes this as `Truthy`.

The formatter copies keys and orders verbatim. So, for one or more directives, the output contains one `", "` fewer than there are directives exactly when no key or order itself contains `", "`; an empty input gives an empty output with no separator. `OrderBy.ConvertSeparators` gives the exact count: one separator between each pair of neighbours, plus every separator inside a key or an order. `OrderBy.SeparatorCount` states the if-and-only-if. This is how the code is written, and the model follows the code.

## Model

| member | source | states |
|---|---|---|
| Identifiers.FindIndex | src/stores/app.ts:39 | The result is -1 exactly when the id is absent. Otherwise it is an index holding the id, and no earlier index holds it (first match). |
| Identifiers.FindIndexAppendAbsent | src/stores/app.ts:23-26 | Searching `s + t` for an id absent from `s` finds it at `|s|` plus its index in `t`, or nowhere. |
| AppStore.Initial | src/stores/app.ts:6-13 | The store starts with no favourites, the dialog hidden, and an empty title and icon. The starting state has no duplicate ids. |
| AppStore.SetShowDialog | src/stores/app.ts:51-55 | The dialog becomes visible and always takes the new title. The icon is replaced only when the argument is present and non-empty; otherwise the previous icon is kept. The favourites do not change. |
| AppStore.Dismiss | src/stores/app.ts:56 | The timer callback hides the dialog and changes nothing else. |
| AppStore.AddFavourite | src/stores/app.ts:22-36 | For a new id, the favourites become the old list with the id appended, and the dialog shows "Added <name>" with `mdi-heart`. For a present id, the list is unchanged and the dialog shows "Pokemon already exists" with `mdi-alert-circle-outline`. The id is present afterwards, the dialog is visible, and the no-duplicates invariant is preserved. |
| AppStore.RemoveAt | src/stores/app.ts:42 | `splice(i, 1)` gives a list one shorter. Elements before `i` stay in place and elements after `i` shift down by one. |
| AppStore.RemoveFavourite | src/stores/app.ts:38-49 | For a present id, exactly the element at its first index is cut out. The rest keep their order, the length drops by one, the multiset loses one copy of the id, and the dialog shows "Removed <name>" with `mdi-heart-minus`. For an absent id, the list is unchanged and the dialog shows "Can not find Pokemon" with the alert icon. On a duplicate-free list the id is gone afterwards and the invariant is preserved. |
| AppStore.ReachableValid | src/stores/app.ts:22-56 | Any sequence of `addFavourite`, `removeFavourite`, `setShowDialog` and timer actions from a duplicate-free state leaves the favourites duplicate-free. |
| AppStore.InitialReachableValid | src/stores/app.ts:6-56 | Every state reachable from the store's initial state through any of its actions or the timer has no duplicate favourites. |
| AppStore.AddTwiceKeepsOne | src/stores/app.ts:23-34 | From a duplicate-free state, adding the same id twice leaves it in the favourites exactly once. The list is as after the first add, and the dialog reports the duplicate. |
| AppStore.CountInNoDuplicates | src/stores/app.ts:23-26 | In a duplicate-free favourites list, a present id occurs exactly once. |
| AppStore.AddedAtEnd | src/stores/app.ts:23-26 | After adding a fresh id, the search finds it at the old length (it was pushed at the end) and finds every earlier favourite at its old index. |
| Identifiers.FindIndexAppendPresent | src/stores/app.ts:26 | Appending after a list that already holds the target does not change the target's first index. |
| AppStore.AddThenRemoveRestores | src/stores/app.ts:23-43 | Adding a fresh id and then removing it gives back the original favourites list. |
| AppStore.AddRemoveScenario | src/stores/app.ts:22-49 | From a fresh store, adding (1, "Pikachu") gives `[1]` with "Added Pikachu" / `mdi-heart`. Removing it again gives `[]` with "Removed Pikachu" / `mdi-heart-minus`. |
| AppStore.RemoveMissingScenario | src/stores/app.ts:38-48 | Removing id 99 from a fresh store leaves the list empty and shows "Can not find Pokemon" with the alert icon. |
| OrderBy.Fragment | src/utils/convert-gql-order-by.js:2 | A directive's text is its key, then `": "`, then its order, and its length is the sum of the three. |
| OrderBy.Fragments | src/utils/convert-gql-order-by.js:2 | The `map` step keeps the length and turns entry `i` into the fragment of directive `i`. |
| OrderBy.Join | src/utils/convert-gql-order-by.js:2 | The `join` step turns no parts into `""` and one part into that part. For n ≥ 1 parts, the length is the parts' total length plus n-1 separators, and the result starts with the first part. |
| OrderBy.Convert | src/utils/convert-gql-order-by.js:1-3 | An empty input gives `""`. A single directive gives exactly `key + ": " + order`, with no separator. |
| OrderBy.JoinAppend | src/utils/convert-gql-order-by.js:2 | Joining the concatenation of two non-empty lists puts exactly one separator between the two joins. |
| OrderBy.ConvertAppend | src/utils/convert-gql-order-by.js:2 | For non-empty `a` and `b`, `Convert(a + b) == Convert(a) + ", " + Convert(b)`, so input order is kept. |
| OrderBy.ConvertCons | src/utils/convert-gql-order-by.js:2 | With two or more directives, the output is the first fragment, a separator, and the output for the rest. |
| OrderBy.ConvertLength | src/utils/convert-gql-order-by.js:2 | For n ≥ 1 directives, the output length is the sum of `|key| + 2 + |order|` over the directives, plus `2*(n-1)`. |
| OrderBy.SuffixAt | src/utils/convert-gql-order-by.js:2 | The output from directive `i` onwards is the suffix of the whole output that starts at directive `i`'s offset. |
| OrderBy.FragmentAt | src/utils/convert-gql-order-by.js:2 | Each directive's fragment appears verbatim at its offset. Every fragment except the last is followed by `", "`. The next fragment's offset comes after this one, so fragments appear in input order. |
| OrderBy.ConvertIterative | src/utils/convert-gql-order-by.js:2 | A loop that writes a separator before every fragment but the first produces the same text as the map-and-join definition. |
| OrderBy.CountSeparatorsAppend | src/utils/convert-gql-order-by.js:2 | The separators in a concatenation are those of each side, plus one when a `','` meets a `' '` at the seam. |
| OrderBy.FragmentSeparators | src/utils/convert-gql-order-by.js:2 | A fragment contains exactly the separators inside its key and its order; the `": "` between them adds none. |
| OrderBy.ConvertSeparators | src/utils/convert-gql-order-by.js:2 | For n ≥ 1 directives, the output contains n-1 separators plus every `", "` that occurs inside a key or an order. |
| OrderBy.SeparatorCount | src/utils/convert-gql-order-by.js:2 | The output contains exactly n-1 occurrences of `", "` for n ≥ 1 directives, and none for an empty input, if and only if no key or order contains `", "`. |

## Left out

- The timer's 1250 ms delay and overlapping timers: `Dismiss` may fire at any point, and no durations are modelled. Wall-clock timing is outside a pure model.
- `console.error` logging on the duplicate and not-found paths: it is a side channel that does not affect the state.
- Pinia `defineStore` reactivity and the getters `getFavourites`, `getShowDialog` and `getDialogInfo`: they are framework mechanics, and the getters are plain field reads of `State`.
- The body of the `find-index` utility: it is not part of this model. Only the assumed first-match, -1-if-absent contract is modelled, as `Identifiers.FindIndex`.
- Ids are mathematical integers, not JavaScript numbers. `NaN` and floating-point ids are not modelled.
- JavaScript coercion of non-string `key` and `order` values in the template literal: both are modelled as strings.
- Application bootstrap (`src/main.ts`): the Apollo client, the HTTP endpoint, the in-memory cache and mounting the Vue app are network and framework plumbing with no logic of their own.
