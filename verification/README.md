# Storefront cart engine and product view, in Dafny

This project models the state layer of a small client-side storefront. It has two parts.

- **The cart engine** of the product store (`src/stores/product.ts`). The cart is an ordered sequence of lines. Each line pairs a product snapshot with a quantity. The store adds, removes and re-quantifies lines against the catalog's stock, and derives the item count and the total price. It writes the cart to the browser's `cart` slot after each change that reaches its save step, and it validates that slot when a session starts.
- **The product view** (`src/composables/useProductFilters.ts`). This is a pure pipeline from the catalog and the filter criteria to an ordered list. It filters by category, by price ceiling and by a case-insensitive search. It then sorts stably by ascending price, descending price, name or descending rating. It also derives the list of distinct categories and the highest price, and it can reset the criteria.

Every store operation is a pure function from the old state to the new one:

- `CartEngine` works on the bare cart.
- `CartStore` adds the catalog and the persisted slot.
- `addToCart`'s exception becomes a `Result`.

Prices are whole cents and ratings whole tenths, so sums and comparisons are exact. The locale comparison used for the name sort is a parameter (`collate`).

Modules:

- `Wrappers`: `Option` and `Result`.
- `Text`: ASCII lower-casing and substring inclusion.
- `Catalog`: the product record and lookup by id.
- `CartEngine`: the cart operations and the invariants.
- `CartLaws`: lemmas about the cart operations.
- `CartStore`: the store with its persisted slot, the store actions, loading, and the invariant over runs of actions.
- `Sorting`: a stable comparator-driven insertion sort.
- `ProductFilters`: the view pipeline.
- `FilterLaws`: lemmas about the view.

Three behaviours of the code are kept as written, though a reader might expect otherwise:

- `updateQuantity` reads as clamping into `[1, stock]`, but the code tests `q < 1` before `q > stock`. So on a product whose catalog stock is 0, a request below 1 stores 1 and any other request stores 0 (`CartLaws.UpdateOnSoldOutProduct`). A line at 0 then makes the next load discard the whole persisted cart (`CartStore.ReloadDiscardsWholeCart`). A cart within stock holds no line for such a product, so this is reached only from a cart already past the catalog's stock: one built by an add with a stale product (see the next point) or one loaded from storage.
- `addToCart` bounds the quantity by the stock of the product object passed in, not by the catalog entry. `updateQuantity` and `incrementQuantity` use the catalog entry (`CartLaws.AddTrustsArgumentStock`).
- Lookups take the first line with the id, while `removeFromCart` drops every line with it. The load validation does not check that ids are unique (`CartStore.LoadAcceptsDuplicateIds`).

## Model

| member | source | states |
|---|---|---|
| Catalog.Lookup | src/stores/product.ts:189 | Finds the first catalog product with the id, and finds none exactly when no product has it |
| CartEngine.FindLine | src/stores/product.ts:165 | Finds the index of the first cart line for the id, and finds none exactly when no line has it |
| CartEngine.AddToCart | src/stores/product.ts:164-177 | Fails exactly when the held quantity is at least the argument's stock. Otherwise it either bumps the first matching line by one and leaves the other lines alone, or appends a new one-unit line after the unchanged cart |
| CartEngine.RemoveFromCart | src/stores/product.ts:182-185 | No line with the id is left. A line survives iff it was there with another id. An absent id changes nothing |
| CartEngine.Clamp | src/stores/product.ts:193-198 | A request below 1 becomes 1. Otherwise a request above the stock becomes the stock, and any other request is kept. With stock ≥ 1 the result lies in [1, stock] |
| CartEngine.UpdateQuantity | src/stores/product.ts:187-202 | Does nothing without both a line and a catalog product. Otherwise only the first matching line changes, to the clamped quantity against the catalog's stock |
| CartEngine.IncrementQuantity | src/stores/product.ts:204-214 | Adds one only below the catalog's stock and only to the first matching line. Otherwise, or with line or product missing, nothing changes |
| CartEngine.DecrementQuantity | src/stores/product.ts:216-225 | Keeps length and products. Each quantity stays or drops by one, and only to a value ≥ 1. Only a matching line above 1 drops, and a missing line means no change |
| CartEngine.ItemsCount | src/stores/product.ts:122-124 | With every quantity ≥ 1, the unit count is at least the number of lines |
| CartEngine.CartTotal | src/stores/product.ts:126-128 | With non-negative prices and quantities, the total is non-negative |
| CartLaws.SumsAppend | src/stores/product.ts:122-128 | Count and total of two carts laid end to end are the sums of the parts |
| CartLaws.CountSetAt | src/stores/product.ts:122-124 | Changing one line's quantity moves the count by exactly the difference |
| CartLaws.TotalSetAt | src/stores/product.ts:126-128 | Changing one line's quantity replaces that line's price times quantity in the total |
| CartLaws.ClearedCartIsEmpty | src/stores/product.ts:227-230 | After clearing, count and total are 0 and nothing is held for any id |
| CartLaws.AddMovesSums | src/stores/product.ts:164-177 | A successful add raises the count and the held quantity by one. The total rises by the price on the line's own snapshot, or by the argument's price for a new line |
| CartLaws.AddKeepsUniqueIds | src/stores/product.ts:165-177 | Adding keeps at most one line per product id |
| CartLaws.AddKeepsInStock | src/stores/product.ts:164-177 | If the argument's stock agrees with the catalog, adding keeps every line in [1, catalog stock] |
| CartLaws.AddTrustsArgumentStock | src/stores/product.ts:169 | A stale argument with more stock than the catalog lets an add push a line past the catalog's stock |
| CartLaws.AddsUpToStock | src/stores/product.ts:164-177 | From an empty cart, n ≤ stock adds in a row build the single line {product, n} |
| CartLaws.AddsStopAtStock | src/stores/product.ts:164-177 | From an empty cart exactly `stock` adds succeed, and the next one fails |
| CartLaws.RemoveDistributes | src/stores/product.ts:182-185 | Removal from two carts laid end to end is removal from each, so survivors keep their relative order |
| CartLaws.RemoveMovesCount | src/stores/product.ts:182-185 | With unique ids, removal lowers the count by exactly the quantity held for the id |
| CartLaws.RemoveKeepsInvariants | src/stores/product.ts:182-185 | Removal keeps ids unique and every line within the catalog's stock |
| CartLaws.UpdateKeepsInvariants | src/stores/product.ts:187-202 | From a cart with unique ids and every line within the catalog's stock, any update on any id keeps both invariants |
| CartLaws.UpdateIdempotent | src/stores/product.ts:187-202 | Updating twice with the same request is updating once |
| CartLaws.UpdateOnSoldOutProduct | src/stores/product.ts:194-198 | With catalog stock 0, a request below 1 stores 1 and any other request stores 0 |
| CartLaws.IncrementKeepsInvariants | src/stores/product.ts:204-214 | Incrementing never pushes a line past the catalog's stock and keeps ids unique |
| CartLaws.DecrementKeepsInvariants | src/stores/product.ts:216-225 | Decrementing never takes a line below 1 and keeps ids unique |
| CartLaws.IncrementThenDecrement | src/stores/product.ts:204-225 | Below the catalog's stock, an increment followed by a decrement gives back the same cart |
| CartLaws.IncrementAtCeiling | src/stores/product.ts:210-213 | At or above the catalog's stock, an increment changes nothing |
| CartStore.Initialize | src/stores/product.ts:131-152 | An empty slot changes nothing. An array whose every item is acceptable replaces the cart and stays stored. Anything else keeps the cart and empties the slot |
| CartStore.Save | src/stores/product.ts:155-161 | The slot then holds the encoding of the cart, and the cart and catalog are unchanged |
| CartStore.Add | src/stores/product.ts:164-180 | Fails exactly when the held quantity reaches the argument's stock. A success holds the cart-engine add's cart, saves it, and counts one more unit |
| CartStore.Remove | src/stores/product.ts:182-185 | The cart becomes the cart-engine removal's cart, with no line for the id, and the slot is always written with it |
| CartStore.Update | src/stores/product.ts:187-202 | The cart becomes the cart-engine update's cart. Without a line or a catalog product the store, slot included, is unchanged; otherwise the slot is saved |
| CartStore.Increment | src/stores/product.ts:204-214 | The cart becomes the cart-engine increment's cart. The slot is saved only when the cart changed; otherwise the store is untouched |
| CartStore.Decrement | src/stores/product.ts:216-225 | The cart becomes the cart-engine decrement's cart. The slot is saved only when a unit was taken, which lowers the count by one; otherwise the store is untouched |
| CartStore.Clear | src/stores/product.ts:227-230 | Writes the empty cart to the slot; count and total are 0 |
| CartStore.StepKeepsValid | src/stores/product.ts:164-230 | Every action keeps ids unique, lines within stock, and the slot in step with the cart, provided an add passes the catalog's own record of the product |
| CartStore.ReloadRestoresCart | src/stores/product.ts:131-161 | Loading a saved cart whose quantities are all positive gives back the same lines in the same order |
| CartStore.ReloadDiscardsWholeCart | src/stores/product.ts:137-146 | One saved line with a quantity ≤ 0 makes loading discard the whole cart and clear the slot |
| CartStore.FreshIsValid | src/stores/product.ts:131-152 | A session that finds nothing stored, or discards what it finds, starts with an empty cart and an empty slot, and is valid |
| CartStore.LoadAcceptsDuplicateIds | src/stores/product.ts:137-143 | A stored array with two lines for the same product is accepted, and the session starts with two lines for one id |
| CartStore.RunThenReload | src/stores/product.ts:131-230 | After any run of actions whose adds pass the catalog's own record, from a valid store (including a session that found nothing stored), the store is valid and a reload gives back its cart |
| CartStore.ClearThenReload | src/stores/product.ts:131-152 | Clearing and then reloading gives an empty cart with count 0 and total 0 |
| Text.Includes | src/composables/useProductFilters.ts:15-17 | Substring inclusion holds exactly when the text occurs at some position |
| Sorting.Insert | src/composables/useProductFilters.ts:20-33 | Inserting adds exactly the one element to the multiset |
| Sorting.SortBy | src/composables/useProductFilters.ts:20-33 | The sort output is a permutation of its input |
| Sorting.SortBySorts | src/composables/useProductFilters.ts:20-33 | With a key-difference comparator, the output is ordered by the key |
| Sorting.SortByIsStable | src/composables/useProductFilters.ts:20-33 | With a key-difference comparator, for every key value the elements with that key keep their input order |
| Sorting.SortByKeepsSortedInput | src/composables/useProductFilters.ts:20-33 | Input already in key order comes out unchanged |
| ProductFilters.Keep | src/composables/useProductFilters.ts:12-19 | Each passing product is kept exactly as often as it occurs, and nothing else is kept |
| ProductFilters.FilteredProducts | src/composables/useProductFilters.ts:10-34 | The view is a permutation of exactly the passing products, and every product in it passes all three checks |
| ProductFilters.Categories | src/composables/useProductFilters.ts:36-38 | Each category present in the products appears exactly once, and nothing else appears |
| ProductFilters.MaxAvailablePrice | src/composables/useProductFilters.ts:40-42 | Minus infinity iff there are no products. Otherwise it is at least every price and equals some product's price |
| ProductFilters.ResetFilters | src/composables/useProductFilters.ts:44-49 | A reset clears search and category, sorts by rating, and sets the ceiling to the highest catalog price, so every catalog product passes |
| FilterLaws.UnfilteredShowsAll | src/composables/useProductFilters.ts:13-15 | With no search, no category and a ceiling over every price, the view is a permutation of the whole catalog |
| FilterLaws.UnknownCategoryShowsNothing | src/composables/useProductFilters.ts:13 | A category no product carries gives an empty view |
| FilterLaws.PriceAscOrder | src/composables/useProductFilters.ts:22-23 | `price-asc` gives non-decreasing prices |
| FilterLaws.PriceDescOrder | src/composables/useProductFilters.ts:24-25 | `price-desc` gives non-increasing prices |
| FilterLaws.RatingOrder | src/composables/useProductFilters.ts:28-29 | `rating` gives non-increasing ratings |
| FilterLaws.PriceAscIsStable | src/composables/useProductFilters.ts:20-23 | Under `price-asc`, products of equal price keep their catalog order |
| FilterLaws.PriceDescIsStable | src/composables/useProductFilters.ts:24-25 | Under `price-desc`, products of equal price keep their catalog order |
| FilterLaws.RatingIsStable | src/composables/useProductFilters.ts:28-29 | Under `rating`, products of equal rating keep their catalog order |
| FilterLaws.PriceAscKeepsOrderedInput | src/composables/useProductFilters.ts:20-23 | Passing products already in ascending price order come out exactly as given |
| FilterLaws.SearchIgnoresCase | src/composables/useProductFilters.ts:15-17 | Two search texts that lower-case alike give the same view |
| FilterLaws.LowerCasedSearchSelectsSame | src/composables/useProductFilters.ts:15-17 | A search text and its lower-cased form give the same view |
| FilterLaws.ResetShowsAll | src/composables/useProductFilters.ts:44-49 | After a reset the view is the whole catalog, with ratings non-increasing |
| FilterLaws.ResetIsNotInitial | src/composables/useProductFilters.ts:7 | The reset ceiling is the catalog's highest price, not the initial 2000.00. A product priced above 2000.00 is hidden at start and shown after a reset |
| FilterLaws.KeepAppend | src/composables/useProductFilters.ts:12-19 | Filtering two lists laid end to end filters each, so the passing products keep their input order |

## Left out

- Browser storage and JSON. The `cart` slot is a value in the store. Parsing is reduced to `Payload`:
  - unparsable text;
  - a non-array value;
  - an array of items, each recording only whether `product` is an object and whether `quantity` is a number.

  A stored empty string behaves like an absent entry (no change), so it is modelled as `None`. Write failures in `saveCart` and the console logging are not modelled.
- CartStore.Initialize: any object-shaped `product` is accepted, as in the source. The model takes that object to be a product record, because the fields inside it are never checked. Non-integer and non-finite quantities (`0.5`, `Infinity`) are not modelled, because quantities are integers.
- Floating-point prices and ratings. They are whole cents and whole tenths, so `cartTotal` is exact where the source's float sum is not.
- CartEngine.UpdateQuantity: only integer requests are modelled. A fractional request within [1, stock] would be stored as given; one below 1 becomes 1 and one above the stock becomes the stock, as for integers.
- The Vue and Pinia reactivity layer (`ref`, `computed`, `defineStore`). Computed values are pure functions of the state.
- The hard-coded catalog contents. The model works over any catalog sequence.
- The notification raised by callers when an add fails. It belongs to the notification store, which is not part of this model.
- `src/stores/auth.ts`, `src/stores/notification.ts`, `src/composables/useCartAnimations.ts` and `vite.config.ts` are not part of this model. They hold mock login, timer-driven dismissal, cosmetic timers and build tooling.
- Text.Lower: only the ASCII letters A–Z are lower-cased. `toLowerCase` also folds other Unicode letters, and the model does not.
- Sorting.SortBy: order is proven only when the comparator is a difference of integer keys, which holds for the price and rating sorts. The name sort calls the platform's `localeCompare` (the `collate` parameter), and for it only the permutation is proven.
- The `default` branch of the sort switch is not modelled. The sort key type admits only the four named keys.
