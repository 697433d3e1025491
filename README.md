# Product catalog manager, modelled in Dafny

This project models the in-memory product catalog of a small Express service (`product_manager.js`).
The catalog is an ordered list of products. It is created from the store read at start-up (or
empty), and it is rewritten to the store after every successful creation, update or deletion. It
also answers lookups by id, case-insensitive searches and price-sorted copies.

Layout, one module per concern:

- `wrappers.dfy` (`Wrappers`): `Option`, `Result` and `Outcome`. These stand for `undefined` and for the
  errors the source throws.
- `text.dfy` (`Text`): `toLowerCase` (ASCII letters only) and `includes`, with a reference
  definition of "occurs at a position".
- `sequences.dfy` (`Sequences`): the array built-ins `findIndex` and `find`, and subsequences.
- `products.dfy` (`Products`): the `Product` record (the constructor at lines 11-21), the
  `updatedFields` object as a `Patch` of optional keys, the object spread as `Merge`, and the two
  errors `DuplicateCode` and `NotFound`.
- `catalog.dfy` (`Catalog`): what each operation does to the product sequence as a value, and
  lemmas about runs of operations.
- `search.dfy` (`Search`): the filter behind `searchProducts`.
- `price_sort.dfy` (`PriceSort`): `slice().sort(comparator)` as a stable insertion sort, with the
  comparator read as a key: `price` for ascending, `-price` for descending.
- `manager.dfy` (`Manager`): the class `ProductManager`. It has a `products: seq<Product>` field that
  the mutating methods reassign, and a ghost `saved` field holding the catalog as last written to
  the store.

Each mutating method ties its new state to the matching `Catalog` function through
`Committed`. On success, `products` is the function's new sequence and `saved` equals it. On
failure, the error is returned as `Fail(e)` and neither `products` nor `saved` changes.

What the code does, where a reader might expect otherwise:

- `updateProduct` spreads `updatedFields` over the stored product (line 78). An `id` key in
  `updatedFields` therefore replaces the product's id. A caller might expect the id to be
  protected; line 78 has no guard, and the model keeps that (`Catalog.UpdateCanReplaceId`).
- Only `addProduct` checks code uniqueness (line 54). An update can make two products share a
  code (`Catalog.UpdateCanDuplicateCode`), so code uniqueness is not a class invariant.
- Ids are never checked. "Delete, then look up the same id, fails" holds only when ids are unique
  (`Catalog.DeleteThenLookupFails`). In general, the lookup after a deletion searches only the
  products that followed the removed one, so with a repeated id it finds the next holder
  (`Catalog.DeleteThenLookupFindsRest`). For example, in a two-product catalog whose products share
  an id, the lookup finds the second product (`Catalog.DeleteLeavesSecondHolder`).
- `addProduct` returns nothing (lines 53-62). `AddProduct` returns only the outcome.

## Model

| member | source | states |
|---|---|---|
| Sequences.FindIndex | product_manager.js:73 | `findIndex`: -1 exactly when no element satisfies the predicate; otherwise an index whose element satisfies it, with none before it |
| Sequences.Find | product_manager.js:65 | `find`: absent exactly when `findIndex` gives -1; otherwise the element at the index `findIndex` gives |
| Text.Lower | product_manager.js:94-95 | `toLowerCase` (ASCII): same length, and no A-Z letter is left in the result |
| Text.LowerAt | product_manager.js:94-95 | `toLowerCase` (ASCII): same length, each character lowered in place |
| Text.LowerIdempotent | product_manager.js:94-95 | lower-casing an already lowered string changes nothing |
| Text.Contains | product_manager.js:94-95 | `includes`: the empty needle is always included; a needle longer than the string never is |
| Text.ContainsIff | product_manager.js:94-95 | `includes` holds exactly when the needle occurs at some position of the string |
| Text.ContainsEmpty | product_manager.js:94-95 | every string includes the empty string |
| Products.Merge | product_manager.js:78 | `{...p, ...f}`: each key supplied in `f` takes the supplied value, `id` included; each absent key keeps the value in `p` |
| Products.MergeNoFields | product_manager.js:78 | spreading an empty `updatedFields` leaves the product as it was |
| Products.MergeCombine | product_manager.js:78 | two updates in a row equal one update with the combined fields, later keys winning |
| Products.MergeIdempotent | product_manager.js:78 | applying the same fields twice equals applying them once |
| Products.MergeKeepsId | product_manager.js:78 | the id survives the spread exactly when `updatedFields` has no id or the same id |
| Products.MergeStockOnly | product_manager.js:78 | fields `{stock: n}` change only `stock` |
| Catalog.IndexOfId | product_manager.js:73 | -1 exactly when no product has the id; otherwise the first index holding it |
| Catalog.HasCode | product_manager.js:54-55 | the duplicate-code test holds exactly when some product carries the code |
| Catalog.Add | product_manager.js:54-60 | fails with `DuplicateCode` exactly when the code is in use; otherwise the old sequence unchanged with the new product appended at the end |
| Catalog.Lookup | product_manager.js:64-70 | fails with `NotFound` exactly when no product has the id; otherwise the product at the first index holding the id |
| Catalog.Update | product_manager.js:72-78 | fails with `NotFound` exactly when no product has the id; otherwise same length, the first holder replaced by its merge with the fields, every other position unchanged |
| Catalog.Delete | product_manager.js:82-88 | fails with `NotFound` exactly when no product has the id; otherwise one fewer element, the first holder removed, elements before it in place, elements after it shifted down by one, same multiset less the removed product |
| Catalog.AddKeepsCodesUnique | product_manager.js:54-60 | a successful creation keeps codes unique |
| Catalog.AddKeepsIdsUnique | product_manager.js:59-60 | a successful creation with an unused id keeps ids unique |
| Catalog.IndexOfIdAppend | product_manager.js:60-73 | appending a product leaves the first holder of an id where it was; only an id that was absent can now be found, at the new last position |
| Catalog.AddThenLookup | product_manager.js:53-70 | after a creation, a lookup finds what it found before; an id that was absent finds the new product if it carries that id |
| Catalog.AddAll | product_manager.js:53-62 | a run of `addProduct` calls stopping at the first failure; when all succeed, the catalog has grown by one product per call |
| Catalog.AddAllDistinct | product_manager.js:53-62 | creating products with distinct, unused codes yields the old catalog followed by exactly those products in call order |
| Catalog.AddAllExistingCodeFails | product_manager.js:54-57 | a run of creations fails when one of them uses a code already in the catalog, at any position in the run |
| Catalog.AddAllDuplicateFails | product_manager.js:54-57 | a run of creations fails when two of them, at any distance, carry the same code |
| Catalog.UpdateKeepsIdsUnique | product_manager.js:72-78 | an update whose fields carry no id keeps ids unique |
| Catalog.UpdateCanDuplicateCode | product_manager.js:72-78 | an update can give a product a code another product already has |
| Catalog.UpdateCanReplaceId | product_manager.js:78 | fields carrying an id replace the id of the updated product |
| Catalog.UpdateStockOnly | product_manager.js:72-78 | `update(id, {stock: n})` succeeds when the id exists and sets only that product's stock |
| Catalog.DeleteThenLookupFails | product_manager.js:64-88 | with unique ids, a deleted id is no longer found |
| Catalog.DeleteThenLookupFindsRest | product_manager.js:64-88 | after a deletion, looking up the same id gives what a lookup among the products after the removed one gives: the next holder of a repeated id, or `NotFound` when there is none |
| Catalog.DeleteLeavesSecondHolder | product_manager.js:82-88 | for example, in a two-product catalog whose products share an id, deletion removes only the first and a lookup then finds the second |
| Catalog.DeleteKeepsUnique | product_manager.js:82-88 | deletion keeps ids unique and codes unique |
| Catalog.DeleteIsSubsequence | product_manager.js:88 | the survivors of a deletion keep their relative order |
| Sequences.SpliceAt | product_manager.js:88 | `splice(i, 1)`: one element fewer, elements before `i` in place, elements after it shifted down by one, same multiset less the removed element |
| Sequences.SpliceIsSubsequence | product_manager.js:88 | `splice(i, 1)` leaves a subsequence of the original |
| Search.Matches | product_manager.js:93-95 | the filter callback holds exactly when the lowered query occurs at some position of the lowered title or of the lowered description |
| Search.Search | product_manager.js:92-96 | `filter`: no longer than the catalog, and every product it returns matches the query |
| Search.SearchAppend | product_manager.js:92-96 | searching a concatenation is searching each part in turn |
| Search.SearchIsSubsequence | product_manager.js:92-96 | the result is a subsequence of the catalog (catalog order kept) |
| Search.SearchCount | product_manager.js:92-96 | a matching product occurs as often in the result as in the catalog, a non-matching one never |
| Search.SearchCounts | product_manager.js:92-96 | the same count fact, for every product at once |
| Search.SearchMembers | product_manager.js:92-96 | a product is in the result exactly when it is in the catalog and matches |
| Search.SearchEmptyQuery | product_manager.js:92-96 | the empty query returns the whole catalog |
| Search.SearchIgnoresQueryCase | product_manager.js:94-95 | lower-casing the query does not change the result |
| Search.ShirtExample | product_manager.js:92-96 | "shirt" finds "Blue Shirt" by title and "cotton shirt fabric" by description, and not a "Hat" described as "wool" |
| PriceSort.KeyOrder | product_manager.js:100-106 | comparing sort keys is reading the sign of the comparator `a.price - b.price` ("asc") or `b.price - a.price` (otherwise): key order exactly when the comparator is not positive, equal keys exactly when it is zero |
| PriceSort.Insert | product_manager.js:100-106 | inserting adds exactly the one product to the multiset and keeps every other |
| PriceSort.InsertOrdered | product_manager.js:100-106 | inserting into an ordered sequence keeps it ordered |
| PriceSort.SortByPrice | product_manager.js:99-107 | `slice().sort(comparator)`: the sorted copy has the catalog's length and is a permutation of it |
| PriceSort.SortOrdered | product_manager.js:99-107 | the sorted copy never decreases in key: prices non-decreasing for ascending, non-increasing otherwise |
| PriceSort.OrderedPrices | product_manager.js:101-104 | ordered by key holds exactly when prices are non-decreasing (ascending) or non-increasing (descending), both directions |
| PriceSort.InsertWithPrice | product_manager.js:100-106 | an inserted product goes ahead of every product of equal price |
| PriceSort.SortKeepsTies | product_manager.js:99-107 | stability: for each price, the products with that price keep their catalog order |
| PriceSort.SortIsStable | product_manager.js:99-107 | the same stability fact, for every price at once |
| PriceSort.SortKeepsTieOrder | product_manager.js:99-107 | two products of equal price come out in the order they had in the catalog |
| PriceSort.StableSortUnique | product_manager.js:99-107 | two ordered sequences that agree on every price's products are equal |
| PriceSort.IsTheStableSort | product_manager.js:99-107 | any ordered sequence that keeps every price's products in catalog order is the sorted copy |
| PriceSort.AscendingExample | product_manager.js:101-102 | prices 30, 10, 20 sort ascending to 10, 20, 30 |
| PriceSort.DescendingExample | product_manager.js:103-104 | prices 30, 10, 20 sort descending to 30, 20, 10 |
| Manager.ProductManager.constructor | product_manager.js:24-27 | the catalog is what was read from the store, or empty when nothing could be read; the snapshot is what was read |
| Manager.ProductManager.SaveProductsToFile | product_manager.js:39-47 | after a save, the snapshot equals the catalog |
| Manager.ProductManager.GetProducts | product_manager.js:49-51 | the live catalog itself, not a filtered or reordered copy |
| Manager.ProductManager.AddProduct | product_manager.js:53-62 | fails exactly when the code is in use, leaving catalog and snapshot unchanged; otherwise the new product is appended and saved |
| Manager.ProductManager.GetProductById | product_manager.js:64-70 | fails with `NotFound` exactly when no product has the id; otherwise the first product holding it |
| Manager.ProductManager.UpdateProduct | product_manager.js:72-80 | fails exactly when no product has the id, with no change; otherwise the first holder is merged with the fields and the catalog saved |
| Manager.ProductManager.DeleteProduct | product_manager.js:82-90 | fails exactly when no product has the id, with no change; otherwise the first holder is removed and the catalog saved |
| Manager.ProductManager.SearchProducts | product_manager.js:92-97 | a subsequence of the catalog whose every product matches, holding each matching product as often as the catalog does |
| Manager.ProductManager.SortProductsByPrice | product_manager.js:99-107 | a permutation of the catalog, ordered by price ascending for "asc" (the default) and descending otherwise, stable on ties |

## Left out

- The Express app, its middleware and routes (lines 1-8, 111-156). This includes the minimum of
  ten products, the `limit` slicing, the 404 and 500 responses, and the error message texts.
- Reading and parsing the store (lines 29-37). The constructor takes the parsed result as an
  `Option`. `None` covers a missing, unreadable or unparsable file, and also a file holding a falsy
  JSON value. A file holding JSON that is not an array of products is not modelled.
- Serialising and writing the store (lines 41-42), and the JSON round trip. A save is the
  assignment of the ghost snapshot.
- SaveProductsToFile: a write error is logged and swallowed there, leaving the store behind the
  catalog. The model assumes every write succeeds.
- Random ids (line 19). `AddProduct` takes the id as a parameter, and nothing requires it to be
  unused, just as the source never checks.
- `console.log` output.
- Prices and stocks are whole numbers. Floating point, `NaN` from non-numeric prices, and
  non-string titles, descriptions or queries (which would make `toLowerCase` throw) are not modelled.
- Text.Lower: lowers only the ASCII letters A-Z, not the full Unicode mapping of `toLowerCase`.
- Aliasing: `getProducts` and `getProductById` return references into the live array and its
  objects. `searchProducts` (line 93) and `sortProductsByPrice` (line 100) return new arrays, but
  those hold the live product objects. A caller that changes an element of any of these results
  changes the catalog. The model returns values.
- `updatedFields` is limited to the seven product keys. Extra keys, and keys whose value is
  `undefined` (which the spread copies), are not modelled.
