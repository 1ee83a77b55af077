# Card collection backend: a Dafny model

This project models the core of a Spring Boot backend that keeps users'
Pokémon trading-card collections. The model covers these parts:

- **Card rows and the card repository.** This includes the derived finders and the aggregate statistics queries.
- **The card service.** It adds cards from the catalog, lists them with filters and sorting, computes statistics, updates and deletes cards, and refreshes prices.
- **The catalog client.** It builds the TCGdex search query string, assembles a page with a fallback for each card, and estimates the total count.
- **The card controller.** It maps the service's outcomes to HTTP statuses and bodies, and parses the data URL a scan request sends.
- **The authentication controller.** It covers register, login and me.
- **The public read-only collection routes.**
- **The start-up migration.** It gives ownerless cards to a default user.
- **The security configuration.** It holds the table of protected paths and the session filter.

Everything is functional. The card table is a `seq<Card>` in row order, and the user table is a `seq<User>`. Each operation returns the new tables along with its answer. The model replaces Java's nulls with `Option` and its exceptions with `Result` error values. An answer Spring would produce for an escaped exception is the 500 response `Escaped`.

The model passes all outside effects in as parameters:

- the catalog's HTTP GET is a function from URL to `Result<Json, string>`;
- `URLEncoder.encode` is a function on strings;
- BCrypt is a pair of functions;
- clock reads are timestamps;
- Jackson's coercions (`asText`, `asInt`, `asDouble`, `toString`) are fields of a `Coercions` value;
- the vision service is a function from image and media type to `Json`.

Three behaviours of the code that are easy to misread:

- The type filter is a case-sensitive substring test, because `String.contains` is.
- Descending order reverses the whole null-last comparator, so rows with a null sort key come first.
- The set statistics group by the (set id, set name) pair, so one set id can appear in two rows.

Modules, one file each:

| file | module | models |
|---|---|---|
| wrappers.dfy | Wrappers | `Option`, `Result` |
| json.dfy | Json | the Jackson tree and member access |
| java_text.dfy | JavaText | `toLowerCase`, `length`, `trim`, `contains`, `split`, `compareToIgnoreCase`, `Integer.toString`, 32-bit wrap-around |
| card.dfy | CardModel | `Card`, the request DTOs, field defaults |
| sorting.dfy | Sorting | a stable insertion sort used for `sorted(...)` and `ORDER BY` |
| grouping.dfy | Grouping | `GROUP BY ... ORDER BY SUM(quantity) DESC` |
| repository.dfy | CardRepository | the card table, finders, saves, aggregate queries |
| query.dfy | CollectionQuery | `getCollection`'s filters and `getComparator` |
| normalizer.dfy | Normalizer | `mapToEntity`, `mapPricing`, `textOrNull`, `doubleOrNull` |
| service.dfy | CardService | `addCard`, `getStats`, `updateCard`, `deleteCard`, `refreshPrices` |
| tcgdex.dfy | CatalogClient | `searchCards`, `getCard` |
| http.dfy | Http | statuses and response bodies |
| card_controller.dfy | CardController | the search, collection and scan routes |
| accounts.dfy | Accounts | the user table, the password encoder, the session |
| auth.dfy | AuthController | register, login, me |
| public_collection.dfy | PublicCollection | the public collection and stats routes |
| migration.dfy | DataMigration | the orphan backfill run at start-up |
| security.dfy | Security | the path table, `sessionAuthFilter`, the 401 entry point |

## Model

| member | source | states |
|---|---|---|
| CardModel.NewCard | src/main/java/com/pokemon/inventory/model/Card.java:18-57 | A fresh card has quantity 1, condition "NM", and its two timestamps from two separate clock reads. Every other field is null. |
| CardModel.EmptyAddCardRequest | src/main/java/com/pokemon/inventory/dto/AddCardRequest.java:4-7 | A fresh add request has quantity 1, condition "NM", and no catalog id or notes. |
| Json.NonNull | src/main/java/com/pokemon/inventory/service/CardService.java:170-176 | A member is usable exactly when it is present and is not JSON null. |
| JavaText.Lower | src/main/java/com/pokemon/inventory/service/CardService.java:42 | Lower-casing keeps the length and folds each character on its own. |
| JavaText.LowerIdempotent | src/main/java/com/pokemon/inventory/controller/AuthController.java:30 | Lower-casing twice is the same as lower-casing once. |
| JavaText.JavaLength | src/main/java/com/pokemon/inventory/controller/AuthController.java:34 | `String.length()` counts UTF-16 code units: at least one and at most two per character. |
| JavaText.JavaLengthAppend | src/main/java/com/pokemon/inventory/controller/AuthController.java:34 | The length of a concatenation is the sum of the lengths. |
| JavaText.JavaLengthBasicPlane | src/main/java/com/pokemon/inventory/controller/AuthController.java:34 | The length equals the character count iff no character lies above U+FFFF. |
| JavaText.ContainsIff | src/main/java/com/pokemon/inventory/service/CardService.java:41-42 | `contains` holds iff the needle occurs at some offset. |
| JavaText.LexLeTotal | src/main/java/com/pokemon/inventory/service/CardService.java:180-182 | Lexicographic order compares any two strings. |
| JavaText.LexLeTransitive | src/main/java/com/pokemon/inventory/service/CardService.java:180-182 | Lexicographic order is transitive. |
| JavaText.IgnoreCaseLeTotal | src/main/java/com/pokemon/inventory/service/CardService.java:180-182 | `compareToIgnoreCase` compares any two strings. |
| JavaText.IgnoreCaseLeTransitive | src/main/java/com/pokemon/inventory/service/CardService.java:180-182 | `compareToIgnoreCase` is transitive. |
| JavaText.Trim | src/main/java/com/pokemon/inventory/controller/AuthController.java:30 | The result is a slice of the input with nothing trimmable at either end. Everything cut away is a control character or a space. |
| JavaText.SplitAll | src/main/java/com/pokemon/inventory/controller/CardController.java:195 | Splitting without dropping gives at least one piece, and no piece holds the delimiter. Joining the pieces gives back the input. |
| JavaText.DropTrailingEmpty | src/main/java/com/pokemon/inventory/controller/CardController.java:195 | Only trailing empty pieces are removed, and what remains does not end with an empty piece. |
| JavaText.SplitAllJoin | src/main/java/com/pokemon/inventory/controller/CardController.java:195 | Splitting the join of delimiter-free pieces gives those pieces back. |
| JavaText.SplitShape | src/main/java/com/pokemon/inventory/controller/CardController.java:195-199 | `split` gives no pieces iff the text is nonempty and consists only of delimiters. Its first piece is the text before the first delimiter. A second piece exists iff some non-delimiter follows the first delimiter, and it runs up to the next delimiter. |
| JavaText.SplitJoin | src/main/java/com/pokemon/inventory/controller/CardController.java:195 | `split` inverts a join whose last piece is nonempty. |
| JavaText.IndexOf | src/main/java/com/pokemon/inventory/controller/CardController.java:194-195 | The first position of the character, or the length when the character is absent. |
| JavaText.After | src/main/java/com/pokemon/inventory/controller/CardController.java:197 | The text is the part before the first delimiter, the delimiter, and this part. |
| JavaText.NatToString | src/main/java/com/pokemon/inventory/service/TcgdexApiService.java:71-72 | The decimal form of a natural number is nonempty and all digits. |
| JavaText.ParseIntToString | src/main/java/com/pokemon/inventory/service/TcgdexApiService.java:71-72 | The decimal text of an int page number reads back as that number. |
| JavaText.Wrap32 | src/main/java/com/pokemon/inventory/service/TcgdexApiService.java:109 | Java `int` arithmetic: the result is in 32-bit range and congruent to the exact value modulo 2^32. |
| Sorting.Insert | src/main/java/com/pokemon/inventory/service/CardService.java:43 | One insertion step adds the element and keeps the rest, as multisets. |
| Sorting.Sort | src/main/java/com/pokemon/inventory/service/CardService.java:43 | Sorting is a permutation of its input. |
| Sorting.InsertSorted | src/main/java/com/pokemon/inventory/service/CardService.java:43 | Under a total, transitive order, inserting into a sorted list keeps it sorted. |
| Sorting.SortSorted | src/main/java/com/pokemon/inventory/service/CardService.java:43 | Under a total, transitive order, the output is sorted. |
| Sorting.InsertTiedWith | src/main/java/com/pokemon/inventory/service/CardService.java:43 | Insertion keeps the input order among elements the comparator ties. |
| Sorting.SortStable | src/main/java/com/pokemon/inventory/service/CardService.java:43 | The sort is stable: tied elements keep their input order. |
| Sorting.InsertDistinct | src/main/java/com/pokemon/inventory/repository/CardRepository.java:26-30 | Inserting a new element into a duplicate-free list keeps it duplicate-free. |
| Sorting.SortDistinct | src/main/java/com/pokemon/inventory/repository/CardRepository.java:26-30 | Sorting a duplicate-free list keeps it duplicate-free. |
| Grouping.CountKeyPositive | src/main/java/com/pokemon/inventory/repository/CardRepository.java:26-30 | A key has a positive count iff some row carries it. |
| Grouping.NoCountNoTotal | src/main/java/com/pokemon/inventory/repository/CardRepository.java:26-30 | A key no row carries has quantity sum 0. |
| Grouping.IndexOfKey | src/main/java/com/pokemon/inventory/repository/CardRepository.java:26-30 | Returns the first group with the key, or the number of groups when none has it. |
| Grouping.AddToGroups | src/main/java/com/pokemon/inventory/repository/CardRepository.java:26-30 | Adding one keyed row to correct groups gives correct groups for the longer list. |
| Grouping.SumCardsUpdate | src/main/java/com/pokemon/inventory/repository/CardRepository.java:26-30 | Replacing one group changes the count total by the difference. |
| Grouping.SumCardsAppend | src/main/java/com/pokemon/inventory/repository/CardRepository.java:26-30 | Appending a group adds its count. |
| Grouping.GroupRows | src/main/java/com/pokemon/inventory/repository/CardRepository.java:26-30 | There is one row per distinct key with that key's count and quantity sum. The counts sum to the number of keyed rows. |
| Grouping.ByTotalDescIsOrder | src/main/java/com/pokemon/inventory/repository/CardRepository.java:26-30 | `ORDER BY SUM(quantity) DESC` is a total, transitive order. |
| Grouping.SumCardsInsert | src/main/java/com/pokemon/inventory/repository/CardRepository.java:26-30 | Inserting a group adds its count. |
| Grouping.SumCardsSort | src/main/java/com/pokemon/inventory/repository/CardRepository.java:26-30 | Ordering the groups keeps the count total. |
| Grouping.SortKeepsGroups | src/main/java/com/pokemon/inventory/repository/CardRepository.java:26-30 | Ordering the groups keeps them the correct groups. |
| Grouping.GroupBy | src/main/java/com/pokemon/inventory/repository/CardRepository.java:26-30 | There is one row per distinct non-null key with its count and quantity sum. Rows are in non-increasing sum order, and the counts sum to the number of keyed rows. |
| CardRepository.Where | src/main/java/com/pokemon/inventory/repository/CardRepository.java:14-18 | A derived finder returns exactly the rows that satisfy its condition. |
| CardRepository.WhereSplit | src/main/java/com/pokemon/inventory/repository/CardRepository.java:14-18 | A finder over two tables side by side returns the first table's matches followed by the second's, so results keep table order. |
| CardRepository.FindByUserIdAndCardId | src/main/java/com/pokemon/inventory/repository/CardRepository.java:14 | Returns exactly the owner's rows for that catalog card. |
| CardRepository.FindByUserId | src/main/java/com/pokemon/inventory/repository/CardRepository.java:15 | Returns exactly the rows whose owner is the argument. Ownerless rows never match. |
| CardRepository.FindByIdAndUserId | src/main/java/com/pokemon/inventory/repository/CardRepository.java:16 | Present iff some row has that id and that owner, and then it is such a row. |
| CardRepository.FindByUserIdIsNull | src/main/java/com/pokemon/inventory/repository/CardRepository.java:18 | Returns exactly the rows without an owner. |
| CardRepository.IndexOfId | src/main/java/com/pokemon/inventory/service/CardService.java:84 | The position of the first row with the id, or the table length when no row has it. |
| CardRepository.Insert | src/main/java/com/pokemon/inventory/model/Card.java:16-24 | Saving a new row fails iff a NOT NULL column is null. Otherwise the row is appended under the generated id. |
| CardRepository.InsertKeepsValid | src/main/java/com/pokemon/inventory/model/Card.java:16-57 | Inserting under a fresh id keeps ids unique and NOT NULL columns filled. |
| CardRepository.Update | src/main/java/com/pokemon/inventory/service/CardService.java:84 | Saving an existing row fails iff a NOT NULL column is null. Otherwise it replaces that row and no other. |
| CardRepository.UpdateKeepsValid | src/main/java/com/pokemon/inventory/service/CardService.java:84 | A successful save of an existing row keeps the table valid. |
| CardRepository.Delete | src/main/java/com/pokemon/inventory/service/CardService.java:90 | Deleting removes exactly the first row with the id when there is one: the rows before it stay in place and the rows after it shift down by one, so table order is kept. Otherwise the table is left alone. |
| CardRepository.DeleteRemovesRow | src/main/java/com/pokemon/inventory/service/CardService.java:90 | After the delete no row has the id, and the table stays valid. |
| CardRepository.CountWhereIsLength | src/main/java/com/pokemon/inventory/repository/CardRepository.java:35-36 | Counting the rows that satisfy a condition equals the length of the finder's result. |
| CardRepository.CountByUserId | src/main/java/com/pokemon/inventory/repository/CardRepository.java:35-36 | `countByUserId` equals the length of `findByUserId`. |
| CardRepository.SumQuantityAppend | src/main/java/com/pokemon/inventory/repository/CardRepository.java:20-21 | The quantity sum over two row lists is the sum of the two. |
| CardRepository.TotalCards | src/main/java/com/pokemon/inventory/repository/CardRepository.java:20-21 | The sum is 0 for an empty collection. It is at least the row count when every quantity is positive. |
| CardRepository.TotalCardsSplit | src/main/java/com/pokemon/inventory/repository/CardRepository.java:20-21 | total_cards of two tables side by side is the sum of their totals. |
| CardRepository.TotalCardsRow | src/main/java/com/pokemon/inventory/repository/CardRepository.java:20-21 | A single row contributes its quantity to its owner's total_cards and 0 to anyone else's; with the split lemma, total_cards is the sum of the owner's quantities. |
| CardRepository.QuantityAtLeastCount | src/main/java/com/pokemon/inventory/repository/CardRepository.java:20-21 | When every quantity is at least 1, the sum is at least the row count. |
| CardRepository.SetIds | src/main/java/com/pokemon/inventory/repository/CardRepository.java:23-24 | The distinct non-null set ids of the rows, and no others. |
| CardRepository.SetIdsBound | src/main/java/com/pokemon/inventory/repository/CardRepository.java:23-24 | There are no more distinct set ids than rows with a set id. |
| CardRepository.TotalSets | src/main/java/com/pokemon/inventory/repository/CardRepository.java:23-24 | The number of distinct non-null set ids among the owner's rows. It is at most the owner's row count. |
| CardRepository.ValueSumAppend | src/main/java/com/pokemon/inventory/repository/CardRepository.java:32-33 | The value sum over two row lists is the sum of the two. |
| CardRepository.ValueSumUnpriced | src/main/java/com/pokemon/inventory/repository/CardRepository.java:32-33 | With no mid price anywhere the value is 0. |
| CardRepository.TotalValue | src/main/java/com/pokemon/inventory/repository/CardRepository.java:32-33 | It is 0 when none of the owner's rows has a mid price. |
| CardRepository.TotalValueSplit | src/main/java/com/pokemon/inventory/repository/CardRepository.java:32-33 | total_value of two tables side by side is the sum of their values. |
| CardRepository.TotalValueRow | src/main/java/com/pokemon/inventory/repository/CardRepository.java:32-33 | A single row contributes mid price times quantity to its owner's total_value when it has a mid price, and 0 otherwise; with the split lemma, total_value is that sum over the owner's priced rows. |
| CardRepository.EverySetKeyed | src/main/java/com/pokemon/inventory/repository/CardRepository.java:26-27 | Every row falls into a set group, null set ids included. |
| CardRepository.StatsBySet | src/main/java/com/pokemon/inventory/repository/CardRepository.java:26-27 | There is one row per distinct (set id, set name) pair with its count and quantity sum, in non-increasing sum order. The counts sum to `countByUserId`. |
| CardRepository.StatsByRarity | src/main/java/com/pokemon/inventory/repository/CardRepository.java:29-30 | There is one row per distinct non-null rarity, in non-increasing sum order. Null rarities are excluded. |
| CardRepository.SameSetIdTwoNames | src/main/java/com/pokemon/inventory/repository/CardRepository.java:26-27 | One set id under two set names gives two rows. |
| CollectionQuery.SortKeyOf | src/main/java/com/pokemon/inventory/service/CardService.java:180-185 | Names the sort key. An unknown sort value falls back to creation time. |
| CollectionQuery.NullKeyPlacement | src/main/java/com/pokemon/inventory/service/CardService.java:180-186 | A null sort key sorts after a non-null one when ascending and before it when descending. |
| CollectionQuery.KeyLeTotal | src/main/java/com/pokemon/inventory/service/CardService.java:180-185 | Every key order compares any two cards. |
| CollectionQuery.KeyLeTransitive | src/main/java/com/pokemon/inventory/service/CardService.java:180-185 | Every key order is transitive. |
| CollectionQuery.ComparatorIsOrder | src/main/java/com/pokemon/inventory/service/CardService.java:178-187 | The comparator and its reversal are total and transitive, so the sort is well defined. |
| CollectionQuery.Filtered | src/main/java/com/pokemon/inventory/service/CardService.java:36-42 | Exactly the owner's rows that pass every given filter. |
| CollectionQuery.GetCollection | src/main/java/com/pokemon/inventory/service/CardService.java:34-45 | Fails iff a name filter meets a row with a null name. Otherwise the result is a permutation of the filtered rows, sorted by the comparator and stable among ties. |
| CollectionQuery.StableFor | src/main/java/com/pokemon/inventory/service/CardService.java:43 | Sorting keeps the order of tied rows. |
| CollectionQuery.ValidStoreNeverThrows | src/main/java/com/pokemon/inventory/service/CardService.java:42 | When every row has a name, which the NOT NULL column ensures, the listing never fails. |
| Normalizer.FirstVariant | src/main/java/com/pokemon/inventory/service/CardService.java:151-157 | The first key whose member is present and non-null, if there is one. |
| Normalizer.FirstVariantStep | src/main/java/com/pokemon/inventory/service/CardService.java:152-156 | Skipping a leading null variant keeps "first qualifying". |
| Normalizer.VariantFallback | src/main/java/com/pokemon/inventory/service/CardService.java:150-157 | The order is `normal`, then `holofoil`, then `reverse-holofoil`, and there is no variant when all three are missing or null. |
| Normalizer.MapPricing | src/main/java/com/pokemon/inventory/service/CardService.java:144-168 | Without pricing, marketplace block or variant the card is unchanged. Otherwise each of the four prices is set independently, and the update time changes only when present. Nothing else changes. |
| Normalizer.Identify | src/main/java/com/pokemon/inventory/service/CardService.java:113-120 | Sets id, name, category, rarity, hp, types and subtypes from the catalog, with the `has` and null rules of the code. |
| Normalizer.WithSet | src/main/java/com/pokemon/inventory/service/CardService.java:123-131 | An absent set leaves the set fields alone. The series is the object's name, or else the member's text. |
| Normalizer.WithImages | src/main/java/com/pokemon/inventory/service/CardService.java:134-138 | The image URLs are the base plus "/low.webp" and "/high.webp". Without a base, nothing changes. |
| Normalizer.MapToEntity | src/main/java/com/pokemon/inventory/service/CardService.java:112-142 | The result is an unsaved card: no id, no owner, no notes, the default quantity and condition, and the two timestamps given. |
| Normalizer.MapToEntityFields | src/main/java/com/pokemon/inventory/service/CardService.java:113-120 | The identity fields of a mapped card follow the catalog data. |
| Normalizer.MapToEntitySet | src/main/java/com/pokemon/inventory/service/CardService.java:123-131 | Without a set, the set id, set name and series are null. Otherwise they follow the set object. |
| Normalizer.MapToEntityImages | src/main/java/com/pokemon/inventory/service/CardService.java:134-138 | Both image URLs are present iff an image base is present. |
| Normalizer.MapToEntityPricing | src/main/java/com/pokemon/inventory/service/CardService.java:140-168 | Without a qualifying variant every price is null. Otherwise the prices come from the first qualifying variant. |
| CardService.AddCard | src/main/java/com/pokemon/inventory/service/CardService.java:24-32 | A failed fetch fails. A null id, name or condition is refused. Otherwise the appended row is the catalog mapping of the fetched card with the fresh id, the caller as owner, and the request's quantity, condition and notes. |
| CardService.WhereAppend | src/main/java/com/pokemon/inventory/service/CardService.java:31 | Appending a row extends a finder's result exactly when the row matches. |
| CardService.AddCardTotals | src/main/java/com/pokemon/inventory/service/CardService.java:24-32 | After an add, the owner's count rises by one and the quantity sum by the quantity. Other owners' rows are unchanged. |
| CardService.ApplyUpdate | src/main/java/com/pokemon/inventory/service/CardService.java:80-83 | Only non-null request fields overwrite, the update time is refreshed, and every other field is kept. |
| CardService.UpdateCard | src/main/java/com/pokemon/inventory/service/CardService.java:77-85 | Not found iff no row has that id and owner. On success only that row is replaced, by the updated card. |
| CardService.UpdateIsVisible | src/main/java/com/pokemon/inventory/service/CardService.java:77-85 | On a valid table the update succeeds, and the finder then returns the updated card. |
| CardService.UniqueIdFind | src/main/java/com/pokemon/inventory/service/CardService.java:78 | With unique ids, the finder returns the one matching row. |
| CardService.DeleteCard | src/main/java/com/pokemon/inventory/service/CardService.java:87-91 | Not found iff no row has that id and owner. Otherwise the table is the repository delete of that id, which keeps the order of the other rows. |
| CardService.DoubleDeleteNotFound | src/main/java/com/pokemon/inventory/service/CardService.java:87-91 | Deleting the same card a second time is not found. |
| CardService.Answered | src/main/java/com/pokemon/inventory/service/CardService.java:95-102 | The count of answered fetches never exceeds the number of fetches. |
| CardService.Repriced | src/main/java/com/pokemon/inventory/service/CardService.java:98-100 | A refreshed row differs only in its prices and update time, and carries the clock reading. |
| CardService.WhereIdsDistinct | src/main/java/com/pokemon/inventory/service/CardService.java:94 | A finder over a table with unique ids returns rows with unique ids. |
| CardService.SameIdsSameIndex | src/main/java/com/pokemon/inventory/service/CardService.java:101 | Saves that keep every id in place keep every lookup position. |
| CardService.OwnedSlots | src/main/java/com/pokemon/inventory/service/CardService.java:94-96 | Each of the owner's rows sits at its own position in the table. |
| CardService.RefreshStep | src/main/java/com/pokemon/inventory/service/CardService.java:96-105 | Handling one more row moves the loop state on by one. |
| CardService.RefreshRow | src/main/java/com/pokemon/inventory/service/CardService.java:97-105 | One iteration saves the re-priced row or, when the fetch fails, skips it. |
| CardService.RefreshPrices | src/main/java/com/pokemon/inventory/service/CardService.java:93-108 | Returns the number of answered fetches, at most the owner's row count. Each owner row is re-priced or left as it was, and other rows are untouched. |
| CardService.LabelSet | src/main/java/com/pokemon/inventory/service/CardService.java:56-61 | A null set name reads "Unknown" and a null set id reads "". The count and sum are kept. |
| CardService.LabelRarity | src/main/java/com/pokemon/inventory/service/CardService.java:67-71 | The rarity row keeps its key, count and sum. |
| CardService.LabelSets | src/main/java/com/pokemon/inventory/service/CardService.java:54-63 | One labelled row per group, in order. |
| CardService.LabelRarities | src/main/java/com/pokemon/inventory/service/CardService.java:65-73 | One labelled row per group, in order. |
| CardService.GetStats | src/main/java/com/pokemon/inventory/service/CardService.java:47-75 | Six entries in the order unique_cards, total_cards, total_sets, total_value, bySet, byRarity, each holding its repository aggregate. |
| CardService.StatsCountsAgree | src/main/java/com/pokemon/inventory/service/CardService.java:47-63 | The bySet card counts sum to unique_cards. |
| CardService.SetRowSums | src/main/java/com/pokemon/inventory/service/CardService.java:54-63 | Labelling keeps the count total. |
| CatalogClient.Param | src/main/java/com/pokemon/inventory/service/TcgdexApiService.java:54-68 | A filter contributes one parameter iff it is non-null and not blank, and that parameter is the prefix plus the encoded value. |
| CatalogClient.ParamsOf | src/main/java/com/pokemon/inventory/service/TcgdexApiService.java:52-68 | There are no more parameters than filters. |
| CatalogClient.SearchParams | src/main/java/com/pokemon/inventory/service/TcgdexApiService.java:52-72 | The filter parameters come in order, then the page and the page size, always and last. |
| CatalogClient.SearchUrl | src/main/java/com/pokemon/inventory/service/TcgdexApiService.java:51-74 | The URL starts with the base plus "/cards?". |
| CatalogClient.LookupAppend | src/main/java/com/pokemon/inventory/service/TcgdexApiService.java:74 | Looking a prefix up in joined lists finds the first list's match first. |
| CatalogClient.LookupParamsOf | src/main/java/com/pokemon/inventory/service/TcgdexApiService.java:54-68 | Each filter's prefix finds its encoded value when given, and nothing when not. |
| CatalogClient.LookupSkip | src/main/java/com/pokemon/inventory/service/TcgdexApiService.java:54-68 | A prefix no filter starts with finds nothing among the filter parameters. |
| CatalogClient.PaginationSkipped | src/main/java/com/pokemon/inventory/service/TcgdexApiService.java:71-72 | The pagination parameters never answer a filter prefix. |
| CatalogClient.SearchParamsDecode | src/main/java/com/pokemon/inventory/service/TcgdexApiService.java:51-72 | Reading the parameter list back gives each given filter's encoded value and nothing for the others. |
| CatalogClient.ParamsNoAmpersand | src/main/java/com/pokemon/inventory/service/TcgdexApiService.java:54-68 | With an encoder that never emits "&", no filter parameter holds one. |
| CatalogClient.SearchUrlRoundTrip | src/main/java/com/pokemon/inventory/service/TcgdexApiService.java:51-74 | Splitting the query string at "&" gives back exactly the parameter list. |
| CatalogClient.Listing | src/main/java/com/pokemon/inventory/service/TcgdexApiService.java:80-86 | An array answer gives its elements, and any other answer gives none. |
| CatalogClient.CardUrl | src/main/java/com/pokemon/inventory/service/TcgdexApiService.java:116-118 | The card URL is the base plus "/cards/" plus the card id, unencoded, so `getCard` fetches exactly the id it is given. |
| CatalogClient.Detail | src/main/java/com/pokemon/inventory/service/TcgdexApiService.java:92-99 | A summary without "id" stays. Otherwise the full card replaces it when that fetch succeeds, and the summary stays when it fails. |
| CatalogClient.EstimatedTotal | src/main/java/com/pokemon/inventory/service/TcgdexApiService.java:109 | The estimate is a Java `int`, with every multiplication and addition wrapped. |
| CatalogClient.EstimatedTotalExact | src/main/java/com/pokemon/inventory/service/TcgdexApiService.java:109 | Without overflow: a short page gives the rows before it plus its own, and a full page gives one more than the pages so far. A short page's estimate is below a full page's. |
| CatalogClient.AssemblePage | src/main/java/com/pokemon/inventory/service/TcgdexApiService.java:91-110 | One entry per listed card, each its detail, plus the page, the page size and the estimate. |
| CatalogClient.SearchCards | src/main/java/com/pokemon/inventory/service/TcgdexApiService.java:43-111 | Fails iff the search fetch fails, with its message. Otherwise the page is assembled from the listing. |
| CatalogClient.NonArrayListingEmpty | src/main/java/com/pokemon/inventory/service/TcgdexApiService.java:80-109 | A non-array answer gives an empty page whose estimate is the rows before it. |
| CatalogClient.FailedDetailsKeepSummaries | src/main/java/com/pokemon/inventory/service/TcgdexApiService.java:91-100 | When every detail fetch fails, the page holds the summaries unchanged. |
| CardController.SearchRoute | src/main/java/com/pokemon/inventory/controller/CardController.java:37-52 | 200 with the page iff the search succeeds, else 500 "Failed to search cards". The page defaults to 1 and the size to 20. |
| CardController.SearchRouteDefaults | src/main/java/com/pokemon/inventory/controller/CardController.java:44-48 | Without page parameters, page 1 of 20 is asked for and returned. |
| CardController.CardFromApiRoute | src/main/java/com/pokemon/inventory/controller/CardController.java:54-62 | 200 with the card iff its fetch succeeds, else 500 "Failed to fetch card". |
| CardController.AddRoute | src/main/java/com/pokemon/inventory/controller/CardController.java:113-124 | 201 with the new id iff the add succeeds. Otherwise 500 with the exception's message, and the table is unchanged. |
| CardController.AddedIdFindsRow | src/main/java/com/pokemon/inventory/controller/CardController.java:113-124 | The id a 201 reports finds the new row under the caller. |
| CardController.CollectionRoute | src/main/java/com/pokemon/inventory/controller/CardController.java:126-142 | 200 with the cards and their count iff the listing succeeds, else 500 "Failed to fetch collection". The defaults are createdAt and desc. |
| CardController.DefaultListingNewestFirst | src/main/java/com/pokemon/inventory/controller/CardController.java:126-138 | With no parameters, all the owner's cards are listed, newest first. |
| CardController.FilterNothing | src/main/java/com/pokemon/inventory/controller/CardController.java:128-132 | No filters keep every row. |
| CardController.StatsRoute | src/main/java/com/pokemon/inventory/controller/CardController.java:144-151 | Always 200. unique_cards is the number of the caller's rows, and the bySet card counts add up to it. |
| CardController.UpdateRoute | src/main/java/com/pokemon/inventory/controller/CardController.java:153-163 | 404 "Card not found" iff the card is not the caller's. A 500 carries "Failed to update card". A 200 carries "Card updated" and the saved table. |
| CardController.UpdateRouteVisible | src/main/java/com/pokemon/inventory/controller/CardController.java:153-163 | On a valid table an update of one's own card answers 200, and the card then reads back updated. |
| CardController.DeleteRoute | src/main/java/com/pokemon/inventory/controller/CardController.java:165-175 | 404 iff the card is not the caller's, with nothing changed. Otherwise 200 "Card removed", and the table is the service's delete result. |
| CardController.DeleteTwice | src/main/java/com/pokemon/inventory/controller/CardController.java:165-175 | A second delete of the same card is 404. |
| CardController.RefreshRoute | src/main/java/com/pokemon/inventory/controller/CardController.java:177-185 | 200 with the number of answered fetches. Each of the caller's rows is replaced by its refresh outcome, and other owners' rows are untouched. |
| CardController.MediaTypeOf | src/main/java/com/pokemon/inventory/controller/CardController.java:197 | A prefix with no second ":" piece fails with Java's index-out-of-bounds message. |
| CardController.ParseScan | src/main/java/com/pokemon/inventory/controller/CardController.java:193-200 | An image without "," passes through with its media type. |
| CardController.ScanPayload | src/main/java/com/pokemon/inventory/controller/CardController.java:194-199 | After the first ",": only commas means failure. Otherwise the payload is the text up to the next ",". |
| CardController.ScanMediaType | src/main/java/com/pokemon/inventory/controller/CardController.java:196-198 | A prefix naming "image/" gives the text between the first and second ":", cut at ";". Any other prefix keeps the given media type. |
| CardController.ScanRoute | src/main/java/com/pokemon/inventory/controller/CardController.java:187-207 | A missing or null image is a 500 with the null-pointer message. Every answer is 200 or 500. |
| CardController.ScanBareImage | src/main/java/com/pokemon/inventory/controller/CardController.java:190-203 | A bare image goes to the vision service with the given media type, defaulting to "image/png" only when the key is absent. |
| Accounts.FindByUsername | src/main/java/com/pokemon/inventory/controller/AuthController.java:56 | Present iff some user has the name, and then it is such a user. |
| Accounts.FindById | src/main/java/com/pokemon/inventory/controller/AuthController.java:78 | Present iff some user has the id, and then it is such a user. |
| Accounts.SaveUser | src/main/java/com/pokemon/inventory/controller/AuthController.java:41-45 | The new user is appended under the fresh id with the given fields. |
| Accounts.SavedUserFound | src/main/java/com/pokemon/inventory/controller/AuthController.java:41-56 | A user saved under a new name and fresh id is what both finders return afterwards. |
| Accounts.FindLast | src/main/java/com/pokemon/inventory/controller/AuthController.java:56 | A name and id held by no earlier user find the appended user. |
| AuthController.KeepUsernameChars | src/main/java/com/pokemon/inventory/controller/AuthController.java:30 | Only `[a-z0-9_-]` remains after the strip. |
| AuthController.KeepCounts | src/main/java/com/pokemon/inventory/controller/AuthController.java:30 | Every admitted character is kept as often as it occurs and every other one is dropped. |
| AuthController.KeepAppend | src/main/java/com/pokemon/inventory/controller/AuthController.java:30 | Stripping a concatenation strips each part and keeps the parts in order. |
| AuthController.KeepOne | src/main/java/com/pokemon/inventory/controller/AuthController.java:30 | A single character survives iff `[a-z0-9_-]` admits it; with KeepAppend this fixes the result, in order. |
| AuthController.KeepAdmitted | src/main/java/com/pokemon/inventory/controller/AuthController.java:30 | A string of admitted characters is unchanged by the strip. |
| AuthController.NormalizeUsername | src/main/java/com/pokemon/inventory/controller/AuthController.java:30 | A stored username holds only `[a-z0-9_-]`. |
| AuthController.NormalizedIsLoginForm | src/main/java/com/pokemon/inventory/controller/AuthController.java:30-55 | Login's trim and lower-case leave a stored username alone. |
| AuthController.NormalizeIdempotent | src/main/java/com/pokemon/inventory/controller/AuthController.java:30 | Normalising twice equals normalising once. |
| AuthController.Register | src/main/java/com/pokemon/inventory/controller/AuthController.java:28-51 | A null username escapes. The checks run in order (short username 400, a null password or one under four UTF-16 code units 400, taken 409), and a failing check changes nothing. A 201 saves the user with the encoded password and signs them in. |
| AuthController.PasswordLengthInUnits | src/main/java/com/pokemon/inventory/controller/AuthController.java:34 | Two characters above U+FFFF pass the four-character check, and any password of four or more characters passes it. |
| AuthController.Login | src/main/java/com/pokemon/inventory/controller/AuthController.java:53-64 | 200 iff the trimmed, lower-cased name exists and the password matches, and it signs in that user. An unknown name and a wrong password get the same 401 with the same message. A 500 is the escaped-exception answer with the session unchanged. It is a 500 iff the username is null or a known name comes with a null password, so a null password reaches the encoder only for a known name. |
| AuthController.Me | src/main/java/com/pokemon/inventory/controller/AuthController.java:72-81 | 401 "Not authenticated" without an id, and 401 "User not found" for a stale id. Otherwise 200 with that user. |
| AuthController.RegisterThenLogin | src/main/java/com/pokemon/inventory/controller/AuthController.java:28-64 | After a registration, logging in with the stored name and the same password succeeds as that user. |
| AuthController.RegisterThenMe | src/main/java/com/pokemon/inventory/controller/AuthController.java:28-81 | The session a registration leaves makes `me` answer with the new user. |
| AuthController.RegisterTwiceConflicts | src/main/java/com/pokemon/inventory/controller/AuthController.java:37-45 | Registering the same name again is a 409. |
| AuthController.StrippedNameNeedsStoredForm | src/main/java/com/pokemon/inventory/controller/AuthController.java:30-55 | When registration strips a character, the original spelling is not the stored name. |
| PublicCollection.ResolveOwner | src/main/java/com/pokemon/inventory/controller/PublicCollectionController.java:33 | A user is found iff some row's username equals the lower-cased path name, untrimmed, and the user found is such a row. |
| PublicCollection.ShownName | src/main/java/com/pokemon/inventory/controller/PublicCollectionController.java:39 | The display name, or the username when it is null. |
| PublicCollection.PublicCollectionRoute | src/main/java/com/pokemon/inventory/controller/PublicCollectionController.java:23-43 | 404 with an empty body iff the user is unknown. For a known user it is 200 with the owner's listing under the given or default sort, its size and the shown name, and a failing listing escapes as a 500. |
| PublicCollection.PublicMatchesPrivate | src/main/java/com/pokemon/inventory/controller/PublicCollectionController.java:33-42 | The public listing is the owner's own listing with the same parameters, plus the shown name. |
| PublicCollection.PublicStatsRoute | src/main/java/com/pokemon/inventory/controller/PublicCollectionController.java:45-54 | 404 iff the user is unknown. Otherwise the owner's six statistics followed by "displayName". |
| PublicCollection.PaddedNameUnknown | src/main/java/com/pokemon/inventory/controller/PublicCollectionController.java:33-47 | When no stored name holds a space, a path name with a space is unknown on both routes. |
| PublicCollection.CaseInsensitivePath | src/main/java/com/pokemon/inventory/controller/PublicCollectionController.java:33 | Path names that differ only in letter case find the same user. |
| DataMigration.DefaultUser | src/main/java/com/pokemon/inventory/service/DataMigrationService.java:32-38 | The existing "chris", or a new "chris" saved with display name "Chris" and the encoded password "pokemon". Either way, the finder then returns it. |
| DataMigration.OrphanSlots | src/main/java/com/pokemon/inventory/service/DataMigrationService.java:28-43 | Each orphan sits at its own position, and every ownerless row is one of them. |
| DataMigration.MigrateRow | src/main/java/com/pokemon/inventory/service/DataMigrationService.java:40-43 | Saving one more orphan under the default user moves the loop state on by one. |
| DataMigration.Run | src/main/java/com/pokemon/inventory/service/DataMigrationService.java:27-46 | Without orphans nothing changes and no user is created. Otherwise every row equals the row-by-row reference (ownerless rows get the default user's id, others are unchanged), and no orphan remains. The count reported is the number of orphans. |
| DataMigration.AllMigrated | src/main/java/com/pokemon/inventory/service/DataMigrationService.java:40-43 | Once every orphan is saved, the table is the reference applied to each row and has no ownerless row. |
| DataMigration.NoOrphansAllOwned | src/main/java/com/pokemon/inventory/service/DataMigrationService.java:28-29 | The orphan finder is empty iff every row has an owner. |
| Security.MatchHasStem | src/main/java/com/pokemon/inventory/config/SecurityConfig.java:38-49 | A pattern matches only paths that begin with its stem. |
| Security.MismatchAt | src/main/java/com/pokemon/inventory/config/SecurityConfig.java:38-49 | One differing character inside the stem rules a path out. |
| Security.Rules | src/main/java/com/pokemon/inventory/config/SecurityConfig.java:38-50 | The permitted patterns come first, then the two protected ones, in declaration order. |
| Security.FirstMatch | src/main/java/com/pokemon/inventory/config/SecurityConfig.java:37-50 | The first matching rule decides, and the fallback applies when none matches. |
| Security.PermittedWins | src/main/java/com/pokemon/inventory/config/SecurityConfig.java:38-48 | A path any permitted pattern matches is open. |
| Security.ProtectedPaths | src/main/java/com/pokemon/inventory/config/SecurityConfig.java:37-50 | Authentication is required iff the path is /api/collection, below it, or /api/scan. |
| Security.ProtectedIsAuthenticated | src/main/java/com/pokemon/inventory/config/SecurityConfig.java:49 | /api/collection, the paths below it, and /api/scan need authentication. |
| Security.OnlyProtectedAuthenticated | src/main/java/com/pokemon/inventory/config/SecurityConfig.java:49-50 | No other path needs authentication. |
| Security.NoPermitMatches | src/main/java/com/pokemon/inventory/config/SecurityConfig.java:38-48 | No permitted pattern shadows a protected path. |
| Security.ScanNotPermitted | src/main/java/com/pokemon/inventory/config/SecurityConfig.java:38-48 | No permitted pattern matches /api/scan. |
| Security.CollectionNotPermitted | src/main/java/com/pokemon/inventory/config/SecurityConfig.java:38-48 | No permitted pattern matches /api/collection or a path below it. |
| Security.PublicPathsPermitted | src/main/java/com/pokemon/inventory/config/SecurityConfig.java:38-48 | Paths under /api/u, /api/auth and /api/search are open. |
| Security.Principal | src/main/java/com/pokemon/inventory/config/SecurityConfig.java:71-79 | A request is authenticated iff it has a session with both attributes, and then the principal is the username. |
| Security.Dispatch | src/main/java/com/pokemon/inventory/config/SecurityConfig.java:52-80 | 401 "Not authenticated" iff the path is protected and the request is unauthenticated. Otherwise it is passed on with its principal. |
| Security.ForwardedProtectedHasUser | src/main/java/com/pokemon/inventory/config/SecurityConfig.java:49-80 | A protected request that gets through has a session with both attributes. |
| Security.SignedInPasses | src/main/java/com/pokemon/inventory/config/SecurityConfig.java:71-80 | The session that register and login leave passes every path, as that user. |

## Left out

- **Letter case.** `toLowerCase`, `equalsIgnoreCase` and `compareToIgnoreCase` fold only the ASCII letters A-Z. Other Unicode case mappings are not modelled.
- JavaText.IgnoreCaseLe: it orders by code point. JDK 16 and later compare a surrogate pair in `compareToIgnoreCase` as its code point, which agrees; earlier JDKs compare UTF-16 code units, so there a character above U+FFFF sorts before one in U+E000-U+FFFF, which the model does not follow.
- **Integer widths.** Java `int`/`long` widths are modelled only for `totalCount`, where the code computes in `int`. Quantities and sums are unbounded integers.
- **Numbers.** Prices and `total_value` are `real`. Double rounding, NaN and the database's floating-point `SUM` are not modelled.
- **Jackson.** Jackson parsing, serialisation and the `asText`/`asInt`/`asDouble`/`toString` coercions are uninterpreted functions.
- **Opaque functions.** `URLEncoder.encode` and BCrypt are opaque functions. The only property the model assumes is that a password matches its own encoding (`Sound`). A null raw password reaching BCrypt is modelled as an escaped exception.
- **HTTP, timeouts and `apiGet`'s parsing.** A catalog call is a function from URL to a JSON result or a failure message.
- **The refresh loop's inputs.** The catalog answers and clock reads are sequences indexed by the owner's row position.
- **The scan vision call.** `ClaudeVisionService.identifyCard` catches everything and returns JSON, so it is a total function parameter.
- **Persistence.** JPA row order for finders without `ORDER BY` is assumed to be table order. The order among groups with equal quantity sums is whatever the stable sort gives.
- **Database error messages.** They are a string parameter.
- **Identity generation.** It is a fresh-id parameter.
- **Setters and getters of Card.** They are record updates and field reads of the `Card` datatype, so no separate members model them.
- **Request-parameter conversion.** Spring's conversion of `page`, `pageSize` and `{id}` and its 400 answers happen before the handlers run.
- **Null owner ids on the collection routes.** The security table keeps unauthenticated requests out, so the handlers take an `int` owner.
- **The logout route.** It only invalidates the session.
- **The catalog relays.** `getSets`, `getSet`, `getRarities`, `getTypes` and `getCategories` are fetch-and-relay routes without logic of their own.
- **CORS, CSRF and the password-encoder bean configuration.**
- **Servlet path handling.** Spring's path normalisation is not modelled: trailing slashes, encoded characters, and matching against the servlet path. Patterns match the literal path.
- **Log output.** The `System.out.println` lines are not modelled. The migration's count is returned instead of printed.
- **User.java and UserRepository.java are not part of this model.** The user row holds the columns the controllers read and write, and the finders are the derived queries their names describe.
- **ValidStore.** The id-uniqueness and NOT NULL invariants of the card table are assumed as preconditions where the code relies on the database's guarantees: refresh, migration, and the never-throwing listing.
- CardService.Answered: it states only the bound. Its meaning as the number of answered fetches is stated by `CardService.RefreshPrices`.
- CatalogClient.SearchUrl: it states only the prefix. The parameters it carries are stated by `CatalogClient.SearchUrlRoundTrip` and `CatalogClient.SearchParamsDecode`.
- CardController.MediaTypeOf: it states only the failure when there is no second ":" piece. What it returns otherwise is stated by `CardController.ScanMediaType`.
- CardController.ParseScan: it states only the comma-free case. The rest is stated by `CardController.ScanPayload` and `CardController.ScanMediaType`.
- CardController.ScanRoute: the success case is stated only for an image without a comma, by `CardController.ScanBareImage`.
