# ScreenArchive screenshot catalogue, in Dafny

This project models `MemStorage`, the in-memory screenshot catalogue of the
ScreenArchive web application (server/storage.ts). The store keeps a
JavaScript `Map` from id to screenshot record and a `currentId` counter. It
seeds two sample records on construction. It creates records with fresh,
increasing ids and looks them up by id. It answers two read-only queries: a
case-insensitive text search and a multi-dimension filter.

Modules:

- `Schema` (schema.dfy): the input record (`NewScreenshot`: the insert
  schema plus AI tags), the stored record (`Screenshot`), `Option`, and
  JavaScript truthiness of an optional string (`Truthy`).
- `Text` (text.dfy): ASCII lower-casing (`Lower`) and substring search
  (`Includes`). `Includes` is proved equal to the closed form `Substring`:
  some position where the query occurs.
- `Seqs` (seqs.dfy): `Array.prototype.filter` as `Filter`. It is proved to
  return an order-preserving subsequence that keeps every occurrence of each
  element satisfying the predicate and no occurrence of any other element.
  Over a sequence without repetitions, it is the only order-preserving
  subsequence holding exactly the satisfying elements (`FilterUnique`).
- `Storage` (storage.dfy): the record construction, the search and filter
  callbacks, and their closed forms (`MatchesQuery`, `SatisfiesFilters`).
  It also holds the seed data and the class `MemStorage`. The class keeps
  the `Map` as a Dafny `map` plus the insertion order of its keys (`order`),
  because `Map.prototype.values()` yields values in insertion order.
  `Valid()` states that the keys are listed once, in increasing order, that
  all lie below `currentId`, and that each record is stored under its own id.

The class methods and functions are proved against these specifications.
`CreateScreenshot` appends exactly one record, and that record has the old
counter as its id. `GetAllScreenshots` lists every record once, in increasing
id order, which is also insertion order. `SearchScreenshots` and
`FilterScreenshots` return the order-preserving sublist of all records whose
members are exactly those satisfying the closed-form predicate.

Three points where the store differs from what other parts of the
application expect:

- The `app` filter matches by substring (`includes`, server/storage.ts:94),
  while `genre` and `screenTask` match by equality (server/storage.ts:95-96).
  `SeedAppFilterIsSubstring` shows that the filter "Pro" keeps the record
  whose app is "Analytics Pro".
- There is no `tags` filter dimension: the store's filter type has none
  (server/storage.ts:87-92), so `Filters` has none either, although the
  home page keeps a `tags` filter (client/src/pages/home.tsx:17).
- `updateScreenshot` and `deleteScreenshot` are called by the routes
  (server/routes.ts:157, server/routes.ts:184) but not defined in
  server/storage.ts, so the model has no update or delete. Because nothing
  is ever deleted, the model's ids are never reused.

## Model

| member | source | states |
|---|---|---|
| `Text.Lower` | server/storage.ts:76-83 | Lower-casing keeps the length and maps each character through `LowerChar`, which changes only A-Z. |
| `Text.Includes` | server/storage.ts:79-83 | `includes` returns true exactly when the query occurs at some position of the string (`Substring`). |
| `Text.LowerIdempotent` | server/storage.ts:76 | Lower-casing an already lower-cased string changes nothing. |
| `Text.EmptyIsSubstring` | server/storage.ts:79 | The empty query is contained in every string, so an empty search matches every record. |
| `Text.LowerKeepsOccurrence` | server/storage.ts:79-83 | Where the query occurs in a field, the lower-cased query occurs at the same position in the lower-cased field. |
| `Text.MissingChar` | server/storage.ts:79-83 | A string that lacks one of the query's characters does not contain the query. |
| `Seqs.Filter` | server/storage.ts:77-84 | `filter` returns an order-preserving subsequence. An element is kept iff the predicate holds, and a kept value appears as many times as in the input. The result is the whole input iff every element passes, and empty iff none does. |
| `Seqs.SubsequenceMembers` | server/storage.ts:77-84 | Every element of a filtered subsequence is an element of the original list. |
| `Seqs.FilterUnique` | server/storage.ts:93-104 | Over a list without repetitions, the order-preserving subsequence holding exactly the satisfying elements is the `filter` result. |
| `Storage.NewRecord` | server/storage.ts:65-70 | The created record has the given id and timestamp and all input fields. Its description is null iff the input description is missing, null or empty; otherwise it is the input's. |
| `Storage.SubsequenceKeepsIdsIncreasing` | server/storage.ts:77-84 | A sublist of a list sorted by id is sorted by id, so query results keep the store's id (insertion) order. |
| `Storage.IdsIncreasingDistinct` | server/storage.ts:64 | A list whose ids strictly increase holds no record twice. |
| `Storage.SearchHitMeans` | server/storage.ts:78-83 | The search callback holds iff the lower-cased query is a substring of the lower-cased title, the non-null description, the app, some tag or some AI tag. |
| `Storage.SearchHitMeansAll` | server/storage.ts:78-83 | The same equivalence, for every record at once. |
| `Storage.EmptyQueryHitsAll` | server/storage.ts:75-85 | With the empty query, the search callback holds for every record. |
| `Storage.Search` | server/storage.ts:75-85 | The search returns an order-preserving sublist of the records. A record is in it iff it matches the query in closed form, as many times as in the input. The empty query returns every record. |
| `Storage.SearchIgnoresQueryCase` | server/storage.ts:76 | A query and its lower-cased form give the same search result. |
| `Storage.SearchUnique` | server/storage.ts:75-85 | Over records sorted by id, the search result is the only order-preserving sublist holding exactly the matching records. |
| `Storage.KeepForFilters` | server/storage.ts:93-104 | The filter callback with its early returns keeps a record iff each given, non-empty dimension holds: app by substring, genre and screen task by equality, every requested UI element present. |
| `Storage.FilterBy` | server/storage.ts:93-104 | The filter returns an order-preserving sublist. A record is in it iff it satisfies the filters in closed form, as many times as in the input. Filters with no set dimension return every record. |
| `Storage.FilterByUnique` | server/storage.ts:93-104 | Over records sorted by id, the filter result is the only order-preserving sublist holding exactly the satisfying records. |
| `Storage.FilterByNarrows` | server/storage.ts:93-104 | The dimensions are ANDed: setting more dimensions keeps only records that the filter with fewer set dimensions also keeps. |
| `Storage.SeededAt` | server/storage.ts:25-52 | The i-th seeded record is the i-th sample stamped with id i + 1. |
| `Storage.SeedFilterNeedsEveryUiElement` | server/storage.ts:98-102 | On the seeded store, filtering by UI elements Card and Navigation keeps only the dashboard record, not the feed that has only Card. |
| `Storage.SeedAppFilterIsSubstring` | server/storage.ts:94 | On the seeded store, the app filter "Pro" keeps exactly the "Analytics Pro" record although the two strings differ. |
| `Storage.DashInDashboardTitle` | server/storage.ts:79 | "dash" is contained in the lower-cased title "Minimalist Dashboard". |
| `Storage.SeedSearchDash` | server/storage.ts:75-85 | On the seeded store, searching "dash" finds the "Minimalist Dashboard" record. |
| `Storage.ConsistentValues` | server/storage.ts:55-57 | In a consistent state the values in key order list every stored record once, in strictly increasing id order. |
| `Storage.ConsistentAfterCreate` | server/storage.ts:63-73 | Storing a record under the counter's id keeps the state consistent. The id was free, the map grows by one, and the record is appended to the values. |
| `Storage.MemStorage.constructor` | server/storage.ts:20-53 | A new store holds exactly the two samples, with ids 1 and 2 in that order, and `currentId` is 3. |
| `Storage.MemStorage.GetAllScreenshots` | server/storage.ts:55-57 | Returns every stored record exactly once, each under its own id, in increasing id (insertion) order. |
| `Storage.MemStorage.GetScreenshot` | server/storage.ts:59-61 | Returns `None` iff no stored record has that id; otherwise the stored record with that id. It reads the state and changes nothing. |
| `Storage.MemStorage.CreateScreenshot` | server/storage.ts:63-73 | Returns the input stamped with the old counter as id. The counter rises by 1, and the new id exceeds every earlier id. The map gains exactly that entry, the list gains it at the end, lookup of the new id returns it, and every other id's lookup is unchanged. |
| `Storage.MemStorage.SearchScreenshots` | server/storage.ts:75-85 | Returns, in store order, exactly the records matching the query case-insensitively. The empty query returns every record. |
| `Storage.MemStorage.FilterScreenshots` | server/storage.ts:87-105 | Returns, in store order, exactly the records satisfying the filters. Filters with no set dimension return every record. |

## Left out

- `Text.Lower`: only ASCII letters are lower-cased. JavaScript's `toLowerCase` also maps non-ASCII letters by Unicode rules, and the model does not capture that.
- The timestamp `new Date()` is a parameter `now` of `CreateScreenshot` and of the constructor. The constructor stamps both samples with the same `now`, while the source reads the clock once per sample.
- `Storage.SeedSearchDash`: states only that the dashboard record is found, not that the feed record is absent from the result.
- The asynchronous `Promise` wrappers are left out; every operation is synchronous.
- Ids are unbounded integers. JavaScript numbers lose precision above 2^53, which is not modelled.
- `updateScreenshot`, `deleteScreenshot` and a `tags` filter: called or sent by other parts of the application, but not defined by this store.
- The HTTP routes, file upload handling, comma-splitting of list parameters, AI tag generation, the server start-up and the user interface are not part of this model. They are I/O or glue around the store.
