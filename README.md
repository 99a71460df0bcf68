# Monuments catalogue: a verified model of the service and the map filter

The catalogue stores monuments (a name, an optional description, a latitude
and a longitude) and the photos each monument owns. This project models two
parts of it in Dafny:

- **The monuments service.** It has four operations over two tables:
  - `findAll(page, limit)` lists one page of the monument table in
    ascending id order, with each monument's photos attached.
  - `create` inserts a monument and, optionally, one photo per supplied url.
  - `update` overwrites the scalar fields that are supplied. When a photo
    list is supplied, even an empty one, it deletes all the monument's photos
    and inserts the new list.
  - `remove` deletes the monument's photos by hand, then the monument.

  The store behind it is a class `Monuments.MonumentsService` with four
  fields: a map from id to monument row, a sequence of photo rows (each
  carrying its `monumentId`), and the two id counters the store hands out.
  Every store call the service makes is a small method with plain table
  semantics:
  - `UpdateRow` is `monument.update`. It fails with `RecordNotFound` on a
    missing id.
  - `DeleteManyPhotos` is `photo.deleteMany` and `CreateManyPhotos` is
    `photo.createMany`.
  - `FindUnique` is `monument.findUnique`.
  - `DeleteRow` is `monument.delete`. It fails with `RecordNotFound` on a
    missing id.

  The service's operations call these in the source's order. The class
  invariant `Valid` says four things: monuments are filed under their own
  ids; ids are below the next id to hand out; every photo belongs to an
  existing monument; and photo ids increase.
- **The map page's text filter.** A monument is shown when its lowercased
  name or lowercased description contains the lowercased filter text. A
  missing name or description counts as the empty string. This is the pure
  function `MonumentFilter.Filtered` over a sequence, with lemmas.

Files: `wrappers.dfy` (Option, Result), `tables.dfy` (row types and the pure
table operations: photos of a monument, delete and insert photos, id order,
skip/take), `monuments_service.dfy` (the service class), `monument_filter.dfy`
(the filter).

Three behaviours of the code that are easy to miss:

- The service does no validation, so `Create` never fails, even for an
  empty name.
- `update` and `remove` on a missing id fail with `RecordNotFound`, because
  the store calls at monuments.service.ts:53 and :92 throw. `Update` fails
  at the scalar update, before any photo row changes. `Remove` first deletes
  the photos of the id, which removes nothing (by the invariant no photo
  references a missing id), and then fails.
- `photos: []` counts as present, because an empty array is truthy. In
  `update` it leaves the monument with no photos. In `create`, absent and
  empty both insert no photos.

## Model

| member | source | states |
|---|---|---|
| `Monuments.MonumentsService.FindAll` | pomniki/backend/src/monuments/monuments.service.ts:8-15 | returns at most `limit` monuments. They are exactly the ids at positions `(page-1)*limit` onwards of the ascending table order, each the stored row with exactly its own photos. Ids strictly ascend. The result is empty when the offset is past the table's size. Nothing changes |
| `Monuments.MonumentsService.TableOrder` | pomniki/backend/src/monuments/monuments.service.ts:13 | the table's ids in strictly ascending order: every id exactly once, nothing else |
| `Monuments.MonumentsService.Attached` | pomniki/backend/src/monuments/monuments.service.ts:12 | a monument with photos attached: its own row, and exactly the photo rows whose `monumentId` is its id |
| `Monuments.MonumentsService.Create` | pomniki/backend/src/monuments/monuments.service.ts:18-39 | adds exactly one monument under the next id of the counter, an id never handed out before, with the given name, description, latitude and longitude. Its photos carry the supplied urls verbatim and in order, none when `photos` is absent. The photo table only grows by those rows, and every other monument keeps its row and its photos. Keeps `Valid` |
| `Monuments.MonumentsService.Update` | pomniki/backend/src/monuments/monuments.service.ts:43-83 | on a missing id, fails with `RecordNotFound` and changes nothing, counters included. Otherwise overwrites only the supplied scalar fields. With a photo list, the monument's photo urls become exactly that list, and no old photo row survives. Without one, the photo table and the photo id counter are unchanged. Other monuments keep their photos. Returns the re-read monument. Keeps `Valid` |
| `Monuments.MonumentsService.Remove` | pomniki/backend/src/monuments/monuments.service.ts:87-95 | deletes every photo of `id`, then returns the deleted row and removes it. On a missing id, removes no photo and fails with `RecordNotFound`. Every other monument keeps its row and its photos. Keeps `Valid` |
| `Monuments.MonumentsService.UpdateRow` | pomniki/backend/src/monuments/monuments.service.ts:53-62 | the scalar update: replaces only row `id` with the updated row, leaves photos alone, and fails without change on a missing id |
| `Monuments.MonumentsService.DeleteManyPhotos` | pomniki/backend/src/monuments/monuments.service.ts:65-67 | the photo table loses exactly the rows owned by `owner`. Keeps `Valid` |
| `Monuments.MonumentsService.CreateManyPhotos` | pomniki/backend/src/monuments/monuments.service.ts:69-74 | appends one row per url, owned by `owner`, with fresh increasing ids. Keeps `Valid` |
| `Monuments.MonumentsService.FindUnique` | pomniki/backend/src/monuments/monuments.service.ts:76-79 | the monument with its photos when the id exists, `None` (null) otherwise |
| `Monuments.MonumentsService.DeleteRow` | pomniki/backend/src/monuments/monuments.service.ts:92-94 | removes exactly row `id` and returns it; fails without change on a missing id |
| `Tables.ApplyUpdate` | pomniki/backend/src/monuments/monuments.service.ts:53-62 | the id is kept. Each scalar field given in the update replaces the stored one, and each absent field keeps the old value |
| `Tables.EmptyUpdateKeepsRow` | pomniki/backend/src/monuments/monuments.service.ts:55-60 | an update without scalar fields leaves the row unchanged |
| `Tables.ApplyUpdateIdempotent` | pomniki/backend/src/monuments/monuments.service.ts:55-60 | applying the same update twice equals applying it once |
| `Tables.PhotosOf` | pomniki/backend/src/monuments/monuments.service.ts:12 | selects exactly the photos whose `monumentId` is the owner |
| `Tables.WithoutPhotosOf` | pomniki/backend/src/monuments/monuments.service.ts:65-67 | keeps exactly the photos whose `monumentId` is not the owner |
| `Tables.NewPhotos` | pomniki/backend/src/monuments/monuments.service.ts:69-74 | the inserted rows carry the supplied urls in order, all owned by the monument, with increasing ids in the given range |
| `Tables.PhotosOfNew` | pomniki/backend/src/monuments/monuments.service.ts:69-74 | inserted rows belong to their owner and to no other monument |
| `Tables.PhotosOfWithout` | pomniki/backend/src/monuments/monuments.service.ts:88-90 | after the photo deletion the monument has no photos, and every other monument has exactly the photos it had |
| `Tables.WithoutAbsentOwner` | pomniki/backend/src/monuments/monuments.service.ts:88-90 | deleting the photos of a monument that owns none changes nothing |
| `Tables.ReplacePhotosOfOwner` | pomniki/backend/src/monuments/monuments.service.ts:64-79 | after delete-then-insert, the monument's photos are exactly the new rows, with urls equal to the supplied list. No earlier row survives |
| `Tables.ReplacePhotosOfOthers` | pomniki/backend/src/monuments/monuments.service.ts:65-74 | photo replacement leaves every other monument with exactly its photos |
| `Tables.AddPhotosOfOwner` | pomniki/backend/src/monuments/monuments.service.ts:31-35 | a new monument's photos are exactly the inserted rows, with the supplied urls |
| `Tables.AddPhotosOfOthers` | pomniki/backend/src/monuments/monuments.service.ts:31-35 | inserting a new monument's photos leaves every other monument's photos unchanged |
| `Tables.WithoutKeepsNumbering` | pomniki/backend/src/monuments/monuments.service.ts:65-67 | deleting photo rows keeps photo ids increasing and below the next id |
| `Tables.AppendKeepsNumbering` | pomniki/backend/src/monuments/monuments.service.ts:69-74 | appending rows numbered from the next id keeps photo ids increasing, and the next id moves past them |
| `Tables.IdsBelow` | pomniki/backend/src/monuments/monuments.service.ts:13 | ascending id order: strictly increasing, and containing exactly the keys of the range |
| `Tables.IdsBelowCount` | pomniki/backend/src/monuments/monuments.service.ts:13 | the ordered ids list each key of the range exactly once, so their number equals the number of keys |
| `Tables.KeysBelowStep` | pomniki/backend/src/monuments/monuments.service.ts:13 | widening the range by one id adds one key exactly when that id is a key |
| `Tables.Slice` | pomniki/backend/src/monuments/monuments.service.ts:10-11 | `skip`/`take`: at most `take` rows, namely the rows starting at position `skip`, with length `min(take, size - skip)`, and empty when `skip` is past the end |
| `Tables.PageStart` | pomniki/backend/src/monuments/monuments.service.ts:10 | the offset `(page - 1) * limit`: zero exactly for the first page, and at least a full page for every later one |
| `Tables.SliceAscending` | pomniki/backend/src/monuments/monuments.service.ts:10-13 | a page of the ascending id order is itself strictly ascending |
| `Tables.PagesDisjoint` | pomniki/backend/src/monuments/monuments.service.ts:8-15 | two different pages of the same table share no monument |
| `Tables.DifferentPagesDifferentOffsets` | pomniki/backend/src/monuments/monuments.service.ts:10 | positions on different pages differ |
| `Tables.RowOnItsPage` | pomniki/backend/src/monuments/monuments.service.ts:8-15 | every row appears on page `i / limit + 1`, at entry `i % limit`, so paging through the table misses no row |
| `MonumentFilter.Filtered` | pomniki/frontend/src/App.tsx:87-93 | keeps only monuments of the list that match (soundness), and every monument of the list that matches (completeness). It is never longer than the list |
| `MonumentFilter.Matches` | pomniki/frontend/src/App.tsx:88-92 | the filter callback: the empty filter matches every monument, and a filter text longer than both the lowercased name and the lowercased description matches none |
| `MonumentFilter.Includes` | pomniki/frontend/src/App.tsx:92 | JavaScript `includes`: the empty needle is included in every string |
| `MonumentFilter.IncludesNeedsRoom` | pomniki/frontend/src/App.tsx:92 | a needle longer than the haystack is never included |
| `MonumentFilter.ToLower` | pomniki/frontend/src/App.tsx:88-90 | `toLowerCase`: same length, each character mapped by the lowercase mapping, which leaves no uppercase letter |
| `MonumentFilter.FilteredMultiset` | pomniki/frontend/src/App.tsx:87-93 | each matching monument appears in the result exactly as often as in the list, and a non-matching one not at all |
| `MonumentFilter.FilteredKeepsExactlyOccurrences` | pomniki/frontend/src/App.tsx:87-93 | a monument of the list is kept exactly when the lowercased filter text occurs, as a substring, in its lowercased name or lowercased description |
| `MonumentFilter.IncludesIffOccurs` | pomniki/frontend/src/App.tsx:92 | `includes` is true exactly when the needle occurs at some position |
| `MonumentFilter.FilteredIsSubsequence` | pomniki/frontend/src/App.tsx:87 | the filtered list is a subsequence of the list: order kept, nothing added or repeated |
| `MonumentFilter.EmptyFilterKeepsAll` | pomniki/frontend/src/App.tsx:88-92 | an empty filter keeps every monument, in order |
| `MonumentFilter.FilterSeesOnlyLowercase` | pomniki/frontend/src/App.tsx:88 | two filter texts with the same lowercase form give the same result |
| `MonumentFilter.FilterIgnoresCase` | pomniki/frontend/src/App.tsx:88 | lowercasing or uppercasing the filter text does not change the result |
| `MonumentFilter.MissingFieldsMatchAsEmpty` | pomniki/frontend/src/App.tsx:89-90 | without a description, a monument matches exactly when its name matches. With neither field, it matches only the empty filter |
| `MonumentFilter.LowerOrEmpty` | pomniki/frontend/src/App.tsx:89-90 | a missing field is the empty string, and a present one is lowercased |
| `MonumentFilter.ToLowerIdempotent` | pomniki/frontend/src/App.tsx:88 | lowercasing twice is lowercasing once |
| `MonumentFilter.ToLowerOfToUpper` | pomniki/frontend/src/App.tsx:88 | uppercasing before lowercasing makes no difference |
| `MonumentFilter.FilteredCount` | pomniki/frontend/src/App.tsx:100 | the filtered count is at most the total, and equals it exactly when every monument matches |

## Left out

- The HTTP controller, the application module wiring and the bootstrap are
  not part of this model. This covers routing, the `+id` conversion, and
  CORS. The controller's `findAll()` passes no page or limit. The model's
  `FindAll` instead takes explicit `page >= 1` and `limit >= 1`. How the
  store treats a negative or non-numeric `skip` is not visible in the
  service, so it is not modelled.
- The store's internals (query building, SQL, autoincrement) are replaced by
  table semantics and two id counters.
- Photo order inside `include: { photos: true }`: the store does not promise
  one. The model returns photos in table (insertion) order.
- Asynchrony and interleaving: each service call is one sequential step.
  Two consequences are not modelled. First, `update`'s delete-then-insert is
  not atomic. Second, a concurrent update of the same monument could mix
  photo sets, or a crash could leave it without photos.
- Store failures other than a missing id (connection loss, constraint
  errors) are not modelled. `Create` and `CreateManyPhotos` always succeed.
- Latitude and longitude are opaque integers, since the service only stores
  them. Number formatting in the popup is left out, and so is the
  dashboard's parsing of coordinates.
- `MonumentFilter.ToLower`: covers ASCII letters only. JavaScript's
  `toLowerCase` applies full Unicode case mapping.
- `MonumentFilter.ToLowerOfToUpper`: holds only for the ASCII case mapping.
  Under JavaScript's Unicode mapping, uppercasing can change a string's
  lowercase form: `"ß"` uppercases to `"SS"`.
- `MonumentFilter.FilterIgnoresCase`: the half about uppercasing the filter
  text holds only for the ASCII case mapping. In JavaScript, the filter
  `"ß"` matches "Straße" but its uppercased form `"SS"` does not. The half
  about lowercasing does hold in JavaScript.
- The whole user interface is left out: map markers, icons, the fetch of
  the monument list, and the dashboard's form state and pagination buttons.
  The dashboard is not part of this model.
