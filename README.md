# Localizacao reservation model

A Dafny model of the `LocalizacaoResource` REST controller of the bikepark
application. The controller manages parking spots ("localizações"). Each spot
has an address pair (`endereco`, `numero`), a total number of slots
(`qtdTotais`) and a number of reserved slots (`qtdReservada`). The controller
keeps two tables: a primary store and a search index that mirrors it.

- `wrappers.dfy`: `Option` and `Result`.
- `locations.dfy` (module `Locations`): the `Location` record, the errors,
  the +1 and -1 counter adjustments (`Reserved`, `Released`) and the
  availability filter `Available` with its lemmas.
- `localizacao_resource.dfy` (module `Resource`): the class
  `LocalizacaoResource`. It has three fields: `store` (id to record),
  `order` (the order in which the store's `findAll` yields its records) and
  `index` (id to record). The repository calls `save`, `findAll`,
  `findById`, `deleteById` and `findByEnderecoAndNumero` are small members
  on these fields. Each endpoint is a method that writes to the store first
  and then to the index.

`Valid()` is the store's consistency: `order` lists each stored id exactly
once, and every record is stored under its own id. Every method preserves it.
`Mirrored()` (index equals store) is kept by every endpoint that starts from a
mirrored state. The single-table repository calls `StoreSave` and `IndexSave`
do not keep it on their own.

Where the code and its documentation disagree, the model follows the code:

- `createLocalizacao` is documented to return 400 for a request that already
  has an id. The code does not check this. The model saves such a request
  under its own id, like the repository's `save` does.
- The delete endpoint reports no not-found error. Deleting an absent id
  changes nothing.
- `updateLocalizacao` does not check that the id is already stored. An
  unknown non-null id inserts a new record.

## Model

| member | source | states |
|---|---|---|
| `Locations.HasSpareCapacity` | LocalizacaoResource.java:138 | The availability test: strictly more total slots than reserved ones |
| `Locations.AtAddress` | LocalizacaoResource.java:108 | The composite key of the cancellation lookup: equal `endereco` and equal `numero` |
| `Locations.Reserved` | LocalizacaoResource.java:93-94 | The record with its reserved count raised by one, with no bound |
| `Locations.Released` | LocalizacaoResource.java:113-114 | The record with its reserved count lowered by one, with no floor |
| `Locations.ReserveReleaseRoundTrip` | LocalizacaoResource.java:93-94 | Reserved and Released are inverses on one record, and both change no field other than the reserved count |
| `Locations.ReserveCanOverbook` | LocalizacaoResource.java:93-94 | Reserving a record with no spare slot takes its reserved count past its capacity |
| `Locations.ReleaseHasNoFloor` | LocalizacaoResource.java:113-114 | Releasing a record with nothing reserved makes its count negative |
| `Locations.Available` | LocalizacaoResource.java:137-141 | The filter loop keeps, in input order, the records with spare capacity; everything it returns comes from the input and has a free slot, and it is never longer than the input |
| `Locations.AvailableMembership` | LocalizacaoResource.java:134-143 | A record is in the filtered list exactly when it is in the input and has more total slots than reserved ones (both directions) |
| `Locations.AvailableAppend` | LocalizacaoResource.java:137-141 | The filter processes the list piece by piece, so the kept records stay in input order |
| `Locations.StrictCapacityBoundary` | LocalizacaoResource.java:138 | The comparison is strict: a fully booked record is excluded and one with a free slot is included |
| `Resource.Without` | LocalizacaoResource.java:171 | Removing an id from the retrieval order keeps exactly the other ids, still without duplicates |
| `Resource.LocalizacaoResource.constructor` | LocalizacaoResource.java:52-55 | A controller starts over an empty, consistent, mirrored store and index |
| `Resource.LocalizacaoResource.FindAll` | LocalizacaoResource.java:134 | findAll yields one record per stored id, in store order, and contains exactly the stored records |
| `Resource.LocalizacaoResource.FindById` | LocalizacaoResource.java:156 | findById finds a record exactly when the id is stored, and returns the record stored under it |
| `Resource.LocalizacaoResource.FindByEnderecoAndNumero` | LocalizacaoResource.java:108 | Returns none exactly when no stored record has the address pair, otherwise one stored record at that pair. Which one is left open |
| `Resource.LocalizacaoResource.StoreSave` | LocalizacaoResource.java:96 | save on the store upserts the record under its id and appends a new id to the retrieval order |
| `Resource.LocalizacaoResource.IndexSave` | LocalizacaoResource.java:97 | save on the index upserts the record under its id |
| `Resource.LocalizacaoResource.StoreDeleteById` | LocalizacaoResource.java:171 | deleteById on the store removes the id from the store and from the retrieval order |
| `Resource.LocalizacaoResource.IndexDeleteById` | LocalizacaoResource.java:172 | deleteById on the index removes the id from the index |
| `Resource.LocalizacaoResource.Create` | LocalizacaoResource.java:66-74 | The request is saved under its own id, or under a fresh id when it has none. The same record goes to the store and the index, and nothing else changes |
| `Resource.LocalizacaoResource.Update` | LocalizacaoResource.java:87-101 | Fails with InvalidId and changes nothing exactly when the id is missing. Otherwise it writes the caller's record with reserved count + 1, whatever the capacity, to both tables under that id. Other records are unchanged, and the index entry equals the store entry |
| `Resource.LocalizacaoResource.Cancel` | LocalizacaoResource.java:105-122 | Fails with NotFound and changes nothing exactly when no stored record has the address pair. Otherwise it writes that stored record with reserved count - 1, with no floor, to both tables. Other records and the order are unchanged, and the index entry equals the store entry |
| `Resource.LocalizacaoResource.ListAvailable` | LocalizacaoResource.java:131-144 | The loop returns the filter of findAll. It holds exactly the stored records with qtdTotais > qtdReservada, in store order |
| `Resource.LocalizacaoResource.GetById` | LocalizacaoResource.java:154-158 | Returns the record stored under the id, or none exactly when the id is not stored |
| `Resource.LocalizacaoResource.Delete` | LocalizacaoResource.java:168-174 | Removes the id from the store, the order and the index, and changes no other id |
| `Resource.UpdateCanOverbook` | LocalizacaoResource.java:89-97 | An update of a record with no free slot succeeds, and the stored record then has more reservations than slots |
| `Resource.CancelHasNoFloor` | LocalizacaoResource.java:108-120 | A cancel at an address pair whose stored records all have nothing reserved succeeds, and stores a reserved count of -1 |
| `Resource.DeleteThenGet` | LocalizacaoResource.java:168-174 | A get after a delete of the same id finds nothing |
| `Resource.CreateThenGet` | LocalizacaoResource.java:66-74 | A get on the id a create assigned returns the created record, which equals the request apart from its id |

## Left out

- HTTP wiring: request mappings, `ResponseEntity`, the created URI, alert headers, `ResponseUtil.wrapOrNotFound` status codes, `@Timed` metrics and logging. The endpoints return the entity or an `Error` value instead.
- `searchLocalizacaos`: it passes the query text to the search engine's query-string query, whose matching rules are not part of this model.
- Id generation: the id the store assigns on create is the parameter `generated` of `Create`. The model only requires that it is not yet in the store.
- Repository implementations, including the derived query behind `findByEnderecoAndNumero`. When several records share an address pair, the model does not say which one is released.
- `@Valid` bean validation of the entity: its rules sit in a class that is not part of this model.
- Java `int` overflow on the +1 and -1 and null unboxing of the counter getters: counters are unbounded integers and never null.
- Null address fields: `endereco` and `numero` are plain strings and never null, so a lookup with a null part of the address pair is not modelled.
- StoreSave: the retrieval order of `findAll` is a rule of this model, not of the code. A new id goes to the end, a save over an existing id keeps its place, and the order stays the same between calls. The code only calls `findAll` and fixes no order. The store's natural order may differ, and it need not be stable across calls. So the order claims of `FindAll`, `ListAvailable`, `Create`, `Update` and `Cancel` hold for this model's order only.
- Storage failures and concurrency: the two writes of each endpoint happen in sequence and always succeed. Atomicity between store and index and races between requests are not modelled.
