# Product service: a Dafny model of the in-memory product store

The service is a small Express application with five HTTP handlers over one
process-wide array of `{id, name}` product records: list all products, get one
by id, create one, rename one, delete one. This project models that array as an
immutable `seq<Product>`. Each handler is a pure function from the current
collection and the request's inputs to an `Outcome`. An `Outcome` holds the
next collection and the single `Response` the handler sends, which is a status
code plus a body (`{products}`, `{product}`, `{product, status}`, `{message}`
or an empty 204 body).

- `product_store.dfy` (module `ProductStore`) holds the record, the collection
  and the two lookups the handlers use. `Find` mirrors `Array.prototype.find`
  and `FindIndex` mirrors `Array.prototype.findIndex` with its `-1` sentinel.
  Both compare ids by exact string equality and both are first-match.
- `handlers.dfy` (module `Handlers`) holds the five handlers, with their
  status codes and messages, and the lemmas that relate several handler calls.
- `session.dfy` (module `Session`) routes a `Request` to its handler
  (`Handle`) and folds a sequence of requests over the collection (`Run`).
  Node runs each handler to completion before starting the next, so a run is
  a sequence of atomic steps. Invariants of the collection are proved over
  whole runs.

The service generates a create's id from the clock (`Date.now().toString()`).
Here that id is an input of the create request. Ids are never assumed to be
unique. Because every lookup is first-match, a record whose id collides with an
earlier one is shadowed (`GetAfterCreateShadowed`). In any collection where at
least two records share an id, a repeated delete answers 204 and removes the
next record with that id instead of answering 404
(`RepeatDeleteWithDuplicateId`). Nothing in the service keeps ids unique: two
creates in the same millisecond get the same `Date.now()` id. The properties
that need uniqueness say so in their preconditions.

## Model

| member | source | states |
|---|---|---|
| `ProductStore.FindIndex` | index.js:73-76 | gives the position of the first record whose id equals the given one, or -1 exactly when no record has that id |
| `ProductStore.Find` | index.js:27 | gives nothing exactly when no record has the id, and otherwise the record at the first matching position |
| `ProductStore.FindAgreesWithFindIndex` | index.js:27 | the record `find` returns is the one at the position `findIndex` reports, so get, update and delete all address the same record |
| `Handlers.ListProducts` | index.js:15-20 | answers 200 with the whole collection in insertion order and leaves the collection unchanged |
| `Handlers.GetProduct` | index.js:23-41 | answers 200 exactly when some record has the id, with the first such record; otherwise answers 404 "The product could not be found"; never changes the collection |
| `Handlers.CreateProduct` | index.js:44-66 | an absent or empty name gives 400 "The name is required." and no change; otherwise the collection grows by one, earlier records are untouched, `{id, name}` is last, and the answer is 201 with that record |
| `Handlers.UpdateProduct` | index.js:69-100 | keeps the length; an unknown id gives 404 "The product you want to update could not be found" and no change; otherwise only the first matching record changes, its id is kept, its name is replaced only by a non-empty given name, and the answer is 200 with that record and status "success" |
| `Handlers.DeleteProduct` | index.js:103-121 | an unknown id gives 404 "The product you want to delete could not be found" and no change; otherwise the first matching record is cut out, the others keep their order, the length drops by one, and the answer is 204 with no body |
| `Handlers.GetAfterCreate` | index.js:27-60 | after a create under an id no earlier record carries, get on that id answers 200 with the new record |
| `Handlers.GetAfterCreateShadowed` | index.js:27-60 | after a create under an id an earlier record already carries, get answers with the earlier record |
| `Handlers.GetAfterUpdate` | index.js:73-99 | after a successful update, get on the same id answers 200 with exactly the record the update returned |
| `Handlers.UpdateWithoutNameKeepsStore` | index.js:83-93 | an update without a non-empty name leaves the collection equal to what it was |
| `Handlers.UpdateIdempotent` | index.js:73-93 | sending the same update a second time does not change the collection further |
| `Handlers.DeleteRemovesOne` | index.js:107-117 | a successful delete lowers the number of records with that id by one, and the collection loses exactly the first matching record as a multiset |
| `Handlers.RepeatDeleteNotFound` | index.js:107-114 | when at most one record had the id, repeating a successful delete answers 404 and changes nothing |
| `Handlers.RepeatDeleteWithDuplicateId` | index.js:107-117 | in any collection where at least two records share the id, repeating a successful delete answers 204 again and removes one more record with that id |
| `Handlers.RepeatDeleteUnderUniqueIds` | index.js:107-114 | in a collection without repeated ids, repeating a successful delete answers 404 and changes nothing |
| `Handlers.GetAfterDelete` | index.js:103-121 | after deleting the only record with an id, get on that id answers 404 |
| `Handlers.CreatePreservesUniqueIds` | index.js:48-60 | a create keeps all ids distinct when its generated id is fresh or its name is refused |
| `Handlers.UpdatePreservesUniqueIds` | index.js:83-93 | an update keeps all ids distinct |
| `Handlers.DeletePreservesUniqueIds` | index.js:117 | a delete keeps all ids distinct |
| `Session.Handle` | index.js:15-121 | every request gets one of the status codes 200, 201, 204, 400, 404; a 400 or 404 answer and every list or get leave the collection unchanged |
| `Session.Run` | index.js:12-121 | a run of requests yields exactly one response per request |
| `Session.RunRespondsWithKnownStatus` | index.js:17-120 | every response of a run carries one of the five status codes |
| `Session.RunOfRefusalsKeepsStore` | index.js:29-114 | a run whose requests were all refused with 400 or 404 leaves the collection unchanged |
| `Session.HandlePreservesNamesPresent` | index.js:48-90 | no request can store a record with an empty name |
| `Session.RunPreservesNamesPresent` | index.js:48-90 | starting from a collection whose names are non-empty, any run keeps every name non-empty |
| `Session.HandlePreservesUniqueIds` | index.js:48-117 | only an accepted create whose generated id is already taken can make two records share an id |
| `Session.HandleIntroducesOnlyGeneratedId` | index.js:48-117 | an id present after a request was present before it, or is the id generated by that request's create with a non-empty name |
| `Session.RunPreservesUniqueIds` | index.js:48-60 | if the clock never repeats a reading for the creates that get past the name check, ids stay unique through the whole run |
| `Session.CreatesAppendInOrder` | index.js:55-60 | a run of creates with non-empty names appends exactly their records, in creation order |
| `Session.CreatesAnswerCreated` | index.js:63-65 | each create of such a run answers 201 with its own record |
| `Session.ListAfterCreates` | index.js:15-65 | after such a run of creates, list answers 200 with the earlier records followed by the created ones, in creation order |
| `Session.RunAppendStore` | index.js:12 | running two batches back to back leaves the collection that running their concatenation leaves |
| `Session.RunAppendResponses` | index.js:12 | the responses of a concatenated run are those of the first batch followed by those of the second |
| `Session.WalkthroughCreateAndRename` | index.js:44-100 | two creates, a list and a rename give 201, 201, 200 with both records, and 200 with the renamed record |
| `Session.WalkthroughDeleteAndLookup` | index.js:23-121 | then deleting the second record, listing and looking it up give 204, 200 with the renamed record only, and 404 |
| `Session.ExampleWalkthrough` | index.js:15-121 | the whole seven-request walk-through, from an empty collection, gives exactly that sequence of responses |

## Left out

- Express setup, the JSON body-parsing middleware, `app.listen` and its console message (index.js:1-9, 123-125). These are framework and I/O plumbing. The model starts where a handler has its parsed `id` and `name`.
- The clock read `Date.now()` (index.js:56). The generated id is an input of each create request.
- JavaScript truthiness of non-string `name` values such as numbers, objects or `false`. `name` is an optional string, and "falsy" means absent or `""`.
- Object identity and aliasing of the copy-then-replace update (index.js:83, 93). Records are immutable values here, so only the value-level effect is modelled.
- Concurrency. Node runs each handler to completion, so each handler is one atomic step.
- Serialising the response body to JSON and the HTTP framing of the status line.
