# User record store

A model of the user microservice in `app.py`: an in-memory store that maps
integer ids to user records (id, name, email, created_at), an id counter
seeded at 4 after three built-in records, and the five record handlers that
act on them — list, get, create, update and delete — plus the `total_users`
figure of the health endpoint.

- `json.dfy` (module `Json`): the request body as the handlers see it —
  absent, or a JSON object of scalar values — and Python's truthiness test
  `not request.json`, which rejects both a missing body and `{}`.
- `user_db.dfy` (module `UserDb`): the store as a value (`Db`: the record
  map, the ids in insertion order, the counter), the response envelopes with
  their HTTP status (200, 201, 404, 400) and error strings, each handler as a
  function from the old store to the new store and the response, the store
  invariant, and what each handler guarantees.
- `history.dfy` (module `History`): runs of requests served one after
  another; the invariant holds throughout, the counter never goes down, the
  ids of successful creates strictly increase, and a deleted id is never
  handed out again.
- `store.dfy` (module `Store`): the store as the service holds it, a class
  whose create, update and delete methods change its fields in place, each
  proved to produce exactly the state and response of the matching `UserDb`
  function while keeping the invariant; and two client sessions against a
  freshly started store.

A Python dict iterates in insertion order, so the record map is paired with
the sequence of its keys in insertion order. A create appends its key, an
update leaves the key where it is, a delete removes it. Because ids come from
a counter that only grows, the invariant shows that this order is also
strictly ascending by id.

Where the design description and the code disagree, the model follows the
code:

- The description asks for non-empty `name` and `email`. The code checks only
  that both keys are present (app.py:102). It stores whatever value it gets,
  including `null` or `""`, and update never checks the values at all. The
  model does the same: field values are JSON values, not strings.
- The description requires the store to run under mutual exclusion. The code
  takes no lock. The model serves requests one after another and claims no
  atomicity.

## Model

| member | source | states |
|---|---|---|
| `UserDb.Seed` | app.py:23-28 | the start-up store holds ids 1, 2 and 3 in that order, the counter is 4, and the store invariant holds |
| `UserDb.Get` | app.py:72-87 | get answers 200 with the stored record exactly when the id is present and 404 NotFound otherwise; it never changes the store |
| `UserDb.ListInOrder` | app.py:61-69 | on a valid store the list has one entry per stored record, each entry is the record stored under its id, every record appears, and the ids are strictly ascending (insertion order) |
| `UserDb.SeedListing` | app.py:23-28 | on a fresh store the list has count 3 and ids 1, 2, 3 in order, and get(999) is NotFound |
| `UserDb.CountsAgree` | app.py:51-69 | the list's `count`, its number of records and health's `total_users` all equal the number of stored records |
| `UserDb.Without` | app.py:169 | dropping a key from the insertion order keeps exactly the other keys and keeps them in ascending order |
| `UserDb.CreateSucceeds` | app.py:101-124 | create succeeds iff the body is a non-empty object holding both `name` and `email`; the new record has the old counter as id, the payload's name and email and the stamped time; it goes under a fresh key at the end of the order, the counter grows by exactly 1, the store grows by one and nothing else changes; status 201 |
| `UserDb.CreateRejects` | app.py:95-106 | a missing or empty body gives "Request must be JSON"; otherwise a missing field gives "Missing required fields"; on every failure the store and the counter are unchanged |
| `UserDb.CreatePreservesValid` | app.py:109-118 | create keeps the invariant: ids below the counter, each record's id equals its key, insertion order ascending and equal to the key set |
| `UserDb.GetAfterCreate` | app.py:109-124 | a get right after a successful create returns the very record create returned |
| `UserDb.UpdateRejects` | app.py:130-141 | update answers NotFound for an absent id whatever the body (existence is checked first), otherwise NotJson for a missing or empty body, with no change; it succeeds iff the id is present and the body is a non-empty object |
| `UserDb.UpdateOverwritesPresentFields` | app.py:143-156 | a successful update overwrites exactly the fields present in the body; id and created_at are kept, absent fields keep their value, every other record, the order and the counter stay the same; status 200 |
| `UserDb.UpdateWithoutFieldsIsNoop` | app.py:143-156 | a non-empty body with neither field succeeds, returns the stored record and leaves the store identical |
| `UserDb.UpdatePreservesValid` | app.py:144-148 | update keeps the store invariant |
| `UserDb.DeleteRemoves` | app.py:162-176 | delete of a present id returns the removed record, removes exactly that key from the map and the order, a following get is NotFound, and the counter is untouched; an absent id gives NotFound with no change |
| `UserDb.DeletePreservesValid` | app.py:169 | delete keeps the store invariant |
| `History.StepPreservesValid` | app.py:72-176 | each of get, create, update and delete keeps the store invariant |
| `History.RunPreservesValid` | app.py:23-176 | any sequence of requests served from a valid store (such as the seed) leaves it valid |
| `History.StepCounter` | app.py:116-118 | only a successful create moves the counter, by exactly 1; get, update and delete never touch it |
| `History.CreatedIdsIncrease` | app.py:109-118 | over any run the counter never decreases, each successful create hands out an id between the starting and the final counter, and later creates get strictly larger ids |
| `History.DeletedIdNeverReissued` | app.py:109-169 | after an id is deleted no later create in any run hands it out again |
| `Store.UserStore.constructor` | app.py:23-28 | the store starts as the seed: three records and counter 4, invariant established |
| `Store.UserStore.CreateUser` | app.py:90-124 | the in-place create leaves the fields and gives the response that `UserDb.Create` prescribes, and keeps the invariant |
| `Store.UserStore.UpdateUser` | app.py:127-156 | the in-place update (field by field on the stored record) leaves the fields and gives the response that `UserDb.Update` prescribes, and keeps the invariant |
| `Store.UserStore.DeleteUser` | app.py:159-176 | the pop leaves the fields and gives the response that `UserDb.Delete` prescribes, and keeps the invariant |
| `Store.DanaSession` | app.py:90-176 | on a fresh store: create Dana gets id 4 with status 201; get 4 returns her; update of email changes only the email; delete returns the updated record; get 4 is then NotFound; the next create gets id 5, not 4 |
| `Store.MissingEmailSession` | app.py:101-106 | on a fresh store a create without `email` answers MissingFields with 400 and leaves 3 records and counter 4 |

## Left out

- The Flask application object, route decorators, `<int:user_id>` path parsing and `jsonify` serialisation: the handlers take the id and the parsed body directly. A path segment that is not an integer is the router's 404, not the store's.
- `home()` (app.py:31-48) and the 404/500 error handlers (app.py:179-195): constant responses wired up by the framework.
- Logging and the `PORT` environment variable / `app.run` (app.py:12-17, 198-201): I/O.
- `datetime.utcnow().isoformat()`: the clock is a string parameter (`clock`) of create and health, and the model appends the `"Z"` the code appends.
- Concurrency: Flask may serve requests on several threads and the code has no lock; the model serves requests one at a time.
- Request bodies that are JSON but not an object (a list, a number), a wrong content type, and field values that are floats, lists or nested objects: a body is absent or an object of scalar values (null, booleans, integers, strings).
- The success envelope of get carries no `message`; the model gives it the empty string.
