# Todo backend model

A Dafny model of the backend of a minimal todo-list web application. The
server knows one fixed account (`Arshad` / `Arshad@7`) and keeps a
process-wide, ordered sequence of todo records `{ id, text }`, where the id is
the creation timestamp. Five request handlers serve it; four of them read
or rewrite the store, and login only checks the credential pair:

- `POST /api/login` compares both body fields with the stored pair and answers
  200 or 401 (`Backend.Login`);
- `GET /api/todos` sends the whole sequence (`Backend.TodoStore.List`);
- `POST /api/todos` appends `{ id: now, text }` and sends it back
  (`Backend.TodoStore.Create`);
- `PUT /api/todos/:id` rewrites the text of every record with that id
  (`Backend.TodoStore.Update`, through the pure `Backend.WithText`);
- `DELETE /api/todos/:id` keeps only the records with another id
  (`Backend.TodoStore.Delete`, through the pure `Backend.WithoutId`).

The store is a class whose `todos: seq<Todo>` field the handlers reassign;
the credential pair, which the server never changes, is two constants. Body
fields (`username`, `password`, `text`) are `Option<string>`: `None` is a
field that is absent. A missing `text` is stored as-is, both on create and on
update, as the server does. The clock (`Date.now()`) is the `now` parameter of
`Create`. Ids are not assumed unique: two records created in the same
millisecond share an id, and update and delete act on all of them.

The lemmas relate the handlers to each other: delete removes exactly the
matching records (length, multiset, order), and doing it twice is the same as
doing it once. Update leaves the store unchanged exactly when every matching
record already holds the new text, and the later of two updates wins. A
delete hides an earlier update of the same id. An update and a delete
commute, for any two ids. Create followed by update or delete of its timestamp
reaches the new record. `Backend.Session` replays one whole session: log in,
add "Buy milk", edit it to "Buy bread", delete it, and the list ends empty.

Ids are not unique, so update rewrites every record whose id matches, not
only the first (backend/index.js:40), and so does `WithText`.

## Model

| member | source | states |
|---|---|---|
| `Backend.Login` | backend/index.js:12-20 | status 200 exactly when the username and the password both equal the stored pair; otherwise exactly 401 with "Invalid credentials" |
| `Backend.LoginAcceptsOnePair` | backend/index.js:17 | any two successful logins carried the same username and the same password: only one pair is accepted |
| `Backend.LoginRefusesNearMisses` | backend/index.js:17-20 | a username differing only in case, a missing password, or a missing username gets 401 |
| `Backend.WithText` | backend/index.js:40 | same length; every id kept; every record with the given id gets the new text (none if the body had none); every other record is unchanged |
| `Backend.WithoutId` | backend/index.js:47 | no longer than the store; a record is in the result exactly when it was in the store and its id differs |
| `Backend.WithoutIdLength` | backend/index.js:47 | delete shortens the store by the number of records with the id |
| `Backend.WithoutIdMultiset` | backend/index.js:47 | each record with another id keeps its number of occurrences; records with the id occur zero times |
| `Backend.WithoutIdConcat` | backend/index.js:47 | delete distributes over concatenation, so the survivors keep their relative order |
| `Backend.WithoutIdUnchanged` | backend/index.js:47 | delete leaves the store identical exactly when no record has the id |
| `Backend.WithoutIdIdempotent` | backend/index.js:47 | deleting the same id twice gives the store one delete gives |
| `Backend.WithTextUnchanged` | backend/index.js:40-41 | update leaves the store identical exactly when every matching record already has the new text, in particular when no record matches |
| `Backend.WithTextLastWins` | backend/index.js:40 | two updates of the same id give the store the second update alone gives |
| `Backend.WithTextIdempotent` | backend/index.js:40 | updating twice with the same text gives the store one update gives |
| `Backend.WithTextConcat` | backend/index.js:40 | update distributes over concatenation of the store |
| `Backend.DeleteAfterUpdate` | backend/index.js:37-48 | deleting an id after updating it gives the store the delete alone gives |
| `Backend.UpdateDeleteCommute` | backend/index.js:37-48 | an update and a delete give the same store in either order, for any two ids |
| `Backend.CreateThenDelete` | backend/index.js:29-48 | a delete of the timestamp just used removes the created record along with older records with that id |
| `Backend.CreateThenUpdate` | backend/index.js:29-42 | an update of the timestamp just used rewrites the created record, which stays last |
| `Backend.TodoStore.constructor` | backend/index.js:11 | the store starts empty |
| `Backend.TodoStore.List` | backend/index.js:24-26 | replies 200 with the current store, in store order, and changes nothing |
| `Backend.TodoStore.Create` | backend/index.js:29-34 | appends `{ id: now, text }`: length grows by one, earlier records unchanged, the reply is the new last record |
| `Backend.TodoStore.Update` | backend/index.js:37-42 | the store becomes `WithText` of the old one; unchanged when no id matches; replies "Todo updated" in every case |
| `Backend.TodoStore.Delete` | backend/index.js:45-49 | the store becomes `WithoutId` of the old one; no record with the id remains; replies "Todo deleted" in every case |
| `Backend.Session` | backend/index.js:15-48 | login, create "Buy milk", update to "Buy bread", delete: the lists seen are the one record, the edited record, and empty |

## Left out

- Express set-up, the CORS origin, JSON body parsing, the port and `app.listen` (backend/index.js:1-9, 51-54): framework plumbing and I/O.
- The real clock: `Date.now()` is the `now` argument of `Create`.
- JavaScript loose equality between the route parameter (a string) and a numeric id: the model takes the route id as an already-parsed integer compared with `==`; a parameter that converts to no integer (and so matches nothing) is not modelled.
- Body fields that are present but not strings (numbers, objects): `Login` treats them as `None`, which matches `===` always failing, but `Create` and `Update` would store such values and the model stores only strings or nothing.
- Concurrency: handlers are atomic sequential steps; interleaving between requests is not modelled.
- The client (frontend/src/App.js): React view state, network calls, timers and rendering are not part of this model.
