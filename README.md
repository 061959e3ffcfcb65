# Notes router model

A Dafny model of the request layer of the notes resource of a small notes-and-folders
REST backend (`src/Notes/notes-router.js`). It covers:

- `serializeNote`, which turns a row of the notes table into the response object with exactly
  the keys `id`, `note_name`, `content`, `folder_id`, `date_created`; only the two text columns
  go through the `xss` sanitiser;
- `GET /`, the listing of all notes, serialised;
- `POST /`, which scans `note_name`, `content`, `folder_id` in that order and answers
  400 `Missing '<key>' in request body` for the first one that is `== null` (null or undefined
  only). Otherwise it inserts the note and answers 201 with the serialised row and a Location
  header `<originalUrl>/<id>`;
- the `.all` guard on `/:note_id`, which answers 404 `note not found` before any GET, DELETE or
  PATCH handler runs;
- `GET /:note_id`, `DELETE /:note_id` (204) and `PATCH /:note_id`. PATCH counts how many of the
  three keys of `updatedNote` are truthy. It answers 400
  `Request must contain name, content, or folder_id` when none is. Otherwise it updates the
  note with the three-key object and answers 204.

Files and modules:

- `js_values.dfy` (`JsValues`): JSON values plus `undefined`; `== null` (`IsNullish`),
  `Boolean(v)` (`Truthy`), property reads and destructuring, and `filter(Boolean).length`.
- `decimal.dfy` (`Decimal`): the decimal text of an id in the Location header and how to read it back.
- `note_store.dfy` (`NoteStore`): the abstract notes table behind the notes service. It is a
  sequence of rows in insertion order plus the next id.
- `notes_router.dfy` (`NotesRouter`): the serialiser, the validation, and each handler's outcome
  as a function of the table. The class `Router` holds the table in fields and runs the handlers
  step by step: a `for` loop for the POST scan, then the service calls. `PostNote`, `NoteRoute`
  and `PatchNote` are proved to produce exactly the response and new table of `PostOutcome`,
  `NoteRouteOutcome` and `PatchOutcome`. The service stand-ins `GetNoteById`, `InsertNote`,
  `DeleteNote` and `UpdateNote` are tied to the table functions `Find`, `Insert`, `Remove` and
  `Update`. `ListNotes` is tied to `ListOutcome` and, element by element, to `SerializeAll`.
- `notes_router_props.dfy` (`NotesRouterProperties`): what clients can rely on, as lemmas over
  the outcomes.

Assumptions about the database layer are stated on the abstract table, not derived from the
router:

- the id sequence hands out an id larger than any in use (`Insert`, `TableValid`);
- an update leaves a column alone when the value given for it is `undefined`, and writes any other
  value, including null, `""` and `0` (`Overwrite`, `ApplyFields`). The partial-update
  behaviour of PATCH depends on this, because the router always passes all three keys.

Two facts about the code that the model keeps:

- the `.all` guard (`src/Notes/notes-router.js:51-64`) runs before GET, DELETE and PATCH alike;
- PATCH passes `undefined`, never null, for keys the client did not send (lines 77-78).

Inputs that the source takes from its environment are parameters:

- the sanitiser (`xss`, opaque);
- the creation timestamp the database assigns (`now`);
- the request's `originalUrl`.

## Model

| member | source | states |
|---|---|---|
| `JsValues.IsNullish` | src/Notes/notes-router.js:33 | definition of `value == null`: true for null and undefined only; its properties: `NotesRouter.FirstMissing`, `NotesRouterProperties.PostRejectsFirstMissing`, `NotesRouterProperties.PostInsertsPresentFields` |
| `JsValues.Truthy` | src/Notes/notes-router.js:79 | definition of `Boolean(v)`: false, 0, "", null and undefined are falsy; its properties: `JsValues.CountTruthy`, `NotesRouterProperties.PatchWithoutValuesRejected` |
| `JsValues.Field` | src/Notes/notes-router.js:29 | definition: reading a key of the body gives its value, or undefined when the key is absent; its properties: `NotesRouter.FieldsOfIgnoresOtherKeys` |
| `JsValues.Prop` | src/Notes/notes-router.js:77 | definition, for the keys note_name, content and folder_id only: an object yields its value for the key or undefined, any other non-nullish value yields undefined; its properties: `NotesRouter.FieldsOfIgnoresOtherKeys` |
| `JsValues.CountTruthy` | src/Notes/notes-router.js:79 | the count of truthy values is at most their number; it is zero exactly when no value is truthy, and full exactly when all are |
| `Decimal.NatToString` | src/Notes/notes-router.js:43 | the id text is a non-empty string of digits without a leading zero |
| `Decimal.ParseNatToString` | src/Notes/notes-router.js:43 | reading back the id text gives the id |
| `NoteStore.TableValid` | src/Notes/notes-service.js:8-16 | definition of the assumed serial-id behaviour: ids are positive, unique and ascending, and all below the next id; its properties: `NoteStore.InsertKeepsValid`, `NoteStore.RemoveKeepsValid`, `NoteStore.UpdateKeepsValid`, `NotesRouterProperties.PostKeepsValid`, `NotesRouterProperties.RouteKeepsValid` |
| `NoteStore.Find` | src/Notes/notes-service.js:17-23 | a row is found exactly when some row has the id; the row found has that id and is in the table |
| `NoteStore.FindUnique` | src/Notes/notes-service.js:17-23 | with unique ids, the row found is the one row with that id |
| `NoteStore.Remove` | src/Notes/notes-service.js:24-28 | after the delete, a row remains exactly when it was there and has another id; none has the id |
| `NoteStore.RemoveKeepsAscending` | src/Notes/notes-service.js:24-28 | deleting keeps the other rows in their order |
| `NoteStore.RemoveOne` | src/Notes/notes-service.js:24-28 | deleting a present, unique id removes exactly one row |
| `NoteStore.RemoveNone` | src/Notes/notes-service.js:24-28 | deleting an absent id changes nothing |
| `NoteStore.ApplyFields` | src/Notes/notes-service.js:29-33 | an update never changes a row's id or creation date |
| `NoteStore.Update` | src/Notes/notes-service.js:29-33 | the rows with the id are updated, every other row and the order are unchanged |
| `NoteStore.NewRow` | src/Notes/notes-service.js:8-16 | definition of the row `insert(...).returning('*')` gives back: the next id, the three given values and the creation time; its properties: `NotesRouterProperties.PostInsertsPresentFields`, `NotesRouterProperties.PostThenGet` |
| `NoteStore.Insert` | src/Notes/notes-service.js:8-16 | definition: the new row goes last under the next id and the sequence moves on; its properties: `NoteStore.InsertKeepsValid`, `NotesRouterProperties.PostInsertsPresentFields` |
| `NoteStore.Overwrite` | src/Notes/notes-service.js:29-33 | definition of the assumed knex behaviour: a column given undefined keeps its value, any other value is written; its properties: `NotesRouterProperties.PatchOfNameKeepsOtherColumns`, `NotesRouterProperties.PatchWritesDefinedFalsyValues` |
| `NoteStore.InsertKeepsValid` | src/Notes/notes-service.js:8-16 | the new id is not in use and ids stay unique and ascending |
| `NoteStore.RemoveKeepsValid` | src/Notes/notes-service.js:24-28 | deleting keeps ids unique, positive and below the sequence |
| `NoteStore.UpdateKeepsValid` | src/Notes/notes-service.js:29-33 | updating keeps ids unique, positive and below the sequence |
| `NotesRouter.ErrorJson` | src/Notes/notes-router.js:34-36 | definition of the error body `{ error: { message } }`; its properties: `NotesRouterProperties.PostRejectsFirstMissing`, `NotesRouterProperties.UnknownIdIsNotFound`, `NotesRouterProperties.PatchWithoutValuesRejected` |
| `NotesRouter.ErrorResponse` | src/Notes/notes-router.js:56-58 | definition of an error answer: the status, the error body and no Location, as at lines 34-36, 56-58 and 81-83; its properties: `NotesRouterProperties.PostRejectsFirstMissing`, `NotesRouterProperties.UnknownIdIsNotFound`, `NotesRouterProperties.PatchWithoutValuesRejected` |
| `NotesRouter.SerializeNote` | src/Notes/notes-router.js:9-15 | the response object has exactly the five keys; id, folder_id and date_created are copied, note_name and content are sanitised |
| `NotesRouter.SerializeAll` | src/Notes/notes-router.js:24 | the listing has one serialised note per row, in table order |
| `NotesRouter.FieldsOf` | src/Notes/notes-router.js:29-30 | definition of the three-key object built from a body; its properties: `NotesRouter.FieldsOfIgnoresOtherKeys` |
| `NotesRouter.FieldsOfIgnoresOtherKeys` | src/Notes/notes-router.js:77-78 | keys other than note_name, content and folder_id make no difference to the object built |
| `NotesRouter.Entries` | src/Notes/notes-router.js:32 | definition of `Object.entries(newNote)` in the order note_name, content, folder_id (the keys are listed once, in `RequiredKeys`); its properties: `NotesRouterProperties.PostRejectsFirstMissing` |
| `NotesRouter.Values` | src/Notes/notes-router.js:79 | definition of `Object.values(updatedNote)`; its properties: `NotesRouterProperties.PatchWithoutValuesRejected`, `NotesRouterProperties.PatchUpdatesThatNote` |
| `NotesRouter.MissingMessage` | src/Notes/notes-router.js:35 | definition of the message `Missing '<key>' in request body`; its properties: `NotesRouterProperties.PostRejectsFirstMissing` |
| `NotesRouter.FirstMissing` | src/Notes/notes-router.js:32-36 | no key is reported exactly when every value is neither null nor undefined |
| `NotesRouter.FirstMissingIsFirst` | src/Notes/notes-router.js:32-36 | the key reported is that of the first null or undefined entry |
| `NotesRouter.FindMissing` | src/Notes/notes-router.js:32-36 | the validation loop stops at the first null or undefined entry and returns its key, or none |
| `NotesRouter.Location` | src/Notes/notes-router.js:43 | definition: the URL, a slash and the id's digits; its properties: `NotesRouter.LocationRoundTrip`, `NotesRouterProperties.PostThenGet` |
| `NotesRouter.LocationRoundTrip` | src/Notes/notes-router.js:43 | the Location header is the URL, a slash and the id, and reading it back gives the id |
| `NotesRouter.ListOutcome` | src/Notes/notes-router.js:19-25 | definition of GET /: 200 with the serialised rows; its properties: `NotesRouterProperties.DeleteRemovesThatNote` |
| `NotesRouter.PostOutcome` | src/Notes/notes-router.js:28-47 | definition of POST /; its properties: `NotesRouterProperties.PostRejectsFirstMissing`, `NotesRouterProperties.PostInsertsPresentFields`, `NotesRouterProperties.PostThenGet`, `NotesRouterProperties.PostIgnoresOtherKeys`, `NotesRouterProperties.PostKeepsValid` |
| `NotesRouter.PatchReadable` | src/Notes/notes-router.js:77 | definition: the destructuring of `req.body.updatedNote` does not throw exactly when it is neither null nor undefined; its properties: `NotesRouterProperties.UnknownIdIsNotFound` (no readable body is needed for an unknown id) |
| `NotesRouter.PatchFields` | src/Notes/notes-router.js:77-78 | definition of the three-key update object built from `updatedNote`; its properties: `NotesRouterProperties.PatchUpdatesThatNote`, `NotesRouterProperties.PatchIgnoresOtherKeys` |
| `NotesRouter.PatchOutcome` | src/Notes/notes-router.js:76-92 | definition of the PATCH handler after the guard, with the message `Request must contain name, content, or folder_id` (line 82); its properties: `NotesRouterProperties.PatchWithoutValuesRejected`, `NotesRouterProperties.PatchUpdatesThatNote`, `NotesRouterProperties.PatchIgnoresOtherKeys` |
| `NotesRouter.NoteRouteOutcome` | src/Notes/notes-router.js:49-92 | definition of the guard with the message `note not found` (line 57) and the three verbs; its properties: `NotesRouterProperties.UnknownIdIsNotFound`, `NotesRouterProperties.GetReturnsThatNote`, `NotesRouterProperties.DeleteRemovesThatNote`, `NotesRouterProperties.RouteKeepsValid` |
| `NotesRouter.Router.GetNoteById` | src/Notes/notes-router.js:51-53 | a note is found exactly when the table has the id; it is the table's only row with that id |
| `NotesRouter.Router.InsertNote` | src/Notes/notes-router.js:38-39 | the note is appended under a fresh id; ids stay unique |
| `NotesRouter.Router.DeleteNote` | src/Notes/notes-router.js:69-70 | the table becomes the old table without the rows of that id |
| `NotesRouter.Router.UpdateNote` | src/Notes/notes-router.js:86-87 | the table becomes the old table with that id's row updated |
| `NotesRouter.Router.ListNotes` | src/Notes/notes-router.js:19-25 | the response is exactly the GET / outcome: 200 with one serialised note per row, in table order |
| `NotesRouter.Router.PostNote` | src/Notes/notes-router.js:28-47 | the imperative POST handler yields exactly the POST outcome's response and table |
| `NotesRouter.Router.NoteRoute` | src/Notes/notes-router.js:49-75 | guard then GET, DELETE or PATCH yield exactly the route outcome's response and table |
| `NotesRouter.Router.PatchNote` | src/Notes/notes-router.js:76-92 | the imperative PATCH handler yields exactly the PATCH outcome's response and table |
| `NotesRouterProperties.PostRejectsFirstMissing` | src/Notes/notes-router.js:29-36 | POST with a null or undefined required key, the earlier ones present, is 400 naming that key, and nothing is inserted |
| `NotesRouterProperties.PostInsertsPresentFields` | src/Notes/notes-router.js:32-44 | POST with all three keys present is 201 with the serialised new row and its Location, and the row is appended under a fresh id |
| `NotesRouterProperties.PostAcceptsEmptyAndZero` | src/Notes/notes-router.js:33 | empty strings and 0 pass POST validation |
| `NotesRouterProperties.PostThenGet` | src/Notes/notes-router.js:38-67 | the Location of a created note names its id, and a GET of that id returns the POST's body |
| `NotesRouterProperties.PostIgnoresOtherKeys` | src/Notes/notes-router.js:29-30 | keys other than the three have no effect on POST |
| `NotesRouterProperties.PostKeepsValid` | src/Notes/notes-router.js:38-44 | POST keeps ids unique, positive and below the sequence |
| `NotesRouterProperties.UnknownIdIsNotFound` | src/Notes/notes-router.js:51-59 | GET, DELETE and PATCH of an unknown id are 404 "note not found", and the table is unchanged |
| `NotesRouterProperties.GetReturnsThatNote` | src/Notes/notes-router.js:60-67 | GET of a present id is 200 with that note serialised |
| `NotesRouterProperties.DeleteRemovesThatNote` | src/Notes/notes-router.js:68-74 | DELETE of a present id is 204 and removes exactly that note; the listing afterwards is the others, in order |
| `NotesRouterProperties.PatchWithoutValuesRejected` | src/Notes/notes-router.js:77-84 | PATCH where no key of updatedNote is truthy is 400 with the fixed message, and the table is unchanged |
| `NotesRouterProperties.PatchUpdatesThatNote` | src/Notes/notes-router.js:77-90 | PATCH with a truthy key is 204 and updates only that note; the other rows and the order stay |
| `NotesRouterProperties.PatchOfNameKeepsOtherColumns` | src/Notes/notes-router.js:77-90 | a PATCH of the name alone changes only the name, and a later GET shows it |
| `NotesRouterProperties.PatchWritesDefinedFalsyValues` | src/Notes/notes-router.js:78-79 | once one key is truthy, a defined falsy value of another key is written too |
| `NotesRouterProperties.PatchIgnoresOtherKeys` | src/Notes/notes-router.js:77-78 | other keys of the body and of updatedNote have no effect on PATCH |
| `NotesRouterProperties.RouteKeepsValid` | src/Notes/notes-router.js:49-92 | every route on /:note_id keeps ids unique, positive and below the sequence |

## Left out

- The escaping done by the `xss` library: the sanitiser is an opaque parameter, so the model does not show that markup is neutralised.
- PostgreSQL's column types: a column keeps the JSON value it was given. The model has no type coercion and no constraint errors, and none of the 500 responses those errors would cause.
- Storage errors, `next(err)` and the promise chain. The JSON parser, route registration, `res.json`, `res.status` and `.end()` are reduced to the `Response` value.
- NotesRouter.Router.NoteRoute: a PATCH on an existing note whose body has no `updatedNote`, or a null one, throws in the destructuring. The framework then answers 500. The method requires a readable body in that case only, so a 404 for an unknown id is still modelled.
- Row order: `getAllNotes` has no ORDER BY. The model's table lists rows in insertion order, the order the tests expect.
- `path.posix.join` normalisation: the Location is `originalUrl + "/" + id`, which is what it gives for a URL without a trailing slash or query string.
- `req.params.note_id` is a string that the database converts; the model takes the id as an integer, and a non-numeric id (a database error) is not modelled.
- Numbers in request bodies are integers; fractions and `-0` are not modelled.
- The 204 answer of PATCH is sent with the update count via `res.json`; Express sends no body with 204, and the model has none.
- The folders router is not part of this model, and `src/Folders/folders-service.js` is a thin wrapper like the notes service.
- Concurrency between requests: each handler is one atomic step on the table.
