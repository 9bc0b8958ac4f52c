# Bookstore REST API: catalogue and credential controllers in Dafny

This project models the two controllers of a small bookstore HTTP API.

- **The book catalogue** (`controllers/bookController.js`). It lists all books, fetches one by id, adds a book owned by the caller, updates or deletes a book only when the caller owns it, and searches by genre without regard to case.
- **The credential service** (`controllers/authController.js`). It registers a user and refuses an email that is already stored. It logs a user in by exact email and password check, and issues a token signed over `{id, email}`.

Every handler loads the whole collection. Every writing handler (add, update, delete and register) also changes it and writes it back. Each handler is modelled as one atomic step over an in-memory sequence.

Files:

- `wrappers.dfy`: `Option` and `Result`.
- `seqs.dfy`: the array operations the handlers use. `FirstIndex` models `findIndex`/`find`, and `Filter` models `filter`. It also holds the lemmas that filtering keeps order.
- `ascii.dfy`: ASCII lower-casing, used for `toLowerCase`.
- `books.dfy` (module `BookController`): `Book`, the update `Patch`, the read handlers as functions, and the writing handlers. The writing handlers are methods of class `BookStore`. `UpdateBook` and `DeleteBook` are proved against the functions `UpdateResponse` and `DeleteResponse`.
- `auth.dfy` (module `AuthController`): `User`, `Claims`, `Login`, and class `UserStore`. Its `Register` method is proved against `RegisterResponse`.

Parameters stand for the external calls:

- The generated `uuidv4()` id is a `freshId` parameter. A precondition says no stored record already has it.
- `bcrypt.hash`, `bcrypt.compare` and `jwt.sign` are function-typed parameters, and nothing is assumed about them. One exception: `RegisterThenLogin` assumes that a password compares equal to its own hash.
- `process.env.JWT_SECRET` is the `secret` parameter.
- The caller's identity `req.user.id`, which the authentication middleware sets, is the `caller` parameter. `SearchBooksByGenre` has no `caller`, because the search route is mounted before the middleware (`routes/bookRoutes.js:40-41`).

Behaviour of the code worth knowing:

- **Update can overwrite any key.** The update body is merged shallowly over the stored record, so a patch can rewrite `id` and `userId`. `Patch` has an optional field for all six book fields. `PatchCanTransferOwnership` shows that an owner can give a book away this way.
- **The owner field.** The owner is stored in `userId`.
- **Delete removes every match.** Delete drops every record with the requested id, not only the first. It checks ownership only on the first match. With unique ids this removes exactly one record (`DeleteRemovesExactlyOne`). Update and delete keep ids unique as long as the patch leaves the id alone.
- **Renaming a book can delete someone else's.** The merge also copies `id`. An owner can rename an earlier record to the id of another user's book. Delete then checks ownership on the renamed record only and removes both books (`CrossOwnerDelete`).

## Model

| member | source | states |
|---|---|---|
| `Seqs.FirstIndex` | controllers/bookController.js:43 | `findIndex`: None exactly when no element satisfies the predicate; otherwise the index of an element that does, with none before it |
| `Seqs.Filter` | controllers/bookController.js:75 | `filter`: every kept element is in the input and satisfies the predicate; every input element that satisfies it is kept; never longer than the input |
| `Seqs.FilterAppend` | controllers/bookController.js:91-93 | filtering commutes with concatenation, so kept elements keep their relative order |
| `Seqs.FilterDropsOne` | controllers/bookController.js:75 | when only the element at `i` fails the predicate, the filter result is the input with exactly that element removed |
| `Ascii.LowerChar` | controllers/bookController.js:92 | the lowered character is never upper-case; an upper-case letter moves to its lower-case partner and every other character is kept |
| `Ascii.Lower` | controllers/bookController.js:92 | `toLowerCase` keeps the length and lowers every character in place |
| `Ascii.LowerIdempotent` | controllers/bookController.js:92 | lowering an already lowered string changes nothing |
| `BookController.IndexOfId` | controllers/bookController.js:43 | None exactly when no book has the id; otherwise the position of the first book with the id |
| `BookController.GetAllBooks` | controllers/bookController.js:6-9 | the answer is the stored collection itself: same length, same books, same order, no ownership filter |
| `BookController.GetBookById` | controllers/bookController.js:11-20 | NotFound exactly when no book has the id; otherwise the first book with that id |
| `BookController.Merge` | controllers/bookController.js:55 | each of the six keys present in the patch overwrites, and each absent key keeps the stored value |
| `BookController.UpdateResponse` | controllers/bookController.js:41-59 | NotFound exactly when the id is absent. Forbidden exactly when the first match has another owner. Ok exactly when the caller owns it. On error the collection is unchanged. On success only the first matching index is replaced by the merge, and that merged record is returned |
| `BookController.Without` | controllers/bookController.js:75 | the result holds no book with the id, every remaining book comes from the input, and every input book with a different id is kept |
| `BookController.DeleteResponse` | controllers/bookController.js:61-79 | NotFound and Forbidden under the same conditions as update, and the collection is then unchanged. On success the collection is the input without every book with that id |
| `BookController.SearchBooksByGenre` | controllers/bookController.js:81-96 | MissingGenre exactly when the genre is absent or empty. Otherwise the answer is the books whose lowered genre equals the lowered query, all from the store. An empty answer is not an error |
| `BookController.SearchKeepsStoreOrder` | controllers/bookController.js:91-93 | the search over a concatenation is the concatenation of the searches, so matches come in store order |
| `BookController.SearchIgnoresQueryCase` | controllers/bookController.js:92 | searching for a query and for its lowered form give the same answer |
| `BookController.SearchMatchesAcrossCase` | controllers/bookController.js:92 | a book stored with genre "SciFi" is found by the query "scifi" |
| `BookController.AddThenGet` | controllers/bookController.js:22-39 | after appending a book with a fresh id, getBookById for that id returns exactly that book |
| `BookController.AddKeepsUniqueIds` | controllers/bookController.js:26-35 | appending a book whose id is fresh keeps ids pairwise distinct |
| `BookController.UpdateThenGet` | controllers/bookController.js:55-58 | after a successful update whose patch leaves the id alone, getBookById returns the record the update returned |
| `BookController.PatchCanTransferOwnership` | controllers/bookController.js:55 | a patch that sets `userId` to another user makes the former owner's next delete and update Forbidden |
| `BookController.CrossOwnerDelete` | controllers/bookController.js:55-75 | with books `[x, y]` owned by different users, x's owner renames x to y's id; that owner's delete of y's id then succeeds and leaves no book |
| `BookController.UpdateKeepsUniqueIds` | controllers/bookController.js:55 | an update whose patch leaves the id alone keeps ids pairwise distinct |
| `BookController.RemoveAtKeepsUniqueIds` | controllers/bookController.js:75 | removing one record from a collection with unique ids keeps them unique |
| `BookController.DeleteKeepsUniqueIds` | controllers/bookController.js:61-79 | every delete answer leaves a collection with unique ids if it had unique ids |
| `BookController.WithoutUniqueId` | controllers/bookController.js:75 | with unique ids, filtering out the id of the book at `i` leaves exactly the books before and after `i` |
| `BookController.DeleteRemovesExactlyOne` | controllers/bookController.js:61-79 | with unique ids a successful delete removes only the first match, keeps the others in order, and shortens the collection by one |
| `BookController.DeleteThenGet` | controllers/bookController.js:75 | after a successful delete, getBookById for that id is NotFound |
| `BookController.BookStore.AddBook` | controllers/bookController.js:22-39 | appends exactly one record at the end, with the fresh id, the body's fields and the caller as owner. Earlier records are unchanged. The new record is found by its id, and unique ids stay unique |
| `BookController.BookStore.UpdateBook` | controllers/bookController.js:41-59 | the answer and the new collection are those of `UpdateResponse` on the old collection, with the record assigned in place. Unique ids stay unique when the patch leaves the id alone |
| `BookController.BookStore.DeleteBook` | controllers/bookController.js:61-79 | the answer and the new collection are those of `DeleteResponse` on the old collection, and unique ids stay unique |
| `AuthController.IndexOfEmail` | controllers/authController.js:14 | None exactly when no user has exactly this email (case-sensitive); otherwise the position of the first such user |
| `AuthController.RegisterResponse` | controllers/authController.js:10-29 | EmailExists exactly when some stored user has this email, and nothing is then written. Otherwise exactly one user `{freshId, email, hash(password)}` is appended after the unchanged earlier users |
| `AuthController.RegisterKeepsEmailsDistinct` | controllers/authController.js:12-26 | registration keeps stored emails pairwise distinct |
| `AuthController.RegisterTwiceFails` | controllers/authController.js:14-16 | after a successful registration, registering the same email again is refused and changes nothing |
| `AuthController.Login` | controllers/authController.js:31-46 | an unknown email and a wrong password both give the same InvalidCredentials. Success happens exactly when the first user with this email verifies the password, and the token is signed over that user's `{id, email}` |
| `AuthController.RegisterThenLogin` | controllers/authController.js:18-45 | if the hash comparison accepts a password against its own hash, logging in after a registration yields a token for the new user's id and email |
| `AuthController.UserStore.Register` | controllers/authController.js:10-29 | the answer and the new users are those of `RegisterResponse`. Stored emails stay distinct, and with a fresh id user ids stay unique |

## Left out

- File store: `readJSON`/`writeJSON` (`utils/fileUtils.js`) are file I/O and JSON encoding. Each collection is an in-memory sequence, and the fallback to an empty list when reading fails is not modelled.
- Concurrency: handlers are asynchronous, and two requests can interleave their read-modify-write and lose an update. The model runs each handler as one atomic step.
- Library calls: bcrypt, jsonwebtoken, uuid and dotenv are not modelled. They enter as parameters: hashing, comparison and signing are arbitrary functions, and the generated id is a fresh parameter. The random salt of `bcrypt.hash` is folded into the `hash` parameter. `jwt.sign` without options also signs an issued-at claim read from the clock, so two logins by the same user can give different tokens; the deterministic `sign` parameter does not capture that clock.
- Authentication middleware, routing, Swagger and the HTTP status plumbing (`routes/bookRoutes.js`, `app.js`, `swagger.js`) are not modelled. The middleware source is not part of this model. Errors are named values; the HTTP codes they stand for are given in comments.
- Untyped JSON: request bodies are typed records. Extra keys in an update body are not modelled. Neither are fields left undefined in an add body, or a non-string genre that would make the search throw (an HTTP 500). The same throw happens for a repeated query parameter such as `?genre=a&genre=b`, which is parsed into an array that passes the emptiness check; an `Option<string>` query cannot express it.
- `Ascii.Lower`: lowers ASCII letters only, not the full Unicode `toLowerCase` mapping.
