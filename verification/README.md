# Biblioteca JIMUI data layer and list logic in Dafny

Biblioteca JIMUI is a library and reading-tracker web application. Users browse a catalogue of
books, mark favourites, download book text for offline reading and look at their reading
history. Administrators add and remove books and categories.

This project models three parts of it:

- The browser-side data layer `db` (`services/db.ts`). This is the class `Db.Store`, with one
  field per browser-storage key:
  - the books;
  - the categories;
  - the users;
  - the downloaded-file map from book id to text;
  - the current-session user id.

  A missing key is `None`. JSON serialisation is taken as the identity. Each method reads a
  whole collection, changes it and writes it back, as the source does. The `filter`, `find`
  and `findIndex` steps inside these methods are the pure functions of module `Seqs`.
- The catalogue filter `filteredBooks` and the favourites toggle of `App.tsx` (module `App`).
- The join of reading history with the book list in `components/HistoryView.tsx` (module
  `HistoryView`).

Inputs that come from outside the code are method parameters:
- The clock `Date.now()` is a `now: nat` parameter. Ids made from it are
  `Db.DecimalString(now)`, the decimal digits of the reading.
- Whether the file-storage write in `saveFileLocally` throws is a `writeFails: bool` parameter.

Files:
- `seqs.dfy`: module `Seqs`, the JavaScript array operations and the subsequence relation.
- `types.dfy`: module `Types`, the records of `types.ts`.
- `db.dfy`: module `Db`, the data layer.
- `app.dfy`: module `App`.
- `history_view.dfy`: module `HistoryView`.

Behaviour of the code worth knowing, which the model keeps:
- `saveBook` never assigns an id. A book with an empty id is upserted like any other, so it
  overwrites the first stored book whose id is also empty.
- `cachedBookIds` holds the ids of the books downloaded for offline use (the comment at
  `types.ts:20`), so it should list a book exactly when a file entry exists. The code keeps
  only the session user's list in step; other users' lists are left as they
  were (`Db.Store.DeleteBook`, `Db.Store.RemoveFileLocally`).
- `addToHistory(userId, bookId)` never reads `userId`. It updates the session user.
- `register` does not check that the email is unused. `login` then returns the first user with
  matching credentials (`Db.LoginAfterRegister`).
- Clock-based ids need not be unique. If an older user already has the new user's id,
  `getCurrentUser` resolves the session to that older user (`Db.RegisterSession`).

## Model

| member | source | states |
|---|---|---|
| `Seqs.Filter` | services/db.ts:55 | `filter` keeps the order of the input (a subsequence), and a value is in the result exactly when it is in the input and passes the test |
| `Seqs.FilterMultiplicity` | services/db.ts:55 | every value that passes the test occurs in the result as often as in the input |
| `Seqs.FilterFuse` | App.tsx:69-83 | two filters in a row equal one filter by the conjunction of the tests |
| `Seqs.Map` | components/HistoryView.tsx:12-15 | `map` gives a list of the same length whose element at each position is the function applied to the input's element there |
| `Seqs.FindFirst` | services/db.ts:44 | `findIndex` gives -1 (`None`) exactly when no element matches; otherwise it gives the first matching position |
| `Db.DecimalString` | services/db.ts:93 | an id made from the clock is a non-empty string of decimal digits |
| `Db.UpsertBook` | services/db.ts:42-51 | if a book with the same id exists, the first such position is overwritten, the length is unchanged and no other position changes; otherwise the book is appended |
| `Db.UpsertThenFind` | services/db.ts:44-48 | after `saveBook(b)`, the first book with `b.id` is `b` |
| `Db.UpsertIdempotent` | services/db.ts:42-51 | saving the same book twice gives the same list as saving it once |
| `Db.DeleteUndoesInsert` | services/db.ts:42-58 | deleting the id of a book that `saveBook` appended gives back the earlier list |
| `Db.ReplaceUser` | services/db.ts:118-126 | `updateUser` overwrites the first user with the same id and leaves everyone else alone; the list is unchanged when no user has that id |
| `Db.FindByCredentials` | services/db.ts:77-80 | the login lookup finds nothing exactly when no user has both that email and that password; otherwise it returns the first such user |
| `Db.LoginAfterRegister` | services/db.ts:77-107 | after `register`, logging in with the same email and password returns a user with those credentials, which is the new user unless an older user has the same credentials |
| `Db.SessionIndex` | services/db.ts:109-116 | there is no current user when the session key is missing or empty, or when no user has that id; otherwise the current user is the first user with that id |
| `Db.RegisterSession` | services/db.ts:88-116 | after `register`, the session resolves to a user with the new id, and to the new user exactly when no older user has that id |
| `Db.WithCachedBook` | services/db.ts:142-146 | the book id is added to `cachedBookIds` only if it is absent, and no other field changes |
| `Db.WithoutCachedBook` | services/db.ts:159-162 | every copy of the book id leaves `cachedBookIds`, all other ids stay in their old order, and no other field changes |
| `Db.MoveToFront` | services/db.ts:174-176 | the new history starts with `{bookId, now}` and has no other entry for that book; the old entries for other books follow in their old order |
| `Db.MoveToFrontTwice` | services/db.ts:171-179 | reading a book twice leaves one entry for it, first, stamped with the second time |
| `Db.MoveToFrontKeepsDistinct` | services/db.ts:175-176 | a history that lists each book at most once still does after a read |
| `Db.LocalFile` | services/db.ts:166-169 | a stored text is returned when it is present and non-empty; an empty text reads back as null |
| `Db.Store.Init` | services/db.ts:12-35 | writes each key only when it is missing, so on an initialised store it changes nothing; a fresh store gets the seed catalogue, one `admin_1` / `admin@jimui.org` / `admin` ADMIN user with empty lists, and an empty file map |
| `Db.Store.GetBooks` | services/db.ts:37-40 | a missing books key reads as an empty list |
| `Db.Store.SaveBook` | services/db.ts:42-51 | the book list becomes `UpsertBook` of the old list; the other keys are unchanged |
| `Db.Store.DeleteBook` | services/db.ts:53-58 | afterwards the books are exactly the old books with another id, in the old order; the file entry is gone; the session user's `cachedBookIds` lacks the id; every other user is unchanged |
| `Db.Store.GetCategories` | services/db.ts:60-63 | a missing categories key reads as an empty list |
| `Db.Store.SaveCategory` | services/db.ts:65-69 | appends one category named `name` whose id is the clock reading |
| `Db.Store.DeleteCategory` | services/db.ts:71-75 | the categories become exactly the old ones with another id, in order; books are not touched |
| `Db.Store.Login` | services/db.ts:77-86 | returns the first user with both credentials and makes their id the session; with no match it returns null and the session is unchanged |
| `Db.Store.Register` | services/db.ts:88-107 | appends exactly one user with the given name, email, password and role (USER by default), a non-empty clock id and empty lists; sets the session to that id and returns the user |
| `Db.Store.GetCurrentUser` | services/db.ts:109-116 | returns the user at `SessionIndex`, or null when there is none |
| `Db.Store.UpdateUser` | services/db.ts:118-126 | the user list becomes `ReplaceUser` of the old list when some user has the id; otherwise nothing is written |
| `Db.Store.Logout` | services/db.ts:128-130 | the session is cleared and `getCurrentUser` finds no user; no collection changes |
| `Db.Store.SaveFileLocally` | services/db.ts:133-151 | if the file write fails, nothing changes; otherwise the text is stored (read back as itself when non-empty), other files are unchanged, and the session user gains the id in `cachedBookIds` if it was absent |
| `Db.Store.RemoveFileLocally` | services/db.ts:154-164 | the file entry is gone and reads back as null; the session user's `cachedBookIds` loses the id; every other user is unchanged |
| `Db.Store.GetLocalFile` | services/db.ts:166-169 | returns the stored text when it is present and non-empty, and null otherwise |
| `Db.Store.AddToHistory` | services/db.ts:171-179 | updates only the session user's history, to `MoveToFront`, and ignores `userId`; with no session it does nothing |
| `App.LowerChar` | App.tsx:77-81 | `toLowerCase` maps each upper-case letter of `A`-`Z` and `À`-`Þ` (except `×`) to the letter 32 code points above it, leaves every other character alone, and never returns one of those upper-case letters |
| `App.Lower` | App.tsx:77-81 | the lower-cased string has the same length, holds the lower-cased character at each position, and contains no upper-case letter of those ranges |
| `App.ContainsOccurs` | App.tsx:79-81 | `includes` (`App.Contains`) holds exactly when the query occurs in the text at some position |
| `App.FilteredBooks` | App.tsx:68-85 | the shown books are one filter of `books` by the visibility test, so order is kept. In the favourites view with a user, every shown book is a favourite. In the home view with a category other than `All`, every shown book has that category. With a non-empty query, a book survives exactly when its lower-cased title, author or category contains the lower-cased query. With no filter applying, every book is shown |
| `App.StepsFuse` | App.tsx:69-84 | the three conditional filter steps together equal one filter by the visibility test |
| `App.SearchIgnoresQueryCase` | App.tsx:76-83 | lower-casing the query first changes nothing |
| `App.ToggledFavorites` | App.tsx:89-95 | the id ends up in the list exactly when it was absent. A present id is removed with the others kept in order; an absent id is appended; membership of other ids does not change |
| `App.ToggleRemoveCounts` | App.tsx:93 | removing a favourite removes every copy of its id and keeps every other id as often as before |
| `App.ToggleTwiceRestores` | App.tsx:89-95 | adding an absent favourite and toggling it again restores the original list |
| `App.ToggleFavorite` | App.tsx:87-98 | with no user nothing happens; otherwise the shown user gets the toggled list and is written through `updateUser` |
| `HistoryView.FindBook` | components/HistoryView.tsx:13 | `find` gives nothing exactly when no book has the id; otherwise it gives the first book with that id |
| `HistoryView.JoinedEntries` | components/HistoryView.tsx:12-15 | stripping the books off the joined rows gives exactly the history entries whose book exists, in history order |
| `HistoryView.HistoryItems` | components/HistoryView.tsx:12-15 | the joined list is no longer than the history and keeps its order. An entry is kept exactly when some book has its id. Each row keeps the entry's `bookId` and `readAt` and carries the first book with that id |

## Left out

- JSX rendering, styling, icons, view routing and the `online`/`offline` listeners: these are presentation only.
- `services/gemini.ts`, `firebase.ts` and `firebaseConfig.js`: remote calls and SDK configuration. The remote-database variant of the data layer is not part of this model.
- `components/BookDetailModal.tsx` and `components/ReaderView.tsx`: their timers and random or floating-point progress. Their only data effects are the `db` calls modelled here.
- `components/AdminDashboard.tsx` and `components/AuthView.tsx`: form handlers. Their non-empty-field checks happen before `saveBook`, `saveCategory` and `register` are called, so they are not preconditions here.
- `constants.tsx`: the seed books and categories are parameters of `Db.Store.Init`.
- Real `localStorage`, `JSON`, `alert` and `console`. Only the file-storage write in `saveFileLocally` may fail. Every other write is taken to succeed, so the partial failure where the file is stored but the user update throws is not modelled.
- Asynchrony: each operation runs to completion before the next, which matches how the application issues them.
- `Db.Store.GetLocalFile`: does not model prototype keys of a JavaScript object, such as `toString`, that `storage[bookId]` would find in an otherwise empty map.
- `App.Lower`: `toLowerCase` is modelled for the one-to-one case mappings of the Basic Latin and Latin-1 blocks only. Letters of other scripts (Greek, Cyrillic, Latin Extended) and mappings that change the length, such as `İ`, are left as they are, so for text holding them `App.FilteredBooks` can describe a search result the program would not give.
- Uniqueness of clock-based ids is not assumed anywhere.
