/** The records of the library (types.ts). Strings stay strings; timestamps
    are the millisecond counts the clock hands out. */
module Types {
  import opened Seqs

  datatype UserRole = USER | ADMIN

  /** One reading-history entry: which book, and when it was opened. */
  datatype ReadingHistoryItem = ReadingHistoryItem(bookId: string, readAt: nat)

  /** A user record. `password` is optional, as in the source, and stored in
      plain text; `favorites` and `cachedBookIds` hold book ids. */
  datatype User = User(
    id: string,
    name: string,
    email: string,
    password: Option<string>,
    role: UserRole,
    favorites: seq<string>,
    readingHistory: seq<ReadingHistoryItem>,
    cachedBookIds: seq<string>)

  datatype Book = Book(
    id: string,
    title: string,
    author: string,
    category: string,
    summary: string,
    coverUrl: string,
    pdfUrl: Option<string>,
    createdAt: nat)

  datatype Category = Category(id: string, name: string)

  /** The test `b => b.id === id` the source passes to `find`/`findIndex`. */
  function BookHasId(id: string): Book -> bool
  {
    (b: Book) => b.id == id
  }

  /** The test `b => b.id !== id` the source passes to `filter`. */
  function BookIdIsNot(id: string): Book -> bool
  {
    (b: Book) => b.id != id
  }

  function CategoryIdIsNot(id: string): Category -> bool
  {
    (c: Category) => c.id != id
  }

  function UserHasId(id: string): User -> bool
  {
    (u: User) => u.id == id
  }

  /** `u => u.email === email && u.password === password` (login). */
  function HasCredentials(email: string, password: Option<string>): User -> bool
  {
    (u: User) => u.email == email && u.password == password
  }

  /** `h => h.bookId !== bookId` over reading-history entries. */
  function EntryIsNotFor(bookId: string): ReadingHistoryItem -> bool
  {
    (h: ReadingHistoryItem) => h.bookId != bookId
  }

  /** A plain string comparison `x => x !== id` over a list of ids. */
  function IsNot(id: string): string -> bool
  {
    (x: string) => x != id
  }
}
