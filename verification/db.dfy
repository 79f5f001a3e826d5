/** The browser-side data layer (services/db.ts). The browser's key-value
    store is the class `Store`: one field per storage key, `None` when the key
    is missing, and JSON serialisation taken as the identity. Every operation
    reads a whole collection, changes it and writes it back, as the source
    does. The clock (`Date.now()`) and whether the file-storage write fails
    are parameters. */
module Db {
  import opened Seqs
  import opened Types

  /** The account `init` seeds on a fresh store. */
  const AdminUser: User :=
    User("admin_1", "Administrador JIMUI", "admin@jimui.org", Some("admin"), ADMIN, [], [], [])

  function Digit(d: nat): (c: char)
    requires d < 10
    ensures '0' <= c <= '9'
  {
    ('0' as int + d) as char
  }

  /** `Date.now().toString()`: the decimal digits of the clock reading, which
      the source uses as a fresh id. */
  function DecimalString(n: nat): (r: string)
    ensures |r| > 0
    ensures forall i :: 0 <= i < |r| ==> '0' <= r[i] <= '9'
    decreases n
  {
    if n < 10 then [Digit(n)] else DecimalString(n / 10) + [Digit(n % 10)]
  }

  /** `saveBook`'s list update: overwrite the first book with the same id,
      or append when there is none. */
  function UpsertBook(books: seq<Book>, book: Book): (r: seq<Book>)
    ensures book in r
    ensures forall i :: IsFirst(books, BookHasId(book.id), i) ==>
      |r| == |books| && r[i] == book &&
      forall j :: 0 <= j < |books| && j != i ==> r[j] == books[j]
    ensures (forall i :: 0 <= i < |books| ==> books[i].id != book.id) ==> r == books + [book]
  {
    match FindFirst(books, BookHasId(book.id))
    case Some(i) =>
      assert books[i := book][i] == book;
      books[i := book]
    case None => books + [book]
  }

  /** Reading back by id after `saveBook` finds the book just saved. */
  lemma UpsertThenFind(books: seq<Book>, book: Book)
    ensures var r := UpsertBook(books, book);
      exists i :: IsFirst(r, BookHasId(book.id), i) && r[i] == book
  {
    var r := UpsertBook(books, book);
    match FindFirst(books, BookHasId(book.id))
    case Some(i) =>
      assert IsFirst(r, BookHasId(book.id), i);
    case None =>
      assert IsFirst(r, BookHasId(book.id), |books|);
  }

  /** Saving the same book twice is saving it once. */
  lemma UpsertIdempotent(books: seq<Book>, book: Book)
    ensures UpsertBook(UpsertBook(books, book), book) == UpsertBook(books, book)
  {
    var r := UpsertBook(books, book);
    UpsertThenFind(books, book);
    var i :| IsFirst(r, BookHasId(book.id), i) && r[i] == book;
    assert UpsertBook(r, book) == r[i := book];
  }

  /** Deleting a book that `saveBook` has just appended gives back the list
      from before. */
  lemma DeleteUndoesInsert(books: seq<Book>, book: Book)
    requires forall i :: 0 <= i < |books| ==> books[i].id != book.id
    ensures Filter(UpsertBook(books, book), BookIdIsNot(book.id)) == books
  {
    FilterAppend(books, [book], BookIdIsNot(book.id));
    FilterKeepsAll(books, BookIdIsNot(book.id));
    assert Filter([book], BookIdIsNot(book.id)) == [];
  }

  /** `updateUser`'s list update: overwrite the first user with the same id;
      no change when there is none. */
  function ReplaceUser(users: seq<User>, updated: User): (r: seq<User>)
    ensures |r| == |users|
    ensures forall i :: IsFirst(users, UserHasId(updated.id), i) ==>
      r[i] == updated && forall j :: 0 <= j < |users| && j != i ==> r[j] == users[j]
    ensures (forall i :: 0 <= i < |users| ==> users[i].id != updated.id) ==> r == users
  {
    match FindFirst(users, UserHasId(updated.id))
    case Some(i) => users[i := updated]
    case None => users
  }

  /** `login`'s lookup: the first user whose email and password both equal
      the arguments. */
  function FindByCredentials(users: seq<User>, email: string, password: Option<string>): (r: Option<User>)
    ensures r.None? <==>
      forall i :: 0 <= i < |users| ==> !(users[i].email == email && users[i].password == password)
    ensures r.Some? ==>
      exists i :: IsFirst(users, HasCredentials(email, password), i) && r.value == users[i]
  {
    match FindFirst(users, HasCredentials(email, password))
    case Some(i) => Some(users[i])
    case None => None
  }

  /** The record `register` creates. */
  function NewUser(id: string, name: string, email: string, password: Option<string>, role: UserRole): User
  {
    User(id, name, email, password, role, [], [], [])
  }

  /** Logging in with the credentials just registered succeeds; it returns
      the new user unless an older user has the same email and password. */
  lemma LoginAfterRegister(users: seq<User>, id: string, name: string, email: string,
                           password: Option<string>, role: UserRole)
    ensures var found := FindByCredentials(users + [NewUser(id, name, email, password, role)], email, password);
      found.Some? && found.value.email == email && found.value.password == password &&
      ((forall i :: 0 <= i < |users| ==> !(users[i].email == email && users[i].password == password))
         ==> found.value == NewUser(id, name, email, password, role))
  {
    var all := users + [NewUser(id, name, email, password, role)];
    assert all[|users|].email == email && all[|users|].password == password;
    var found := FindByCredentials(all, email, password);
    var i :| IsFirst(all, HasCredentials(email, password), i) && found.value == all[i];
    if forall k :: 0 <= k < |users| ==> !(users[k].email == email && users[k].password == password) {
      assert i == |users|;
    }
  }

  /** Which stored user the session points at (`getCurrentUser`): none when
      the session key is missing or empty, else the first user with that id. */
  function SessionIndex(users: seq<User>, session: Option<string>): (r: Option<nat>)
    ensures r.Some? ==> session.Some? && session.value != "" && IsFirst(users, UserHasId(session.value), r.value)
    ensures r.None? <==>
      session.None? || session.value == "" || forall i :: 0 <= i < |users| ==> users[i].id != session.value
  {
    match session
    case None => None
    case Some(id) => if id == "" then None else FindFirst(users, UserHasId(id))
  }

  /** After `register`, the session resolves to the new user unless an older
      user already had the same id (clock-based ids are not unique). */
  lemma RegisterSession(users: seq<User>, u: User)
    requires u.id != ""
    ensures var r := SessionIndex(users + [u], Some(u.id));
      r.Some? && (users + [u])[r.value].id == u.id &&
      ((forall i :: 0 <= i < |users| ==> users[i].id != u.id) <==> r == Some(|users|))
  {
    var all := users + [u];
    assert all[|users|] == u;
    var r := SessionIndex(all, Some(u.id));
    if forall i :: 0 <= i < |users| ==> users[i].id != u.id {
      assert IsFirst(all, UserHasId(u.id), |users|);
      IsFirstUnique(all, UserHasId(u.id), r.value, |users|);
    } else {
      var k :| 0 <= k < |users| && users[k].id == u.id;
      assert all[k] == users[k];
    }
  }

  /** `saveFileLocally`'s user update: the book id joins `cachedBookIds` only
      when it is absent. */
  function WithCachedBook(u: User, bookId: string): (r: User)
    ensures bookId in r.cachedBookIds
    ensures bookId in u.cachedBookIds ==> r == u
    ensures bookId !in u.cachedBookIds ==> r.cachedBookIds == u.cachedBookIds + [bookId]
    ensures r == u.(cachedBookIds := r.cachedBookIds)
  {
    if bookId in u.cachedBookIds then u else u.(cachedBookIds := u.cachedBookIds + [bookId])
  }

  /** `removeFileLocally`'s user update: every occurrence of the book id
      leaves `cachedBookIds`, the other ids keep their order. */
  function WithoutCachedBook(u: User, bookId: string): (r: User)
    ensures bookId !in r.cachedBookIds
    ensures forall x :: x != bookId ==> (x in r.cachedBookIds <==> x in u.cachedBookIds)
    ensures Subseq(r.cachedBookIds, u.cachedBookIds)
    ensures r == u.(cachedBookIds := r.cachedBookIds)
  {
    u.(cachedBookIds := Filter(u.cachedBookIds, IsNot(bookId)))
  }

  /** `addToHistory`'s history update: a fresh entry first, then the old
      entries for other books in their old order. */
  function MoveToFront(history: seq<ReadingHistoryItem>, bookId: string, now: nat): (r: seq<ReadingHistoryItem>)
    ensures |r| > 0 && r[0] == ReadingHistoryItem(bookId, now)
    ensures forall i :: 1 <= i < |r| ==> r[i].bookId != bookId
    ensures Subseq(r[1..], history)
    ensures forall h :: h in history && h.bookId != bookId ==> h in r
  {
    var tail := Filter(history, EntryIsNotFor(bookId));
    assert forall k :: 0 <= k < |tail| ==> tail[k] in tail;
    [ReadingHistoryItem(bookId, now)] + tail
  }

  /** Reading the same book twice leaves one entry for it, first, stamped with
      the second reading time; the rest is as after one reading. */
  lemma MoveToFrontTwice(history: seq<ReadingHistoryItem>, bookId: string, t1: nat, t2: nat)
    ensures MoveToFront(MoveToFront(history, bookId, t1), bookId, t2) == MoveToFront(history, bookId, t2)
  {
    var p := EntryIsNotFor(bookId);
    var once := MoveToFront(history, bookId, t1);
    FilterAppend([ReadingHistoryItem(bookId, t1)], Filter(history, p), p);
    assert Filter([ReadingHistoryItem(bookId, t1)], p) == [];
    FilterIdempotent(history, p);
  }

  function EntryBook(h: ReadingHistoryItem): string
  {
    h.bookId
  }

  /** A history that holds each book at most once keeps that property. */
  lemma MoveToFrontKeepsDistinct(history: seq<ReadingHistoryItem>, bookId: string, now: nat)
    requires DistinctBy(history, EntryBook)
    ensures DistinctBy(MoveToFront(history, bookId, now), EntryBook)
  {
    var r := MoveToFront(history, bookId, now);
    SubseqDistinct(r[1..], history, EntryBook);
    forall i, j | 0 <= i < j < |r|
      ensures EntryBook(r[i]) != EntryBook(r[j])
    {
      if i > 0 {
        assert r[i] == r[1..][i - 1] && r[j] == r[1..][j - 1];
      }
    }
  }

  /** `getLocalFile`: `storage[bookId] || null`, so an empty text reads back
      as missing. */
  function LocalFile(files: map<string, string>, bookId: string): (r: Option<string>)
    ensures r.Some? <==> bookId in files && files[bookId] != ""
    ensures r.Some? ==> r.value == files[bookId]
  {
    if bookId in files && files[bookId] != "" then Some(files[bookId]) else None
  }

  /** The browser's key-value store, one field per key the data layer uses. */
  class Store {
    var books: Option<seq<Book>>
    var categories: Option<seq<Category>>
    var users: Option<seq<User>>
    var files: Option<map<string, string>>
    var currentUserId: Option<string>

    /** An empty store: no key is present. */
    constructor ()
      ensures books.None? && categories.None? && users.None?
      ensures files.None? && currentUserId.None?
    {
      books, categories, users, files, currentUserId := None, None, None, None, None;
    }

    /** `data ? JSON.parse(data) : []` for each collection. */
    function BookList(): seq<Book>
      reads this
    {
      if books.Some? then books.value else []
    }

    function CategoryList(): seq<Category>
      reads this
    {
      if categories.Some? then categories.value else []
    }

    function UserList(): seq<User>
      reads this
    {
      if users.Some? then users.value else []
    }

    /** `localStorage.getItem(FILE_STORAGE_KEY) || '{}'`. */
    function FileMap(): map<string, string>
      reads this
    {
      if files.Some? then files.value else map[]
    }

    /** Position of the session's user in the user list, if any. */
    function SessionUserIndex(): (r: Option<nat>)
      reads this
      ensures r.Some? ==> r.value < |UserList()|
    {
      SessionIndex(UserList(), currentUserId)
    }

    predicate Initialised()
      reads this
    {
      books.Some? && categories.Some? && users.Some? && files.Some?
    }

    /** `init`: write each collection only when its key is missing. */
    method Init(mockBooks: seq<Book>, mockCategories: seq<Category>)
      modifies this
      ensures books == if old(books).None? then Some(mockBooks) else old(books)
      ensures categories == if old(categories).None? then Some(mockCategories) else old(categories)
      ensures files == if old(files).None? then Some(map[]) else old(files)
      ensures users == if old(users).None? then Some([AdminUser]) else old(users)
      ensures currentUserId == old(currentUserId)
      ensures Initialised()
      ensures old(Initialised()) ==> unchanged(this)
    {
      if books.None? {
        books := Some(mockBooks);
      }
      if categories.None? {
        categories := Some(mockCategories);
      }
      if files.None? {
        files := Some(map[]);
      }
      if users.None? {
        users := Some([AdminUser]);
      }
    }

    method GetBooks() returns (r: seq<Book>)
      ensures books.None? ==> r == []
      ensures books.Some? ==> r == books.value
    {
      r := BookList();
    }

    /** `saveBook`: upsert by id, then write the whole list back. */
    method SaveBook(book: Book)
      modifies this
      ensures books == Some(UpsertBook(old(BookList()), book))
      ensures categories == old(categories) && users == old(users)
      ensures files == old(files) && currentUserId == old(currentUserId)
    {
      var all := GetBooks();
      books := Some(UpsertBook(all, book));
    }

    /** `deleteBook`: drop every book with the id, then `removeFileLocally`. */
    method DeleteBook(id: string)
      modifies this
      ensures books == Some(Filter(old(BookList()), BookIdIsNot(id)))
      ensures Subseq(BookList(), old(BookList()))
      ensures forall b :: b in BookList() <==> b in old(BookList()) && b.id != id
      ensures files == Some(old(FileMap()) - {id})
      ensures LocalFile(FileMap(), id).None?
      ensures match old(SessionUserIndex())
        case None => users == old(users)
        case Some(i) => users == Some(old(UserList())[i := WithoutCachedBook(old(UserList())[i], id)])
      ensures |UserList()| == |old(UserList())|
      ensures forall j :: 0 <= j < |UserList()| && old(SessionUserIndex()) != Some(j) ==>
        UserList()[j] == old(UserList())[j]
      ensures old(SessionUserIndex()).Some? ==> id !in UserList()[old(SessionUserIndex()).value].cachedBookIds
      ensures categories == old(categories) && currentUserId == old(currentUserId)
    {
      var all := GetBooks();
      books := Some(Filter(all, BookIdIsNot(id)));
      RemoveFileLocally(id);
    }

    method GetCategories() returns (r: seq<Category>)
      ensures categories.None? ==> r == []
      ensures categories.Some? ==> r == categories.value
    {
      r := CategoryList();
    }

    /** `saveCategory`: append a category whose id is the clock reading. */
    method SaveCategory(name: string, now: nat)
      modifies this
      ensures categories == Some(old(CategoryList()) + [Category(DecimalString(now), name)])
      ensures books == old(books) && users == old(users)
      ensures files == old(files) && currentUserId == old(currentUserId)
    {
      var all := GetCategories();
      categories := Some(all + [Category(DecimalString(now), name)]);
    }

    /** `deleteCategory`: drop every category with the id; books that name it
        are left alone. */
    method DeleteCategory(id: string)
      modifies this
      ensures categories == Some(Filter(old(CategoryList()), CategoryIdIsNot(id)))
      ensures forall c :: c in CategoryList() <==> c in old(CategoryList()) && c.id != id
      ensures books == old(books) && users == old(users)
      ensures files == old(files) && currentUserId == old(currentUserId)
    {
      var all := GetCategories();
      categories := Some(Filter(all, CategoryIdIsNot(id)));
    }

    /** `login`: the first user with both credentials becomes the session;
        with no match nothing changes and the result is null. */
    method Login(email: string, password: Option<string>) returns (r: Option<User>)
      modifies this
      ensures r == FindByCredentials(old(UserList()), email, password)
      ensures r.Some? ==> currentUserId == Some(r.value.id)
      ensures r.None? ==> currentUserId == old(currentUserId)
      ensures books == old(books) && categories == old(categories)
      ensures users == old(users) && files == old(files)
    {
      r := FindByCredentials(UserList(), email, password);
      if r.Some? {
        currentUserId := Some(r.value.id);
      }
    }

    /** `register`: append a fresh user and make it the session. Email
        uniqueness is not checked. */
    method Register(name: string, email: string, password: Option<string>, now: nat,
                    role: UserRole := USER) returns (u: User)
      modifies this
      ensures u.id == DecimalString(now) && u.id != ""
      ensures u.name == name && u.email == email && u.password == password && u.role == role
      ensures u.favorites == [] && u.readingHistory == [] && u.cachedBookIds == []
      ensures users == Some(old(UserList()) + [u])
      ensures currentUserId == Some(u.id)
      ensures books == old(books) && categories == old(categories) && files == old(files)
    {
      u := NewUser(DecimalString(now), name, email, password, role);
      users := Some(UserList() + [u]);
      currentUserId := Some(u.id);
    }

    /** `getCurrentUser`. */
    method GetCurrentUser() returns (r: Option<User>)
      ensures r.None? <==> SessionUserIndex().None?
      ensures r.Some? ==> r.value == UserList()[SessionUserIndex().value]
      ensures r.Some? ==> currentUserId == Some(r.value.id)
    {
      if currentUserId.None? || currentUserId.value == "" {
        return None;
      }
      var all := UserList();
      var index := FindFirst(all, UserHasId(currentUserId.value));
      r := if index.Some? then Some(all[index.value]) else None;
    }

    /** `updateUser`: replace the first user with the same id and write the
        list back; an unknown id writes nothing. */
    method UpdateUser(updated: User)
      modifies this
      ensures users == if exists i :: 0 <= i < |old(UserList())| && old(UserList())[i].id == updated.id
        then Some(ReplaceUser(old(UserList()), updated)) else old(users)
      ensures books == old(books) && categories == old(categories)
      ensures files == old(files) && currentUserId == old(currentUserId)
    {
      var all := UserList();
      var index := FindFirst(all, UserHasId(updated.id));
      if index.Some? {
        users := Some(ReplaceUser(all, updated));
      }
    }

    /** `logout`: forget the session; nothing else changes. */
    method Logout()
      modifies this
      ensures currentUserId.None? && SessionUserIndex().None?
      ensures books == old(books) && categories == old(categories)
      ensures users == old(users) && files == old(files)
    {
      currentUserId := None;
    }

    /** Replacing the session user by `u` (same id) through `updateUser`
        rewrites exactly that user's slot. */
    method UpdateSessionUser(i: nat, u: User)
      requires SessionUserIndex() == Some(i) && u.id == UserList()[i].id
      modifies this
      ensures users == Some(old(UserList())[i := u])
      ensures books == old(books) && categories == old(categories)
      ensures files == old(files) && currentUserId == old(currentUserId)
    {
      assert IsFirst(UserList(), UserHasId(u.id), i);
      UpdateUser(u);
    }

    /** `saveFileLocally`: store the text under the book id; when that write
        succeeds, the session user's `cachedBookIds` gains the id if absent.
        When it fails (`writeFails`, the caught storage error) nothing changes. */
    method SaveFileLocally(bookId: string, content: string, writeFails: bool)
      modifies this
      ensures writeFails ==> unchanged(this)
      ensures !writeFails ==> files == Some(old(FileMap())[bookId := content])
      ensures !writeFails && content != "" ==> LocalFile(FileMap(), bookId) == Some(content)
      ensures !writeFails && content == "" ==> LocalFile(FileMap(), bookId).None?
      ensures !writeFails ==> forall x :: x != bookId ==> LocalFile(FileMap(), x) == LocalFile(old(FileMap()), x)
      ensures !writeFails ==> match old(SessionUserIndex())
        case None => users == old(users)
        case Some(i) => users == Some(old(UserList())[i := WithCachedBook(old(UserList())[i], bookId)])
      ensures books == old(books) && categories == old(categories) && currentUserId == old(currentUserId)
    {
      var storage := FileMap();
      storage := storage[bookId := content];
      if writeFails {
        return;
      }
      files := Some(storage);
      var user := GetCurrentUser();
      if user.Some? && bookId !in user.value.cachedBookIds {
        var i := SessionUserIndex().value;
        UpdateSessionUser(i, user.value.(cachedBookIds := user.value.cachedBookIds + [bookId]));
      } else if user.Some? {
        assert old(UserList())[old(SessionUserIndex()).value := user.value] == old(UserList());
      }
    }

    /** `removeFileLocally`: delete the stored text and drop the id from the
        session user's `cachedBookIds`. */
    method RemoveFileLocally(bookId: string)
      modifies this
      ensures files == Some(old(FileMap()) - {bookId})
      ensures LocalFile(FileMap(), bookId).None?
      ensures match old(SessionUserIndex())
        case None => users == old(users)
        case Some(i) => users == Some(old(UserList())[i := WithoutCachedBook(old(UserList())[i], bookId)])
      ensures |UserList()| == |old(UserList())|
      ensures forall j :: 0 <= j < |UserList()| && old(SessionUserIndex()) != Some(j) ==>
        UserList()[j] == old(UserList())[j]
      ensures old(SessionUserIndex()).Some? ==> bookId !in UserList()[old(SessionUserIndex()).value].cachedBookIds
      ensures books == old(books) && categories == old(categories) && currentUserId == old(currentUserId)
    {
      var storage := FileMap();
      files := Some(storage - {bookId});
      var user := GetCurrentUser();
      if user.Some? {
        var i := SessionUserIndex().value;
        UpdateSessionUser(i, WithoutCachedBook(user.value, bookId));
      }
    }

    /** `getLocalFile`. */
    method GetLocalFile(bookId: string) returns (r: Option<string>)
      ensures r.Some? <==> bookId in FileMap() && FileMap()[bookId] != ""
      ensures r.Some? ==> r.value == FileMap()[bookId]
    {
      var storage := FileMap();
      r := LocalFile(storage, bookId);
    }

    /** `addToHistory`: for the SESSION user (the `userId` argument is never
        read) put a fresh entry first and drop older entries for the book;
        with no session nothing changes. */
    method AddToHistory(userId: string, bookId: string, now: nat)
      modifies this
      ensures match old(SessionUserIndex())
        case None => users == old(users)
        case Some(i) => users == Some(old(UserList())[i := old(UserList())[i].(readingHistory :=
          MoveToFront(old(UserList())[i].readingHistory, bookId, now))])
      ensures books == old(books) && categories == old(categories)
      ensures files == old(files) && currentUserId == old(currentUserId)
    {
      var user := GetCurrentUser();
      if user.Some? {
        var item := ReadingHistoryItem(bookId, now);
        var cleanHistory := Filter(user.value.readingHistory, EntryIsNotFor(bookId));
        var i := SessionUserIndex().value;
        UpdateSessionUser(i, user.value.(readingHistory := [item] + cleanHistory));
      }
    }
  }
}
