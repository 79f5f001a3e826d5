/** The reading-history screen (components/HistoryView.tsx): each history
    entry is joined with the first book that has its id, and entries whose
    book no longer exists are dropped. */
module HistoryView {
  import opened Seqs
  import opened Types

  /** `{ ...h, book }`: a history entry with the book `find` returned
      (`None` for `undefined`). */
  datatype HistoryRow = HistoryRow(bookId: string, readAt: nat, book: Option<Book>)

  /** `books.find(b => b.id === id)`. */
  function FindBook(books: seq<Book>, id: string): (r: Option<Book>)
    ensures r.None? <==> forall i :: 0 <= i < |books| ==> books[i].id != id
    ensures r.Some? ==> exists i :: IsFirst(books, BookHasId(id), i) && r.value == books[i]
  {
    match FindFirst(books, BookHasId(id))
    case Some(i) => Some(books[i])
    case None => None
  }

  function Lookup(books: seq<Book>): ReadingHistoryItem -> HistoryRow
  {
    (h: ReadingHistoryItem) => HistoryRow(h.bookId, h.readAt, FindBook(books, h.bookId))
  }

  /** `item => item.book !== undefined`. */
  function HasBook(): HistoryRow -> bool
  {
    (row: HistoryRow) => row.book.Some?
  }

  /** The history entry a row was made from. */
  function Entry(row: HistoryRow): ReadingHistoryItem
  {
    ReadingHistoryItem(row.bookId, row.readAt)
  }

  /** Whether some book in the list has the entry's book id. */
  function BookExists(books: seq<Book>): ReadingHistoryItem -> bool
  {
    (h: ReadingHistoryItem) => exists i :: 0 <= i < |books| && books[i].id == h.bookId
  }

  lemma MapCons<T, U>(x: T, s: seq<T>, f: T -> U)
    ensures Map([x] + s, f) == [f(x)] + Map(s, f)
  {
    assert forall i :: 1 <= i < |s| + 1 ==> ([x] + s)[i] == s[i - 1];
  }

  /** Stripping the books off the joined rows gives the history entries whose
      book exists, in history order. */
  lemma {:induction false} JoinedEntries(history: seq<ReadingHistoryItem>, books: seq<Book>)
    ensures Map(Filter(Map(history, Lookup(books)), HasBook()), Entry) == Filter(history, BookExists(books))
    decreases |history|
  {
    if history != [] {
      var h := history[0];
      assert history == [h] + history[1..];
      MapCons(h, history[1..], Lookup(books));
      JoinedEntries(history[1..], books);
      var rows := Filter(Map(history[1..], Lookup(books)), HasBook());
      if BookExists(books)(h) {
        assert HasBook()(Lookup(books)(h));
        MapCons(Lookup(books)(h), rows, Entry);
      } else {
        assert !HasBook()(Lookup(books)(h));
      }
    }
  }

  /** `historyItems`: map each entry to a row with its book, keep the rows
      that found one. */
  function HistoryItems(history: seq<ReadingHistoryItem>, books: seq<Book>): (r: seq<HistoryRow>)
    ensures |r| <= |history|
    ensures Map(r, Entry) == Filter(history, BookExists(books))
    ensures Subseq(Map(r, Entry), history)
    ensures forall h :: h in Map(r, Entry) <==>
      h in history && exists i :: 0 <= i < |books| && books[i].id == h.bookId
    ensures forall k :: 0 <= k < |r| ==>
      r[k].book.Some? && exists i :: IsFirst(books, BookHasId(r[k].bookId), i) && r[k].book.value == books[i]
  {
    var rows := Map(history, Lookup(books));
    var kept := Filter(rows, HasBook());
    JoinedEntries(history, books);
    FilterLength(rows, HasBook());
    assert forall k :: 0 <= k < |kept| ==> kept[k] in rows;
    kept
  }
}
