/** The list logic of the application shell (App.tsx): the catalogue shown
    for the current view, category and search text, and the favourites
    toggle, which updates the shown user and persists it through the data
    layer. */
module App {
  import opened Seqs
  import opened Types
  import Db

  /** The screens the shell switches between. */
  datatype View = Home | Admin | Favorites | About | History

  /** The upper-case letters of the Basic Latin and Latin-1 blocks, each of
      which `toLowerCase` maps to the letter 32 code points above it: `A`-`Z`
      and `À`-`Þ` except the multiplication sign. */
  predicate IsUpper(c: char)
  {
    ('A' <= c <= 'Z') || ('\U{00C0}' <= c <= '\U{00DE}' && c != '\U{00D7}')
  }

  /** `toLowerCase` on one character. */
  function LowerChar(c: char): (r: char)
    ensures IsUpper(c) ==> r as int == c as int + 32
    ensures !IsUpper(c) ==> r == c
    ensures !IsUpper(r)
  {
    if IsUpper(c) then (c as int + 32) as char else c
  }

  /** `toLowerCase`: character by character, keeping the length. */
  function Lower(s: string): (r: string)
    ensures |r| == |s|
    ensures forall i :: 0 <= i < |s| ==> r[i] == LowerChar(s[i])
    ensures forall i :: 0 <= i < |r| ==> !IsUpper(r[i])
  {
    Map(s, LowerChar)
  }

  lemma LowerIdempotent(s: string)
    ensures Lower(Lower(s)) == Lower(s)
  {
  }

  /** `s.includes(t)`: `t` is a prefix of `s` or of one of its suffixes. */
  predicate Contains(s: string, t: string)
    decreases |s|
  {
    t <= s || (s != [] && Contains(s[1..], t))
  }

  /** `t` occurs in `s` starting at position `i`. */
  predicate OccursAt(s: string, t: string, i: int)
  {
    0 <= i && i + |t| <= |s| && s[i..i + |t|] == t
  }

  /** `Contains` is the substring test: `t` occurs in `s` at some position. */
  lemma {:induction false} ContainsOccurs(s: string, t: string)
    ensures Contains(s, t) <==> exists i :: OccursAt(s, t, i)
    decreases |s|
  {
    if t <= s {
      assert OccursAt(s, t, 0);
    } else {
      assert OccursAt(s, t, 0) ==> t <= s;
      if s != [] {
        ContainsOccurs(s[1..], t);
        forall i | OccursAt(s[1..], t, i)
          ensures OccursAt(s, t, i + 1)
        {
          assert s[i + 1..i + 1 + |t|] == s[1..][i..i + |t|];
        }
        forall i | OccursAt(s, t, i)
          ensures OccursAt(s[1..], t, i - 1)
        {
          assert s[1..][i - 1..i - 1 + |t|] == s[i..i + |t|];
        }
      }
    }
  }

  /** The search test applied to a lower-cased query `q`. */
  predicate Matches(b: Book, q: string)
  {
    Contains(Lower(b.title), q) || Contains(Lower(b.author), q) || Contains(Lower(b.category), q)
  }

  function IsFavoriteOf(u: User): Book -> bool
  {
    (b: Book) => b.id in u.favorites
  }

  function InCategory(category: string): Book -> bool
  {
    (b: Book) => b.category == category
  }

  function MatchesQuery(q: string): Book -> bool
  {
    (b: Book) => Matches(b, q)
  }

  function KeepAll(): Book -> bool
  {
    (b: Book) => true
  }

  /** Each filtering step as a test; a step that does not apply keeps all. */
  function FavoritesStep(view: View, user: Option<User>): Book -> bool
  {
    if view == Favorites && user.Some? then IsFavoriteOf(user.value) else KeepAll()
  }

  function CategoryStep(view: View, selectedCategory: string): Book -> bool
  {
    if view == Home && selectedCategory != "All" then InCategory(selectedCategory) else KeepAll()
  }

  function SearchStep(searchQuery: string): Book -> bool
  {
    if searchQuery != "" then MatchesQuery(Lower(searchQuery)) else KeepAll()
  }

  /** Whether a book is listed: it passes all three steps. */
  function IsShown(view: View, user: Option<User>, selectedCategory: string, searchQuery: string): Book -> bool
  {
    (b: Book) =>
      FavoritesStep(view, user)(b) && CategoryStep(view, selectedCategory)(b) && SearchStep(searchQuery)(b)
  }

  /** `filteredBooks`: the favourites filter, then the category filter, then
      the case-insensitive search, each applied only when its condition holds. */
  function FilteredBooks(books: seq<Book>, view: View, user: Option<User>,
                         selectedCategory: string, searchQuery: string): (r: seq<Book>)
    ensures r == Filter(books, IsShown(view, user, selectedCategory, searchQuery))
    ensures Subseq(r, books)
    ensures forall b :: b in r <==>
      && b in books
      && (view == Favorites && user.Some? ==> b.id in user.value.favorites)
      && (view == Home && selectedCategory != "All" ==> b.category == selectedCategory)
      && (searchQuery != "" ==> Matches(b, Lower(searchQuery)))
    ensures (!(view == Favorites && user.Some?) && !(view == Home && selectedCategory != "All")
             && searchQuery == "") ==> r == books
  {
    var afterFavorites :=
      if view == Favorites && user.Some? then Filter(books, IsFavoriteOf(user.value)) else books;
    var afterCategory :=
      if selectedCategory != "All" && view == Home
      then Filter(afterFavorites, InCategory(selectedCategory)) else afterFavorites;
    var result :=
      if searchQuery != "" then Filter(afterCategory, MatchesQuery(Lower(searchQuery))) else afterCategory;
    StepsFuse(books, view, user, selectedCategory, searchQuery);
    result
  }

  /** The three conditional steps of `filteredBooks` are one filter by
      `IsShown`. */
  lemma StepsFuse(books: seq<Book>, view: View, user: Option<User>,
                  selectedCategory: string, searchQuery: string)
    ensures var afterFavorites :=
              if view == Favorites && user.Some? then Filter(books, IsFavoriteOf(user.value)) else books;
            var afterCategory :=
              if selectedCategory != "All" && view == Home
              then Filter(afterFavorites, InCategory(selectedCategory)) else afterFavorites;
            var result :=
              if searchQuery != "" then Filter(afterCategory, MatchesQuery(Lower(searchQuery))) else afterCategory;
            result == Filter(books, IsShown(view, user, selectedCategory, searchQuery))
  {
    var f, c, q := FavoritesStep(view, user), CategoryStep(view, selectedCategory), SearchStep(searchQuery);
    var fc := (b: Book) => f(b) && c(b);
    FilterKeepsAll(books, KeepAll());
    FilterKeepsAll(Filter(books, f), KeepAll());
    FilterKeepsAll(Filter(books, fc), KeepAll());
    FilterFuse(books, f, c, fc);
    FilterFuse(books, fc, q, IsShown(view, user, selectedCategory, searchQuery));
  }

  /** The search ignores the case of the query. */
  lemma SearchIgnoresQueryCase(books: seq<Book>, view: View, user: Option<User>,
                               selectedCategory: string, searchQuery: string)
    ensures FilteredBooks(books, view, user, selectedCategory, Lower(searchQuery))
         == FilteredBooks(books, view, user, selectedCategory, searchQuery)
  {
    LowerIdempotent(searchQuery);
    assert (Lower(searchQuery) == "") == (searchQuery == "");
  }

  /** The new favourites list of `toggleFavorite`: remove every occurrence of
      a favourite id, append one that is not there. */
  function ToggledFavorites(favorites: seq<string>, bookId: string): (r: seq<string>)
    ensures bookId in r <==> bookId !in favorites
    ensures bookId in favorites ==> Subseq(r, favorites)
    ensures bookId !in favorites ==> r == favorites + [bookId]
    ensures forall x :: x != bookId ==> (x in r <==> x in favorites)
  {
    if bookId in favorites then Filter(favorites, IsNot(bookId)) else favorites + [bookId]
  }

  /** Removing a favourite drops every copy of its id and keeps every other
      id as often as before. */
  lemma ToggleRemoveCounts(favorites: seq<string>, bookId: string)
    requires bookId in favorites
    ensures multiset(ToggledFavorites(favorites, bookId)) == multiset(favorites)[bookId := 0]
  {
    var r := ToggledFavorites(favorites, bookId);
    forall x
      ensures multiset(r)[x] == multiset(favorites)[bookId := 0][x]
    {
      if x != bookId {
        FilterMultiplicity(favorites, IsNot(bookId), x);
      }
    }
  }

  /** Adding a favourite and toggling it again gives back the old list. */
  lemma ToggleTwiceRestores(favorites: seq<string>, bookId: string)
    requires bookId !in favorites
    ensures ToggledFavorites(ToggledFavorites(favorites, bookId), bookId) == favorites
  {
    FilterAppend(favorites, [bookId], IsNot(bookId));
    FilterKeepsAll(favorites, IsNot(bookId));
    assert Filter([bookId], IsNot(bookId)) == [];
  }

  /** `toggleFavorite`: with no user nothing happens; otherwise the user with
      the toggled list becomes the shown user and is written through
      `updateUser`. */
  method ToggleFavorite(store: Db.Store, user: Option<User>, bookId: string) returns (shown: Option<User>)
    modifies store
    ensures user.None? ==> shown.None? && unchanged(store)
    ensures user.Some? ==> shown == Some(user.value.(favorites := ToggledFavorites(user.value.favorites, bookId)))
    ensures user.Some? ==> (store.users ==
      if exists i :: 0 <= i < |old(store.UserList())| && old(store.UserList())[i].id == user.value.id
      then Some(Db.ReplaceUser(old(store.UserList()), shown.value)) else old(store.users))
    ensures store.books == old(store.books) && store.categories == old(store.categories)
    ensures store.files == old(store.files) && store.currentUserId == old(store.currentUserId)
  {
    if user.None? {
      return None;
    }
    var isFav := bookId in user.value.favorites;
    var updatedUser := user.value.(favorites :=
      if isFav then Filter(user.value.favorites, IsNot(bookId)) else user.value.favorites + [bookId]);
    shown := Some(updatedUser);
    store.UpdateUser(updatedUser);
  }
}
