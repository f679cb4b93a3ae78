/**
 * The book list store of stores/book-store.ts: the listed books, whether the list has
 * been loaded once (`hasHydrated`) and whether a reload is under way (`isLoading`).
 *
 * The feature calls it awaits (`listBooks`, `createBook`, `renameBook`,
 * `clearAllBooksAndNodes`) are inputs: what each call resolved to, or the error it
 * threw. `Date.now()` is the parameter `now`.
 */
module BookStore {
  import opened Wrappers
  import Strings

  /** An `OutlineBook`. */
  datatype Book = Book(id: string, title: string, createdAt: int, updatedAt: int)

  /** What a feature call threw. */
  datatype Thrown = Thrown(message: string)

  /**
   * One book after `renameBook(bookId, title)`: the book with that id takes the trimmed
   * title, or keeps its own when the trimmed title is empty, and is stamped `now`.
   */
  function RenamedBook(b: Book, bookId: string, title: string, now: int): (r: Book)
    ensures r.id == b.id && r.createdAt == b.createdAt
    ensures b.id != bookId ==> r == b
    ensures b.id == bookId ==> r.updatedAt == now
    ensures b.id == bookId && Strings.AllWhitespace(title) ==> r.title == b.title
    ensures b.id == bookId && !Strings.AllWhitespace(title) ==> r.title == Strings.Trim(title)
  {
    Strings.TrimEmptyIffBlank(title);
    if b.id == bookId then
      var trimmed := Strings.Trim(title);
      b.(title := if trimmed == "" then b.title else trimmed, updatedAt := now)
    else b
  }

  /** The list after `renameBook`: same length and order, only books with the id change. */
  function Renamed(books: seq<Book>, bookId: string, title: string, now: int): (r: seq<Book>)
    ensures |r| == |books|
    ensures forall i | 0 <= i < |books| :: r[i] == RenamedBook(books[i], bookId, title, now)
  {
    seq(|books|, i requires 0 <= i < |books| => RenamedBook(books[i], bookId, title, now))
  }

  /** Renaming a book that is not listed leaves the list as it was. */
  lemma RenameUnlistedKeeps(books: seq<Book>, bookId: string, title: string, now: int)
    requires forall i | 0 <= i < |books| :: books[i].id != bookId
    ensures Renamed(books, bookId, title, now) == books
  {
    var r := Renamed(books, bookId, title, now);
    assert forall i | 0 <= i < |books| :: r[i] == books[i];
  }

  /** Repeating a rename (at the same time) changes nothing more. */
  lemma RenameIdempotent(books: seq<Book>, bookId: string, title: string, now: int)
    ensures Renamed(Renamed(books, bookId, title, now), bookId, title, now) == Renamed(books, bookId, title, now)
  {
    var once := Renamed(books, bookId, title, now);
    var twice := Renamed(once, bookId, title, now);
    Strings.TrimIdempotent(title);
    Strings.TrimEmptyIffBlank(title);
    Strings.TrimEmptyIffBlank(Strings.Trim(title));
    assert forall i | 0 <= i < |books| :: twice[i] == once[i];
  }

  class BookStoreState {
    var books: seq<Book>
    var hasHydrated: bool
    var isLoading: bool

    constructor()
      ensures books == [] && !hasHydrated && !isLoading
    {
      books, hasHydrated, isLoading := [], false, false;
    }

    /**
     * `refreshBooks`: replaces the list with what `listBooks` returned; `isLoading` is
     * false again afterwards whether or not the listing threw.
     */
    method RefreshBooks(listing: Result<seq<Book>, Thrown>) returns (r: Result<(), Thrown>)
      modifies this
      ensures !isLoading && hasHydrated == old(hasHydrated)
      ensures listing.Ok? ==> r == Ok(()) && books == listing.value
      ensures listing.Err? ==> r == Err(listing.error) && books == old(books)
    {
      isLoading := true;
      match listing {
        case Ok(rows) =>
          books := rows;
          isLoading := false;
          return Ok(());
        case Err(e) =>
          isLoading := false;
          return Err(e);
      }
    }

    /**
     * `hydrate`: loads the list once. Once hydrated it does nothing; a listing that
     * throws leaves the store unhydrated, so the next call tries again.
     */
    method Hydrate(listing: Result<seq<Book>, Thrown>) returns (r: Result<(), Thrown>)
      modifies this
      ensures old(hasHydrated) ==> r == Ok(()) && books == old(books) && hasHydrated && isLoading == old(isLoading)
      ensures !old(hasHydrated) ==> !isLoading
      ensures !old(hasHydrated) && listing.Ok? ==> r == Ok(()) && books == listing.value && hasHydrated
      ensures !old(hasHydrated) && listing.Err? ==> r == Err(listing.error) && books == old(books) && !hasHydrated
    {
      if hasHydrated {
        return Ok(());
      }
      r := RefreshBooks(listing);
      if r.Err? {
        return;
      }
      hasHydrated := true;
    }

    /** `createBook`: the created book goes first, the others keep their order. */
    method CreateBook(created: Result<Book, Thrown>) returns (r: Result<Book, Thrown>)
      modifies this
      ensures r == created
      ensures hasHydrated == old(hasHydrated) && isLoading == old(isLoading)
      ensures created.Ok? ==> books == [created.value] + old(books)
      ensures created.Err? ==> books == old(books)
    {
      if created.Err? {
        return created;
      }
      books := [created.value] + books;
      return created;
    }

    /** `renameBook`: once the stored rename went through, the listed book is renamed too. */
    method RenameBook(bookId: string, title: string, renamed: Result<(), Thrown>, now: int) returns (r: Result<(), Thrown>)
      modifies this
      ensures r == renamed
      ensures hasHydrated == old(hasHydrated) && isLoading == old(isLoading)
      ensures renamed.Ok? ==> books == Renamed(old(books), bookId, title, now)
      ensures renamed.Err? ==> books == old(books)
    {
      if renamed.Err? {
        return renamed;
      }
      books := Renamed(books, bookId, title, now);
      return renamed;
    }

    /**
     * `clearAllBooks`: after clearing storage, the list is reloaded and the store counts
     * as hydrated; if either call throws, the store is left as it was.
     */
    method ClearAllBooks(cleared: Result<(), Thrown>, listing: Result<seq<Book>, Thrown>) returns (r: Result<(), Thrown>)
      modifies this
      ensures isLoading == old(isLoading)
      ensures cleared.Err? ==> r == cleared && books == old(books) && hasHydrated == old(hasHydrated)
      ensures cleared.Ok? && listing.Err? ==> r == Err(listing.error) && books == old(books) && hasHydrated == old(hasHydrated)
      ensures cleared.Ok? && listing.Ok? ==> r == Ok(()) && books == listing.value && hasHydrated
    {
      if cleared.Err? {
        return cleared;
      }
      if listing.Err? {
        return Err(listing.error);
      }
      books, hasHydrated := listing.value, true;
      return Ok(());
    }
  }
}
