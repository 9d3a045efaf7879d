/** The book store: one list of books, kept sorted by author and title and
    without two books of the same identity, with operations to list, search,
    add and rename. Each mutating operation is specified by a function from
    the old list to the outcome and the new list (`Added`, `Updated`); the
    class `BookStore` holds the list and its methods follow these functions. */
module BookService {
  import opened IgnoreCase
  import opened BookModel
  import opened Ordering

  /** Why a mutation was refused: the book to add exists already, or the
      new title of a rename is taken by a book of that author. */
  datatype StoreError = Duplicate | Conflict

  /** The outcome of a mutation: done, with a value (`()` for an add,
      found or not for an update), or refused. */
  datatype Result<T> = Ok(value: T) | Err(error: StoreError)

  datatype Option<T> = None | Some(value: T)

  /** An outcome together with the list the store holds afterwards. */
  datatype Step<T> = Step(result: T, books: seq<Book>)

  /** `b` has this author and this title, both ignoring case. */
  predicate HasKey(b: Book, author: string, title: string)
  {
    EqualsIgnoreCase(b.author, author) && EqualsIgnoreCase(b.title, title)
  }

  /** The key test sees only the case-folded arguments: an author and a
      title given in other letter cases select the same books. */
  lemma HasKeyIgnoresArgumentCase(b: Book, author: string, title: string, author': string, title': string)
    requires EqualsIgnoreCase(author, author') && EqualsIgnoreCase(title, title')
    ensures HasKey(b, author, title) == HasKey(b, author', title')
  {
  }

  /** `IsBookByAuthorExist`: some book has this author and title, ignoring
      case. */
  function IsBookByAuthorExist(books: seq<Book>, author: string, title: string): (r: bool)
    ensures r <==> exists i :: 0 <= i < |books| && HasKey(books[i], author, title)
  {
    if books == [] then false
    else if HasKey(books[0], author, title) then true
    else
      var r := IsBookByAuthorExist(books[1..], author, title);
      assert forall i :: 0 < i < |books| ==> books[i] == books[1..][i - 1];
      r
  }

  /** Position of the first book with this author and title, ignoring case,
      as `FirstOrDefault` finds it. */
  function FirstWithKey(books: seq<Book>, author: string, title: string): (r: Option<nat>)
    ensures r.Some? ==> r.value < |books| && HasKey(books[r.value], author, title)
    ensures forall j :: 0 <= j < |books| && (r.None? || j < r.value) ==> !HasKey(books[j], author, title)
  {
    if books == [] then None
    else if HasKey(books[0], author, title) then Some(0)
    else
      var r := FirstWithKey(books[1..], author, title);
      assert forall j :: 0 < j < |books| ==> books[j] == books[1..][j - 1];
      match r
      case None => None
      case Some(i) => Some(i + 1)
  }

  /** Both lookups give the same answer for an author and a title given in
      other letter cases: the same existence and the same first position.
      It follows from their contracts, which fix each answer by the key test
      alone. */
  lemma LookupIgnoresArgumentCase(books: seq<Book>, author: string, title: string, author': string, title': string)
    requires EqualsIgnoreCase(author, author') && EqualsIgnoreCase(title, title')
    ensures IsBookByAuthorExist(books, author, title) == IsBookByAuthorExist(books, author', title')
    ensures FirstWithKey(books, author, title) == FirstWithKey(books, author', title')
  {
  }

  /** `r` is `s` with some of its elements left out, the rest in order. */
  ghost predicate IsSubsequence(r: seq<Book>, s: seq<Book>)
    decreases |s|
  {
    r == [] || (s != [] && ((r[0] == s[0] && IsSubsequence(r[1..], s[1..])) || IsSubsequence(r, s[1..])))
  }

  /** The books whose title contains the keyword ignoring case, in list
      order (`Where(...).ToList()`). */
  function BooksByKeyword(books: seq<Book>, keyword: string): (r: seq<Book>)
    ensures forall b :: b in r ==> ContainsIgnoreCase(b.title, keyword)
    ensures forall b :: multiset(r)[b] == if ContainsIgnoreCase(b.title, keyword) then multiset(books)[b] else 0
    ensures IsSubsequence(r, books)
  {
    if books == [] then []
    else
      var rest := BooksByKeyword(books[1..], keyword);
      assert books == [books[0]] + books[1..];
      if ContainsIgnoreCase(books[0].title, keyword) then
        assert ([books[0]] + rest)[1..] == rest;
        [books[0]] + rest
      else
        rest
  }

  /** The list with the title of the book at position `i` replaced: that
      book keeps its author and pages, every other book stays as it is. */
  function Renamed(books: seq<Book>, i: nat, newTitle: string): (r: seq<Book>)
    requires i < |books|
    ensures |r| == |books|
    ensures r[i].title == newTitle && r[i].author == books[i].author && r[i].pages == books[i].pages
    ensures forall j :: 0 <= j < |books| && j != i ==> r[j] == books[j]
  {
    books[i := books[i].(title := newTitle)]
  }

  /** A fresh book appended to a list without repeated identities keeps it
      so. */
  lemma UniqueAppend(books: seq<Book>, book: Book)
    requires Unique(books)
    requires !IsBookByAuthorExist(books, book.author, book.title)
    ensures Unique(books + [book])
  {
    assert Fresh(book, books) by {
      forall y | y in books ensures !SameIdentity(book, y) {
        var j :| 0 <= j < |books| && books[j] == y;
        assert !HasKey(books[j], book.author, book.title);
      }
    }
    UniqueInsertAt(books, |books|, book);
    assert books[..|books|] + [book] + books[|books|..] == books + [book];
  }

  /** Renaming a book of `author` to a title no book of `author` has,
      ignoring case, keeps a list without repeated identities so. */
  lemma UniqueRename(books: seq<Book>, i: nat, author: string, newTitle: string)
    requires i < |books| && EqualsIgnoreCase(books[i].author, author)
    requires Unique(books)
    requires !IsBookByAuthorExist(books, author, newTitle)
    ensures Unique(Renamed(books, i, newTitle))
  {
    var r := Renamed(books, i, newTitle);
    forall j, k | 0 <= j < k < |r| ensures !SameIdentity(r[j], r[k]) {
      if j == i {
        assert !HasKey(books[k], author, newTitle);
      } else if k == i {
        assert !HasKey(books[j], author, newTitle);
      } else {
        assert r[j] == books[j] && r[k] == books[k];
      }
    }
  }

  /** A successful add, the append followed by the re-sort, keeps a list
      without repeated identities so. */
  lemma AddKeepsUnique(books: seq<Book>, book: Book)
    requires !IsBookByAuthorExist(books, book.author, book.title)
    ensures Unique(books) ==> Unique(SortBooks(books + [book]))
  {
    if Unique(books) {
      UniqueAppend(books, book);
      UniquePermutation(books + [book], SortBooks(books + [book]));
    }
  }

  /** A successful rename, the title change followed by the re-sort, keeps a
      list without repeated identities so. */
  lemma RenameKeepsUnique(books: seq<Book>, i: nat, author: string, newTitle: string)
    requires i < |books| && EqualsIgnoreCase(books[i].author, author)
    requires !IsBookByAuthorExist(books, author, newTitle)
    ensures Unique(books) ==> Unique(SortBooks(Renamed(books, i, newTitle)))
  {
    if Unique(books) {
      UniqueRename(books, i, author, newTitle);
      UniquePermutation(Renamed(books, i, newTitle), SortBooks(Renamed(books, i, newTitle)));
    }
  }

  /** `AddBookAsync` on the list `books`: refused with Duplicate, leaving
      the list as it is, when a book of the same author and title exists
      ignoring case; otherwise the new list is the old one with the book
      added, sorted by author and title, stably. */
  function Added(books: seq<Book>, book: Book): (r: Step<Result<()>>)
    ensures IsBookByAuthorExist(books, book.author, book.title) ==> r == Step(Err(Duplicate), books)
    ensures !IsBookByAuthorExist(books, book.author, book.title) ==> r.result == Ok(())
    ensures r.result == Ok(()) ==>
              && Sorted(r.books)
              && multiset(r.books) == multiset(books) + multiset{book}
              && (forall author, title {:trigger WithSortKey(r.books, author, title)} ::
                    WithSortKey(r.books, author, title) == WithSortKey(books + [book], author, title))
    ensures Unique(books) ==> Unique(r.books)
  {
    if IsBookByAuthorExist(books, book.author, book.title) then
      Step(Err(Duplicate), books)
    else
      AddKeepsUnique(books, book);
      Step(Ok(()), SortBooks(books + [book]))
  }

  /** `UpdateBookAsync` on the list `books`: Ok(false) and no change when no
      book has `author` and `oldTitle` ignoring case; Conflict and no change
      when some book, the target included, has `author` and `newTitle`
      ignoring case; otherwise Ok(true), and the new list is the old one with
      the first matching book renamed, sorted by author and title, stably. */
  function Updated(books: seq<Book>, author: string, oldTitle: string, newTitle: string): (r: Step<Result<bool>>)
    ensures FirstWithKey(books, author, oldTitle).None? ==> r == Step(Ok(false), books)
    ensures (FirstWithKey(books, author, oldTitle).Some? && IsBookByAuthorExist(books, author, newTitle))
              ==> r == Step(Err(Conflict), books)
    ensures r.result == Ok(true) <==>
              FirstWithKey(books, author, oldTitle).Some? && !IsBookByAuthorExist(books, author, newTitle)
    ensures r.result == Ok(true) ==>
              var i := FirstWithKey(books, author, oldTitle).value;
              && Sorted(r.books)
              && multiset(r.books) == multiset(Renamed(books, i, newTitle))
              && (forall a, t {:trigger WithSortKey(r.books, a, t)} ::
                    WithSortKey(r.books, a, t) == WithSortKey(Renamed(books, i, newTitle), a, t))
    ensures Unique(books) ==> Unique(r.books)
  {
    match FirstWithKey(books, author, oldTitle)
    case None => Step(Ok(false), books)
    case Some(i) =>
      if IsBookByAuthorExist(books, author, newTitle) then
        Step(Err(Conflict), books)
      else
        RenameKeepsUnique(books, i, author, newTitle);
        Step(Ok(true), SortBooks(Renamed(books, i, newTitle)))
  }

  /** Renaming a book to its own title, or to one equal to it ignoring case,
      is refused as a conflict with the book itself. */
  lemma RenameToSameTitleConflicts(books: seq<Book>, author: string, oldTitle: string, newTitle: string)
    requires FirstWithKey(books, author, oldTitle).Some?
    requires EqualsIgnoreCase(oldTitle, newTitle)
    ensures Updated(books, author, oldTitle, newTitle) == Step(Err(Conflict), books)
  {
    var i := FirstWithKey(books, author, oldTitle).value;
    assert HasKey(books[i], author, newTitle);
  }

  /** The store. `books` is the list it owns; each successful mutation is
      followed by a save of the whole list to the XML file, which is not
      part of this model. */
  class BookStore {
    var books: seq<Book>

    /** The invariant the mutations keep: sorted, no repeated identity. */
    ghost predicate Valid()
      reads this
    {
      Sorted(books) && Unique(books)
    }

    /** `loaded` is the list read from the XML file, or the empty list when
        there is no file. It is taken as it is: neither sorted nor checked. */
    constructor (loaded: seq<Book>)
      ensures books == loaded
    {
      books := loaded;
    }

    /** `GetAllBooksAsync` */
    method GetAllBooks() returns (r: seq<Book>)
      ensures r == books
    {
      r := books;
    }

    /** `GetBookByKeywordAsync` */
    method GetBookByKeyword(keyword: string) returns (r: seq<Book>)
      ensures r == BooksByKeyword(books, keyword)
    {
      r := BooksByKeyword(books, keyword);
    }

    /** `AddBookAsync` */
    method AddBook(book: Book) returns (outcome: Result<()>)
      modifies this
      ensures outcome == Added(old(books), book).result
      ensures books == Added(old(books), book).books
      ensures outcome.Err? ==> books == old(books)
      ensures old(Valid()) ==> Valid()
    {
      if IsBookByAuthorExist(books, book.author, book.title) {
        return Err(Duplicate);
      }
      books := books + [book];
      books := SortBooks(books);
      // SaveToXmlAsync: writes the whole list to the file
      outcome := Ok(());
    }

    /** `UpdateBookAsync` */
    method UpdateBook(author: string, oldTitle: string, newTitle: string) returns (r: Result<bool>)
      modifies this
      ensures r == Updated(old(books), author, oldTitle, newTitle).result
      ensures books == Updated(old(books), author, oldTitle, newTitle).books
      ensures r != Ok(true) ==> books == old(books)
      ensures old(Valid()) ==> Valid()
    {
      var found := FirstWithKey(books, author, oldTitle);
      if found.None? {
        return Ok(false);
      }
      if IsBookByAuthorExist(books, author, newTitle) {
        return Err(Conflict);
      }
      var i := found.value;
      books := books[i := books[i].(title := newTitle)];
      books := SortBooks(books);
      // SaveToXmlAsync: writes the whole list to the file
      r := Ok(true);
    }
  }
}
