# Book store model

A Dafny model of the book store of XmlBooksLibrary, the `BookService` class.
The store owns one list of books. Each book has an author, a title and a
number of pages. The store offers four operations on the list:

- list everything;
- search titles for a keyword, ignoring case;
- add a book, refused when a book with the same author and title exists
  ignoring case;
- rename a book, found by author and old title ignoring case, refused when
  the author already has the new title ignoring case.

After every successful mutation the list is re-sorted by author and then by
title, and the whole list is written back to an XML file.

Files and modules:

- `IgnoreCase.dfy` models `StringComparison.OrdinalIgnoreCase`. Strings are
  compared after a per-character fold (`FoldChar`, ASCII a-z to A-Z).
  `Equals` becomes equality of folded strings. `Contains` becomes a
  contiguous occurrence of the folded keyword in the folded title.
- `BookModel.dfy` holds `Book`, the `BookModel` record of
  XmlBooksLibrary.Business/Models/BookModel.cs:3-8, and a book's
  identity: author and title, compared ignoring case. It also defines
  `Unique`, the property that no two books share an identity, and proves
  that reordering a list cannot break it.
- `Ordering.dfy` models `OrderBy(b => b.Author).ThenBy(b => b.Title)`. The
  order is lexicographic by character code. The sort is an insertion sort,
  proved sorted, a permutation of its input and stable. Stability means that
  for every (author, title) key, the books with exactly that key keep their
  relative order.
- `BookService.dfy` holds the queries `IsBookByAuthorExist`, `FirstWithKey`
  (the `FirstOrDefault` lookup) and `BooksByKeyword` (the `Where` filter). It
  gives each mutation as a function from the old list to an outcome and the
  new list: `Added` and `Updated`. The class `BookStore` holds the list as a
  `seq<Book>` field. Its methods update that field step by step, as the
  source does, and are proved to match those functions.
- `Scenarios.dfy` works a few concrete cases: a keyword search in several
  letter cases, a duplicate add that differs only in case, and a rename
  followed by a search.

Two behaviours of the code that a reader might not expect, both modelled as
the code has them:

- The rename conflict check scans the whole list, including the book being
  renamed. So renaming a book to its own title, in any letter case, is
  refused as a conflict (`RenameToSameTitleConflicts`).
- The list read from the file at construction is neither sorted nor checked
  for duplicates. So the invariant (sorted, no repeated identity) is not
  established by the constructor. Each mutation preserves it
  (`old(Valid()) ==> Valid()`), and each successful mutation leaves the list
  sorted whatever it held before.

Errors that the source raises as exceptions are one result type here,
`Result`: `Err(Duplicate)` from add, `Err(Conflict)` from update. "Not found" on
update is `Ok(false)`, as the source's `false` return.

## Model

| member | source | states |
|---|---|---|
| `IgnoreCase.FoldChar` | XmlBooksLibrary.Business/Services/BookService.cs:68 | the per-character fold of OrdinalIgnoreCase: a lower-case ASCII letter becomes its upper-case letter, any other character stays; no folded character is a lower-case letter |
| `IgnoreCase.EqualsIgnoreCase` | XmlBooksLibrary.Business/Services/BookService.cs:122-123 | `Equals(…, OrdinalIgnoreCase)`: equal folded strings; equal strings are equal ignoring case, and strings equal ignoring case have the same length |
| `IgnoreCase.EqualsIgnoreCaseCharwise` | XmlBooksLibrary.Business/Services/BookService.cs:122-123 | equal ignoring case means same length and equal folded characters at every position |
| `IgnoreCase.EqualsIgnoreCaseIsEquivalence` | XmlBooksLibrary.Business/Services/BookService.cs:122-123 | equality ignoring case is reflexive, symmetric and transitive |
| `IgnoreCase.FoldIdempotent` | XmlBooksLibrary.Business/Services/BookService.cs:122-123 | folding twice is folding once; a folded string equals its source ignoring case |
| `IgnoreCase.IsInfix` | XmlBooksLibrary.Business/Services/BookService.cs:38 | true exactly when the keyword occurs at some position of the text |
| `IgnoreCase.ContainsIgnoreCase` | XmlBooksLibrary.Business/Services/BookService.cs:38 | `Contains(keyword, OrdinalIgnoreCase)` holds exactly when the folded keyword occurs in the folded title |
| `IgnoreCase.ContainsIgnoreCaseBounds` | XmlBooksLibrary.Business/Services/BookService.cs:38 | the empty keyword matches every title; a title contains every keyword it equals ignoring case; a contained keyword is no longer than the title |
| `IgnoreCase.ContainsIgnoresKeywordCase` | XmlBooksLibrary.Business/Services/BookService.cs:38 | keywords equal ignoring case match the same titles |
| `BookModel.UniquePermutation` | XmlBooksLibrary.Business/Services/BookService.cs:125-126 | re-sorting (any permutation) keeps the list free of two books with the same author and title ignoring case |
| `Ordering.LexLe` | XmlBooksLibrary.Business/Services/BookService.cs:126 | the string order used for author and title: a prefix comes no later than the string it starts, and a string comes no later than another only if its first character is no larger |
| `Ordering.BookLe` | XmlBooksLibrary.Business/Services/BookService.cs:126 | the `OrderBy(Author).ThenBy(Title)` order: books with different authors are ordered by author alone, and a book comes no later than another only if its author does |
| `Ordering.LexLeTotal` | XmlBooksLibrary.Business/Services/BookService.cs:126 | any two strings are comparable in the string order |
| `Ordering.LexLeTransitive` | XmlBooksLibrary.Business/Services/BookService.cs:126 | the string order is transitive |
| `Ordering.LexLeAntisymmetric` | XmlBooksLibrary.Business/Services/BookService.cs:126 | strings each at most the other are equal |
| `Ordering.BookLeTotalPreorder` | XmlBooksLibrary.Business/Services/BookService.cs:126 | the (author, then title) order on books is a total preorder, and its ties are exactly the books with equal author and equal title |
| `Ordering.Insert` | XmlBooksLibrary.Business/Services/BookService.cs:126 | inserting adds exactly one copy of the book, keeps a sorted list sorted, and places the book ahead of every book with its key |
| `Ordering.SortBooks` | XmlBooksLibrary.Business/Services/BookService.cs:125-126 | the result is sorted by author then title, is a permutation of the input, and keeps the input's order among books with the same key (stable) |
| `Ordering.SortedPermutationsAgree` | XmlBooksLibrary.Business/Services/BookService.cs:125-126 | on a list without repeated identities, any two sorted permutations are the same list |
| `BookService.HasKeyIgnoresArgumentCase` | XmlBooksLibrary.Business/Services/BookService.cs:122-123 | the lambda of `Any` and `FirstOrDefault` gives the same answer for an author and a title written in other letter cases |
| `BookService.LookupIgnoresArgumentCase` | XmlBooksLibrary.Business/Services/BookService.cs:68 | `IsBookByAuthorExist` and the `FirstOrDefault` lookup give the same answer and the same first book for an author and a title written in other letter cases, so an update given "FRANK herbert" and "dune" finds "Frank Herbert"/"Dune" |
| `BookService.IsBookByAuthorExist` | XmlBooksLibrary.Business/Services/BookService.cs:122-123 | true exactly when some book has the author and the title, both ignoring case |
| `BookService.FirstWithKey` | XmlBooksLibrary.Business/Services/BookService.cs:68 | finds a matching book, with no match before it; finds nothing exactly when no book matches |
| `BookService.BooksByKeyword` | XmlBooksLibrary.Business/Services/BookService.cs:38 | every book of the result has the keyword in its title ignoring case; each matching book occurs as often as in the list, the others never; the result is a subsequence of the list |
| `BookService.Renamed` | XmlBooksLibrary.Business/Services/BookService.cs:76 | the target book gets the new title and keeps its author and pages; every other book is unchanged |
| `BookService.UniqueAppend` | XmlBooksLibrary.Business/Services/BookService.cs:50-53 | appending a book whose author and title are not present keeps the list without repeated identities |
| `BookService.UniqueRename` | XmlBooksLibrary.Business/Services/BookService.cs:73-76 | renaming to a title the author does not have keeps the list without repeated identities |
| `BookService.AddKeepsUnique` | XmlBooksLibrary.Business/Services/BookService.cs:50-54 | when the duplicate check passes, appending and re-sorting keep the list without repeated identities |
| `BookService.RenameKeepsUnique` | XmlBooksLibrary.Business/Services/BookService.cs:73-78 | when the conflict check passes, renaming and re-sorting keep the list without repeated identities |
| `BookService.Added` | XmlBooksLibrary.Business/Services/BookService.cs:46-62 | duplicate (ignoring case) gives Err(Duplicate) and the old list; otherwise Ok(()), and the list is sorted, a permutation of old list plus the book, stable; uniqueness is preserved |
| `BookService.Updated` | XmlBooksLibrary.Business/Services/BookService.cs:64-87 | no match gives Ok(false) and the old list; (author, newTitle) present gives Err(Conflict) and the old list; otherwise Ok(true) and a sorted, stable permutation of the list with the first match renamed; uniqueness is preserved |
| `BookService.RenameToSameTitleConflicts` | XmlBooksLibrary.Business/Services/BookService.cs:73-74 | renaming a found book to a title equal to its old one ignoring case is refused with Conflict, list unchanged |
| `BookService.BookStore.constructor` | XmlBooksLibrary.Business/Services/BookService.cs:19-30 | the store starts with the list loaded from the file, as it is |
| `BookService.BookStore.GetAllBooks` | XmlBooksLibrary.Business/Services/BookService.cs:32 | returns the current list and changes nothing |
| `BookService.BookStore.GetBookByKeyword` | XmlBooksLibrary.Business/Services/BookService.cs:34-44 | returns the keyword search over the current list and changes nothing |
| `BookService.BookStore.AddBook` | XmlBooksLibrary.Business/Services/BookService.cs:46-62 | outcome and new list are those of `Added`; a refused add leaves the list unchanged; sorted and unique is preserved |
| `BookService.BookStore.UpdateBook` | XmlBooksLibrary.Business/Services/BookService.cs:64-87 | outcome and new list are those of `Updated`; anything but Ok(true) leaves the list unchanged; sorted and unique is preserved |
| `Scenarios.KeywordSearchIgnoresCase` | XmlBooksLibrary.Business/Services/BookService.cs:38 | "Harry Potter" is found by "harry", "Potter" and "otte", and not by "Granger" |
| `Scenarios.AddCaseVariantIsDuplicate` | XmlBooksLibrary.Business/Services/BookService.cs:50-53 | a second add of the same author and title in other letter cases is refused with Duplicate, list unchanged |
| `Scenarios.RenameThenSearch` | XmlBooksLibrary.Business/Services/BookService.cs:64-81 | renaming the only book succeeds, and searching for "New" then finds exactly that book |

## Left out

- XML load and save (`LoadFromXmlAsync`, `SaveToXmlAsync`, BookService.cs:89-120): file I/O through `XmlSerializer`. The constructor takes the loaded list (the empty list when there is no file). The save after a mutation is a no-op. So the model has no load error.
- A save that throws: in the source the list has already been changed when `SaveToXmlAsync` fails, so memory and file disagree. The model's save cannot fail, so this hazard is not captured.
- Async `Task` wrappers, the wrapping of every exception into a generic exception, and the message strings. Outcomes are the result type `Result`.
- The default culture-sensitive string comparer used by `OrderBy`/`ThenBy`. The model orders strings lexicographically by character code.
- Unicode case mapping of `OrdinalIgnoreCase`. `FoldChar` folds only the ASCII letters.
- Aliasing of `BookModel` objects. In the source a book is a mutable reference object: `AddBookAsync` stores the caller's object, `GetAllBooksAsync` returns the live list, and the rename writes to a shared object. A caller holding such a reference could change the list behind the store's back. The model treats books and lists as values, so such outside changes are not captured.
- `null` strings. The model's strings are never null. In the source:
  - A `null` keyword makes the search throw once `Contains(null, …)` runs on some book (BookService.cs:38). On an empty list the filter never runs, and the search returns the empty list.
  - A `null` author or title passed to update or add throws nothing, because `String.Equals(…, OrdinalIgnoreCase)` with a null argument is false (BookService.cs:68, 123). So `UpdateBookAsync` with a null author returns false, and a book with a null author or title is added and saved.
  - The re-sort puts a book with a null author before all other books. It puts a book with a null title before the other books of its author only, since the title decides only among equal authors (BookService.cs:126).
  - The search reads only titles (BookService.cs:38), so a stored null title makes a later search throw, and a stored null author does not. The lookups of add and update read the author first (BookService.cs:68, 123), so a stored null author makes them throw when they reach it. A stored null title makes them throw only when they reach it on a book whose author matches.
- The library's HTTP controller, the service interface and the unit tests. The controller is an adapter that checks for blank input for search and add (it passes the arguments of update unchecked) and maps results to status codes. The interface only declares the operations. The tests exercise a mock, not the store.
- Concurrency: the source has no locking, and the model is sequential.
