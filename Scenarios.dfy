/** Worked cases of the store's behaviour on small concrete lists. */
module Scenarios {
  import opened IgnoreCase
  import opened BookModel
  import opened Ordering
  import opened BookService

  /** A title is found by keywords in any case and at any position. */
  lemma KeywordSearchIgnoresCase()
    ensures ContainsIgnoreCase("Harry Potter", "harry")
    ensures ContainsIgnoreCase("Harry Potter", "Potter")
    ensures ContainsIgnoreCase("Harry Potter", "otte")
    ensures !ContainsIgnoreCase("Harry Potter", "Granger")
  {
    assert OccursAt(Fold("harry"), Fold("Harry Potter"), 0);
    assert OccursAt(Fold("Potter"), Fold("Harry Potter"), 6);
    assert OccursAt(Fold("otte"), Fold("Harry Potter"), 7);
    assert Fold("Harry Potter") == "HARRY POTTER";
    assert Fold("Granger") == "GRANGER";
    var t := "HARRY POTTER";
    assert 'G' !in t;
    forall i: nat ensures !OccursAt("GRANGER", t, i) {
      if i + 7 <= |t| {
        assert t[i..i + 7][0] == t[i] && t[i] in t;
      }
    }
  }

  /** Adding a book and then the same author and title in other letter
      cases: the second add is refused and leaves the list as it was. */
  lemma AddCaseVariantIsDuplicate(p: int, q: int)
    ensures Added([], Book("Frank Herbert", "Dune", p)) == Step(Ok(()), [Book("Frank Herbert", "Dune", p)])
    ensures Added([Book("Frank Herbert", "Dune", p)], Book("FRANK herbert", "dune", q))
            == Step(Err(Duplicate), [Book("Frank Herbert", "Dune", p)])
  {
    assert Fold("FRANK herbert") == Fold("Frank Herbert") == "FRANK HERBERT";
    assert Fold("dune") == Fold("Dune") == "DUNE";
    assert HasKey(Book("Frank Herbert", "Dune", p), "FRANK herbert", "dune");
  }

  /** Renaming the only book of a list: the rename succeeds, and a search
      for a piece of the new title finds exactly that book. */
  lemma RenameThenSearch(p: int)
    ensures Updated([Book("Test Author", "Old Title", p)], "Test Author", "Old Title", "New Title")
            == Step(Ok(true), [Book("Test Author", "New Title", p)])
    ensures BooksByKeyword([Book("Test Author", "New Title", p)], "New")
            == [Book("Test Author", "New Title", p)]
  {
    var b := Book("Test Author", "Old Title", p);
    assert HasKey(b, "Test Author", "Old Title");
    assert FirstWithKey([b], "Test Author", "Old Title") == Some(0);
    assert Fold("New Title")[0] != Fold("Old Title")[0];
    assert !IsBookByAuthorExist([b], "Test Author", "New Title");
    assert Renamed([b], 0, "New Title") == [Book("Test Author", "New Title", p)];
    assert OccursAt(Fold("New"), Fold("New Title"), 0);
  }
}
