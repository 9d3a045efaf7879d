/** The book record and its identity. A book is identified by its author and
    title compared ignoring case; the store never holds two books with the
    same identity. */
module BookModel {
  import opened IgnoreCase

  /** `BookModel`: author, title and number of pages. */
  datatype Book = Book(author: string, title: string, pages: int)

  /** The two books have the same (author, title) ignoring case. */
  predicate SameIdentity(x: Book, y: Book)
  {
    EqualsIgnoreCase(x.author, y.author) && EqualsIgnoreCase(x.title, y.title)
  }

  /** No two positions of `s` hold books with the same identity. */
  ghost predicate Unique(s: seq<Book>)
  {
    forall i, j :: 0 <= i < j < |s| ==> !SameIdentity(s[i], s[j])
  }

  /** `x` shares its identity with no book of `s`. */
  ghost predicate Fresh(x: Book, s: seq<Book>)
  {
    forall y :: y in s ==> !SameIdentity(x, y)
  }

  /** Putting a fresh book anywhere into a list without repeated identities
      keeps it without repeated identities. */
  lemma {:induction false} UniqueInsertAt(s: seq<Book>, k: nat, x: Book)
    requires k <= |s|
    requires Unique(s) && Fresh(x, s)
    ensures Unique(s[..k] + [x] + s[k..])
  {
    var c := s[..k] + [x] + s[k..];
    assert |c| == |s| + 1;
    assert forall i :: 0 <= i < k ==> c[i] == s[i];
    assert c[k] == x;
    assert forall i :: k < i < |c| ==> c[i] == s[i - 1];
    forall i, j | 0 <= i < j < |c| ensures !SameIdentity(c[i], c[j]) {
      if i == k {
        assert c[j] in s;
      } else if j == k {
        assert c[i] in s;
      } else {
        var i' := if i < k then i else i - 1;
        var j' := if j < k then j else j - 1;
        assert c[i] == s[i'] && c[j] == s[j'] && i' < j';
      }
    }
  }

  /** A list is without repeated identities when it is so with its book at
      position `k` taken out and that book is fresh for the rest. */
  lemma UniqueRestoreAt(b: seq<Book>, k: nat)
    requires k < |b|
    requires Unique(b[..k] + b[k + 1..]) && Fresh(b[k], b[..k] + b[k + 1..])
    ensures Unique(b)
  {
    var b' := b[..k] + b[k + 1..];
    UniqueInsertAt(b', k, b[k]);
    assert b'[..k] == b[..k] && b'[k..] == b[k + 1..];
    assert b[..k] + [b[k]] + b[k + 1..] == b;
  }

  /** Removing the book at position `k` removes one copy of it. */
  lemma MultisetRemoveAt(b: seq<Book>, k: nat)
    requires k < |b|
    ensures multiset(b[..k] + b[k + 1..]) == multiset(b) - multiset{b[k]}
  {
    assert b == b[..k] + [b[k]] + b[k + 1..];
  }

  lemma UniqueTail(a: seq<Book>)
    requires |a| > 0 && Unique(a)
    ensures Unique(a[1..]) && Fresh(a[0], a[1..])
  {
    forall i, j | 0 <= i < j < |a[1..]| ensures !SameIdentity(a[1..][i], a[1..][j]) {
      assert a[1..][i] == a[i + 1] && a[1..][j] == a[j + 1];
    }
    forall y | y in a[1..] ensures !SameIdentity(a[0], y) {
      var j :| 0 <= j < |a[1..]| && a[1..][j] == y;
      assert a[j + 1] == y;
    }
  }

  /** Having no repeated identity depends only on which books the list holds
      and how often: it survives any reordering. */
  lemma {:induction false} UniquePermutation(a: seq<Book>, b: seq<Book>)
    requires multiset(a) == multiset(b)
    requires Unique(a)
    ensures Unique(b)
    decreases |a|
  {
    if |a| == 0 {
      assert |b| == |multiset(b)| == 0;
    } else {
      var x := a[0];
      assert a == [x] + a[1..];
      assert x in multiset(b);
      var k :| 0 <= k < |b| && b[k] == x;
      var b' := b[..k] + b[k + 1..];
      MultisetRemoveAt(b, k);
      assert multiset(a) == multiset{x} + multiset(a[1..]);
      assert multiset(b') == multiset(a[1..]);
      UniqueTail(a);
      UniquePermutation(a[1..], b');
      assert Fresh(x, b') by {
        forall y | y in b' ensures !SameIdentity(x, y) {
          assert y in multiset(a[1..]);
        }
      }
      UniqueRestoreAt(b, k);
    }
  }
}
