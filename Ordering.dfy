/** The order BookService keeps its list in:
    `OrderBy(b => b.Author).ThenBy(b => b.Title)`, a stable sort by author
    and then by title. Strings are compared lexicographically by character
    code. */
module Ordering {
  import opened BookModel

  /** Lexicographic "at most" on strings, one character code at a time; a
      proper prefix comes first. */
  predicate LexLe(a: string, b: string)
    ensures a <= b ==> LexLe(a, b)
    ensures LexLe(a, b) && |a| > 0 ==> |b| > 0 && a[0] <= b[0]
    decreases |a|
  {
    |a| == 0 || (|b| > 0 && (a[0] < b[0] || (a[0] == b[0] && LexLe(a[1..], b[1..]))))
  }

  lemma {:induction false} LexLeReflexive(a: string)
    ensures LexLe(a, a)
    decreases |a|
  {
    if |a| > 0 {
      LexLeReflexive(a[1..]);
    }
  }

  lemma {:induction false} LexLeTotal(a: string, b: string)
    ensures LexLe(a, b) || LexLe(b, a)
    decreases |a|
  {
    if |a| > 0 && |b| > 0 && a[0] == b[0] {
      LexLeTotal(a[1..], b[1..]);
    }
  }

  lemma {:induction false} LexLeTransitive(a: string, b: string, c: string)
    requires LexLe(a, b) && LexLe(b, c)
    ensures LexLe(a, c)
    decreases |a|
  {
    if |a| > 0 && a[0] == b[0] && b[0] == c[0] {
      LexLeTransitive(a[1..], b[1..], c[1..]);
    }
  }

  lemma {:induction false} LexLeAntisymmetric(a: string, b: string)
    requires LexLe(a, b) && LexLe(b, a)
    ensures a == b
    decreases |a|
  {
    if |a| > 0 {
      LexLeAntisymmetric(a[1..], b[1..]);
      assert a == [a[0]] + a[1..] && b == [b[0]] + b[1..];
    }
  }

  /** `x` may come before `y`: a smaller author, or the same author and a
      title that is at most `y`'s. */
  predicate BookLe(x: Book, y: Book)
    ensures BookLe(x, y) ==> LexLe(x.author, y.author)
    ensures x.author != y.author ==> (BookLe(x, y) <==> LexLe(x.author, y.author))
  {
    LexLeReflexive(x.author);
    if x.author == y.author then LexLe(x.title, y.title) else LexLe(x.author, y.author)
  }

  /** The two books have the same sort key (author, title), exactly. */
  predicate SameSortKey(x: Book, y: Book)
  {
    x.author == y.author && x.title == y.title
  }

  /** BookLe is a total preorder whose ties are exactly the books with the
      same sort key. */
  lemma BookLeTotalPreorder(x: Book, y: Book, z: Book)
    ensures BookLe(x, x)
    ensures BookLe(x, y) || BookLe(y, x)
    ensures BookLe(x, y) && BookLe(y, z) ==> BookLe(x, z)
    ensures BookLe(x, y) && BookLe(y, x) <==> SameSortKey(x, y)
  {
    LexLeReflexive(x.title);
    LexLeTotal(x.author, y.author);
    LexLeTotal(x.title, y.title);
    if BookLe(x, y) && BookLe(y, z) {
      if x.author == y.author == z.author {
        LexLeTransitive(x.title, y.title, z.title);
      } else if x.author == y.author {
      } else if y.author == z.author {
      } else {
        LexLeTransitive(x.author, y.author, z.author);
        if x.author == z.author {
          LexLeAntisymmetric(x.author, y.author);
        }
      }
    }
    if BookLe(x, y) && BookLe(y, x) {
      if x.author == y.author {
        LexLeAntisymmetric(x.title, y.title);
      } else {
        LexLeAntisymmetric(x.author, y.author);
      }
    }
  }

  /** Every book comes no later than every book after it. */
  ghost predicate Sorted(s: seq<Book>)
  {
    forall i, j :: 0 <= i < j < |s| ==> BookLe(s[i], s[j])
  }

  /** The books of `s` whose author and title are exactly `author` and
      `title`, in the order `s` has them. A stable sort leaves this
      subsequence as it is, for every key. */
  function WithSortKey(s: seq<Book>, author: string, title: string): seq<Book>
  {
    if s == [] then []
    else (if s[0].author == author && s[0].title == title then [s[0]] else [])
         + WithSortKey(s[1..], author, title)
  }

  lemma SortedCons(y: Book, t: seq<Book>)
    requires Sorted(t)
    requires forall z :: z in t ==> BookLe(y, z)
    ensures Sorted([y] + t)
  {
    var c := [y] + t;
    forall i, j | 0 <= i < j < |c| ensures BookLe(c[i], c[j]) {
      if i == 0 {
        assert c[j] == t[j - 1];
      } else {
        assert c[i] == t[i - 1] && c[j] == t[j - 1];
      }
    }
  }

  /** Inserts `x` before the first book it may precede. */
  function Insert(x: Book, s: seq<Book>): (r: seq<Book>)
    ensures multiset(r) == multiset(s) + multiset{x}
    ensures Sorted(s) ==> Sorted(r)
    ensures forall author, title {:trigger WithSortKey(r, author, title)} ::
              WithSortKey(r, author, title)
              == (if x.author == author && x.title == title then [x] else [])
                 + WithSortKey(s, author, title)
  {
    if s == [] then
      [x]
    else if BookLe(x, s[0]) then
      InsertFrontSorted(x, s);
      [x] + s
    else
      var r' := Insert(x, s[1..]);
      InsertBehind(x, s, r');
      [s[0]] + r'
  }

  lemma InsertFrontSorted(x: Book, s: seq<Book>)
    requires s != [] && BookLe(x, s[0])
    ensures Sorted(s) ==> Sorted([x] + s)
    ensures forall author, title {:trigger WithSortKey([x] + s, author, title)} ::
              WithSortKey([x] + s, author, title)
              == (if x.author == author && x.title == title then [x] else [])
                 + WithSortKey(s, author, title)
  {
    assert ([x] + s)[1..] == s;
    if Sorted(s) {
      forall z | z in s ensures BookLe(x, z) {
        var j :| 0 <= j < |s| && s[j] == z;
        if j > 0 {
          BookLeTotalPreorder(x, s[0], z);
        }
      }
      SortedCons(x, s);
    }
  }

  lemma InsertBehind(x: Book, s: seq<Book>, r': seq<Book>)
    requires s != [] && !BookLe(x, s[0])
    requires multiset(r') == multiset(s[1..]) + multiset{x}
    requires Sorted(s[1..]) ==> Sorted(r')
    requires forall author, title {:trigger WithSortKey(r', author, title)} ::
               WithSortKey(r', author, title)
               == (if x.author == author && x.title == title then [x] else [])
                  + WithSortKey(s[1..], author, title)
    ensures multiset([s[0]] + r') == multiset(s) + multiset{x}
    ensures Sorted(s) ==> Sorted([s[0]] + r')
    ensures forall author, title {:trigger WithSortKey([s[0]] + r', author, title)} ::
              WithSortKey([s[0]] + r', author, title)
              == (if x.author == author && x.title == title then [x] else [])
                 + WithSortKey(s, author, title)
  {
    assert s == [s[0]] + s[1..];
    if Sorted(s) {
      InsertBehindSorted(x, s, r');
    }
    InsertBehindStable(x, s, r');
  }

  lemma InsertBehindSorted(x: Book, s: seq<Book>, r': seq<Book>)
    requires s != [] && !BookLe(x, s[0])
    requires multiset(r') == multiset(s[1..]) + multiset{x}
    requires Sorted(s) && (Sorted(s[1..]) ==> Sorted(r'))
    ensures Sorted([s[0]] + r')
  {
    BookLeTotalPreorder(x, s[0], x);
    assert Sorted(s[1..]) by {
      forall i, j | 0 <= i < j < |s[1..]| ensures BookLe(s[1..][i], s[1..][j]) {
        assert s[1..][i] == s[i + 1] && s[1..][j] == s[j + 1];
      }
    }
    forall z | z in r' ensures BookLe(s[0], z) {
      assert z in multiset(r');
      if z != x {
        assert z in multiset(s[1..]);
        var j :| 0 <= j < |s[1..]| && s[1..][j] == z;
        assert s[j + 1] == z;
      }
    }
    SortedCons(s[0], r');
  }

  lemma InsertBehindStable(x: Book, s: seq<Book>, r': seq<Book>)
    requires s != [] && !BookLe(x, s[0])
    requires forall author, title {:trigger WithSortKey(r', author, title)} ::
               WithSortKey(r', author, title)
               == (if x.author == author && x.title == title then [x] else [])
                  + WithSortKey(s[1..], author, title)
    ensures forall author, title {:trigger WithSortKey([s[0]] + r', author, title)} ::
              WithSortKey([s[0]] + r', author, title)
              == (if x.author == author && x.title == title then [x] else [])
                 + WithSortKey(s, author, title)
  {
    assert ([s[0]] + r')[1..] == r';
    BookLeTotalPreorder(x, s[0], x);
    forall author, title
      ensures WithSortKey([s[0]] + r', author, title)
              == (if x.author == author && x.title == title then [x] else [])
                 + WithSortKey(s, author, title)
    {
      // x and s[0] cannot both have this key: x would then be at most s[0]
      if x.author == author && x.title == title && s[0].author == author && s[0].title == title {
        assert false;
      }
    }
  }

  /** `SortBooks`: the list ordered by author and then title, keeping the
      original order among books with the same key. */
  function SortBooks(s: seq<Book>): (r: seq<Book>)
    ensures Sorted(r)
    ensures multiset(r) == multiset(s)
    ensures forall author, title {:trigger WithSortKey(r, author, title)} ::
              WithSortKey(r, author, title) == WithSortKey(s, author, title)
  {
    if s == [] then []
    else
      assert s == [s[0]] + s[1..];
      Insert(s[0], SortBooks(s[1..]))
  }

  lemma SortedTail(s: seq<Book>)
    requires |s| > 0 && Sorted(s)
    ensures Sorted(s[1..])
  {
    forall i, j | 0 <= i < j < |s[1..]| ensures BookLe(s[1..][i], s[1..][j]) {
      assert s[1..][i] == s[i + 1] && s[1..][j] == s[j + 1];
    }
  }

  /** Two sorted arrangements of the same books, without repeated
      identities, start with the same book. */
  lemma SortedPermutationsSameHead(a: seq<Book>, b: seq<Book>)
    requires |a| > 0 && Sorted(a) && Sorted(b)
    requires multiset(a) == multiset(b)
    requires Unique(a)
    ensures |b| > 0 && a[0] == b[0]
  {
    assert |b| == |multiset(b)| == |a|;
    assert a[0] in multiset(b) && b[0] in multiset(a);
    var k :| 0 <= k < |b| && b[k] == a[0];
    var m :| 0 <= m < |a| && a[m] == b[0];
    BookLeTotalPreorder(a[0], b[0], a[0]);
    assert BookLe(a[0], b[0]) by {
      if m > 0 { assert BookLe(a[0], a[m]); }
    }
    assert BookLe(b[0], a[0]) by {
      if k > 0 { assert BookLe(b[0], b[k]); }
    }
    assert SameIdentity(a[0], a[m]);
  }

  lemma MultisetTails(a: seq<Book>, b: seq<Book>)
    requires |a| > 0 && |b| > 0 && a[0] == b[0]
    requires multiset(a) == multiset(b)
    ensures multiset(a[1..]) == multiset(b[1..])
  {
    assert a == [a[0]] + a[1..] && b == [b[0]] + b[1..];
    calc {
      multiset(a[1..]);
      multiset(a) - multiset{a[0]};
      multiset(b) - multiset{b[0]};
      multiset(b[1..]);
    }
  }

  /** On a list without repeated identities the sorted order is determined
      by the books alone: any two sorted arrangements of the same books are
      the same list. So whether the sort is stable does not matter there. */
  lemma {:induction false} SortedPermutationsAgree(a: seq<Book>, b: seq<Book>)
    requires Sorted(a) && Sorted(b)
    requires multiset(a) == multiset(b)
    requires Unique(a)
    ensures a == b
    decreases |a|
  {
    if |a| == 0 {
      assert |b| == |multiset(b)| == 0;
    } else {
      SortedPermutationsSameHead(a, b);
      MultisetTails(a, b);
      SortedTail(a);
      SortedTail(b);
      UniqueTail(a);
      SortedPermutationsAgree(a[1..], b[1..]);
      assert a == [a[0]] + a[1..] && b == [b[0]] + b[1..];
    }
  }
}
