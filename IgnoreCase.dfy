/** Case-insensitive string comparison, as BookService uses it through
    StringComparison.OrdinalIgnoreCase: two strings are equal ignoring case
    when their case-folded images are equal, character by character, and a
    keyword occurs in a title ignoring case when the folded keyword is a
    contiguous piece of the folded title. */
module IgnoreCase {

  /** Folds one character to the case used for comparison: the ASCII letters
      a-z become A-Z, every other character is left as it is. */
  function FoldChar(c: char): (r: char)
    ensures !('a' <= r <= 'z')
    ensures r == c || ('a' <= c <= 'z' && r as int + 32 == c as int)
  {
    if 'a' <= c <= 'z' then (c as int - 32) as char else c
  }

  /** The folded image of a string, character by character. */
  function Fold(s: string): (r: string)
    ensures |r| == |s|
  {
    seq(|s|, i requires 0 <= i < |s| => FoldChar(s[i]))
  }

  /** `a.Equals(b, StringComparison.OrdinalIgnoreCase)` */
  predicate EqualsIgnoreCase(a: string, b: string)
    ensures a == b ==> EqualsIgnoreCase(a, b)
    ensures EqualsIgnoreCase(a, b) ==> |a| == |b|
  {
    Fold(a) == Fold(b)
  }

  /** Equality ignoring case compares lengths and then the folded characters
      position by position. */
  lemma EqualsIgnoreCaseCharwise(a: string, b: string)
    ensures EqualsIgnoreCase(a, b) <==>
              |a| == |b| && forall i :: 0 <= i < |a| ==> FoldChar(a[i]) == FoldChar(b[i])
  {
    if |a| == |b| && forall i :: 0 <= i < |a| ==> FoldChar(a[i]) == FoldChar(b[i]) {
      assert forall i :: 0 <= i < |a| ==> Fold(a)[i] == Fold(b)[i];
    }
    if EqualsIgnoreCase(a, b) {
      assert |a| == |Fold(a)| == |Fold(b)| == |b|;
      forall i | 0 <= i < |a| ensures FoldChar(a[i]) == FoldChar(b[i]) {
        assert Fold(a)[i] == Fold(b)[i];
      }
    }
  }

  /** Folding twice is folding once, so a folded string is equal ignoring
      case to the string it came from. */
  lemma FoldIdempotent(s: string)
    ensures Fold(Fold(s)) == Fold(s)
    ensures EqualsIgnoreCase(Fold(s), s)
  {
    assert forall i :: 0 <= i < |s| ==> Fold(Fold(s))[i] == Fold(s)[i];
  }

  /** Equality ignoring case is an equivalence relation. */
  lemma EqualsIgnoreCaseIsEquivalence(a: string, b: string, c: string)
    ensures EqualsIgnoreCase(a, a)
    ensures EqualsIgnoreCase(a, b) ==> EqualsIgnoreCase(b, a)
    ensures EqualsIgnoreCase(a, b) && EqualsIgnoreCase(b, c) ==> EqualsIgnoreCase(a, c)
  {
  }

  /** `k` stands in `t` starting at position `i`. */
  ghost predicate OccursAt(k: string, t: string, i: nat)
  {
    i + |k| <= |t| && t[i..i + |k|] == k
  }

  /** Whether `k` is a contiguous piece of `t`, searched from the front. */
  function IsInfix(k: string, t: string): (r: bool)
    ensures r <==> exists i: nat :: OccursAt(k, t, i)
    decreases |t|
  {
    if |k| > |t| then
      NoOccurrenceInShorter(k, t);
      false
    else if t[..|k|] == k then
      assert OccursAt(k, t, 0);
      true
    else
      OccurrenceInTail(k, t);
      IsInfix(k, t[1..])
  }

  lemma NoOccurrenceInShorter(k: string, t: string)
    requires |k| > |t|
    ensures forall i: nat :: !OccursAt(k, t, i)
  {
  }

  /** When `k` is not a prefix of `t`, it occurs in `t` exactly when it
      occurs in the tail of `t`. */
  lemma OccurrenceInTail(k: string, t: string)
    requires |k| <= |t| && t[..|k|] != k
    ensures (exists i: nat :: OccursAt(k, t, i)) <==> (exists i: nat :: OccursAt(k, t[1..], i))
  {
    if i: nat :| OccursAt(k, t, i) {
      assert i != 0;
      assert t[1..][i - 1..i - 1 + |k|] == t[i..i + |k|];
      assert OccursAt(k, t[1..], i - 1);
    }
    if i: nat :| OccursAt(k, t[1..], i) {
      assert t[1..][i..i + |k|] == t[i + 1..i + 1 + |k|];
      assert OccursAt(k, t, i + 1);
    }
  }

  /** `title.Contains(keyword, StringComparison.OrdinalIgnoreCase)`: the
      folded keyword is a contiguous piece of the folded title. */
  function ContainsIgnoreCase(title: string, keyword: string): (r: bool)
    ensures r <==> exists i: nat :: OccursAt(Fold(keyword), Fold(title), i)
  {
    IsInfix(Fold(keyword), Fold(title))
  }

  /** The empty keyword is contained in every title, and a title contains
      every keyword it equals ignoring case. */
  lemma ContainsIgnoreCaseBounds(title: string, keyword: string)
    ensures ContainsIgnoreCase(title, [])
    ensures EqualsIgnoreCase(title, keyword) ==> ContainsIgnoreCase(title, keyword)
    ensures ContainsIgnoreCase(title, keyword) ==> |keyword| <= |title|
  {
    assert OccursAt(Fold([]), Fold(title), 0);
    if EqualsIgnoreCase(title, keyword) {
      assert OccursAt(Fold(keyword), Fold(title), 0);
    }
  }

  /** Containment looks only at the folded keyword: keywords that are equal
      ignoring case find the same titles. */
  lemma ContainsIgnoresKeywordCase(title: string, k1: string, k2: string)
    requires EqualsIgnoreCase(k1, k2)
    ensures ContainsIgnoreCase(title, k1) == ContainsIgnoreCase(title, k2)
  {
  }
}
