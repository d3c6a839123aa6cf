/** Order-preserving sub-lists of a sequence and duplicate-freedom. */
module Sequences {

  /** `a` is obtained from `b` by deleting zero or more elements, keeping the
      order of the rest. Defined from the back, the way a list grows by append. */
  ghost predicate Subsequence<T>(a: seq<T>, b: seq<T>)
    decreases |b|
  {
    if a == [] then true
    else if b == [] then false
    else (a[|a| - 1] == b[|b| - 1] && Subsequence(a[..|a| - 1], b[..|b| - 1]))
         || Subsequence(a, b[..|b| - 1])
  }

  /** No element occurs twice. */
  ghost predicate Distinct<T>(s: seq<T>)
  {
    forall i, j :: 0 <= i < j < |s| ==> s[i] != s[j]
  }

  /** Keeping the last element of both sides preserves the sub-list relation. */
  lemma KeepLast<T>(a: seq<T>, b: seq<T>, x: T)
    requires Subsequence(a, b)
    ensures Subsequence(a + [x], b + [x])
  {
  }

  /** Dropping the last element of the longer side preserves the sub-list relation. */
  lemma DropLast<T>(a: seq<T>, b: seq<T>, x: T)
    requires Subsequence(a, b)
    ensures Subsequence(a, b + [x])
  {
  }

  /** A sub-list is never longer than the list it is taken from. */
  lemma {:induction false} SubsequenceLength<T>(a: seq<T>, b: seq<T>)
    requires Subsequence(a, b)
    ensures |a| <= |b|
    decreases |b|
  {
    if a != [] {
      if a[|a| - 1] == b[|b| - 1] && Subsequence(a[..|a| - 1], b[..|b| - 1]) {
        SubsequenceLength(a[..|a| - 1], b[..|b| - 1]);
      } else {
        SubsequenceLength(a, b[..|b| - 1]);
      }
    }
  }

  /** Every element of a sub-list is an element of the list it is taken from. */
  lemma {:induction false} SubsequenceMembers<T>(a: seq<T>, b: seq<T>, x: T)
    requires Subsequence(a, b)
    requires x in a
    ensures x in b
    decreases |b|
  {
    var a', b' := a[..|a| - 1], b[..|b| - 1];
    assert b == b' + [b[|b| - 1]];
    if a[|a| - 1] == b[|b| - 1] && Subsequence(a', b') {
      assert a == a' + [a[|a| - 1]];
      if x != a[|a| - 1] {
        SubsequenceMembers(a', b', x);
      }
    } else {
      SubsequenceMembers(a, b', x);
    }
  }

  /** A sub-list of a duplicate-free list is duplicate-free. */
  lemma {:induction false} SubsequenceDistinct<T>(a: seq<T>, b: seq<T>)
    requires Subsequence(a, b)
    requires Distinct(b)
    ensures Distinct(a)
    decreases |b|
  {
    if a != [] {
      var a', b' := a[..|a| - 1], b[..|b| - 1];
      assert Distinct(b');
      if a[|a| - 1] == b[|b| - 1] && Subsequence(a', b') {
        SubsequenceDistinct(a', b');
        var x := a[|a| - 1];
        assert x !in b' by {
          forall i | 0 <= i < |b'| ensures b'[i] != x {
            assert b[i] != b[|b| - 1];
          }
        }
        forall i | 0 <= i < |a'| ensures a'[i] != x {
          if a'[i] == x {
            SubsequenceMembers(a', b', x);
          }
        }
      } else {
        SubsequenceDistinct(a, b');
      }
    }
  }
}
