/** Python's `sorted` on a set of integers drawn from a bounded range, and
    the facts about strictly ascending lists that the page-range parser
    relies on. */
module Sorting {

  predicate StrictlyAscending(s: seq<int>) {
    forall i, j :: 0 <= i < j < |s| ==> s[i] < s[j]
  }

  /** The members of `pages` between `lo` and `hi`, in ascending order: the
      value of `sorted(p for p in pages if lo <= p <= hi)`. */
  function Enumerate(pages: set<int>, lo: int, hi: int): (r: seq<int>)
    ensures StrictlyAscending(r)
    ensures forall p :: p in r <==> p in pages && lo <= p <= hi
    decreases hi - lo
  {
    if lo > hi then []
    else
      var rest := Enumerate(pages, lo + 1, hi);
      assert forall i :: 0 <= i < |rest| ==> lo < rest[i] by {
        forall i | 0 <= i < |rest| ensures lo < rest[i] {
          assert rest[i] in rest;
        }
      }
      if lo in pages then [lo] + rest else rest
  }

  /** Two ascending lists with the same elements are the same list, so the
      result of `sorted` is determined by the set alone. */
  lemma {:induction false} AscendingUnique(a: seq<int>, b: seq<int>)
    requires StrictlyAscending(a) && StrictlyAscending(b)
    requires forall x :: x in a <==> x in b
    ensures a == b
    decreases |a|
  {
    if a != [] || b != [] {
      assert a != [] ==> a[0] in a;
      assert b != [] ==> b[0] in b;
      assert a != [] && b != [];
      assert a[0] in b && b[0] in a;
      assert a[0] == b[0];
      forall x ensures x in a[1..] <==> x in b[1..] {
        if x in a[1..] {
          assert x in b && x != b[0];
        }
        if x in b[1..] {
          assert x in a && x != a[0];
        }
      }
      AscendingUnique(a[1..], b[1..]);
      assert a == [a[0]] + a[1..];
      assert b == [b[0]] + b[1..];
    }
  }

  /** A strictly ascending list inside `[lo, hi]` has at most `hi - lo + 1`
      elements. */
  lemma {:induction false} AscendingWithinBound(s: seq<int>, lo: int, hi: int)
    requires StrictlyAscending(s)
    requires forall i :: 0 <= i < |s| ==> lo <= s[i] <= hi
    ensures |s| <= if hi < lo then 0 else hi - lo + 1
    decreases |s|
  {
    if s != [] {
      assert lo <= s[0];
      AscendingWithinBound(s[1..], s[0] + 1, hi);
    }
  }
}
