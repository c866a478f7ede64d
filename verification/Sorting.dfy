/** Sorting by a comparison, as `std::sort` does: the same elements, no pair the wrong way round. */
module Sorting {

  ghost predicate SortedBy<T(!new)>(before: (T, T) -> bool, s: seq<T>) {
    forall i, j :: 0 <= i < j < |s| ==> !before(s[j], s[i])
  }

  /** What `std::sort` demands of a comparison. */
  ghost predicate WeakOrder<T(!new)>(before: (T, T) -> bool) {
    && (forall a, b :: before(a, b) ==> !before(b, a))
    && (forall a, b, c :: before(a, c) ==> before(a, b) || before(b, c))
  }

  function Insert<T>(before: (T, T) -> bool, x: T, s: seq<T>): (r: seq<T>)
    ensures multiset(r) == multiset(s) + multiset{x}
  {
    if s == [] then [x]
    else
      var n := |s| - 1;
      assert s == s[..n] + [s[n]];
      if before(x, s[n]) then Insert(before, x, s[..n]) + [s[n]] else s + [x]
  }

  function Sort<T>(before: (T, T) -> bool, s: seq<T>): (r: seq<T>)
    ensures multiset(r) == multiset(s)
  {
    if s == [] then []
    else
      var n := |s| - 1;
      assert s == s[..n] + [s[n]];
      Insert(before, s[n], Sort(before, s[..n]))
  }

  lemma {:induction false} InsertSorted<T(!new)>(before: (T, T) -> bool, x: T, s: seq<T>)
    requires WeakOrder(before) && SortedBy(before, s)
    ensures SortedBy(before, Insert(before, x, s))
  {
    if s != [] {
      var n := |s| - 1;
      if before(x, s[n]) {
        InsertSorted(before, x, s[..n]);
        var q := Insert(before, x, s[..n]);
        forall i | 0 <= i < |q| ensures !before(s[n], q[i]) {
          assert q[i] in multiset(q);
          assert q[i] == x || q[i] in s[..n];
        }
      } else {
        forall i | 0 <= i < |s| ensures !before(x, s[i]) {
          assert i < n ==> !before(s[n], s[i]);
        }
      }
    }
  }

  lemma {:induction false} SortSorted<T(!new)>(before: (T, T) -> bool, s: seq<T>)
    requires WeakOrder(before)
    ensures SortedBy(before, Sort(before, s))
  {
    hide WeakOrder;
    if s != [] {
      SortSorted(before, s[..|s| - 1]);
      InsertSorted(before, s[|s| - 1], Sort(before, s[..|s| - 1]));
    }
  }
}
