/** Sorting with respect to a total order, standing in for `std::sort`.

    The C++ program sorts twice: the rotation table (main.cpp:31) and the
    copy of the transformed text that becomes the first column
    (main.cpp:106). Neither sort needs to be stable: the result of sorting a
    sequence by a total order is unique (`SortedPermutationUnique`), so any
    correct algorithm, `std::sort` included, produces the sequence that
    `Sort` below produces.
 */
module Sorting {

  /** `le` is reflexive, antisymmetric, transitive and total. */
  ghost predicate TotalOrder<T(!new)>(le: (T, T) -> bool) {
    && (forall x :: le(x, x))
    && (forall x, y :: le(x, y) && le(y, x) ==> x == y)
    && (forall x, y, z :: le(x, y) && le(y, z) ==> le(x, z))
    && (forall x, y :: le(x, y) || le(y, x))
  }

  /** Every earlier element is `le` every later one. */
  predicate SortedBy<T>(s: seq<T>, le: (T, T) -> bool) {
    forall i, j {:trigger le(s[i], s[j])} :: 0 <= i < j < |s| ==> le(s[i], s[j])
  }

  /** Reading off one pair of a sorted sequence. */
  lemma SortedAt<T>(s: seq<T>, le: (T, T) -> bool, i: int, j: int)
    requires SortedBy(s, le) && 0 <= i < j < |s|
    ensures le(s[i], s[j])
  {
  }

  /** Inserts `x` into the sorted sequence `s`, before the first element it is `le` to. */
  function Insert<T(!new)>(x: T, s: seq<T>, le: (T, T) -> bool): (r: seq<T>)
    requires TotalOrder(le)
    requires SortedBy(s, le)
    ensures multiset(r) == multiset(s) + multiset{x}
    ensures SortedBy(r, le)
  {
    if s == [] then
      [x]
    else if le(x, s[0]) then
      [x] + s
    else
      var tail := Insert(x, s[1..], le);
      assert s == [s[0]] + s[1..];
      forall k | 0 <= k < |s[1..]| ensures le(s[0], s[1..][k]) {
        SortedAt(s, le, 0, k + 1);
      }
      BoundedPermutation(s[0], tail, s[1..], x, le);
      [s[0]] + tail
  }

  /** Adding one more element, itself above `lo`, to elements above `lo`
      keeps everything above `lo`. */
  lemma BoundedPermutation<T>(lo: T, t: seq<T>, s: seq<T>, x: T, le: (T, T) -> bool)
    requires multiset(t) == multiset(s) + multiset{x}
    requires le(lo, x)
    requires forall k :: 0 <= k < |s| ==> le(lo, s[k])
    ensures forall k :: 0 <= k < |t| ==> le(lo, t[k])
  {
    forall k | 0 <= k < |t| ensures le(lo, t[k]) {
      assert t[k] in multiset(t);
      if t[k] != x {
        assert t[k] in multiset(s);
        var m :| 0 <= m < |s| && s[m] == t[k];
      }
    }
  }

  /** Insertion sort: a permutation of `s` sorted by `le`. */
  function Sort<T(!new)>(s: seq<T>, le: (T, T) -> bool): (r: seq<T>)
    requires TotalOrder(le)
    ensures multiset(r) == multiset(s)
    ensures SortedBy(r, le)
  {
    if s == [] then
      []
    else
      assert s == [s[0]] + s[1..];
      Insert(s[0], Sort(s[1..], le), le)
  }

  /** Two sorted permutations of the same elements are equal: sorting has one answer. */
  lemma {:induction false} SortedPermutationUnique<T(!new)>(a: seq<T>, b: seq<T>, le: (T, T) -> bool)
    requires TotalOrder(le)
    requires SortedBy(a, le) && SortedBy(b, le)
    requires multiset(a) == multiset(b)
    ensures a == b
  {
    if a == [] {
      assert |b| == |multiset(b)| == 0;
    } else {
      assert |b| == |multiset(b)| == |multiset(a)| == |a|;
      assert a[0] in multiset(b) && b[0] in multiset(a);
      var i :| 0 <= i < |b| && b[i] == a[0];
      var j :| 0 <= j < |a| && a[j] == b[0];
      assert le(b[0], b[i]) by { if i > 0 { } }
      assert le(a[0], a[j]) by { if j > 0 { } }
      assert a[0] == b[0];
      assert a == [a[0]] + a[1..] && b == [b[0]] + b[1..];
      assert multiset(a) == multiset{a[0]} + multiset(a[1..]);
      assert multiset(b) == multiset{a[0]} + multiset(b[1..]);
      assert multiset(a[1..]) == multiset(b[1..]) by {
        forall y ensures multiset(a[1..])[y] == multiset(b[1..])[y] {
          assert multiset(a)[y] == multiset{a[0]}[y] + multiset(a[1..])[y];
          assert multiset(b)[y] == multiset{a[0]}[y] + multiset(b[1..])[y];
        }
      }
      SortedPermutationUnique(a[1..], b[1..], le);
    }
  }
}
