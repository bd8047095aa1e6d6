/** Counting the elements of a sequence that satisfy a predicate.

    Every count the backward search manipulates (rows of the rotation table
    below a pattern, occurrences of a byte before a row, bytes smaller than a
    given one) is an instance of `CountIf`; the lemmas below are the few
    facts about it the correctness proof needs.
 */
module Counting {

  /** Number of elements of `s` satisfying `P`. */
  function CountIf<T>(s: seq<T>, P: T -> bool): (n: nat)
    ensures n <= |s|
  {
    if s == [] then 0 else (if P(s[0]) then 1 else 0) + CountIf(s[1..], P)
  }

  /** The predicate "equals `x`". */
  function IsValue<T(==)>(x: T): T -> bool {
    y => y == x
  }

  /** `P` holds on a prefix of `s` and nowhere after it. */
  ghost predicate DownwardClosed<T>(s: seq<T>, P: T -> bool) {
    forall i, j :: 0 <= i < j < |s| && P(s[j]) ==> P(s[i])
  }

  lemma {:induction false} CountIfAppend<T>(a: seq<T>, b: seq<T>, P: T -> bool)
    ensures CountIf(a + b, P) == CountIf(a, P) + CountIf(b, P)
  {
    if a == [] {
      assert a + b == b;
    } else {
      assert (a + b)[1..] == a[1..] + b;
      CountIfAppend(a[1..], b, P);
    }
  }

  /** Counting is blind to the order of the elements. */
  lemma {:induction false} CountIfPermutation<T>(a: seq<T>, b: seq<T>, P: T -> bool)
    requires multiset(a) == multiset(b)
    ensures CountIf(a, P) == CountIf(b, P)
  {
    if a == [] {
      assert |b| == |multiset(b)| == 0;
    } else {
      var x := a[0];
      assert x in multiset(b);
      var j :| 0 <= j < |b| && b[j] == x;
      var rest := b[..j] + b[j+1..];
      MultisetRemoveAt(b, j);
      assert a == [x] + a[1..];
      assert multiset(a) == multiset{x} + multiset(a[1..]);
      assert multiset(a[1..]) == multiset(rest) by {
        forall y ensures multiset(a[1..])[y] == multiset(rest)[y] {
          assert multiset(a)[y] == multiset{x}[y] + multiset(a[1..])[y];
          assert multiset(b)[y] == multiset{x}[y] + multiset(rest)[y];
        }
      }
      CountIfPermutation(a[1..], rest, P);
      CountIfRemoveAt(b, j, P);
    }
  }

  lemma MultisetRemoveAt<T>(b: seq<T>, j: nat)
    requires j < |b|
    ensures multiset(b) == multiset{b[j]} + multiset(b[..j] + b[j+1..])
  {
    assert b == b[..j] + [b[j]] + b[j+1..];
  }

  lemma {:induction false} CountIfRemoveAt<T>(b: seq<T>, j: nat, P: T -> bool)
    requires j < |b|
    ensures CountIf(b, P) == (if P(b[j]) then 1 else 0) + CountIf(b[..j] + b[j+1..], P)
  {
    assert b == b[..j] + ([b[j]] + b[j+1..]);
    CountIfAppend(b[..j], [b[j]] + b[j+1..], P);
    assert ([b[j]] + b[j+1..])[1..] == b[j+1..];
    CountIfAppend(b[..j], b[j+1..], P);
  }

  /** Two sequences that agree position by position on their predicates have equal counts. */
  lemma {:induction false} CountIfPointwise<T, U>(a: seq<T>, P: T -> bool, b: seq<U>, Q: U -> bool)
    requires |a| == |b|
    requires forall i :: 0 <= i < |a| ==> P(a[i]) == Q(b[i])
    ensures CountIf(a, P) == CountIf(b, Q)
  {
    if a != [] {
      assert P(a[0]) == Q(b[0]);
      CountIfPointwise(a[1..], P, b[1..], Q);
    }
  }

  /** A predicate that is the disjoint union of two others counts their sum. */
  lemma {:induction false} CountIfDisjointUnion<T>(s: seq<T>, P: T -> bool, Q: T -> bool, R: T -> bool)
    requires forall i :: 0 <= i < |s| ==> (P(s[i]) <==> Q(s[i]) || R(s[i]))
    requires forall i :: 0 <= i < |s| ==> !(Q(s[i]) && R(s[i]))
    ensures CountIf(s, P) == CountIf(s, Q) + CountIf(s, R)
  {
    if s != [] {
      assert P(s[0]) <==> Q(s[0]) || R(s[0]);
      assert !(Q(s[0]) && R(s[0]));
      CountIfDisjointUnion(s[1..], P, Q, R);
    }
  }

  /** If `R` holds exactly at the positions before `k` where `Q` holds,
      counting `R` over `s` is counting `Q` over `s[..k]`. */
  lemma {:induction false} CountIfRestrict<T>(s: seq<T>, R: T -> bool, Q: T -> bool, k: nat)
    requires k <= |s|
    requires forall i :: 0 <= i < |s| ==> (R(s[i]) <==> i < k && Q(s[i]))
    ensures CountIf(s, R) == CountIf(s[..k], Q)
  {
    assert s == s[..k] + s[k..];
    CountIfAppend(s[..k], s[k..], R);
    CountIfPointwise(s[..k], R, s[..k], Q);
    CountIfNone(s[k..], R);
  }

  /** A predicate that holds exactly on the first `k` positions counts `k`. */
  lemma {:induction false} CountIfExactPrefix<T>(s: seq<T>, P: T -> bool, k: nat)
    requires k <= |s|
    requires forall i :: 0 <= i < |s| ==> (P(s[i]) <==> i < k)
    ensures CountIf(s, P) == k
  {
    if s != [] {
      assert P(s[0]) <==> 0 < k;
      if k == 0 {
        CountIfNone(s, P);
      } else {
        forall i | 0 <= i < |s[1..]| ensures P(s[1..][i]) <==> i < k - 1 {
          assert s[1..][i] == s[i + 1];
        }
        CountIfExactPrefix(s[1..], P, k - 1);
      }
    }
  }

  lemma {:induction false} CountIfNone<T>(s: seq<T>, P: T -> bool)
    requires forall i :: 0 <= i < |s| ==> !P(s[i])
    ensures CountIf(s, P) == 0
  {
    if s != [] {
      assert !P(s[0]);
      CountIfNone(s[1..], P);
    }
  }

  /** A predicate closed downwards along `s` holds exactly on the first
      `CountIf(s, P)` positions. */
  lemma {:induction false} CountIfDownwardClosed<T>(s: seq<T>, P: T -> bool)
    requires DownwardClosed(s, P)
    ensures forall i :: 0 <= i < |s| ==> (P(s[i]) <==> i < CountIf(s, P))
  {
    if s != [] {
      if P(s[0]) {
        var t := s[1..];
        assert DownwardClosed(t, P) by {
          forall i, j | 0 <= i < j < |t| && P(t[j]) ensures P(t[i]) {
            assert t[i] == s[i + 1] && t[j] == s[j + 1];
          }
        }
        CountIfDownwardClosed(t, P);
        forall i | 1 <= i < |s| ensures P(s[i]) <==> i < CountIf(s, P) {
          assert s[i] == t[i - 1];
        }
      } else {
        assert forall i :: 0 <= i < |s| ==> !P(s[i]);
        CountIfNone(s, P);
      }
    }
  }

  /** The count of an element equals its multiplicity. */
  lemma {:induction false} CountIfValueIsMultiplicity<T>(s: seq<T>, x: T)
    ensures CountIf(s, IsValue(x)) == multiset(s)[x]
  {
    if s != [] {
      assert s == [s[0]] + s[1..];
      assert multiset(s) == multiset{s[0]} + multiset(s[1..]);
      CountIfValueIsMultiplicity(s[1..], x);
    }
  }

  /** The positions of `s` where `P` holds. */
  function Positions<T>(s: seq<T>, P: T -> bool): set<int> {
    set i | 0 <= i < |s| && P(s[i])
  }

  /** The count is the size of the set of positions where `P` holds. */
  lemma {:induction false} CountIfPositions<T>(s: seq<T>, P: T -> bool)
    ensures CountIf(s, P) == |Positions(s, P)|
  {
    if s != [] {
      var k := |s| - 1;
      var init := s[..k];
      assert s == init + [s[k]];
      CountIfAppend(init, [s[k]], P);
      CountIfPositions(init, P);
      if P(s[k]) {
        assert Positions(s, P) == Positions(init, P) + {k};
        assert k !in Positions(init, P);
      } else {
        assert Positions(s, P) == Positions(init, P);
      }
    }
  }
}
