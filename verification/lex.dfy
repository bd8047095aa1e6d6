/** Lexicographic order on byte strings, as `std::string`'s `operator<`
    compares them: the first differing byte decides, and a proper prefix
    comes before the longer string.
 */
module Lex {
  import opened Alphabet
  import Sorting

  /** `a` sorts strictly before `b`. */
  predicate Less(a: seq<Char>, b: seq<Char>)
    decreases |a|
  {
    if a == [] then b != []
    else if b == [] then false
    else a[0] < b[0] || (a[0] == b[0] && Less(a[1..], b[1..]))
  }

  predicate LessEq(a: seq<Char>, b: seq<Char>) {
    a == b || Less(a, b)
  }

  /** The strict or the non-strict order, chosen by `strict`. */
  predicate Before(a: seq<Char>, b: seq<Char>, strict: bool) {
    if strict then Less(a, b) else LessEq(a, b)
  }

  lemma {:induction false} LessIrreflexive(a: seq<Char>)
    ensures !Less(a, a)
  {
    if a != [] {
      LessIrreflexive(a[1..]);
    }
  }

  lemma {:induction false} LessAsymmetric(a: seq<Char>, b: seq<Char>)
    ensures !(Less(a, b) && Less(b, a))
  {
    if a != [] && b != [] && a[0] == b[0] {
      LessAsymmetric(a[1..], b[1..]);
    }
  }

  lemma {:induction false} LessTransitive(a: seq<Char>, b: seq<Char>, c: seq<Char>)
    requires Less(a, b) && Less(b, c)
    ensures Less(a, c)
  {
    if a != [] && a[0] == b[0] && b[0] == c[0] {
      LessTransitive(a[1..], b[1..], c[1..]);
    }
  }

  lemma {:induction false} LessTrichotomy(a: seq<Char>, b: seq<Char>)
    ensures a == b || Less(a, b) || Less(b, a)
  {
    if a != [] && b != [] && a[0] == b[0] {
      LessTrichotomy(a[1..], b[1..]);
      if a[1..] == b[1..] {
        assert a == [a[0]] + a[1..] && b == [b[0]] + b[1..];
      }
    }
  }

  /** `LessEq` is a total order, so the rotation table can be sorted by it. */
  lemma LessEqTotalOrder()
    ensures Sorting.TotalOrder(LessEq)
  {
    forall x, y | LessEq(x, y) && LessEq(y, x) ensures x == y {
      LessAsymmetric(x, y);
    }
    forall x, y, z | LessEq(x, y) && LessEq(y, z) ensures LessEq(x, z) {
      if x != y && y != z {
        LessTransitive(x, y, z);
      }
    }
    forall x, y ensures LessEq(x, y) || LessEq(y, x) {
      LessTrichotomy(x, y);
    }
  }

  /** Comparing two strings that start with one byte each: the head decides
      unless it ties. */
  lemma BeforeCons(a: Char, x: seq<Char>, c: Char, y: seq<Char>, strict: bool)
    ensures Before([a] + x, [c] + y, strict) <==> a < c || (a == c && Before(x, y, strict))
  {
    assert ([a] + x)[1..] == x && ([c] + y)[1..] == y;
    if a == c && x != y {
      assert [a] + x != [c] + y by {
        assert ([a] + x)[1..] != ([c] + y)[1..];
      }
    }
  }

  /** Anything at or below `v` is before `w` when `v` is. */
  lemma BeforeTransitive(u: seq<Char>, v: seq<Char>, w: seq<Char>, strict: bool)
    requires LessEq(u, v) && Before(v, w, strict)
    ensures Before(u, w, strict)
  {
    if u != v && v != w {
      LessTransitive(u, v, w);
    }
  }

  /** Appending the same suffix to two strings of equal length keeps their order. */
  lemma {:induction false} LessEqAppend(x: seq<Char>, y: seq<Char>, z: seq<Char>)
    requires |x| == |y| && LessEq(x, y)
    ensures LessEq(x + z, y + z)
  {
    if x != [] && x != y && x[0] == y[0] {
      assert (x + z)[1..] == x[1..] + z && (y + z)[1..] == y[1..] + z;
      assert x[1..] != y[1..] by {
        assert x == [x[0]] + x[1..] && y == [y[0]] + y[1..];
      }
      LessEqAppend(x[1..], y[1..], z);
    }
  }
}
