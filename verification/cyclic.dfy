/** Occurrences of a pattern in the cyclic augmented text, and how they
    relate to occurrences in the plain text.

    A row of the rotation table is the augmented text read from some offset
    around the circle; backward search counts the rows that start with the
    pattern, so its natural meaning is "occurrences in the circular text".
    Because the two markers sit between the end and the start of the text, a
    pattern free of markers cannot wrap around, and its circular occurrences
    are exactly its ordinary, possibly overlapping, occurrences in the text.
 */
module Cyclic {
  import opened Alphabet
  import opened Transform

  /** The offset after `i` on a circle of `n` positions. */
  function Next(i: nat, n: nat): (j: nat)
    requires i < n
    ensures j < n
  {
    if i + 1 == n then 0 else i + 1
  }

  /** Moves the first byte of `r` to its end. */
  function RotateLeft(r: seq<Char>): seq<Char>
    requires r != []
  {
    r[1..] + [r[0]]
  }

  /** The first `m` bytes of `r` read around the circle (`r` repeated forever). */
  function CyclicPrefix(r: seq<Char>, m: nat): (p: seq<Char>)
    ensures r != [] ==> |p| == m
    decreases m
  {
    if m == 0 || r == [] then [] else [r[0]] + CyclicPrefix(RotateLeft(r), m - 1)
  }

  /** `q` can be read in `s` starting at offset `i` and wrapping around the end. */
  predicate CyclicMatchAt(s: seq<Char>, q: seq<Char>, i: nat)
    requires i < |s|
    decreases |q|
  {
    q == [] || (q[0] == s[i] && CyclicMatchAt(s, q[1..], Next(i, |s|)))
  }

  /** Number of offsets of the circular text `s` where `q` starts. */
  function CyclicOccurrences(s: seq<Char>, q: seq<Char>): nat {
    |set i: nat | i < |s| && CyclicMatchAt(s, q, i)|
  }

  /** `p` occurs in `t` starting at offset `i`. */
  predicate OccursAt(t: seq<Char>, p: seq<Char>, i: nat) {
    i + |p| <= |t| && t[i..i + |p|] == p
  }

  /** Number of offsets of `t` where `p` starts, overlapping occurrences included. */
  function TextOccurrences(t: seq<Char>, p: seq<Char>): nat {
    |set i: nat | i <= |t| && OccursAt(t, p, i)|
  }

  /** Rotating a rotation left by one gives the rotation at the next offset. */
  lemma {:induction false} RotateLeftRotation(s: seq<Char>, i: nat)
    requires i < |s|
    ensures RotateLeft(Rotation(s, i)) == Rotation(s, Next(i, |s|))
  {
    var r := Rotation(s, i);
    assert r == s[i..] + s[..i];
    if i + 1 == |s| {
      assert RotateLeft(r) == s[..i] + [s[i]] == s;
      assert Rotation(s, 0) == s;
    } else {
      assert RotateLeft(r) == s[i + 1..] + s[..i] + [s[i]];
      assert s[..i + 1] == s[..i] + [s[i]];
    }
  }

  /** A row of the table starts with `q` (read around) exactly when `q` occurs
      circularly at the row's offset. */
  lemma {:induction false} CyclicPrefixOfRotation(s: seq<Char>, q: seq<Char>, i: nat)
    requires i < |s|
    ensures CyclicPrefix(Rotation(s, i), |q|) == q <==> CyclicMatchAt(s, q, i)
    decreases |q|
  {
    if q != [] {
      var r := Rotation(s, i);
      var j := Next(i, |s|);
      var tail := CyclicPrefix(Rotation(s, j), |q| - 1);
      RotateLeftRotation(s, i);
      CyclicPrefixOfRotation(s, q[1..], j);
      assert CyclicPrefix(r, |q|) == [s[i]] + tail;
      assert q == [q[0]] + q[1..];
      assert ([s[i]] + tail == q) == (s[i] == q[0] && tail == q[1..]) by {
        assert ([s[i]] + tail)[1..] == tail;
      }
    }
  }

  /** Wherever `x + y` occurs circularly, `y` occurs circularly too. */
  lemma {:induction false} SuffixMatch(s: seq<Char>, x: seq<Char>, y: seq<Char>, i: nat) returns (j: nat)
    requires i < |s| && CyclicMatchAt(s, x + y, i)
    ensures j < |s| && CyclicMatchAt(s, y, j)
    decreases |x|
  {
    if x == [] {
      assert x + y == y;
      j := i;
    } else {
      assert (x + y)[1..] == x[1..] + y;
      j := SuffixMatch(s, x[1..], y, Next(i, |s|));
    }
  }

  /** A pattern whose suffix never occurs does not occur either. */
  lemma {:induction false} SuffixAbsent(s: seq<Char>, x: seq<Char>, y: seq<Char>)
    ensures CyclicOccurrences(s, y) == 0 ==> CyclicOccurrences(s, x + y) == 0
  {
    var whole := set i: nat | i < |s| && CyclicMatchAt(s, x + y, i);
    if whole != {} {
      var i :| i in whole;
      var j := SuffixMatch(s, x, y, i);
      var suffixSet := set k: nat | k < |s| && CyclicMatchAt(s, y, k);
      assert j in suffixSet;
    }
  }

  /** In the augmented text a marker-free pattern occurs at offset `i` exactly
      when it occurs in the text at offset `i - 1`. */
  lemma {:induction false} MatchInAugmented(t: seq<Char>, p: seq<Char>, i: nat)
    requires NoSentinels(t) && NoSentinels(p) && p != []
    requires i < |Augment(t)|
    ensures CyclicMatchAt(Augment(t), p, i) <==>
              1 <= i && i - 1 + |p| <= |t| && t[i - 1..i - 1 + |p|] == p
    decreases |p|, 1
  {
    var s := Augment(t);
    var n := |s|;
    assert p[0] in p;
    if i == 0 {
      assert s[0] == STX;
    } else if i == n - 1 {
      assert s[n - 1] == ETX;
    } else {
      MatchInsideText(t, p, i);
    }
  }

  /** The case of `MatchInAugmented` where offset `i` falls on a byte of the text. */
  lemma {:induction false} MatchInsideText(t: seq<Char>, p: seq<Char>, i: nat)
    requires NoSentinels(t) && NoSentinels(p) && p != []
    requires 1 <= i < |Augment(t)| - 1
    ensures CyclicMatchAt(Augment(t), p, i) <==> i - 1 + |p| <= |t| && t[i - 1..i - 1 + |p|] == p
    decreases |p|, 0
  {
    var s := Augment(t);
    assert s[i] == t[i - 1];
    assert Next(i, |s|) == i + 1;
    if |p| == 1 {
      assert p[1..] == [];
      assert t[i - 1..i] == [t[i - 1]];
    } else {
      var rest := p[1..];
      assert NoSentinels(rest) by {
        assert forall m :: 0 <= m < |rest| ==> rest[m] == p[m + 1];
      }
      MatchInAugmented(t, rest, i + 1);
      assert p == [p[0]] + rest;
      if i - 1 + |p| <= |t| {
        assert t[i - 1..i - 1 + |p|] == [t[i - 1]] + t[i..i + |rest|];
      }
    }
  }

  /** Circular occurrences in the augmented text are the text's own occurrences. */
  lemma {:induction false} CyclicOccurrencesInText(t: seq<Char>, p: seq<Char>)
    requires NoSentinels(t) && NoSentinels(p) && p != []
    ensures CyclicOccurrences(Augment(t), p) == TextOccurrences(t, p)
  {
    var s := Augment(t);
    var circular := set i: nat | i < |s| && CyclicMatchAt(s, p, i);
    var plain := set i: nat | i <= |t| && OccursAt(t, p, i);
    forall i: nat | i < |s| ensures CyclicMatchAt(s, p, i) <==> i >= 1 && (i - 1) in plain {
      MatchInAugmented(t, p, i);
    }
    assert circular == Shift(plain);
    ShiftedSetSize(plain);
  }

  /** Every element of `a` plus one. */
  function Shift(a: set<nat>): set<nat> {
    set j | j in a :: j + 1
  }

  /** Adding one to every element keeps a set's size. */
  lemma {:induction false} ShiftedSetSize(a: set<nat>)
    ensures |Shift(a)| == |a|
    decreases |a|
  {
    if a != {} {
      var x :| x in a;
      var rest := a - {x};
      ShiftedSetSize(rest);
      assert Shift(a) == Shift(rest) + {x + 1} by {
        forall v ensures v in Shift(a) <==> v in Shift(rest) + {x + 1} {
          if v in Shift(a) {
            var j :| j in a && v == j + 1;
            if j != x {
              assert j in rest;
            }
          }
          if v in Shift(rest) {
            var j :| j in rest && v == j + 1;
            assert j in a;
          }
          if v == x + 1 {
            assert x in a;
          }
        }
      }
      assert x + 1 !in Shift(rest);
    }
  }
}
