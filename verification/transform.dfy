/** The Burrows-Wheeler transform as `burrowsWheelerTransform` computes it
    (main.cpp:11-42): wrap the text in the two markers, list every cyclic
    rotation, sort the rotations, keep the last byte of each.
 */
module Transform {
  import opened Alphabet
  import Lex
  import Sorting
  import opened Counting

  /** The text with the start marker in front and the end marker behind (main.cpp:20). */
  function Augment(text: seq<Char>): seq<Char> {
    [STX] + text + [ETX]
  }

  /** The rotation starting at offset `i`: `s.substr(i) + s.substr(0, i)` (main.cpp:26). */
  function Rotation(s: seq<Char>, i: nat): (r: seq<Char>)
    requires i < |s|
    ensures |r| == |s|
    ensures multiset(r) == multiset(s)
    ensures r[0] == s[i]
    ensures r[|s| - 1] == s[if i == 0 then |s| - 1 else i - 1]
  {
    assert s == s[..i] + s[i..];
    s[i..] + s[..i]
  }

  /** The unsorted table: one row per offset, in offset order (main.cpp:23-28). */
  function Rotations(s: seq<Char>): seq<seq<Char>> {
    seq(|s|, i requires 0 <= i < |s| => Rotation(s, i))
  }

  /** The table after `std::sort` (main.cpp:31). */
  function SortedRotations(s: seq<Char>): (rows: seq<seq<Char>>)
    ensures |rows| == |s|
    ensures multiset(rows) == multiset(Rotations(s))
    ensures Sorting.SortedBy(rows, Lex.LessEq)
    ensures forall k :: 0 <= k < |rows| ==> |rows[k]| == |s|
  {
    Lex.LessEqTotalOrder();
    var rows := Sorting.Sort(Rotations(s), Lex.LessEq);
    assert forall k :: 0 <= k < |rows| ==> |rows[k]| == |s| by {
      forall k | 0 <= k < |rows| ensures |rows[k]| == |s| {
        assert rows[k] in multiset(Rotations(s));
      }
    }
    rows
  }

  /** The last byte of every row, in row order (main.cpp:35-38). */
  function LastColumn(rows: seq<seq<Char>>): seq<Char>
    requires forall k :: 0 <= k < |rows| ==> rows[k] != []
  {
    seq(|rows|, k requires 0 <= k < |rows| => rows[k][|rows[k]| - 1])
  }

  /** The predicate "the row ends with byte `x`". */
  function EndsWith(x: Char): seq<Char> -> bool {
    r => r != [] && r[|r| - 1] == x
  }

  /** The transform: the last column of the sorted rotation table of the augmented text. */
  function BurrowsWheeler(text: seq<Char>): (bwt: seq<Char>)
    ensures |bwt| == |text| + 2
    ensures multiset(bwt) == multiset(Augment(text))
  {
    LastColumnIsPermutation(Augment(text));
    LastColumn(SortedRotations(Augment(text)))
  }

  /** Whatever the order of the rows, their last bytes are the bytes of `s`. */
  lemma {:induction false} LastColumnIsPermutation(s: seq<Char>)
    requires |s| > 0
    ensures multiset(LastColumn(SortedRotations(s))) == multiset(s)
  {
    forall x ensures multiset(LastColumn(SortedRotations(s)))[x] == multiset(s)[x] {
      LastColumnCount(s, x);
    }
  }

  lemma {:induction false} LastColumnCount(s: seq<Char>, x: Char)
    requires |s| > 0
    ensures multiset(LastColumn(SortedRotations(s)))[x] == multiset(s)[x]
  {
    var rows := SortedRotations(s);
    var table := Rotations(s);
    var col := LastColumn(rows);
    var shifted := Rotation(s, |s| - 1);
    CountIfValueIsMultiplicity(col, x);
    CountIfPointwise(col, IsValue(x), rows, EndsWith(x));
    CountIfPermutation(rows, table, EndsWith(x));
    forall i | 0 <= i < |s| ensures EndsWith(x)(table[i]) == IsValue(x)(shifted[i]) {
      RotationLastIsShifted(s, i);
    }
    CountIfPointwise(table, EndsWith(x), shifted, IsValue(x));
    CountIfValueIsMultiplicity(shifted, x);
  }

  /** The last column of the unsorted table is the text rotated right by one. */
  lemma {:induction false} RotationLastIsShifted(s: seq<Char>, i: nat)
    requires i < |s|
    ensures Rotation(s, i)[|s| - 1] == Rotation(s, |s| - 1)[i]
  {
    var n := |s|;
    assert Rotation(s, n - 1) == [s[n - 1]] + s[..n - 1];
  }

  /** With the end marker only at the end, every row holds it at a different column. */
  lemma {:induction false} EndMarkerColumn(text: seq<Char>, i: nat, k: nat)
    requires ETX !in text
    requires i < |Augment(text)| && k < |Augment(text)|
    ensures Rotation(Augment(text), i)[k] == ETX <==> k == |Augment(text)| - 1 - i
  {
    var s := Augment(text);
    var n := |s|;
    assert forall m :: 0 <= m < n - 1 ==> s[m] != ETX by {
      forall m | 0 <= m < n - 1 ensures s[m] != ETX {
        if m > 0 {
          assert s[m] == text[m - 1];
        }
      }
    }
    if k < n - i {
      assert Rotation(s, i)[k] == s[i + k];
    } else {
      assert Rotation(s, i)[k] == s[k - (n - i)];
    }
  }

  /** No two rotations of an augmented text are equal. */
  lemma {:induction false} RotationsDistinct(text: seq<Char>, i: nat, j: nat)
    requires ETX !in text
    requires i < j < |Augment(text)|
    ensures Rotation(Augment(text), i) != Rotation(Augment(text), j)
  {
    var n := |Augment(text)|;
    EndMarkerColumn(text, i, n - 1 - i);
    EndMarkerColumn(text, j, n - 1 - i);
  }

  /** After sorting, the rows are in strictly increasing order (main.cpp:31). */
  lemma {:induction false} SortedRotationsStrictlyIncrease(text: seq<Char>)
    requires ETX !in text
    ensures forall i, j :: 0 <= i < j < |SortedRotations(Augment(text))| ==>
              Lex.Less(SortedRotations(Augment(text))[i], SortedRotations(Augment(text))[j])
  {
    var s := Augment(text);
    var rows := SortedRotations(s);
    var table := Rotations(s);
    forall i, j | 0 <= i < j < |rows| ensures Lex.Less(rows[i], rows[j]) {
      assert Lex.LessEq(rows[i], rows[j]);
      if rows[i] == rows[j] {
        var x := rows[i];
        RepeatedElement(rows, i, j);
        forall a, b | 0 <= a < b < |table| ensures table[a] != table[b] {
          RotationsDistinct(text, a, b);
        }
        DistinctMultiplicity(table, x);
        assert false;
      }
    }
  }

  /** A sequence without repeated elements holds each value at most once. */
  lemma {:induction false} DistinctMultiplicity(table: seq<seq<Char>>, x: seq<Char>)
    requires forall i, j :: 0 <= i < j < |table| ==> table[i] != table[j]
    ensures multiset(table)[x] <= 1
  {
    if table != [] {
      var rest := table[1..];
      assert table == [table[0]] + rest;
      assert multiset(table) == multiset{table[0]} + multiset(rest);
      if table[0] == x {
        assert x !in rest by {
          forall m | 0 <= m < |rest| ensures rest[m] != x {
            assert rest[m] == table[m + 1];
          }
        }
      } else {
        assert forall i, j :: 0 <= i < j < |rest| ==> rest[i] != rest[j] by {
          forall i, j | 0 <= i < j < |rest| ensures rest[i] != rest[j] {
            assert rest[i] == table[i + 1] && rest[j] == table[j + 1];
          }
        }
        DistinctMultiplicity(rest, x);
      }
    }
  }

  lemma {:induction false} RepeatedElement(s: seq<seq<Char>>, i: nat, j: nat)
    requires i < j < |s| && s[i] == s[j]
    ensures multiset(s)[s[i]] >= 2
  {
    assert s == s[..j] + s[j..];
    assert s[i] in s[..j];
    assert s[j..][0] == s[i];
  }
}
