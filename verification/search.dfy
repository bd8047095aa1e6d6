/** Backward search over the transformed text, as `findOccurrencesInBwt`
    performs it (main.cpp:102-144).

    The search keeps an inclusive range `[top, bottom]` of rows of the sorted
    rotation table and consumes the pattern from its last byte to its first.
    After the suffix `q` of the pattern has been consumed, the range holds
    exactly the rows that start with `q` read around the circle: `top` is the
    number of rows that start with something smaller than `q`
    (`RowsBefore(s, q, true)`) and `bottom + 1` the number of rows that start
    with something at most `q` (`RowsBefore(s, q, false)`). The LF-mapping
    step (`LfStep`) shows that the C++ update computes those two numbers for
    the one byte longer suffix; only the sortedness of the rows and the fact
    that the last column is a rotation of the first are used, so the step
    holds for any text, markers or not.
 */
module BackwardSearch {
  import opened Alphabet
  import opened Counting
  import Lex
  import Sorting
  import opened Transform
  import opened Cyclic
  import opened Rank

  /** Byte order, as `std::sort` compares `char`s. */
  function CharLe(a: Char, b: Char): bool {
    a <= b
  }

  lemma {:induction false} CharLeTotalOrder()
    ensures Sorting.TotalOrder(CharLe)
  {
  }

  /** The first column of the table: the transformed text sorted (main.cpp:105-106). */
  function FirstColumn(bwt: seq<Char>): (first: seq<Char>)
    ensures multiset(first) == multiset(bwt)
    ensures Sorting.SortedBy(first, CharLe)
  {
    CharLeTotalOrder();
    Sorting.Sort(bwt, CharLe)
  }

  /** The predicate "byte smaller than `c`". */
  function Below(c: Char): Char -> bool {
    x => x < c
  }

  /** The row `r`, read around, starts with something before `q` (strictly
      before, or at most `q`, as `strict` says). */
  predicate RowBefore(r: seq<Char>, q: seq<Char>, strict: bool) {
    Lex.Before(CyclicPrefix(r, |q|), q, strict)
  }

  /** The row `r`, read around, starts with `q`. */
  predicate RowStartsWith(r: seq<Char>, q: seq<Char>) {
    CyclicPrefix(r, |q|) == q
  }

  /** `RowBefore` as a predicate on rows, for counting. */
  function PrefixBefore(q: seq<Char>, strict: bool): seq<Char> -> bool {
    r => RowBefore(r, q, strict)
  }

  /** `RowStartsWith` as a predicate on rows, for counting. */
  function PrefixIs(q: seq<Char>): seq<Char> -> bool {
    r => RowStartsWith(r, q)
  }

  /** The predicate "the row starts with a byte smaller than `c`". */
  function HeadBelow(c: Char): seq<Char> -> bool {
    r => r != [] && r[0] < c
  }

  /** The predicate "the row starts with `c` and the rest of it, read around, satisfies `P`". */
  function HeadThen(c: Char, P: seq<Char> -> bool): seq<Char> -> bool {
    r => r != [] && r[0] == c && P(RotateLeft(r))
  }

  /** The predicate "the row ends with `c` and satisfies `P`". */
  function EndsWithThen(c: Char, P: seq<Char> -> bool): seq<Char> -> bool {
    r => r != [] && r[|r| - 1] == c && P(r)
  }

  /** Number of rotations of `s` that start with something before `q`. */
  ghost function RowsBefore(s: seq<Char>, q: seq<Char>, strict: bool): nat {
    CountIf(Rotations(s), PrefixBefore(q, strict))
  }

  /** The initial range `[0, |s| - 1]` is the range of the empty suffix (main.cpp:109-110). */
  lemma {:induction false} RowsBeforeEmpty(s: seq<Char>)
    ensures RowsBefore(s, [], true) == 0
    ensures RowsBefore(s, [], false) == |s|
  {
    var table := Rotations(s);
    forall i | 0 <= i < |table| ensures !PrefixBefore([], true)(table[i]) {
      Lex.LessIrreflexive([]);
    }
    CountIfNone(table, PrefixBefore([], true));
    CountIfExactPrefix(table, PrefixBefore([], false), |table|);
  }

  /** A row is at most `q` exactly when it is strictly before `q` or starts with it. */
  lemma {:induction false} RowAtMostSplit(r: seq<Char>, q: seq<Char>)
    ensures PrefixBefore(q, false)(r) <==> PrefixBefore(q, true)(r) || PrefixIs(q)(r)
    ensures !(PrefixBefore(q, true)(r) && PrefixIs(q)(r))
  {
    Lex.LessIrreflexive(q);
  }

  /** The rows of the table that start with `q` are the circular occurrences of `q`. */
  lemma {:induction false} RowsStartingWith(s: seq<Char>, q: seq<Char>)
    ensures CountIf(Rotations(s), PrefixIs(q)) == CyclicOccurrences(s, q)
  {
    var table := Rotations(s);
    CountIfPositions(table, PrefixIs(q));
    var matches := set i: nat | i < |s| && CyclicMatchAt(s, q, i);
    forall i ensures i in Positions(table, PrefixIs(q)) <==> i in matches {
      if 0 <= i < |s| {
        CyclicPrefixOfRotation(s, q, i);
      }
    }
    assert Positions(table, PrefixIs(q)) == matches;
  }

  /** The width of the range of `q` is the number of circular occurrences of `q`. */
  lemma {:induction false} RangeWidthCountsOccurrences(s: seq<Char>, q: seq<Char>)
    ensures RowsBefore(s, q, false) == RowsBefore(s, q, true) + CyclicOccurrences(s, q)
  {
    var table := Rotations(s);
    forall i | 0 <= i < |table|
      ensures PrefixBefore(q, false)(table[i]) <==> PrefixBefore(q, true)(table[i]) || PrefixIs(q)(table[i])
      ensures !(PrefixBefore(q, true)(table[i]) && PrefixIs(q)(table[i]))
    {
      RowAtMostSplit(table[i], q);
    }
    CountIfDisjointUnion(table, PrefixBefore(q, false), PrefixBefore(q, true), PrefixIs(q));
    RowsStartingWith(s, q);
  }

  /** Reading two rows of equal length around the circle keeps their order. */
  lemma {:induction false} CyclicPrefixMonotone(a: seq<Char>, b: seq<Char>, m: nat)
    requires |a| == |b| && a != []
    requires Lex.LessEq(a, b)
    ensures Lex.LessEq(CyclicPrefix(a, m), CyclicPrefix(b, m))
    decreases m
  {
    if m > 0 && a != b {
      var x := CyclicPrefix(RotateLeft(a), m - 1);
      var y := CyclicPrefix(RotateLeft(b), m - 1);
      assert CyclicPrefix(a, m) == [a[0]] + x && CyclicPrefix(b, m) == [b[0]] + y;
      Lex.BeforeCons(a[0], x, b[0], y, false);
      if a[0] == b[0] {
        assert Lex.Less(a[1..], b[1..]);
        Lex.LessEqAppend(a[1..], b[1..], [a[0]]);
        CyclicPrefixMonotone(RotateLeft(a), RotateLeft(b), m - 1);
      }
    }
  }

  /** Along the sorted table, "starts with something before `q`" holds on a prefix of the rows. */
  lemma {:induction false} SortedRowsDownwardClosed(s: seq<Char>, q: seq<Char>, strict: bool)
    requires s != []
    ensures DownwardClosed(SortedRotations(s), PrefixBefore(q, strict))
  {
    var rows := SortedRotations(s);
    forall i, j | 0 <= i < j < |rows| && PrefixBefore(q, strict)(rows[j])
      ensures PrefixBefore(q, strict)(rows[i])
    {
      assert Lex.LessEq(rows[i], rows[j]);
      CyclicPrefixMonotone(rows[i], rows[j], |q|);
      Lex.BeforeTransitive(CyclicPrefix(rows[i], |q|), CyclicPrefix(rows[j], |q|), q, strict);
    }
  }

  /** A row is before `[c] + q` exactly when its first byte is below `c`, or is
      `c` and the row rotated by one is before `q`. */
  lemma {:induction false} RowHeadSplit(r: seq<Char>, c: Char, q: seq<Char>, strict: bool)
    requires r != []
    ensures PrefixBefore([c] + q, strict)(r) <==>
              HeadBelow(c)(r) || HeadThen(c, PrefixBefore(q, strict))(r)
  {
    var rest := CyclicPrefix(RotateLeft(r), |q|);
    assert CyclicPrefix(r, |[c] + q|) == [r[0]] + rest;
    Lex.BeforeCons(r[0], rest, c, q, strict);
  }

  /** The rows starting with `c` and satisfying `P` after it correspond, one to one,
      to the rows ending with `c` and satisfying `P`: each is the next offset's row. */
  lemma {:induction false} HeadThenShift(s: seq<Char>, c: Char, P: seq<Char> -> bool)
    requires s != []
    ensures CountIf(Rotations(s), HeadThen(c, P)) == CountIf(Rotations(s), EndsWithThen(c, P))
  {
    var n := |s|;
    var table := Rotations(s);
    var shifted := table[1..] + table[..1];
    forall i | 0 <= i < n ensures HeadThen(c, P)(table[i]) == EndsWithThen(c, P)(shifted[i]) {
      RotateLeftRotation(s, i);
      assert shifted[i] == table[Next(i, n)];
    }
    CountIfPointwise(table, HeadThen(c, P), shifted, EndsWithThen(c, P));
    assert table == table[..1] + table[1..];
    CountIfPermutation(shifted, table, EndsWithThen(c, P));
  }

  /** Splitting the rows before `[c] + q` by their first byte. */
  lemma {:induction false} HeadSplit(s: seq<Char>, c: Char, q: seq<Char>, strict: bool)
    requires s != []
    ensures RowsBefore(s, [c] + q, strict) ==
              CountIf(s, Below(c)) + CountIf(Rotations(s), EndsWithThen(c, PrefixBefore(q, strict)))
  {
    var table := Rotations(s);
    var P := PrefixBefore(q, strict);
    forall i | 0 <= i < |s|
      ensures PrefixBefore([c] + q, strict)(table[i]) <==> HeadBelow(c)(table[i]) || HeadThen(c, P)(table[i])
      ensures !(HeadBelow(c)(table[i]) && HeadThen(c, P)(table[i]))
    {
      RowHeadSplit(table[i], c, q, strict);
    }
    CountIfDisjointUnion(table, PrefixBefore([c] + q, strict), HeadBelow(c), HeadThen(c, P));
    CountIfPointwise(table, HeadBelow(c), s, Below(c));
    HeadThenShift(s, c, P);
  }

  /** For a property `P` that holds on a prefix of the sorted rows, the rows ending
      with `c` and satisfying `P` are the `c`s in the first `CountIf(table, P)`
      bytes of the last column. */
  lemma {:induction false} LastColumnRank(s: seq<Char>, c: Char, P: seq<Char> -> bool)
    requires s != []
    requires DownwardClosed(SortedRotations(s), P)
    ensures CountIf(Rotations(s), EndsWithThen(c, P)) ==
              multiset(LastColumn(SortedRotations(s))[..CountIf(Rotations(s), P)])[c]
  {
    var rows := SortedRotations(s);
    var col := LastColumn(rows);
    var k := CountIf(Rotations(s), P);
    CountIfPermutation(Rotations(s), rows, EndsWithThen(c, P));
    CountIfPermutation(Rotations(s), rows, P);
    CountIfDownwardClosed(rows, P);
    CountIfRestrict(rows, EndsWithThen(c, P), EndsWith(c), k);
    CountIfPointwise(rows[..k], EndsWith(c), col[..k], IsValue(c));
    CountIfValueIsMultiplicity(col[..k], c);
  }

  /** The LF-mapping: the range of `[c] + q` from the range of `q` (main.cpp:136-139). */
  lemma {:induction false} LfStep(s: seq<Char>, c: Char, q: seq<Char>, strict: bool)
    requires s != []
    ensures RowsBefore(s, [c] + q, strict) ==
              CountIf(s, Below(c)) + multiset(LastColumn(SortedRotations(s))[..RowsBefore(s, q, strict)])[c]
  {
    HeadSplit(s, c, q, strict);
    SortedRowsDownwardClosed(s, q, strict);
    LastColumnRank(s, c, PrefixBefore(q, strict));
  }

  /** In a sorted sequence the first index of `c` is the number of smaller bytes. */
  lemma {:induction false} FirstIndexCountsSmaller(first: seq<Char>, c: Char, i: nat)
    requires Sorting.SortedBy(first, CharLe)
    requires i < |first| && first[i] == c && c !in first[..i]
    ensures i == CountIf(first, Below(c))
  {
    forall k | 0 <= k < |first| ensures Below(c)(first[k]) <==> k < i {
      if k < i {
        assert first[k] == first[..i][k];
        Sorting.SortedAt(first, CharLe, k, i);
      } else if k > i {
        Sorting.SortedAt(first, CharLe, i, k);
      }
    }
    CountIfExactPrefix(first, Below(c), i);
  }

  lemma {:induction false} MultiplicityBound(s: seq<Char>, c: Char)
    ensures multiset(s)[c] <= |s|
  {
    CountIfValueIsMultiplicity(s, c);
  }

  /** One step of the search on any text and its sorted copy: when `c` occurs
      in `bwt[top..bottom]`, the new range is non-empty, in bounds, no wider
      than the old one, and as wide as the number of `c`s in the old range
      (main.cpp:123-139). */
  lemma {:induction false} NarrowedRangeInBounds(bwt: seq<Char>, first: seq<Char>, c: Char, i: nat, top: nat, bottom: nat)
    requires multiset(first) == multiset(bwt)
    requires i < |first| && first[i] == c && c !in first[..i]
    requires top <= bottom < |bwt| && c in bwt[top..bottom + 1]
    ensures i + multiset(bwt[..top])[c] <= i + multiset(bwt[..bottom + 1])[c] - 1 < |bwt|
    ensures multiset(bwt[..bottom + 1])[c] - multiset(bwt[..top])[c] == multiset(bwt[top..bottom + 1])[c]
    ensures multiset(bwt[top..bottom + 1])[c] <= bottom + 1 - top
  {
    RankSlice(bwt, c, top, bottom + 1);
    RankSlice(bwt, c, bottom + 1, |bwt|);
    assert bwt[..|bwt|] == bwt;
    MultiplicityBound(bwt[top..bottom + 1], c);
    assert first == first[..i] + first[i..];
    assert multiset(first)[c] == multiset(first[i..])[c];
    MultiplicityBound(first[i..], c);
  }

  /** `[top, bottom]` is the range of the suffix `q` in the sorted rotation table
      of every text whose transform is `bwt`. */
  ghost predicate RangeOf(bwt: seq<Char>, q: seq<Char>, top: int, bottom: int) {
    forall t :: BurrowsWheeler(t) == bwt ==>
      top == RowsBefore(Augment(t), q, true) && bottom + 1 == RowsBefore(Augment(t), q, false)
  }

  /** The whole table is the range of the empty suffix (main.cpp:109-110). */
  lemma {:induction false} WholeTableRange(bwt: seq<Char>)
    requires |bwt| >= 1
    ensures RangeOf(bwt, [], 0, |bwt| - 1)
  {
    forall t | BurrowsWheeler(t) == bwt
      ensures 0 == RowsBefore(Augment(t), [], true) && |bwt| == RowsBefore(Augment(t), [], false)
    {
      RowsBeforeEmpty(Augment(t));
    }
  }

  /** The width of the range of `q` is the number of circular occurrences of `q`
      (main.cpp:116-117). */
  lemma {:induction false} RangeWidth(bwt: seq<Char>, q: seq<Char>, top: int, bottom: int)
    requires RangeOf(bwt, q, top, bottom)
    ensures forall t :: BurrowsWheeler(t) == bwt ==> bottom + 1 - top == CyclicOccurrences(Augment(t), q)
  {
    forall t | BurrowsWheeler(t) == bwt ensures bottom + 1 - top == CyclicOccurrences(Augment(t), q) {
      RangeWidthCountsOccurrences(Augment(t), q);
    }
  }

  /** An empty range for the suffix `q` means the whole pattern `x + q` never occurs
      (main.cpp:143). */
  lemma {:induction false} EmptyRangeNoOccurrence(bwt: seq<Char>, x: seq<Char>, q: seq<Char>, top: int, bottom: int)
    requires RangeOf(bwt, q, top, bottom) && top == bottom + 1
    ensures forall t :: BurrowsWheeler(t) == bwt ==> CyclicOccurrences(Augment(t), x + q) == 0
  {
    RangeWidth(bwt, q, top, bottom);
    forall t | BurrowsWheeler(t) == bwt ensures CyclicOccurrences(Augment(t), x + q) == 0 {
      SuffixAbsent(Augment(t), x, q);
    }
  }

  /** When `c` does not occur in the range of `q`, nothing ending in `[c] + q`
      occurs (main.cpp:132-133). */
  lemma {:induction false} AbsentSymbolNoOccurrence(bwt: seq<Char>, x: seq<Char>, c: Char, q: seq<Char>, top: nat, bottom: nat)
    requires top <= bottom < |bwt| && c !in bwt[top..bottom + 1]
    requires RangeOf(bwt, q, top, bottom)
    ensures forall t :: BurrowsWheeler(t) == bwt ==> CyclicOccurrences(Augment(t), x + ([c] + q)) == 0
  {
    assert multiset(bwt[top..bottom + 1])[c] == 0;
    RankSlice(bwt, c, top, bottom + 1);
    forall t | BurrowsWheeler(t) == bwt ensures CyclicOccurrences(Augment(t), x + ([c] + q)) == 0 {
      var s := Augment(t);
      LfStep(s, c, q, true);
      LfStep(s, c, q, false);
      RangeWidthCountsOccurrences(s, [c] + q);
      SuffixAbsent(s, x, [c] + q);
    }
  }

  /** The update of `topIndex` and `bottomIndex` (main.cpp:136-139) on one text:
      `i`, the number of bytes below `c`, plus the number of `c`s above the old
      bounds gives the bounds of `[c] + q`. */
  lemma {:induction false} NarrowedRangeOfText(s: seq<Char>, bwt: seq<Char>, c: Char, q: seq<Char>, i: nat,
                                               top: nat, bottom: nat, rankTop: nat, rankBottom: nat)
    requires s != [] && bwt == LastColumn(SortedRotations(s))
    requires i == CountIf(bwt, Below(c))
    requires top <= bottom + 1 <= |bwt|
    requires rankTop == multiset(bwt[..top])[c] && rankBottom == multiset(bwt[..bottom + 1])[c]
    requires top == RowsBefore(s, q, true) && bottom + 1 == RowsBefore(s, q, false)
    ensures i + rankTop == RowsBefore(s, [c] + q, true)
    ensures i + rankBottom == RowsBefore(s, [c] + q, false)
  {
    LfStep(s, c, q, true);
    LfStep(s, c, q, false);
    LastColumnIsPermutation(s);
    CountIfPermutation(s, bwt, Below(c));
  }

  /** The update of `topIndex` and `bottomIndex` (main.cpp:136-139) turns the range
      of `q` into the range of `[c] + q`. */
  lemma {:induction false} NarrowedRange(bwt: seq<Char>, first: seq<Char>, c: Char, q: seq<Char>, i: nat,
                                         top: nat, bottom: nat, rankTop: nat, rankBottom: nat)
    requires Sorting.SortedBy(first, CharLe) && multiset(first) == multiset(bwt)
    requires i < |first| && first[i] == c && c !in first[..i]
    requires top <= bottom + 1 <= |bwt|
    requires rankTop == multiset(bwt[..top])[c] && rankBottom == multiset(bwt[..bottom + 1])[c]
    requires RangeOf(bwt, q, top, bottom)
    ensures RangeOf(bwt, [c] + q, i + rankTop, i + rankBottom - 1)
  {
    FirstIndexCountsSmaller(first, c, i);
    CountIfPermutation(bwt, first, Below(c));
    forall t | BurrowsWheeler(t) == bwt
      ensures i + rankTop == RowsBefore(Augment(t), [c] + q, true)
      ensures i + rankBottom == RowsBefore(Augment(t), [c] + q, false)
    {
      NarrowedRangeOfText(Augment(t), bwt, c, q, i, top, bottom, rankTop, rankBottom);
    }
  }

  /** The count a finished search reports, read back on every text whose transform was searched. */
  lemma {:induction false} CountMeansTextOccurrences(bwt: seq<Char>, pattern: seq<Char>, count: nat)
    requires forall t :: BurrowsWheeler(t) == bwt ==> count == CyclicOccurrences(Augment(t), pattern)
    ensures forall t :: BurrowsWheeler(t) == bwt && NoSentinels(t) && NoSentinels(pattern) && pattern != [] ==>
              count == TextOccurrences(t, pattern)
  {
    forall t | BurrowsWheeler(t) == bwt && NoSentinels(t) && NoSentinels(pattern) && pattern != []
      ensures count == TextOccurrences(t, pattern)
    {
      CyclicOccurrencesInText(t, pattern);
    }
  }

  /** One step of the search loop (main.cpp:119-139): take the range `[top, bottom]`
      of the suffix `q`, look for `symbol` in it, and, when it is there, compute the
      range of `[symbol] + q` from the first column and the two prefix counts. */
  method NarrowRange(bwt: seq<Char>, first: seq<Char>, symbol: Char, top: nat, bottom: nat, ghost q: seq<Char>)
    returns (found: bool, newTop: nat, newBottom: nat)
    requires Sorting.SortedBy(first, CharLe) && multiset(first) == multiset(bwt)
    requires top <= bottom < |bwt|
    requires RangeOf(bwt, q, top, bottom)
    ensures found <==> symbol in bwt[top..bottom + 1]
    ensures found ==> symbol in bwt && newTop <= newBottom < |bwt| && newBottom - newTop <= bottom - top
    ensures found ==> RangeOf(bwt, [symbol] + q, newTop, newBottom)
  {
    found := OccursInRange(bwt, symbol, top, bottom);
    if !found {
      return found, top, bottom;
    }
    var firstIndex := FindFirstOccurrence(first, symbol);
    assert symbol in bwt by {
      assert bwt[top..bottom + 1] <= bwt[top..];
      assert bwt == bwt[..top] + bwt[top..];
    }
    assert symbol in multiset(first);
    var i := firstIndex.value;
    var rankTop := CountOccurrences(bwt, symbol, top);
    var rankBottom := CountOccurrences(bwt, symbol, bottom + 1);
    NarrowedRangeInBounds(bwt, first, symbol, i, top, bottom);
    NarrowedRange(bwt, first, symbol, q, i, top, bottom, rankTop, rankBottom);
    newTop := i + rankTop;
    newBottom := i + rankBottom - 1;
  }

  /** Backward search: the number of rows of the sorted rotation table that
      start with `pattern`. On the transform of a text this is the number of
      circular occurrences of the pattern in the augmented text, and for a
      non-empty pattern without markers the number of occurrences in the text. */
  method FindOccurrencesInBwt(bwt: seq<Char>, pattern: seq<Char>) returns (count: nat)
    requires |bwt| >= 1
    ensures count <= |bwt|
    ensures pattern == [] ==> count == |bwt|
    ensures (exists k :: 0 <= k < |pattern| && pattern[k] !in bwt) ==> count == 0
    ensures forall t :: BurrowsWheeler(t) == bwt ==> count == CyclicOccurrences(Augment(t), pattern)
    ensures forall t :: BurrowsWheeler(t) == bwt && NoSentinels(t) && NoSentinels(pattern) && pattern != [] ==>
              count == TextOccurrences(t, pattern)
  {
    var first := FirstColumn(bwt);
    var top: nat := 0;
    var bottom: nat := |bwt| - 1;
    // The pattern is consumed from the back: `pattern[..n]` is what is left of it.
    var n := |pattern|;
    WholeTableRange(bwt);
    assert pattern[n..] == [];
    while top <= bottom
      invariant n <= |pattern|
      invariant top <= bottom + 1 <= |bwt|
      invariant n == |pattern| ==> top == 0 && bottom == |bwt| - 1
      invariant forall k :: n <= k < |pattern| ==> pattern[k] in bwt
      invariant RangeOf(bwt, pattern[n..], top, bottom)
      decreases n
    {
      if n == 0 {
        count := bottom - top + 1;
        assert pattern[n..] == pattern;
        RangeWidth(bwt, pattern, top, bottom);
        CountMeansTextOccurrences(bwt, pattern, count);
        return;
      }
      var symbol := pattern[n - 1];
      ghost var q := pattern[n..];
      n := n - 1;
      assert pattern[n..] == [symbol] + q;
      var found, newTop, newBottom := NarrowRange(bwt, first, symbol, top, bottom, q);
      if !found {
        count := 0;
        AbsentSymbolNoOccurrence(bwt, pattern[..n], symbol, q, top, bottom);
        assert pattern == pattern[..n] + ([symbol] + q);
        CountMeansTextOccurrences(bwt, pattern, count);
        return;
      }
      top, bottom := newTop, newBottom;
    }
    count := 0;
    EmptyRangeNoOccurrence(bwt, pattern[..n], pattern[n..], top, bottom);
    assert pattern == pattern[..n] + pattern[n..];
    CountMeansTextOccurrences(bwt, pattern, count);
  }
}
