/** The two scanning helpers of the search, `findFirstOccurrenceInBwt`
    (main.cpp:52-67) and `countOccurrencesInBwt` (main.cpp:76-94), plus the
    range scan inlined in `findOccurrencesInBwt` (main.cpp:124-129).
 */
module Rank {
  import opened Alphabet

  /** The least index holding `c`, or `None` (the C++ `npos`) when `c` is absent. */
  method FindFirstOccurrence(s: seq<Char>, c: Char) returns (r: Option<nat>)
    ensures r.None? <==> c !in s
    ensures r.Some? ==> r.value < |s| && s[r.value] == c && c !in s[..r.value]
  {
    var i := 0;
    while i < |s|
      invariant 0 <= i <= |s|
      invariant c !in s[..i]
    {
      if s[i] == c {
        return Some(i);
      }
      assert s[..i + 1] == s[..i] + [s[i]];
      i := i + 1;
    }
    assert s[..i] == s;
    return None;
  }

  /** The number of positions before `endIndex` that hold `c`. */
  method CountOccurrences(s: seq<Char>, c: Char, endIndex: nat) returns (count: nat)
    requires endIndex <= |s|
    ensures count == multiset(s[..endIndex])[c]
    ensures count <= endIndex
  {
    count := 0;
    var i := 0;
    while i < endIndex
      invariant 0 <= i <= endIndex
      invariant count == multiset(s[..i])[c]
    {
      assert s[..i + 1] == s[..i] + [s[i]];
      if s[i] == c {
        count := count + 1;
      }
      i := i + 1;
    }
    assert |multiset(s[..endIndex])| == endIndex;
  }

  /** Whether `c` occurs in the inclusive range `s[top..bottom]`. */
  method OccursInRange(s: seq<Char>, c: Char, top: nat, bottom: nat) returns (found: bool)
    requires top <= bottom < |s|
    ensures found <==> c in s[top..bottom + 1]
  {
    var j := top;
    while j <= bottom
      invariant top <= j <= bottom + 1
      invariant c !in s[top..j]
    {
      if s[j] == c {
        assert s[top..bottom + 1][j - top] == c;
        return true;
      }
      assert s[top..j + 1] == s[top..j] + [s[j]];
      j := j + 1;
    }
    return false;
  }

  /** Prefix counts grow by one exactly at the positions holding `c`. */
  lemma RankStep(s: seq<Char>, c: Char, e: nat)
    requires e < |s|
    ensures multiset(s[..e + 1])[c] == multiset(s[..e])[c] + (if s[e] == c then 1 else 0)
  {
    assert s[..e + 1] == s[..e] + [s[e]];
  }

  /** Prefix counts never decrease, and the difference counts the slice in between. */
  lemma RankSlice(s: seq<Char>, c: Char, lo: nat, hi: nat)
    requires lo <= hi <= |s|
    ensures multiset(s[..hi])[c] == multiset(s[..lo])[c] + multiset(s[lo..hi])[c]
  {
    assert s[..hi] == s[..lo] + s[lo..hi];
  }
}
