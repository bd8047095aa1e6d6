# Burrows-Wheeler transform and backward search, in Dafny

This project models the algorithmic core of a small C++ program (`main.cpp`).
The program computes the Burrows-Wheeler transform of a text and counts the
occurrences of a pattern by backward search (LF-mapping) over the transform.
The model has these parts:

- `Alphabet` (alphabet.dfy): 7-bit characters, the two markers `'\002'` (STX)
  and `'\003'` (ETX), and an `Option` for the C++ `npos`.
- `Counting` (counting.dfy): `CountIf`, the number of elements satisfying a
  predicate, and the counting facts the search proof rests on.
- `Sorting` (sorting.dfy): sorting by a total order. It stands in for both
  calls to `std::sort`, and is proved to have a unique answer.
- `Lex` (lex.dfy): the lexicographic order of `std::string`.
- `Transform` (transform.dfy): `burrowsWheelerTransform`. It augments the
  text with the markers, builds the rotation table, sorts it and takes the
  last column.
- `Rank` (rank.dfy): `findFirstOccurrenceInBwt`, `countOccurrencesInBwt` and
  the range scan inlined in the search loop.
- `Cyclic` (cyclic.dfy): occurrences of a pattern read around the circular
  augmented text, and how they match ordinary occurrences in the text.
- `BackwardSearch` (search.dfy): `findOccurrencesInBwt` and its correctness
  proof.

The search keeps an inclusive range `[top, bottom]` of rows of the sorted
rotation table.

- After the suffix `q` of the pattern has been consumed, `top` is the number
  of rows whose circular prefix is smaller than `q`.
- `bottom + 1` is the number of rows whose prefix is at most `q`.
- `LfStep` proves that the C++ update computes these two numbers for `[c] + q`.
- The proof works by counting rows. It uses only two facts: the table is
  sorted, and every row's last byte precedes its first byte in the text.

The headline result is the last `ensures` of `FindOccurrencesInBwt`. Take a
text `t` and a non-empty pattern `p`, neither containing a marker. Searching
for `p` in the transform of `t` returns the number of offsets where `p`
occurs in `t`, overlapping occurrences included.

## Model

| member | source | states |
|---|---|---|
| Transform.BurrowsWheeler | main.cpp:11-42 | The transform has length `|text| + 2` and is a permutation of `'\002' + text + '\003'` |
| Transform.Rotation | main.cpp:24-28 | Row `i` has the length and the bytes of the augmented text, starts with its byte `i` and ends with the byte before `i`, read around |
| Transform.SortedRotations | main.cpp:30-31 | The sorted table has one row per offset, is a permutation of the unsorted table, is in lexicographic order, and every row has the text's length |
| Transform.LastColumnIsPermutation | main.cpp:33-38 | Whatever the row order, the last column holds exactly the bytes of the augmented text |
| Transform.RotationsDistinct | main.cpp:20-28 | With a single end marker, two rotations at different offsets differ |
| Transform.SortedRotationsStrictlyIncrease | main.cpp:20-31 | For a text without the end marker, the sorted rows are in strictly increasing lexicographic order |
| Lex.LessEqTotalOrder | main.cpp:31 | The lexicographic order `std::sort` uses on the rows is a total order |
| Sorting.Sort | main.cpp:31 | Sorting returns a permutation of its input that is in order |
| Sorting.SortedPermutationUnique | main.cpp:31 | Two sorted permutations of the same elements are equal, so any sorting algorithm produces this result |
| Rank.FindFirstOccurrence | main.cpp:52-67 | Returns npos (`None`) exactly when the byte is absent; otherwise the least index holding it |
| Rank.CountOccurrences | main.cpp:76-94 | Returns the number of positions before `endIndex` that hold the byte, which is at most `endIndex` |
| Rank.RankStep | main.cpp:82-90 | The prefix count grows by one exactly at the positions that hold the byte |
| Rank.RankSlice | main.cpp:76-94 | Prefix counts are monotone, and their difference counts the byte in the slice between |
| Rank.OccursInRange | main.cpp:123-129 | The scan reports success exactly when the byte occurs in `bwt[top..bottom]` |
| BackwardSearch.FirstColumn | main.cpp:105-106 | The first column is a permutation of the transform in byte order |
| BackwardSearch.FirstIndexCountsSmaller | main.cpp:136-139 | In the sorted first column, the first index of `c` is the number of bytes smaller than `c` |
| BackwardSearch.RowsBeforeEmpty | main.cpp:109-110 | The initial bounds `0` and `|bwt| - 1` delimit the rows that start with the empty suffix |
| BackwardSearch.WholeTableRange | main.cpp:109-110 | On every text whose transform is `bwt`, the initial range is the range of the empty suffix |
| BackwardSearch.RangeWidthCountsOccurrences | main.cpp:116-117 | The range of `q` is as wide as the number of circular occurrences of `q` |
| BackwardSearch.RangeWidth | main.cpp:116-117 | `bottom - top + 1` on the range of `q` is the number of circular occurrences of `q` on every text with this transform |
| BackwardSearch.HeadSplit | main.cpp:136-139 | The rows before `[c] + q` are the rows starting below `c`, plus the rows whose last byte is `c` and which are before `q` |
| BackwardSearch.LastColumnRank | main.cpp:136-139 | For a property holding on a prefix of the sorted rows, the rows ending in `c` with that property are the `c`s in that prefix of the last column |
| BackwardSearch.LfStep | main.cpp:136-139 | The bounds for `[c] + q` are the number of bytes below `c` plus the number of `c`s in the transform above the bounds for `q` |
| BackwardSearch.NarrowedRangeOfText | main.cpp:136-139 | On one text, the C++ update turns the bounds of `q` into the bounds of `[c] + q` |
| BackwardSearch.NarrowedRange | main.cpp:136-139 | On every text with this transform, the update turns the range of `q` into the range of `[c] + q` |
| BackwardSearch.NarrowedRangeInBounds | main.cpp:123-139 | When `c` occurs in the range, the new range is non-empty and in bounds, so the `size_t` subtraction cannot underflow. It is as wide as the number of `c`s in the old range, so it is never wider than the old range |
| BackwardSearch.AbsentSymbolNoOccurrence | main.cpp:123-133 | If the next byte does not occur in the current range, no pattern ending in it and the consumed suffix occurs |
| BackwardSearch.EmptyRangeNoOccurrence | main.cpp:113-143 | If the loop ever left with an empty range, returning 0 would be right |
| BackwardSearch.NarrowRange | main.cpp:119-139 | One loop step. It reports whether the byte occurs in the range; if so, the new range is in bounds, no wider than the old one, and is the range of the longer suffix |
| BackwardSearch.FindOccurrencesInBwt | main.cpp:102-144 | The result is at most `|bwt|` and equals `|bwt|` for the empty pattern. It is 0 when a pattern byte is absent from `bwt`. On any text with this transform it equals the circular occurrences of the pattern; for marker-free text and pattern, its occurrences in the text |
| BackwardSearch.CountMeansTextOccurrences | main.cpp:96-101 | A count of circular occurrences is the count of occurrences in the text when neither text nor pattern contains a marker |
| Cyclic.CyclicPrefixOfRotation | main.cpp:24-28 | Row `i` of the table starts with `q` (read around) exactly when `q` occurs circularly at offset `i` |
| Cyclic.MatchInAugmented | main.cpp:20 | A marker-free pattern occurs circularly at offset `i` of the augmented text exactly when it occurs in the text at offset `i - 1` |
| Cyclic.CyclicOccurrencesInText | main.cpp:20 | Circular occurrences of a marker-free pattern in the augmented text are exactly its occurrences in the text |
| Cyclic.SuffixAbsent | main.cpp:132-133 | A pattern whose suffix never occurs does not occur either |

## Left out

- `main` (main.cpp:146-177) is argument handling and printing; it is not modelled.
- BackwardSearch.FindOccurrencesInBwt: requires a non-empty `bwt`. For an empty one, `transformedText.size() - 1` at main.cpp:110 wraps around; that case is not modelled. A transform always has at least the two markers.
- Alphabet: characters are 7-bit. For bytes of 0x80 and above, the rows (`std::string`, unsigned order) and the first column (`char`, signed on common platforms) may be sorted by different orders. That behaviour is not modelled.
- BackwardSearch.FindOccurrencesInBwt: the occurrence-count postconditions are stated for every text whose transform is the searched string. For strings that are no transform, only the bounds and the absent-byte result are stated.
- BackwardSearch.FindOccurrencesInBwt: the statement in terms of text occurrences assumes neither text nor pattern contains a marker byte. The program never checks this.
- Sorting.Sort: it is an insertion sort, not the algorithm `std::sort` uses. `SortedPermutationUnique` shows the result is the same.
- The search calls `findFirstOccurrenceInBwt` twice with the same arguments (main.cpp:136 and main.cpp:138). The model calls `FindFirstOccurrence` once.
- The `npos` case of that call never reaches the arithmetic. The byte was found in the range, so it occurs in the first column. No `size_t` wrap-around is modelled, and none can happen.
- The `return 0` after the loop (main.cpp:143) is modelled. It is unreachable, because each step leaves a non-empty range.
- Running time: the quadratic-space table and the repeated linear scans are not modelled.
