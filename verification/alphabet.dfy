/** The byte alphabet the transform works on, and its two reserved markers.

    Characters are 7-bit values. In the C++ program the rows of the rotation
    table are compared as `std::string`s (unsigned byte order) while the
    first column is sorted as plain `char`s (signed on common platforms);
    the two orders agree exactly on 7-bit bytes, which is the alphabet here.
 */
module Alphabet {

  /** A 7-bit byte. */
  type Char = c: int | 0 <= c < 128

  /** Start-of-text marker, prepended to the text before rotating it. */
  const STX: Char := 2

  /** End-of-text marker, appended to the text before rotating it. */
  const ETX: Char := 3

  /** The caller's side of the contract: neither marker occurs in `s`. */
  predicate NoSentinels(s: seq<Char>) {
    STX !in s && ETX !in s
  }

  /** An index that may be missing (`std::string::npos` in the C++ code). */
  datatype Option<T> = None | Some(value: T)
}
