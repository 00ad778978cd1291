/** The bookmark record of src/bookmark.h and the integer widths the program computes in. */
module Bookmarks {

  /** C++ `int`: 32-bit two's complement. */
  newtype int32 = x: int | -0x8000_0000 <= x < 0x8000_0000

  predicate InInt32(x: int) {
    -0x8000_0000 <= x < 0x8000_0000
  }

  /**
   * C++ `long`, assumed to be 64 bits wide as on LP64 platforms (Linux, macOS).
   * Where `long` is 32 bits (LLP64, 64-bit Windows) this model does not apply.
   */
  predicate InInt64(x: int) {
    -0x8000_0000_0000_0000 <= x < 0x8000_0000_0000_0000
  }

  /** A named event starting at `timestamp` milliseconds after midnight and lasting `duration` milliseconds. */
  datatype Bookmark = Bookmark(name: string, timestamp: int32, duration: int32)

  /** `timestamp + duration`, as a mathematical integer (the C++ sum is an `int` and must not overflow). */
  function EndTime(b: Bookmark): int {
    b.timestamp as int + b.duration as int
  }

  /** Non-decreasing by timestamp, the order the store keeps its bookmarks in. */
  predicate SortedByTimestamp(s: seq<Bookmark>) {
    forall i, j :: 0 <= i <= j < |s| ==> s[i].timestamp <= s[j].timestamp
  }
}
