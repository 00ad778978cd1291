/**
 * The store of bookmarks (src/bookmarksmodel.cpp): it regenerates its whole
 * vector from random draws and keeps it sorted by timestamp.
 *
 * `std::rand()` is an oracle: the sequence `rand` holds the values its
 * successive calls return, two per bookmark (the timestamp's draw, then the
 * duration's). `std::ranges::sort` is specified only as "some ordering by
 * timestamp that is a permutation"; `SortByTimestamp` is one such ordering.
 */
module Model {
  import opened Bookmarks
  import opened Decimal

  /** BOOKMARK_MAX_TIMESTAMP: 24 hours in milliseconds. */
  const BookmarkMaxTimestamp: int := 86_400_000
  /** BOOKMARK_MAX_DURATION: 3 hours in milliseconds. */
  const BookmarkMaxDuration: int := 10_800_000

  /**
   * `QString("Bookmark %1").arg(i)`: the prefix, then the decimal numeral of
   * `i` without leading zeros, which reads back as `i`.
   */
  function BookmarkName(i: nat): (name: string)
    ensures 9 < |name| && name[..9] == "Bookmark "
    ensures IsDigits(name[9..]) && ParseDecimal(name[9..]) == i
    ensures i == 0 || name[9] != '0'
  {
    var digits := NatToString(i);
    ParseNatToString(i);
    assert ("Bookmark " + digits)[9..] == digits;
    "Bookmark " + digits
  }

  /** Distinct indices give distinct names: each name reads back as its index. */
  lemma BookmarkNameInjective(i: nat, j: nat)
    ensures BookmarkName(i) == BookmarkName(j) <==> i == j
  {
  }

  /** The bookmark iteration `i` of the fill loop builds from its two draws. */
  function FromDraws(i: nat, timestampDraw: int, durationDraw: int): (b: Bookmark)
    requires 0 <= timestampDraw && 0 <= durationDraw
    ensures b.name == BookmarkName(i)
    ensures 0 <= b.timestamp as int < BookmarkMaxTimestamp
    ensures 0 <= b.duration as int < BookmarkMaxDuration
    ensures InInt32(EndTime(b))
  {
    Bookmark(BookmarkName(i),
             (timestampDraw % BookmarkMaxTimestamp) as int32,
             (durationDraw % BookmarkMaxDuration) as int32)
  }

  /** Every value in the oracle is a possible result of `std::rand()`, which never returns a negative number. */
  predicate RandomDraws(rand: seq<int>) {
    forall k :: 0 <= k < |rand| ==> 0 <= rand[k]
  }

  /** The first `n` bookmarks the fill loop appends, in generation order. */
  function Drawn(n: nat, rand: seq<int>): (s: seq<Bookmark>)
    requires 2 * n <= |rand| && RandomDraws(rand)
    ensures |s| == n
    ensures forall i :: 0 <= i < n ==> s[i] == FromDraws(i, rand[2 * i], rand[2 * i + 1])
  {
    if n == 0 then []
    else
      var prefix := Drawn(n - 1, rand);
      var last := FromDraws(n - 1, rand[2 * (n - 1)], rand[2 * (n - 1) + 1]);
      assert forall i :: 0 <= i < n - 1 ==> (prefix + [last])[i] == prefix[i];
      prefix + [last]
  }

  /** Inserts `b` into a sorted sequence, before the first element that does not precede it. */
  function Insert(b: Bookmark, s: seq<Bookmark>): (r: seq<Bookmark>)
    requires SortedByTimestamp(s)
    ensures SortedByTimestamp(r)
    ensures multiset(r) == multiset(s) + multiset{b}
  {
    if s == [] then [b]
    else if b.timestamp <= s[0].timestamp then [b] + s
    else
      var rest := Insert(b, s[1..]);
      assert s == [s[0]] + s[1..];
      forall y | y in rest ensures s[0].timestamp <= y.timestamp {
        assert y in multiset(rest);
        if y != b {
          assert y in multiset(s[1..]);
        }
      }
      ConsSorted(s[0], rest);
      [s[0]] + rest
  }

  lemma ConsSorted(x: Bookmark, s: seq<Bookmark>)
    requires SortedByTimestamp(s)
    requires forall y :: y in s ==> x.timestamp <= y.timestamp
    ensures SortedByTimestamp([x] + s)
  {
    var r := [x] + s;
    forall i, j | 0 <= i <= j < |r| ensures r[i].timestamp <= r[j].timestamp {
      if i == 0 {
        assert r[j] == x || r[j] in s;
      } else {
        assert r[i] == s[i - 1] && r[j] == s[j - 1];
      }
    }
  }

  /** One ordering of `s` by timestamp. */
  function SortByTimestamp(s: seq<Bookmark>): (r: seq<Bookmark>)
    ensures SortedByTimestamp(r)
    ensures multiset(r) == multiset(s)
  {
    if s == [] then []
    else
      assert s == [s[0]] + s[1..];
      Insert(s[0], SortByTimestamp(s[1..]))
  }

  /** What a sorted permutation of the generated bookmarks holds: exactly the drawn records, with their bounds. */
  lemma GeneratedContents(s: seq<Bookmark>, amount: nat, rand: seq<int>)
    requires 2 * amount <= |rand| && RandomDraws(rand)
    requires multiset(s) == multiset(Drawn(amount, rand))
    ensures |s| == amount
    ensures forall i :: 0 <= i < amount ==> Drawn(amount, rand)[i] in s
    ensures forall j :: 0 <= j < |s| ==> exists i :: 0 <= i < amount && s[j] == Drawn(amount, rand)[i]
    ensures forall i, j :: 0 <= i < amount && 0 <= j < amount && Drawn(amount, rand)[i].name == Drawn(amount, rand)[j].name ==> i == j
    ensures forall j :: 0 <= j < |s| ==>
              0 <= s[j].timestamp as int < BookmarkMaxTimestamp && 0 <= s[j].duration as int < BookmarkMaxDuration
    ensures forall j :: 0 <= j < |s| ==> InInt32(EndTime(s[j]))
  {
    var d := Drawn(amount, rand);
    assert |s| == |multiset(s)| == |multiset(d)| == amount;
    forall i | 0 <= i < amount ensures d[i] in s {
      assert d[i] in multiset(d);
    }
    forall j | 0 <= j < |s| ensures exists i :: 0 <= i < amount && s[j] == d[i] {
      assert s[j] in multiset(s);
      assert s[j] in d;
    }
    forall i, j | 0 <= i < amount && 0 <= j < amount && d[i].name == d[j].name ensures i == j {
      BookmarkNameInjective(i, j);
    }
  }

  class BookmarksModel {
    /** m_bookmarks */
    var bookmarks: seq<Bookmark>

    ghost predicate Valid()
      reads this
    {
      SortedByTimestamp(bookmarks)
    }

    constructor ()
      ensures Valid() && bookmarks == []
    {
      bookmarks := [];
    }

    /**
     * generate_bookmarks: discards the stored bookmarks, appends `amount` new
     * ones built from the oracle's draws, and sorts them by timestamp.
     * `reserve` rejects a negative `amount`, so none is passed.
     */
    method GenerateBookmarks(amount: int, rand: seq<int>)
      requires 0 <= amount
      requires 2 * amount <= |rand| && RandomDraws(rand)
      modifies this
      ensures Valid()
      ensures multiset(bookmarks) == multiset(Drawn(amount, rand))
    {
      bookmarks := [];
      var i := 0;
      while i < amount
        invariant 0 <= i <= amount
        invariant bookmarks == Drawn(i, rand)
      {
        var name := BookmarkName(i);
        var timestamp := rand[2 * i] % BookmarkMaxTimestamp;
        var duration := rand[2 * i + 1] % BookmarkMaxDuration;
        bookmarks := bookmarks + [Bookmark(name, timestamp as int32, duration as int32)];
        i := i + 1;
      }
      bookmarks := SortByTimestamp(bookmarks);
    }

    /** bookmarks(): the stored sequence, read without changing anything. */
    method Bookmarks() returns (r: seq<Bookmark>)
      ensures r == bookmarks
    {
      r := bookmarks;
    }
  }
}
