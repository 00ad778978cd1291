/**
 * The timeline widget (src/bookmarksview.cpp): the integer map from
 * milliseconds to pixels, the grouping of sorted bookmarks into on-screen
 * clusters, and the geometry `paintEvent` draws (hour ticks and one rectangle
 * per group), with the painter itself left out.
 */
module View {
  import opened Bookmarks
  import opened Decimal

  /** `std::chrono::milliseconds(24h).count()`: the whole width of the widget is one day. */
  const MsPerDay: int := 86_400_000
  /** QWIDGETSIZE_MAX: Qt never gives a widget a larger width. */
  const QWidgetSizeMax: int := 16_777_215
  /** Bookmarks closer than this many pixels to their group's first member join the group. */
  const GroupDistance: int := 100
  const NumHours: int := 24
  const TickLen: int := 20

  /** The values `QWidget::width()` can return. */
  type Width = w: int | 0 <= w <= QWidgetSizeMax

  /** C++ integer division, which truncates toward zero (Dafny's `/` is Euclidean). */
  function TruncDiv(a: int, d: int): int
    requires d > 0
  {
    if a >= 0 then a / d else -((-a) / d)
  }

  /** `static_cast<int>` of a `long`: the value modulo 2^32, as C++20 defines the narrowing conversion. */
  function ToInt32(x: int): int {
    (x + 0x8000_0000) % 0x1_0000_0000 - 0x8000_0000
  }

  lemma MulNonNegative(a: int, b: int)
    requires 0 <= a && 0 <= b
    ensures 0 <= a * b
  {
  }

  /** |ms * width| < 2^31 * 2^24 */
  lemma ProductMagnitude(m: nat, width: Width)
    requires m <= 0x8000_0000
    ensures 0 <= m * width <= 0x8000_0000 * QWidgetSizeMax
  {
    MulNonNegative(m, width);
    MulNonNegative(m, QWidgetSizeMax - width);
    assert m * QWidgetSizeMax - m * width == m * (QWidgetSizeMax - width);
  }

  lemma QuotientMagnitude(p: nat)
    requires p <= 0x8000_0000 * QWidgetSizeMax
    ensures p / MsPerDay < 0x2000_0000
  {
    var q := p / MsPerDay;
    assert q * MsPerDay <= p;
  }

  lemma ProductBounds(ms: int32, width: Width)
    ensures -0x80_0000_0000_0000 < ms as int * width < 0x80_0000_0000_0000
    ensures -0x2000_0000 < TruncDiv(ms as int * width, MsPerDay) < 0x2000_0000
  {
    var m := ms as int;
    if m >= 0 {
      ProductMagnitude(m, width);
      QuotientMagnitude(m * width);
    } else {
      ProductMagnitude(-m, width);
      assert m * width == -((-m) * width);
      QuotientMagnitude((-m) * width);
    }
  }

  /**
   * milliseconds_to_pixels: `ms * width / 86400000` in `long`, truncated, then
   * cast to `int`. The result is far inside the `int` range, so subtracting
   * two of them cannot overflow.
   */
  function MillisecondsToPixels(ms: int32, width: Width): (px: int)
    ensures -0x2000_0000 < px < 0x2000_0000
  {
    ProductBounds(ms, width);
    ToInt32(TruncDiv(ms as int * width, MsPerDay))
  }

  /**
   * For every `int` argument and every widget width the product fits in a
   * `long` and the quotient in an `int`, so the cast loses nothing.
   */
  lemma PixelsExact(ms: int32, width: Width)
    ensures InInt64(ms as int * width)
    ensures MillisecondsToPixels(ms, width) == TruncDiv(ms as int * width, MsPerDay)
  {
    ProductBounds(ms, width);
  }

  /** For non-negative times the map is the floor of the exact proportion. */
  lemma PixelsFloor(ms: int32, width: Width)
    requires 0 <= ms
    ensures MillisecondsToPixels(ms, width) * MsPerDay <= ms as int * width < (MillisecondsToPixels(ms, width) + 1) * MsPerDay
  {
    PixelsExact(ms, width);
    assert ms as int * width >= 0 by {
      assert ms as int >= 0;
    }
  }

  lemma TruncDivMonotone(x: int, y: int)
    requires x <= y
    ensures TruncDiv(x, MsPerDay) <= TruncDiv(y, MsPerDay)
  {
  }

  /** Later times are never drawn to the left of earlier ones. */
  lemma {:induction false} PixelsMonotone(a: int32, b: int32, width: Width)
    requires a <= b
    ensures MillisecondsToPixels(a, width) <= MillisecondsToPixels(b, width)
  {
    PixelsExact(a, width);
    PixelsExact(b, width);
    var x, y := a as int * width, b as int * width;
    MulNonNegative(b as int - a as int, width);
    assert y - x == (b as int - a as int) * width;
    TruncDivMonotone(x, y);
  }

  /** Midnight is the left edge and the next midnight the right edge. */
  lemma PixelsEndpoints(width: Width)
    ensures MillisecondsToPixels(0, width) == 0
    ensures MillisecondsToPixels(MsPerDay as int32, width) == width
  {
    PixelsExact(0, width);
    PixelsExact(MsPerDay as int32, width);
  }

  /** Every time of the day lands inside a non-empty widget. */
  lemma PixelsWithinWidget(ms: int32, width: Width)
    requires 0 <= ms as int < MsPerDay && 0 < width
    ensures 0 <= MillisecondsToPixels(ms, width) < width
  {
    PixelsExact(ms, width);
    var p := ms as int * width;
    MulNonNegative(ms as int, width);
    MulNonNegative(MsPerDay - ms as int - 1, width);
    assert MsPerDay * width - p == (MsPerDay - ms as int - 1) * width + width;
    assert p / MsPerDay * MsPerDay <= p;
  }

  /** A widget of width zero draws everything at pixel zero. */
  lemma PixelsZeroWidth(ms: int32)
    ensures MillisecondsToPixels(ms, 0) == 0
  {
    PixelsExact(ms, 0);
  }

  // ---------------------------------------------------------------------------
  // Grouping

  /**
   * `b` joins the group whose first member is `anchor` when it lies fewer than
   * GroupDistance pixels to the right of the anchor (or anywhere to its left).
   */
  predicate WithinReach(anchor: Bookmark, b: Bookmark, width: Width): (r: bool)
    ensures b.timestamp <= anchor.timestamp ==> r
    ensures width == 0 ==> r
  {
    PixelsZeroWidth(anchor.timestamp);
    PixelsZeroWidth(b.timestamp);
    // Both branches compute the same test. The branch exists so that the
    // monotonicity lemma, which needs `b` no later than `anchor`, can be
    // invoked for the first ensures.
    if b.timestamp <= anchor.timestamp then
      PixelsMonotone(b.timestamp, anchor.timestamp, width);
      MillisecondsToPixels(b.timestamp, width) - MillisecondsToPixels(anchor.timestamp, width) < GroupDistance
    else
      MillisecondsToPixels(b.timestamp, width) - MillisecondsToPixels(anchor.timestamp, width) < GroupDistance
  }

  /** The members of all groups, group after group. */
  function Flatten<T>(gs: seq<seq<T>>): seq<T> {
    if gs == [] then [] else gs[0] + Flatten(gs[1..])
  }

  lemma {:induction false} FlattenAppend<T>(gs: seq<seq<T>>, g: seq<T>)
    ensures Flatten(gs + [g]) == Flatten(gs) + g
  {
    if gs == [] {
      assert [g][1..] == [];
    } else {
      assert (gs + [g])[1..] == gs[1..] + [g];
      FlattenAppend(gs[1..], g);
    }
  }

  /**
   * `groups` is the grouping of `bookmarks` that update_bookmark_groups builds:
   * the groups, in order, are exactly the bookmarks; none is empty; every
   * member is within reach of its group's first member; and each group's
   * first member is out of reach of the previous group's first member.
   */
  predicate AnchoredGrouping(groups: seq<seq<Bookmark>>, bookmarks: seq<Bookmark>, width: Width) {
    && Flatten(groups) == bookmarks
    && (forall k :: 0 <= k < |groups| ==> groups[k] != [])
    && (forall k, j :: 0 <= k < |groups| && 0 <= j < |groups[k]| ==> WithinReach(groups[k][0], groups[k][j], width))
    && (forall k :: 0 < k < |groups| ==> !WithinReach(groups[k - 1][0], groups[k][0], width))
  }

  /** Adding a bookmark within reach of the last group's anchor to that group. */
  lemma ExtendLastGroup(groups: seq<seq<Bookmark>>, bookmarks: seq<Bookmark>, b: Bookmark, width: Width)
    requires AnchoredGrouping(groups, bookmarks, width) && groups != []
    requires WithinReach(groups[|groups| - 1][0], b, width)
    ensures AnchoredGrouping(groups[..|groups| - 1] + [groups[|groups| - 1] + [b]], bookmarks + [b], width)
  {
    var n := |groups|;
    var init, last := groups[..n - 1], groups[n - 1];
    var next := init + [last + [b]];
    assert groups == init + [last];
    FlattenAppend(init, last);
    FlattenAppend(init, last + [b]);
    assert Flatten(next) == bookmarks + [b];
    forall k, j | 0 <= k < |next| && 0 <= j < |next[k]| ensures WithinReach(next[k][0], next[k][j], width) {
      if k < n - 1 {
        assert next[k] == groups[k];
      } else if j < |last| {
        assert next[k][j] == groups[n - 1][j] && next[k][0] == groups[n - 1][0];
      }
    }
    forall k | 0 < k < |next| ensures !WithinReach(next[k - 1][0], next[k][0], width) {
      assert next[k - 1][0] == groups[k - 1][0] && next[k][0] == groups[k][0];
    }
  }

  /** Starting a new group with a bookmark out of reach of the last group's anchor. */
  lemma OpenGroup(groups: seq<seq<Bookmark>>, bookmarks: seq<Bookmark>, b: Bookmark, width: Width)
    requires AnchoredGrouping(groups, bookmarks, width) && groups != []
    requires !WithinReach(groups[|groups| - 1][0], b, width)
    ensures AnchoredGrouping(groups + [[b]], bookmarks + [b], width)
  {
    var next := groups + [[b]];
    FlattenAppend(groups, [b]);
    forall k, j | 0 <= k < |next| && 0 <= j < |next[k]| ensures WithinReach(next[k][0], next[k][j], width) {
      if k < |groups| {
        assert next[k] == groups[k];
      }
    }
    forall k | 0 < k < |next| ensures !WithinReach(next[k - 1][0], next[k][0], width) {
      if k < |groups| {
        assert next[k - 1] == groups[k - 1] && next[k] == groups[k];
      }
    }
  }

  /** Dropping the first group leaves the grouping of the bookmarks after it. */
  lemma GroupingTail(groups: seq<seq<Bookmark>>, bookmarks: seq<Bookmark>, width: Width)
    requires AnchoredGrouping(groups, bookmarks, width) && groups != []
    ensures |groups[0]| <= |bookmarks| && bookmarks[..|groups[0]|] == groups[0]
    ensures AnchoredGrouping(groups[1..], bookmarks[|groups[0]|..], width)
  {
    var rest := groups[1..];
    assert bookmarks == groups[0] + Flatten(rest);
    forall k, j | 0 <= k < |rest| && 0 <= j < |rest[k]| ensures WithinReach(rest[k][0], rest[k][j], width) {
      assert rest[k] == groups[k + 1];
    }
    forall k | 0 < k < |rest| ensures !WithinReach(rest[k - 1][0], rest[k][0], width) {
      assert rest[k - 1] == groups[k] && rest[k] == groups[k + 1];
    }
  }

  /** In any two such groupings of the same bookmarks, the first groups have the same length. */
  lemma FirstGroupNotShorter(g1: seq<seq<Bookmark>>, g2: seq<seq<Bookmark>>, bookmarks: seq<Bookmark>, width: Width)
    requires AnchoredGrouping(g1, bookmarks, width) && AnchoredGrouping(g2, bookmarks, width)
    requires g1 != [] && g2 != []
    ensures |g2[0]| <= |g1[0]|
  {
    GroupingTail(g1, bookmarks, width);
    GroupingTail(g2, bookmarks, width);
    var n := |g1[0]|;
    // Every bookmark of g2's first group is within reach of bookmarks[0] ...
    forall j | 0 <= j < |g2[0]| ensures WithinReach(bookmarks[0], bookmarks[j], width) {
      assert g2[0][j] == bookmarks[j] && g2[0][0] == bookmarks[0];
    }
    // ... while the bookmark right after g1's first group, which opens g1's second group, is not.
    if n < |bookmarks| {
      var rest := g1[1..];
      assert Flatten(rest) == bookmarks[n..];
      assert rest != [];
      assert Flatten(rest) == rest[0] + Flatten(rest[1..]);
      assert g1[1][0] == bookmarks[n] && g1[0][0] == bookmarks[0];
      assert !WithinReach(bookmarks[0], bookmarks[n], width);
    }
  }

  /** The grouping is determined by the bookmarks and the width alone. */
  lemma {:induction false} AnchoredGroupingUnique(g1: seq<seq<Bookmark>>, g2: seq<seq<Bookmark>>, bookmarks: seq<Bookmark>, width: Width)
    requires AnchoredGrouping(g1, bookmarks, width) && AnchoredGrouping(g2, bookmarks, width)
    ensures g1 == g2
    decreases |bookmarks|
  {
    if g1 == [] || g2 == [] {
      NoGroupsIffEmpty(g1, bookmarks, width);
      NoGroupsIffEmpty(g2, bookmarks, width);
    } else {
      FirstGroupNotShorter(g1, g2, bookmarks, width);
      FirstGroupNotShorter(g2, g1, bookmarks, width);
      GroupingTail(g1, bookmarks, width);
      GroupingTail(g2, bookmarks, width);
      var n := |g1[0]|;
      AnchoredGroupingUnique(g1[1..], g2[1..], bookmarks[n..], width);
      assert g1 == [g1[0]] + g1[1..];
      assert g2 == [g2[0]] + g2[1..];
    }
  }

  /** There are no groups exactly when there are no bookmarks. */
  lemma NoGroupsIffEmpty(groups: seq<seq<Bookmark>>, bookmarks: seq<Bookmark>, width: Width)
    requires AnchoredGrouping(groups, bookmarks, width)
    ensures groups == [] <==> bookmarks == []
  {
    if groups != [] {
      assert Flatten(groups) == groups[0] + Flatten(groups[1..]);
    }
  }

  /** In a widget of width zero every bookmark falls into one group. */
  lemma ZeroWidthSingleGroup(groups: seq<seq<Bookmark>>, bookmarks: seq<Bookmark>)
    requires AnchoredGrouping(groups, bookmarks, 0) && bookmarks != []
    ensures groups == [bookmarks]
  {
    NoGroupsIffEmpty(groups, bookmarks, 0);
    var zero: Width := 0;
    // With every bookmark at pixel zero, a second group's first member would be within reach of the first group's.
    assert |groups| > 1 ==> WithinReach(groups[0][0], groups[1][0], zero);
    assert |groups| == 1 && groups == [groups[0]];
    assert Flatten(groups) == groups[0] + Flatten(groups[1..]);
    assert groups[1..] == [] && Flatten(groups[1..]) == [];
    assert bookmarks == groups[0];
  }

  /** The anchor is the group's first member, not the previous bookmark: a chain of close bookmarks is split. */
  lemma AnchorIsFirstMember(groups: seq<seq<Bookmark>>)
    requires AnchoredGrouping(groups, [Bookmark("a", 0, 0), Bookmark("b", 600_000, 0), Bookmark("c", 1_200_000, 0)], 8640)
    ensures groups == [[Bookmark("a", 0, 0), Bookmark("b", 600_000, 0)], [Bookmark("c", 1_200_000, 0)]]
  {
    var a, b, c := Bookmark("a", 0, 0), Bookmark("b", 600_000, 0), Bookmark("c", 1_200_000, 0);
    // At 8640 pixels a day, a, b and c are at pixels 0, 60 and 120: c is within reach of b but not of a.
    PixelsExact(a.timestamp, 8640);
    PixelsExact(b.timestamp, 8640);
    PixelsExact(c.timestamp, 8640);
    assert MillisecondsToPixels(b.timestamp, 8640) == 60;
    assert MillisecondsToPixels(c.timestamp, 8640) == 120;
    assert WithinReach(b, c, 8640);
    var expected := [[a, b], [c]];
    assert expected[1..] == [[c]] && [[c]][1..] == [];
    assert Flatten([[c]]) == [c] + Flatten([]);
    assert Flatten(expected) == [a, b] + Flatten([[c]]);
    assert AnchoredGrouping(expected, [a, b, c], 8640);
    AnchoredGroupingUnique(groups, expected, [a, b, c], 8640);
  }

  /** The groups of a sorted sequence are sorted, and their members are members of the whole. */
  lemma {:induction false} GroupsOfSorted(groups: seq<seq<Bookmark>>)
    requires SortedByTimestamp(Flatten(groups))
    ensures forall k :: 0 <= k < |groups| ==> SortedByTimestamp(groups[k])
    ensures forall k, j :: 0 <= k < |groups| && 0 <= j < |groups[k]| ==> groups[k][j] in Flatten(groups)
  {
    if groups != [] {
      var all := Flatten(groups);
      assert all == groups[0] + Flatten(groups[1..]);
      assert forall j :: 0 <= j < |groups[0]| ==> groups[0][j] == all[j];
      assert forall j :: 0 <= j < |Flatten(groups[1..])| ==> Flatten(groups[1..])[j] == all[|groups[0]| + j];
      GroupsOfSorted(groups[1..]);
      forall k, j | 0 < k < |groups| && 0 <= j < |groups[k]| ensures groups[k][j] in all {
        assert groups[k] == groups[1..][k - 1];
      }
    }
  }

  // ---------------------------------------------------------------------------
  // Geometry of paintEvent

  /** An hour tick: a line from (x, 0) to (x, TickLen) and its caption drawn at (captionX, captionY). */
  datatype Tick = Tick(x: int, caption: string, captionX: int, captionY: int)

  /** QRect(x, y, width, height). */
  datatype Rect = Rect(x: int, y: int, width: int, height: int)

  /** A group's rounded rectangle and the text drawn inside it. */
  datatype GroupBox = GroupBox(rect: Rect, caption: string)

  /** A group paintEvent can draw: it has a front and a back, and the back's end fits in an `int`. */
  predicate Paintable(g: seq<Bookmark>) {
    g != [] && InInt32(EndTime(g[|g| - 1]))
  }

  /**
   * The box paintEvent draws for a group: from the pixel of the first member's
   * start to the pixel of the LAST member's end, in the band below the tick
   * labels, labelled with the member count or, for a single member, its name.
   */
  function GroupLayout(g: seq<Bookmark>, width: Width, fontHeight: int): (box: GroupBox)
    requires Paintable(g)
    ensures box.rect.y == fontHeight + TickLen && box.rect.height == TickLen
    ensures |g| > 1 ==> IsDigits(box.caption) && ParseDecimal(box.caption) == |g| && box.caption[0] != '0'
    ensures |g| == 1 ==> box.caption == g[0].name
  {
    ParseNatToString(|g|);
    var back := g[|g| - 1];
    var start := MillisecondsToPixels(g[0].timestamp, width);
    var end := MillisecondsToPixels(EndTime(back) as int32, width);
    GroupBox(Rect(start, fontHeight + TickLen, end - start, TickLen),
             if |g| > 1 then NatToString(|g|) else g[0].name)
  }

  /**
   * The box spans from the first member's start to the last member's end. It is
   * never of negative width when the last member starts no earlier than the
   * first and does not have a negative duration.
   */
  lemma GroupLayoutSpan(g: seq<Bookmark>, width: Width, fontHeight: int)
    requires Paintable(g)
    ensures var r := GroupLayout(g, width, fontHeight).rect;
      && r.x == MillisecondsToPixels(g[0].timestamp, width)
      && r.x + r.width == MillisecondsToPixels(EndTime(g[|g| - 1]) as int32, width)
      && (g[0].timestamp <= g[|g| - 1].timestamp && 0 <= g[|g| - 1].duration ==> 0 <= r.width)
  {
    var back := g[|g| - 1];
    if g[0].timestamp <= back.timestamp && 0 <= back.duration {
      PixelsMonotone(g[0].timestamp, EndTime(back) as int32, width);
    }
  }

  /**
   * The box ends where the LAST member ends, so it need not cover a member that
   * starts earlier and lasts longer: here a one-hour bookmark followed one
   * minute later by an instant one gets a box six pixels wide.
   */
  lemma GroupLayoutUsesLastEnd()
    ensures var g := [Bookmark("x", 0, 3_600_000), Bookmark("y", 60_000, 0)];
      var r := GroupLayout(g, 8640, 0).rect;
      r.x + r.width == 6 && MillisecondsToPixels(EndTime(g[0]) as int32, 8640) == 360
  {
    PixelsExact(0, 8640);
    PixelsExact(60_000, 8640);
    PixelsExact(3_600_000, 8640);
  }

  /**
   * The groups of sorted bookmarks with non-negative durations whose ends fit
   * in an `int` can all be painted, as boxes of non-negative width.
   */
  lemma GroupsPaintable(groups: seq<seq<Bookmark>>, bookmarks: seq<Bookmark>, width: Width, fontHeight: int)
    requires AnchoredGrouping(groups, bookmarks, width)
    requires SortedByTimestamp(bookmarks)
    requires forall i :: 0 <= i < |bookmarks| ==> 0 <= bookmarks[i].duration && InInt32(EndTime(bookmarks[i]))
    ensures forall k :: 0 <= k < |groups| ==> Paintable(groups[k]) && 0 <= GroupLayout(groups[k], width, fontHeight).rect.width
  {
    GroupsOfSorted(groups);
    forall k | 0 <= k < |groups| ensures Paintable(groups[k]) && 0 <= GroupLayout(groups[k], width, fontHeight).rect.width {
      var g := groups[k];
      assert g[|g| - 1] in bookmarks;
      GroupLayoutSpan(g, width, fontHeight);
    }
  }

  class BookmarksView {
    /** width(): fixed in this model, since no modelled operation resizes the widget. */
    var width: Width
    /** m_groups */
    var groups: seq<seq<Bookmark>>

    constructor (width: Width)
      ensures this.width == width && groups == []
    {
      this.width := width;
      groups := [];
    }

    /**
     * update_bookmark_groups: discards the previous groups and rebuilds them in
     * one pass, comparing each bookmark's pixel with that of its group's first
     * member.
     */
    method UpdateBookmarkGroups(bookmarks: seq<Bookmark>)
      modifies this`groups
      ensures AnchoredGrouping(groups, bookmarks, width)
    {
      groups := [];
      if |bookmarks| == 0 {
        return;
      }
      groups := [[bookmarks[0]]];
      var keyTimestamp := MillisecondsToPixels(bookmarks[0].timestamp, width);
      assert Flatten(groups) == bookmarks[..1];
      var i := 1;
      while i < |bookmarks|
        invariant 1 <= i <= |bookmarks|
        invariant groups != []
        invariant AnchoredGrouping(groups, bookmarks[..i], width)
        invariant keyTimestamp == MillisecondsToPixels(groups[|groups| - 1][0].timestamp, width)
      {
        var bookmark := bookmarks[i];
        var timestamp := MillisecondsToPixels(bookmark.timestamp, width);
        assert InInt32(timestamp - keyTimestamp);  // the int subtraction cannot overflow
        assert bookmarks[..i + 1] == bookmarks[..i] + [bookmark];
        if timestamp - keyTimestamp < GroupDistance {
          ExtendLastGroup(groups, bookmarks[..i], bookmark, width);
          groups := groups[..|groups| - 1] + [groups[|groups| - 1] + [bookmark]];
        } else {
          OpenGroup(groups, bookmarks[..i], bookmark, width);
          groups := groups + [[bookmark]];
          keyTimestamp := timestamp;
        }
        i := i + 1;
      }
      assert bookmarks[..i] == bookmarks;
    }

    /**
     * The geometry paintEvent draws: the hour ticks, then one box per group.
     * `fontHeight` and `textWidth` stand for the font metrics.
     */
    method Paint(fontHeight: int, textWidth: string -> nat) returns (ticks: seq<Tick>, boxes: seq<GroupBox>)
      requires forall k :: 0 <= k < |groups| ==> Paintable(groups[k])
      ensures |ticks| == NumHours
      ensures forall i :: 0 <= i < NumHours ==>
                && ticks[i].x == i * (width / NumHours)
                && ticks[i].caption == NatToString(i) + "h"
                && ticks[i].captionX == ticks[i].x - textWidth(ticks[i].caption) / 2
                && ticks[i].captionY == fontHeight + TickLen
      ensures |boxes| == |groups|
      ensures forall k :: 0 <= k < |groups| ==> boxes[k] == GroupLayout(groups[k], width, fontHeight)
    {
      ticks := HourTicks(width, fontHeight, textWidth);
      boxes := GroupBoxes(groups, width, fontHeight);
    }
  }

  /**
   * The tick loop of paintEvent: 24 ticks, the painter moving right by
   * `width / 24` after each, so that tick `i` ends up at `i * (width / 24)`.
   * A caption is centred on its tick by C++'s truncating `-w / 2`.
   */
  method HourTicks(width: Width, fontHeight: int, textWidth: string -> nat) returns (ticks: seq<Tick>)
    ensures |ticks| == NumHours
    ensures forall i :: 0 <= i < NumHours ==>
              && ticks[i].x == i * (width / NumHours)
              && ticks[i].caption == NatToString(i) + "h"
              && ticks[i].captionX == ticks[i].x - textWidth(ticks[i].caption) / 2
              && ticks[i].captionY == fontHeight + TickLen
  {
    var hourStep := width / NumHours;
    var yOffset := fontHeight + TickLen;
    var origin := 0;  // the painter's accumulated translation
    ticks := [];
    var i := 0;
    while i < NumHours
      invariant 0 <= i <= NumHours
      invariant origin == i * hourStep
      invariant |ticks| == i
      invariant forall h :: 0 <= h < i ==>
                  && ticks[h].x == h * hourStep
                  && ticks[h].caption == NatToString(h) + "h"
                  && ticks[h].captionX == ticks[h].x - textWidth(ticks[h].caption) / 2
                  && ticks[h].captionY == yOffset
    {
      var caption := NatToString(i) + "h";
      var captionWidth: int := textWidth(caption);
      var xOffset := TruncDiv(-captionWidth, 2);
      assert xOffset == -(captionWidth / 2);
      var next := ticks + [Tick(origin, caption, origin + xOffset, yOffset)];
      assert forall h :: 0 <= h < i ==> next[h] == ticks[h];
      ticks := next;
      assert (i + 1) * hourStep == origin + hourStep;
      origin := origin + hourStep;
      i := i + 1;
    }
  }

  /** The group loop of paintEvent: one box per group, in order. */
  method GroupBoxes(groups: seq<seq<Bookmark>>, width: Width, fontHeight: int) returns (boxes: seq<GroupBox>)
    requires forall k :: 0 <= k < |groups| ==> Paintable(groups[k])
    ensures |boxes| == |groups|
    ensures forall k :: 0 <= k < |groups| ==> boxes[k] == GroupLayout(groups[k], width, fontHeight)
  {
    var yOffset := fontHeight + TickLen;
    boxes := [];
    var k := 0;
    while k < |groups|
      invariant 0 <= k <= |groups|
      invariant |boxes| == k
      invariant forall m :: 0 <= m < k ==> boxes[m] == GroupLayout(groups[m], width, fontHeight)
    {
      var group := groups[k];
      assert Paintable(group);
      var back := group[|group| - 1];
      var start := MillisecondsToPixels(group[0].timestamp, width);
      var endTime := back.timestamp + back.duration;
      assert endTime == EndTime(back) as int32;
      var end := MillisecondsToPixels(endTime, width);
      var caption := if |group| > 1 then NatToString(|group|) else group[0].name;
      var box := GroupBox(Rect(start, yOffset, end - start, TickLen), caption);
      assert box == GroupLayout(group, width, fontHeight);
      boxes := boxes + [box];
      k := k + 1;
    }
  }
}
