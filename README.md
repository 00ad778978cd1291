# Event timeline: bookmark store, pixel map and grouping

A Dafny model of the shown core of a Qt widget that draws a 24-hour timeline of
"bookmarks" (named events with a start and a duration in milliseconds). It covers:

- the **store** (`BookmarksModel`): it throws away its bookmarks, generates
  `amount` new ones from random draws, and sorts them by timestamp;
- the **pixel map** (`milliseconds_to_pixels`): `ms * width / 86400000` in
  integer arithmetic, so the widget's width is one day;
- the **grouping** (`update_bookmark_groups`): one pass over the sorted
  bookmarks. A bookmark joins the current group when its pixel is fewer than
  100 pixels to the right of the pixel of the group's *first* member.
  Otherwise it opens a new group and becomes its anchor;
- the **geometry of `paintEvent`**: 24 hour ticks at `i * (width / 24)` labelled
  `"{i}h"`, then one box per group. A box runs from the first member's start to
  the last member's end. Its caption is the member count, or the member's name
  for a single-member group;
- how the main window chains them: generate, then regroup.

Files and modules:

| file | module | models |
|---|---|---|
| bookmark.dfy | `Bookmarks` | the `Bookmark` record (src/bookmark.h), 32-bit `int`, sortedness |
| decimal.dfy | `Decimal` | decimal text from `QString::arg` / `QString::number`, and a parser that inverts it |
| bookmarks_model.dfy | `Model` | src/bookmarksmodel.cpp |
| bookmarks_view.dfy | `View` | src/bookmarksview.cpp |
| timeline.dfy | `Timeline` | the generate-then-regroup sequence of src/mainwindow.cpp |

Modelling choices:

- `Bookmark` fields are 32-bit (`int32`), as in src/bookmark.h. A widget's width
  is at most Qt's `QWIDGETSIZE_MAX` (16777215). `PixelsExact` proves that under
  these bounds the `long` product in `milliseconds_to_pixels` cannot overflow.
  It also proves that the cast back to `int` (written out as a 32-bit wrap,
  `ToInt32`) loses nothing. Pixel values stay within ±2^29, so the `int`
  subtraction in the grouping loop cannot overflow either.
- `long` is assumed to be 64 bits wide, as on LP64 platforms (Linux, macOS).
  Where `long` is 32 bits (64-bit Windows), `ms * win_width` overflows for
  widths of 25 pixels and more (86399999 * 25 > 2^31 - 1). The overflow
  results above then do not hold.
- C++ division truncates toward zero. `TruncDiv` models it. It matters for
  negative timestamps and for the tick caption offset `-w / 2`.
- `std::rand()` is an oracle: a sequence `rand` of non-negative integers. Each
  bookmark takes two values, the timestamp's draw first (`rand[2i]`) and then
  the duration's (`rand[2i+1]`).
- The order `std::ranges::sort` produces is only promised to be sorted by
  timestamp and a permutation. That is all that `GenerateBookmarks` ensures.
  `SortByTimestamp`, a verified insertion sort, is one ordering that meets it.
- A group is a `seq<Bookmark>` of member values. The source stores pointers into
  the store's vector instead.
- `amount >= 0` is a precondition. `reserve` rejects a negative count, and the
  only caller's input dialog limits it to `[0, 100000000]`.
- Points where the model follows this code exactly:
  - A bookmark is compared with its group's first member, not with the previous
    bookmark, in pixels, with a strict `< 100` (`AnchorIsFirstMember`).
  - A box ends at the last member's end, not at the latest end among its
    members. `GroupLayoutUsesLastEnd` shows a box that stops short of an
    earlier, longer member.
  - A negative count is not clamped to 0. The model excludes it instead.
  - The headers declare `regenerate_bookmarks` / `bookmarks_changed`. The `.cpp`
    defines `generate_bookmarks` / `bookmarks_generated`, and the model follows
    the `.cpp`.

## Model

| member | source | states |
|---|---|---|
| Decimal.NatToString | src/bookmarksview.cpp:45 | the text of a number is a non-empty run of digits, one digit exactly for numbers below ten, with no leading zero unless the number is 0 |
| Decimal.ParseNatToString | src/bookmarksview.cpp:44-46 | reading a number's text back gives the number (round trip) |
| Decimal.NatToStringInjective | src/bookmarksmodel.cpp:22 | two numbers have the same text if and only if they are equal |
| Model.BookmarkName | src/bookmarksmodel.cpp:22 | the name of bookmark `i` is `"Bookmark "` followed by a numeral without leading zeros that reads back as `i` |
| Model.BookmarkNameInjective | src/bookmarksmodel.cpp:22 | `"Bookmark i"` and `"Bookmark j"` are equal if and only if `i == j` |
| Model.FromDraws | src/bookmarksmodel.cpp:22-25 | from non-negative draws, a bookmark is named after its index, its timestamp is in `[0, 86400000)`, its duration in `[0, 10800000)`, and `timestamp + duration` fits in an `int` |
| Model.Drawn | src/bookmarksmodel.cpp:19-26 | the fill loop produces exactly `n` bookmarks, and the `i`-th is built from draws `2i` and `2i+1` |
| Model.Insert | src/bookmarksmodel.cpp:27-32 | inserting into a sorted sequence keeps it sorted and adds exactly the one element |
| Model.SortByTimestamp | src/bookmarksmodel.cpp:27-32 | the result is non-decreasing by timestamp and a permutation of the input |
| Model.GeneratedContents | src/bookmarksmodel.cpp:19-32 | a sorted permutation of the drawn bookmarks has exactly `amount` elements. It contains every drawn record and nothing else, the names are pairwise distinct, every timestamp is in `[0, 24h)` and every duration in `[0, 3h)`, and every end fits in an `int` |
| Model.BookmarksModel.constructor | src/bookmarksmodel.cpp:11-14 | the store starts empty (and sorted) |
| Model.BookmarksModel.GenerateBookmarks | src/bookmarksmodel.cpp:17-34 | the old contents are gone. The new vector is sorted by timestamp and is a permutation of the `amount` records drawn from the oracle |
| Model.BookmarksModel.Bookmarks | src/bookmarksmodel.cpp:37-40 | returns the stored sequence, and changes nothing |
| View.MillisecondsToPixels | src/bookmarksview.cpp:85-92 | the pixel of any `int` time is well inside the `int` range (±2^29) |
| View.PixelsExact | src/bookmarksview.cpp:88-91 | the `long` product does not overflow and the cast to `int` loses nothing: the result is the truncated quotient `ms * width / 86400000` |
| View.PixelsFloor | src/bookmarksview.cpp:90 | for `ms >= 0` the pixel is the floor of `ms * width / 86400000` |
| View.PixelsMonotone | src/bookmarksview.cpp:85-92 | later times never map to smaller pixels |
| View.PixelsEndpoints | src/bookmarksview.cpp:85-92 | `px(0) == 0` and `px(86400000) == width` |
| View.PixelsWithinWidget | src/bookmarksview.cpp:85-92 | for a non-empty widget every time of day maps into `[0, width)` |
| View.PixelsZeroWidth | src/bookmarksview.cpp:89-90 | at width 0 every time maps to pixel 0 |
| View.WithinReach | src/bookmarksview.cpp:74-75 | a bookmark at or before the anchor's time is always within reach of the anchor, and at width 0 every bookmark is |
| View.ExtendLastGroup | src/bookmarksview.cpp:75-76 | appending a bookmark within reach of the last anchor to the last group keeps the grouping invariant for the longer input |
| View.OpenGroup | src/bookmarksview.cpp:77-80 | opening a new group with a bookmark out of reach of the last anchor keeps the grouping invariant, and that bookmark becomes the new anchor |
| View.AnchoredGroupingUnique | src/bookmarksview.cpp:62-82 | two groupings of the same bookmarks at the same width are equal. So the result depends only on the argument and the width, not on earlier groups |
| View.NoGroupsIffEmpty | src/bookmarksview.cpp:64-68 | there are no groups if and only if there are no bookmarks |
| View.ZeroWidthSingleGroup | src/bookmarksview.cpp:70-81 | at width 0, non-empty input forms exactly one group holding all bookmarks |
| View.AnchorIsFirstMember | src/bookmarksview.cpp:71-79 | bookmarks at pixels 0, 60 and 120 form groups `[0, 60]` and `[120]`. Distance is measured to the group's first member, not to the previous bookmark |
| View.GroupLayoutSpan | src/bookmarksview.cpp:41-48 | a box runs from the pixel of the first member's start to the pixel of the last member's end. Its width is non-negative when the last member starts no earlier than the first and has a non-negative duration |
| View.GroupLayout | src/bookmarksview.cpp:41-48 | a box has its top at `y_offset` (font height plus `tick_len`) and is `tick_len` high. A group of several members is captioned with a numeral that has no leading zero and reads back as its size. A single member is captioned with its name |
| View.GroupLayoutUsesLastEnd | src/bookmarksview.cpp:42 | a box ends at the last member's end even when an earlier member ends later (6 pixels against 360) |
| View.GroupsPaintable | src/bookmarksview.cpp:40-51 | for sorted bookmarks with non-negative durations and ends that fit, every group has a front and back whose end fits in an `int`, and every box has non-negative width |
| View.BookmarksView.constructor | src/bookmarksview.cpp:7-12 | the view starts with no groups |
| View.BookmarksView.UpdateBookmarkGroups | src/bookmarksview.cpp:62-82 | the new groups concatenate back to the input in order, none is empty, and every member is fewer than 100 pixels right of its group's first member. Each group's first member is at least 100 pixels right of the previous group's first member |
| View.BookmarksView.Paint | src/bookmarksview.cpp:15-52 | exactly 24 ticks, tick `i` at `i * (width / 24)` captioned `"{i}h"`, then one box per group, in group order |
| View.HourTicks | src/bookmarksview.cpp:17-37 | the painter's cumulative translation puts tick `i` at `i * (width / 24)`. Its caption `"{i}h"` is shifted left by half its width, rounded toward zero, and drawn at height `fontHeight + 20` |
| View.GroupBoxes | src/bookmarksview.cpp:40-51 | one box per group, in order, each the group's layout |
| Timeline.GeneratedGroupsPaintable | src/mainwindow.cpp:41-42 | grouping freshly generated bookmarks covers all `amount` of them. Every group can be painted, as a box of non-negative width |
| Timeline.OnGenerate | src/mainwindow.cpp:34-43 | after generating and regrouping, the store is sorted, the groups are the grouping of its contents, and every group can be painted |

## Left out

- Drawing: QPainter calls, anti-aliasing, the colour and the rounded corners. Only the integer geometry and the captions are modelled.
- Font metrics: the font height and the width of a caption's text are parameters (`fontHeight`, `textWidth`).
- The 500 ms single-shot resize timer and the `resized` signal: Qt event-loop behaviour. A resize does not regroup in this code, and the view's width is fixed in the model.
- The `bookmarks_generated` signal and other signal/slot wiring: no modelled state depends on it.
- `std::rand()` itself: foreign and non-deterministic. It is replaced by the oracle sequence.
- The sort algorithm `std::ranges::sort` uses, and its O(n log n) cost. Only its promise (sorted, permutation) is modelled.
- `QFutureWatcher` in src/bookmarksmodel.h: declared, never used, and concurrent.
- Pointer aliasing: groups hold copies of the bookmarks. The model does not capture that the view's pointers into the store's vector dangle between `clear()` in `generate_bookmarks` and the following regroup.
- Qt's number formatting beyond non-negative decimals: the program formats no negative numbers.
- A 32-bit `long`: the model assumes a 64-bit `long` in `milliseconds_to_pixels`. With a 32-bit `long` the product overflows at ordinary widths, and that is not modelled.
- Overflow of `font height + 20` in the `int` y-offset: font heights are small. The model adds in unbounded integers.
- The window chrome, button and modal input dialog of src/mainwindow.cpp. The dialog is kept only for its bound on `amount`.
- View.BookmarksView.UpdateBookmarkGroups: it is stated over values and does not say that the groups point into the caller's vector.
