/**
 * How the main window drives the store and the view when the user asks for
 * new bookmarks (src/mainwindow.cpp): generate, regroup, repaint.
 */
module Timeline {
  import opened Bookmarks
  import opened Model
  import opened View

  /** The largest count the input dialog accepts. */
  const MaxAmount: int := 100_000_000

  /**
   * Grouping freshly generated bookmarks covers every one of them and yields
   * groups that paintEvent can draw, each as a box of non-negative width.
   */
  lemma GeneratedGroupsPaintable(s: seq<Bookmark>, amount: nat, rand: seq<int>, groups: seq<seq<Bookmark>>, width: Width, fontHeight: int)
    requires 2 * amount <= |rand| && RandomDraws(rand)
    requires SortedByTimestamp(s) && multiset(s) == multiset(Drawn(amount, rand))
    requires AnchoredGrouping(groups, s, width)
    ensures |Flatten(groups)| == amount
    ensures forall k :: 0 <= k < |groups| ==> Paintable(groups[k]) && 0 <= GroupLayout(groups[k], width, fontHeight).rect.width
  {
    GeneratedContents(s, amount, rand);
    GroupsPaintable(groups, s, width, fontHeight);
  }

  /** on_generate_button_clicked, once the dialog has returned `amount`. */
  method OnGenerate(model: BookmarksModel, view: BookmarksView, amount: int, rand: seq<int>)
    requires 0 <= amount <= MaxAmount
    requires 2 * amount <= |rand| && RandomDraws(rand)
    modifies model, view`groups
    ensures model.Valid() && multiset(model.bookmarks) == multiset(Drawn(amount, rand))
    ensures AnchoredGrouping(view.groups, model.bookmarks, view.width)
    ensures forall k :: 0 <= k < |view.groups| ==> Paintable(view.groups[k])
  {
    model.GenerateBookmarks(amount, rand);
    var bookmarks := model.Bookmarks();
    view.UpdateBookmarkGroups(bookmarks);
    GeneratedGroupsPaintable(model.bookmarks, amount, rand, view.groups, view.width, 0);
  }
}
