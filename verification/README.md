# Infinite horizontal pager: a Dafny model of its paging state machine

The Swift package `CollectionPageView` shows pages of an unbounded,
integer-indexed sequence in one horizontally paging scroll view. At any time
only a small window of pages is materialised, with a view per page. A page
that can be seen gets a real cell. A page that is windowed but off screen gets
a cheap placeholder. Dragging, deceleration and programmatic `select(value:)`
calls move the viewport. The pager keeps one selected page in step with
whichever of these is driving.

This project models the state machine behind that. There are two
implementations:

- `ScrollPageView` (`Sources/CollectionPageView/ScrollView.swift`) is the
  scroll view the package uses. Its window is anchored on a centre page that
  is only moved when the selection drifts far enough (recentering). It runs
  its own view pool, with reuse, promotion to a cell, demotion to a
  placeholder and discarding.
- `CollectionPageView` (`Sources/CollectionPageView/CollectionView.swift`) is
  the earlier collection-view-based pager. Its window is centred on the
  selection itself.

Pages are integers. Offsets and the page width are integer points.
`Int(round(contentOffset / width))` is Swift's round-half-away-from-zero
applied to the quotient (`Geometry.RoundDiv`). UIKit views become
`View = Cell(id) | Placeholder(id)`. The `id` stands for object identity, so
the model can say "the same view was kept" and "no view sits in two slots".
New objects take their `id` from a counter in the state.

Files:

- `wrappers.dfy`: `Option`.
- `pages.dfy`: runs of consecutive pages, `firstIndex(of:)`, and
  `offset(for:)` (a page's offset is width × its first index, or 0 when it is
  absent).
- `geometry.dfy`: rounding of a quotient, absolute value, and the overlap
  test of Swift's half-open ranges.
- `collection_split.dfy`: `compactMapSplit`.
- `scroll_page_view.dfy`: `ScrollPageView`'s state, its window, visibility,
  `updateViews`, `checkVisible`, `updateSelection`, `ensurePaging`,
  `select(value:)` and `recenter(force:)`, with the object invariant `Valid`.
- `scroll_page_events.dfy`: the handlers composed from those transitions:
  the animation's completion, the end of a deceleration, the start of a drag,
  and the tail of `layoutSubviews`. It also holds end-to-end lemmas.
- `collection_page_view.dfy`: `CollectionPageView`'s window, `reload`,
  `select(value:)`, `updateSelected(reload:)` and the deferred snap in
  `layoutSubviews`.

## Model

| member | source | states |
|---|---|---|
| ScrollPageView.Window | Sources/CollectionPageView/ScrollView.swift:42-54 | The window has 2b+1 strictly increasing pages with the centre in the middle slot. A pending target different from the centre sits right next to it, on its own side. Without a target, or with the target equal to the centre, the window is the symmetric run around the centre. |
| ScrollPageView.WindowMembers | Sources/CollectionPageView/ScrollView.swift:42-54 | A page is in the window exactly when it lies in one of the two runs: the centre's run, or the b pages that start (or end) at the target. |
| Pages.FirstIndex | Sources/CollectionPageView/ScrollView.swift:167-168 | `firstIndex(of:)` is None exactly when the page is absent. Otherwise it is an index holding the page with no earlier occurrence. |
| Pages.OffsetOf | Sources/CollectionPageView/ScrollView.swift:167-170 | A page's offset is width × the index of its first occurrence. An absent page gets offset 0, not an error. |
| CollectionPageView.OffsetFor | Sources/CollectionPageView/CollectionView.swift:107-110 | The collection pager's `offset(for:)` is the width times the page's first slot, and 0 for a page that is not in the window. |
| Pages.PositionInIncreasing | Sources/CollectionPageView/ScrollView.swift:167-170 | In a strictly increasing window, the page at slot i is found at slot i, so its offset is i page widths. |
| Geometry.Overlaps | Sources/CollectionPageView/ScrollView.swift:162-163 | Two half-open ranges overlap exactly when some point lies in both, so an empty range overlaps nothing. |
| ScrollPageView.IsViewVisible | Sources/CollectionPageView/ScrollView.swift:157-165 | The selected page and the pending target are always visible. Any other page is visible exactly when the width is positive and the viewport is less than one width from its frame. |
| ScrollPageView.VisibilityIgnoresViews | Sources/CollectionPageView/ScrollView.swift:157-165 | Visibility depends only on the window, the selection, the target, the offset and the width. It does not depend on the views, so replacing views never changes which pages are visible. |
| CollectionSplit.CompactMapSplit | Sources/CollectionPageView/ScrollView.swift:296-308 | The loop returns exactly the accepted images and the rejected elements, each in input order. |
| CollectionSplit.SplitPartitions | Sources/CollectionPageView/ScrollView.swift:296-308 | The two parts together account for every element. Each rejected element maps to nil. Each accepted value is the image of some element. |
| ScrollPageView.DroppedKeys | Sources/CollectionPageView/ScrollView.swift:103 | The reuse pools are filled from exactly the pages that still own a view but left the window, each once. |
| ScrollPageView.UpdateViews | Sources/CollectionPageView/ScrollView.swift:102-155 | Afterwards exactly the window's pages own a view, and no object is in two slots. A kept cell that is no longer visible becomes a placeholder. A kept placeholder or visible view stays the same object. A page new to the window gets a cell exactly when it is visible. Every object is either an old one or newly made, and a slot that holds an old object's identity holds that very object, of the same kind. So a demoted cell leaves its slot for a different object. Nothing but the views changes. |
| ScrollPageView.UpdateViewsReuses | Sources/CollectionPageView/ScrollView.swift:103-135 | Reclaimed objects are used before new ones are made. If a new cell lands in slot j, every cell of a page that left the window, and every cell demoted at a slot before j, is in a slot again. If a new placeholder is made, every placeholder of a page that left the window is in a slot again. |
| ScrollPageView.CheckVisible | Sources/CollectionPageView/ScrollView.swift:206-219 | Afterwards every visible page of the window shows a cell. The only changes are placeholders of visible pages replaced by new cells, and the set of pages with views is unchanged. |
| ScrollPageView.PromoteFromCorrect | Sources/CollectionPageView/ScrollView.swift:207-218 | The loop from any slot on makes every visible page in the remaining slots a cell. It changes only visible placeholders, and keeps objects unique. |
| ScrollPageView.Init | Sources/CollectionPageView/ScrollView.swift:56-72 | The initial view satisfies the object invariant. The centre and the selection are the given page, and the window is the symmetric run around it. The width and offset are zero, and only the selected page has a cell. |
| Geometry.RoundDiv | Sources/CollectionPageView/ScrollView.swift:231 | The rounded quotient is within half a width of the exact one, and ties go away from zero. |
| Geometry.RoundDivExact | Sources/CollectionPageView/ScrollView.swift:231 | An offset that is a whole number of widths rounds to exactly that slot. |
| ScrollPageView.UpdateSelection | Sources/CollectionPageView/ScrollView.swift:221-239 | Only the selection and the target can change. Nothing happens at width 0, or when not forced and the viewport is less than a page from the selected page. Otherwise the page in the rounded slot is committed, and the target cleared, exactly when that slot is in the window and agrees with any pending target. |
| ScrollPageView.CommitIsNearViewport | Sources/CollectionPageView/ScrollView.swift:231-236 | A committed page is in the window, and the viewport is within half a page of it. |
| ScrollPageView.EnsurePaging | Sources/CollectionPageView/ScrollView.swift:271-276 | A viewport more than one point from the selected page's offset is set exactly to that offset. A viewport within one point is left alone. Only the offset changes. |
| ScrollPageView.EnsurePagingIdempotent | Sources/CollectionPageView/ScrollView.swift:271-276 | Snapping twice is the same as snapping once. |
| ScrollPageView.Select | Sources/CollectionPageView/ScrollView.swift:75-85 | A page that is already the target, or the settled selection, changes nothing. Otherwise it becomes the target and the window is rebuilt around the centre and the target, so both are in it. The selection, centre, offset and width are untouched, and the object invariant holds. |
| ScrollPageView.SelectIdempotent | Sources/CollectionPageView/ScrollView.swift:75-76 | A second `select` of the same page does nothing. |
| ScrollPageView.Recenter | Sources/CollectionPageView/ScrollView.swift:278-293 | Nothing happens at width 0 or when recentering is not due. Otherwise the centre becomes the selected page, which lands in the middle slot. The viewport moves by exactly the distance the selected page moved, so its position relative to the selection is kept. The object invariant holds. |
| ScrollPageEvents.Settle | Sources/CollectionPageView/ScrollView.swift:253-258 | The object invariant is preserved. With a positive width the view comes to rest centred on its selection, which is in the window, within one point of its offset. A slot that agrees with the target is committed. |
| ScrollPageEvents.FinishAnimation | Sources/CollectionPageView/ScrollView.swift:87-96 | The completion of the animation preserves the object invariant. With a positive width it leaves the view centred on a selection that is in the window. |
| ScrollPageEvents.WillBeginDragging | Sources/CollectionPageView/ScrollView.swift:241-247 | A drag always clears the target and keeps the selection. Outside a deceleration nothing else changes. During one, an off-centre selection is recentered without moving the content under the finger. The object invariant is preserved. |
| ScrollPageEvents.LayoutPass | Sources/CollectionPageView/ScrollView.swift:201-203 | After the tail of a layout pass, the object invariant holds and every visible page of the window shows a cell. The width never changes. While the viewport is less than a page from the selection, or the width is 0, the selection stays and so does the viewport's position relative to it. |
| ScrollPageEvents.LayoutAnchor | Sources/CollectionPageView/ScrollView.swift:201-202 | The unforced selection update and recenter that start the layout tail keep the width, keep objects unique and preserve the object invariant. While the viewport is less than a page from the selection, or the width is 0, the selection stays and so does the viewport's position relative to it. |
| ScrollPageEvents.SnapToWidth | Sources/CollectionPageView/ScrollView.swift:194-195 | The first layout sets the width and puts the viewport exactly on the selected page's offset for that width. The object invariant is kept, and at a positive width the viewport is near the selection. |
| ScrollPageEvents.FirstLayout | Sources/CollectionPageView/ScrollView.swift:180-204 | The first layout at a positive width keeps the selection and puts the viewport exactly on the selected page's offset. The object invariant holds, and every visible page of the window shows a cell. |
| ScrollPageEvents.InitThenLayout | Sources/CollectionPageView/ScrollView.swift:56-72 | A new view laid out for the first time rests on its selection in the middle of five consecutive pages, two widths in, and the selected page has a cell. |
| ScrollPageEvents.CommitTarget | Sources/CollectionPageView/ScrollView.swift:231-237 | A forced update with the viewport exactly on the pending target's page commits the target, clears it, and changes nothing else. |
| ScrollPageEvents.RecenterKeepsRelativeOffset | Sources/CollectionPageView/ScrollView.swift:278-293 | Whether or not it fires, `recenter` keeps the selection, the width and the viewport's position relative to the selected page. |
| ScrollPageEvents.RecenterOnSelected | Sources/CollectionPageView/ScrollView.swift:278-293 | A forced recenter, with the viewport exactly on a selection that the window was built for as target, gives five consecutive pages centred on the selection, with the viewport on the middle slot. |
| ScrollPageEvents.SettleOnTarget | Sources/CollectionPageView/ScrollView.swift:93-95 | The completion handler, run with the viewport exactly on the target's page, selects the target and clears it. The window is recentred on the target, with the viewport on the middle slot. |
| ScrollPageEvents.SelectThenFinish | Sources/CollectionPageView/ScrollView.swift:75-96 | A `select` whose animation runs to the end selects the target and clears it. The window becomes the five pages centred on the target, with the viewport exactly on the middle slot. |
| ScrollPageEvents.SupersededNavigation | Sources/CollectionPageView/ScrollView.swift:76-83 | A second `select` while the first is pending always starts anew, and its animation alone decides where the view ends up. |
| ScrollPageEvents.ForwardWindow | Sources/CollectionPageView/ScrollView.swift:47-49 | With a buffer of two, a target beyond the centre gives the window of the centre's three pages followed by the target and its successor. |
| ScrollPageEvents.JumpThreeWindow | Sources/CollectionPageView/ScrollView.swift:75-89 | While a jump from page c to c+3 animates, the window is [c-2, c-1, c, c+3, c+4] and the animation aims at three page widths. |
| ScrollPageEvents.JumpThreeLands | Sources/CollectionPageView/ScrollView.swift:87-96 | When that jump ends, the window is [c+1 … c+5], c+3 is selected, and the viewport is on the middle slot. |
| ScrollPageEvents.Hysteresis | Sources/CollectionPageView/ScrollView.swift:221-239 | During a drag, the selection moves only once the viewport is a full page away. When forced, it already moves past half a page. |
| ScrollPageEvents.SelectMayDropSelected | Sources/CollectionPageView/ScrollView.swift:42-50 | With the selection one page right of the centre, a `select` beyond the window builds a window that no longer contains the selected page. |
| CollectionPageView.Window | Sources/CollectionPageView/CollectionView.swift:32-44 | The window has 2b+1 strictly increasing pages and contains the selection and any target. A target inside the symmetric run leaves the run as it is. A target below replaces the first page, and a target above replaces the last. |
| CollectionPageView.WindowKeepsMargin | Sources/CollectionPageView/CollectionView.swift:204 | The pages b-1 from the selection on either side are in every window. So the rebuild test never fires right after a rebuild. |
| CollectionPageView.Reload | Sources/CollectionPageView/CollectionView.swift:101-105 | The window is rebuilt around the selection and the viewport is put on the selection's slot. With no target, that is the middle slot. |
| CollectionPageView.LayoutSnap | Sources/CollectionPageView/CollectionView.swift:124-132 | While dragging or with a target pending, nothing changes. Otherwise only the offset changes, and it is set exactly to the selected page's offset, which is 0 when the selection is not in the window. With a positive width and a windowed selection, the page under the viewport is then the selected page. |
| CollectionPageView.Select | Sources/CollectionPageView/CollectionView.swift:112-122 | Selecting the selected page does nothing. Otherwise the page becomes the target and the window is rebuilt so that both the selection and the target are in it. Nothing else changes. |
| CollectionPageView.UpdateSelected | Sources/CollectionPageView/CollectionView.swift:193-219 | A slot outside the window changes nothing. The page in the slot is committed, and the target cleared, exactly when it agrees with the target. A rebuild happens when reloading and a margin page is missing. It re-windows around the selection and keeps the viewport's position relative to the selection. Otherwise the window and the offset stay. |
| CollectionPageView.SelectThenLand | Sources/CollectionPageView/CollectionView.swift:112-122 | A `select` whose scroll ends on the target makes it the selection, clears the target, and leaves the viewport exactly on its page. |
| CollectionPageView.ReloadIsAtRest | Sources/CollectionPageView/CollectionView.swift:193-219 | A freshly reloaded view with no target is at rest: `updateSelected` changes nothing, whatever `reload` is. |

## Left out

- UIKit plumbing is not modelled: frames, `addSubview` / `removeFromSuperview`, `contentSize`, scroll indicators and the collection view's layout objects. The model keeps only which view object each page owns.
- The animation engine: `UIViewPropertyAnimator` is represented by its outcome. The viewport reaches the target offset and the completion handler runs. A superseded animation is stopped with `stopAnimation(true)`, which drops its completion, so it has no transition. Intermediate animation frames are not modelled.
- Publishing the selection through Combine and `DispatchQueue.main.async`, and all logging and `print` calls, are not modelled. Neither is the `configureCell` callback; the model records only that a cell was placed.
- `CGFloat` arithmetic: offsets and widths are integers. The first layout, where the old width is 0, is modelled by `ScrollPageEvents.FirstLayout`. A later resize rescales the offset by a ratio of widths (ScrollView.swift:196-198), which needs real division. That branch is not modelled, so no transition changes a positive width, and the lemmas about a laid-out view start from any `Valid` state with a positive width.
- ScrollPageEvents.FirstLayout: requires the width before the call to be at most 0, because it models only the first-layout branch (ScrollView.swift:194-195) and not the rescaling branch.
- `scrollViewDidScroll` in `CollectionPageView` computes `reload` from UIKit's `isDecelerating` / `isDragging`. The model takes `reload` as a parameter of `UpdateSelected`.
- Swift `Dictionary` iteration order (ScrollView.swift:103) is unspecified. The model pools the views of every page that leaves the window in ascending page order (`Pages.Ascending`). Every proved property of `UpdateViews` holds whatever order is chosen, but which recycled object lands in which slot depends on it.
- A negative width: Swift would trap building the range `contentOffset ..< contentOffset + width`, whose upper bound is then below its lower bound (ScrollView.swift:162). The model treats such a range as empty, so nothing but the selection and the target is visible.
- Swift `Int` overflow: pages are unbounded integers in the model. Near `Int.min` or `Int.max`, building a window with `advanced(by:)` and ranges of pages traps in Swift (ScrollView.swift:45-52, CollectionView.swift:33 and 204), while the model builds the window as if the integers went on.
- `CollectionPageView.UpdateSelected` requires a positive width, because the Swift code divides by it without a guard.
- The data source methods of `CollectionPageView` (CollectionView.swift:140-155) and the commented-out code are not modelled. The data source reports `pages.count` items and configures each cell with its page.
- `Wrapper.swift` (the SwiftUI bridge) and the example app are not part of this model.

## Behaviour worth noting

- Visibility tests the half-open ranges `[contentOffset, contentOffset + width)` and `[offset, offset + width)` for overlap, with no margin (ScrollView.swift:162-163).
- At width 0, `select(value:)` does not commit the target. `updateSelection` returns early (ScrollView.swift:222-224), so the target stays pending until an update at a positive width.
- When a kept cell is demoted and the placeholder pool is empty, `updateViews` makes a new placeholder (ScrollView.swift:110-115). So a demotion can construct an object.
- Recentering compares slots, not pages. Outside a deceleration it fires once the centre's slot is `bufferSize` or more slots from the selection's slot; on force it fires whenever the two differ (ScrollView.swift:284-285). A selection that is not in the window counts as slot 0, because `offset(for:)` falls back to 0 (ScrollView.swift:168). So a selection one page from the centre can still trigger a recenter while it is outside the window.
- `select(value:)` builds the window from the centre and the target, not from the selection (ScrollView.swift:43-50). When the selection is off-centre, it can leave the window for the duration of the navigation (`ScrollPageEvents.SelectMayDropSelected`).
