/**
 * `CollectionPageView`: the earlier pager built on a collection view. Its
 * window is centred on the selected page itself, and a pending target outside
 * the window takes the place of the window's far end.
 */
module CollectionPageView {
  import opened Wrappers
  import opened Pages
  import opened Geometry

  /** Pages kept on each side of the selected page (`bufferSize`). */
  const BufferSize: nat := 3

  /** The fields the paging logic reads and writes; `contentOffset` and `width` belong to the collection view. */
  datatype State = State(
    pages: seq<int>,
    selected: int,
    nextValue: Option<int>,
    contentOffset: int,
    width: int)

  /**
   * `updatePages`: the `2b+1` pages around the selection. A pending target
   * outside them replaces the first page when it lies below, the last page
   * when it lies above.
   */
  function Window(selected: int, next: Option<int>, b: nat): (r: seq<int>)
    requires b >= 1
    ensures |r| == 2 * b + 1
    ensures StrictlyIncreasing(r)
    ensures selected in r
    ensures next.Some? ==> next.value in r
    ensures next.None? || selected - b <= next.value <= selected + b ==> r == Span(selected - b, 2 * b + 1)
    ensures next.Some? && next.value < selected - b ==>
      r[0] == next.value && r[1..] == Span(selected - b, 2 * b + 1)[1..]
    ensures next.Some? && next.value > selected + b ==>
      r[2 * b] == next.value && r[..2 * b] == Span(selected - b, 2 * b + 1)[..2 * b]
  {
    var pages := Span(selected - b, 2 * b + 1);
    assert pages[b] == selected;
    SpanMembers(selected - b, 2 * b + 1, if next.Some? then next.value else selected);
    if next.Some? && next.value !in pages then
      if pages[0] > next.value then [next.value] + pages[1..]
      else pages[..2 * b] + [next.value]
    else
      pages
  }

  /** The pages next to the selection on either side stay in every window, so a fresh window never asks to be rebuilt. */
  lemma WindowKeepsMargin(selected: int, next: Option<int>, b: nat)
    requires b >= 1
    ensures selected + b - 1 in Window(selected, next, b)
    ensures selected - b + 1 in Window(selected, next, b)
  {
    var r := Window(selected, next, b);
    var pages := Span(selected - b, 2 * b + 1);
    assert pages[1] == selected - b + 1 && pages[2 * b - 1] == selected + b - 1;
    assert r[1] == pages[1] && r[2 * b - 1] == pages[2 * b - 1];
  }

  function UpdatePages(s: State): State {
    s.(pages := Window(s.selected, s.nextValue, BufferSize))
  }

  /**
   * `offset(for:)`: the page's first slot times the width, and 0 for a page
   * that is not in the window.
   */
  function OffsetFor(s: State, v: int): (r: int)
    ensures v !in s.pages ==> r == 0
    ensures forall i :: 0 <= i < |s.pages| && s.pages[i] == v && v !in s.pages[..i] ==> r == s.width * i
  {
    OffsetOf(s.pages, s.width, v)
  }

  /**
   * `reload`, which `init(selected:configureCell:)` also runs: rebuild the
   * window and put the viewport on the selected page's slot, which is the
   * middle slot when no target is pending.
   */
  function Reload(s: State): (r: State)
    ensures r == s.(pages := r.pages, contentOffset := r.contentOffset)
    ensures r.pages == Window(s.selected, s.nextValue, BufferSize) && s.selected in r.pages
    ensures forall i :: 0 <= i < |r.pages| && r.pages[i] == s.selected ==> r.contentOffset == i * s.width
    ensures s.nextValue.None? ==> r.contentOffset == BufferSize * s.width
  {
    var t := UpdatePages(s);
    var pages := t.pages;
    PositionInIncreasing(pages, BufferSize);
    t.(contentOffset := OffsetFor(t, s.selected))
  }

  /**
   * The deferred block of `layoutSubviews`: unless the user is dragging or a
   * target is pending, the viewport snaps back onto the selected page, so the
   * page under it is the selected one.
   */
  function LayoutSnap(s: State, isDragging: bool): (r: State)
    ensures isDragging || s.nextValue.Some? ==> r == s
    ensures r == s.(contentOffset := r.contentOffset)
    ensures !isDragging && s.nextValue.None? ==> r.contentOffset == OffsetFor(s, s.selected)
    ensures s.selected !in s.pages ==> r.contentOffset == 0 || isDragging || s.nextValue.Some?
    ensures !isDragging && s.nextValue.None? && s.width > 0 && s.selected in s.pages ==>
      0 <= RoundedSlot(r) < |r.pages| && r.pages[RoundedSlot(r)] == r.selected
  {
    if !isDragging && s.nextValue == None then
      var r := s.(contentOffset := OffsetFor(s, s.selected));
      if s.width > 0 && s.selected in s.pages then
        RoundDivExact(Position(s.pages, s.selected), s.width);
        r
      else r
    else s
  }

  /**
   * The state part of `select(value:)`: a new target rebuilds the window so
   * that both the selection and the target are in it; selecting the selected
   * page does nothing. The animated scroll it starts is not part of the state.
   */
  function Select(s: State, v: int): (r: State)
    ensures v == s.selected ==> r == s
    ensures v != s.selected ==>
      && r == s.(nextValue := Some(v), pages := r.pages)
      && r.pages == Window(s.selected, Some(v), BufferSize)
      && v in r.pages && s.selected in r.pages
  {
    if v != s.selected then UpdatePages(s.(nextValue := Some(v))) else s
  }

  /** The slot under the viewport, `Int(round(contentOffset / width))`. */
  function RoundedSlot(s: State): int
    requires s.width > 0
  {
    RoundDiv(s.contentOffset, s.width)
  }

  /** The page under the viewport is in the window and agrees with any pending target. */
  predicate Commits(s: State)
    requires s.width > 0
  {
    && 0 <= RoundedSlot(s) < |s.pages|
    && (s.nextValue == None || s.nextValue == Some(s.pages[RoundedSlot(s)]))
  }

  /** The window is rebuilt: `reload` is set and a page `b - 1` away from the selection is missing. */
  predicate Rewindows(pages: seq<int>, selected: int, reload: bool) {
    reload && (selected + BufferSize - 1 !in pages || selected - BufferSize + 1 !in pages)
  }

  /**
   * `updateSelected(reload:)`: the page under the viewport becomes selected
   * when it agrees with any pending target. When reloading and the selection
   * has drifted near the window's edge, the window is rebuilt around it and
   * the viewport moves by the distance the selected page moved. The Swift code
   * divides by the width without a guard, hence the precondition.
   */
  function UpdateSelected(s: State, reload: bool): (r: State)
    requires s.width > 0
    ensures r.width == s.width
    ensures !(0 <= RoundedSlot(s) < |s.pages|) ==> r == s
    ensures Commits(s) ==> r.selected == s.pages[RoundedSlot(s)] && r.nextValue == None
    ensures !Commits(s) ==> r.selected == s.selected && r.nextValue == s.nextValue
    ensures r.contentOffset - OffsetOf(r.pages, r.width, r.selected)
         == s.contentOffset - OffsetOf(s.pages, s.width, r.selected)
    ensures 0 <= RoundedSlot(s) < |s.pages| && Rewindows(s.pages, r.selected, reload) ==>
      r.pages == Window(r.selected, r.nextValue, BufferSize) && r.selected in r.pages
    ensures !(0 <= RoundedSlot(s) < |s.pages| && Rewindows(s.pages, r.selected, reload)) ==>
      r.pages == s.pages && r.contentOffset == s.contentOffset
  {
    var index := RoundedSlot(s);
    if 0 <= index < |s.pages| then
      var page := s.pages[index];
      var t := if s.nextValue == None || s.nextValue == Some(page) then s.(nextValue := None, selected := page) else s;
      if Rewindows(t.pages, t.selected, reload) then
        var oldOffset := OffsetFor(t, t.selected);
        var u := UpdatePages(t);
        var newOffset := OffsetFor(u, t.selected);
        u.(contentOffset := t.contentOffset + newOffset - oldOffset)
      else
        t
    else
      s
  }

  /**
   * `select(value:)` followed by its animated scroll ending on the target
   * (`scrollViewDidEndScrollingAnimation`): the target becomes the selection,
   * the target is cleared, and the viewport sits exactly on its page.
   */
  lemma SelectThenLand(s: State, v: int)
    requires s.width > 0 && v != s.selected
    ensures var t := Select(s, v);
      var r := UpdateSelected(t.(contentOffset := OffsetFor(t, v)), true);
      && r.selected == v && r.nextValue == None
      && v in r.pages
      && r.contentOffset == OffsetFor(r, v)
  {
    var t := Select(s, v);
    var p := Position(t.pages, v);
    assert t.pages[p] == v;
    var landed := t.(contentOffset := OffsetFor(t, v));
    RoundDivExact(p, s.width);
    assert RoundedSlot(landed) == p;
  }

  /**
   * A freshly reloaded view with no pending target is at rest: the page under
   * the viewport is the selected page and its margins are in the window, so
   * `updateSelected` changes nothing.
   */
  lemma ReloadIsAtRest(s: State, reload: bool)
    requires s.width > 0 && s.nextValue == None
    ensures UpdateSelected(Reload(s), reload) == Reload(s)
  {
    var t := Reload(s);
    RoundDivExact(BufferSize, s.width);
    assert t.pages[BufferSize] == s.selected;
    WindowKeepsMargin(s.selected, None, BufferSize);
  }
}
