/**
 * The event handlers of `ScrollPageView`, composed from its transitions:
 * the end of a programmatic scroll animation, the start of a drag, the end of
 * a deceleration and the tail of a layout pass.
 */
module ScrollPageEvents {
  import opened Wrappers
  import opened Pages
  import opened Geometry
  import opened ScrollPageView

  /**
   * `scrollViewDidEndDecelerating`, also the body of the animation's
   * completion handler: force a selection update, snap onto the selected
   * page, then force a recenter. With a positive width the view comes to rest
   * centred on its selection.
   */
  function Settle(s: State): (r: State)
    requires WellFormedViews(s.views, s.nextId)
    ensures Valid(s) ==> Valid(r)
    ensures r.width == s.width && r.isDecelerating == s.isDecelerating
    ensures Valid(s) && s.width > 0 ==>
      && r.centerPage == r.selected
      && r.selected in r.pages
      && Abs(r.contentOffset - OffsetFor(r, r.selected)) <= 1
    ensures s.width > 0 && 0 <= RoundedSlot(s) < |s.pages|
            && (s.nextValue == None || s.nextValue == Some(s.pages[RoundedSlot(s)])) ==>
      r.selected == s.pages[RoundedSlot(s)] && r.nextValue == None
  {
    var u := UpdateSelection(s, true);
    var e := EnsurePaging(u);
    var r := Recenter(e, true);
    assert Valid(s) && s.width > 0 && e.centerPage == e.selected ==> r == e && e.selected in e.pages;
    r
  }

  /**
   * A programmatic scroll runs to its end: the animation leaves the viewport
   * at `target` (the target page's offset when the animation was set up) and
   * the completion handler settles the view. A superseded animation is
   * stopped without running its completion handler, so it has no transition.
   */
  function FinishAnimation(s: State, target: int): (r: State)
    requires WellFormedViews(s.views, s.nextId)
    ensures Valid(s) ==> Valid(r)
    ensures Valid(s) && s.width > 0 ==> r.centerPage == r.selected && r.selected in r.pages
  {
    Settle(s.(contentOffset := target))
  }

  /**
   * `scrollViewWillBeginDragging`: a drag that interrupts a deceleration
   * first forces a recenter; any drag drops the pending target.
   */
  function WillBeginDragging(s: State): (r: State)
    requires WellFormedViews(s.views, s.nextId)
    ensures r.nextValue == None && r.selected == s.selected
    ensures !s.isDecelerating ==> r == s.(nextValue := None)
    ensures s.isDecelerating && s.width > 0 && s.centerPage != s.selected ==>
      && r.centerPage == s.selected
      && r.selected in r.pages
      && r.contentOffset - OffsetFor(r, r.selected) == s.contentOffset - OffsetFor(s, s.selected)
    ensures Valid(s) ==> Valid(r)
  {
    var t := if s.isDecelerating then Recenter(s, true) else s;
    t.(nextValue := None)
  }

  /** Whether or not it fires, `recenter` keeps the selection, the width and the viewport's position relative to the selected page. */
  lemma RecenterKeepsRelativeOffset(s: State, force: bool)
    requires WellFormedViews(s.views, s.nextId)
    ensures Recenter(s, force).selected == s.selected && Recenter(s, force).width == s.width
    ensures Recenter(s, force).contentOffset - OffsetFor(Recenter(s, force), s.selected)
         == s.contentOffset - OffsetFor(s, s.selected)
  {
  }

  /** The non-forced selection update and recenter that start the tail of `layoutSubviews`. */
  function LayoutAnchor(s: State): (r: State)
    requires WellFormedViews(s.views, s.nextId)
    ensures r.width == s.width
    ensures WellFormedViews(r.views, r.nextId)
    ensures s.width <= 0 || NearSelected(s) ==>
      && r.selected == s.selected
      && r.contentOffset - OffsetFor(r, r.selected) == s.contentOffset - OffsetFor(s, s.selected)
    ensures Valid(s) ==> Valid(r)
  {
    var e := UpdateSelection(s, false);
    RecenterKeepsRelativeOffset(e, false);
    Recenter(e, false)
  }

  /**
   * The end of `layoutSubviews`: a non-forced selection update and recenter,
   * then the placeholder check. Afterwards every visible page of the window
   * shows a cell. While the viewport is less than a page from the selected
   * page, or before the first layout, the selection stays and so does the
   * viewport's position relative to it.
   */
  function LayoutPass(s: State): (r: State)
    requires WellFormedViews(s.views, s.nextId)
    ensures r.width == s.width
    ensures s.width <= 0 || NearSelected(s) ==>
      && r.selected == s.selected
      && r.contentOffset - OffsetFor(r, r.selected) == s.contentOffset - OffsetFor(s, s.selected)
    ensures Valid(s) ==> Valid(r)
    ensures Valid(s) ==> forall v :: v in r.pages && IsViewVisible(r, v) ==> r.views[v].Cell?
  {
    var t := LayoutAnchor(s);
    var r := CheckVisible(t);
    VisibilityIgnoresViews(t, r);
    r
  }

  /** The new bounds of the first layout: the width becomes `w` and the viewport goes to the selected page's slot. */
  function SnapToWidth(s: State, w: int): (r: State)
    ensures r == s.(width := w, contentOffset := r.contentOffset)
    ensures r.contentOffset == OffsetFor(r, s.selected)
    ensures Valid(s) ==> Valid(r)
    ensures w > 0 ==> NearSelected(r)
  {
    var t := s.(width := w);
    t.(contentOffset := OffsetFor(t, s.selected))
  }

  /**
   * The first `layoutSubviews` that sees a positive width, `w`: the viewport
   * is put on the selected page's slot for the new width, then the layout
   * tail runs. The selection stays and the viewport rests on it.
   */
  function FirstLayout(s: State, w: int): (r: State)
    requires s.width <= 0
    requires WellFormedViews(s.views, s.nextId)
    ensures r.width == w && r.selected == s.selected
    ensures Valid(s) ==> Valid(r)
    ensures Valid(s) ==> forall v :: v in r.pages && IsViewVisible(r, v) ==> r.views[v].Cell?
    ensures Valid(s) && w > 0 ==> r.contentOffset == OffsetFor(r, r.selected)
  {
    LayoutPass(SnapToWidth(s, w))
  }

  /**
   * A new view laid out for the first time at width `w` rests on its
   * selection in the middle of five pages, with a cell for the selected page.
   */
  lemma InitThenLayout(selected: int, w: int)
    requires w > 0
    ensures FirstLayout(Init(selected), w).pages == Span(selected - BufferSize, 2 * BufferSize + 1)
    ensures FirstLayout(Init(selected), w).selected == selected
    ensures FirstLayout(Init(selected), w).contentOffset == BufferSize * w
    ensures FirstLayout(Init(selected), w).views[selected].Cell?
  {
    var s := Init(selected);
    var r := FirstLayout(s, w);
    PositionInIncreasing(s.pages, BufferSize);
    assert s.pages[BufferSize] == selected;
    var u := s.(width := w, contentOffset := BufferSize * w);
    assert OffsetFor(u, selected) == BufferSize * w;
    assert !RecenterDue(u, false);
    PositionInIncreasing(r.pages, BufferSize);
  }

  /** A forced update with the viewport exactly on the pending target's page commits the target. */
  lemma CommitTarget(l: State, v: int)
    requires l.width > 0 && StrictlyIncreasing(l.pages)
    requires l.nextValue == Some(v) && v in l.pages
    requires l.contentOffset == OffsetFor(l, v)
    ensures UpdateSelection(l, true) == l.(selected := v, nextValue := None)
  {
    var p := Position(l.pages, v);
    assert l.pages[p] == v;
    RoundDivExact(p, l.width);
    assert RoundedSlot(l) == p;
  }

  /**
   * A forced recenter with the viewport exactly on a selection that was the
   * target the window was built for leaves five consecutive pages centred on the selection, with the
   * viewport on the middle slot.
   */
  lemma RecenterOnSelected(e: State)
    requires Valid(e) && e.width > 0 && e.nextValue == None
    requires e.pages == Window(e.centerPage, Some(e.selected), BufferSize)
    requires e.contentOffset == OffsetFor(e, e.selected)
    ensures Recenter(e, true).centerPage == e.selected && Recenter(e, true).selected == e.selected
    ensures Recenter(e, true).nextValue == None
    ensures Recenter(e, true).pages == Span(e.selected - BufferSize, 2 * BufferSize + 1)
    ensures Recenter(e, true).contentOffset == OffsetFor(Recenter(e, true), e.selected) == BufferSize * e.width
    ensures Valid(Recenter(e, true))
  {
    PositionInIncreasing(e.pages, BufferSize);
    if e.centerPage == e.selected {
      assert !RecenterDue(e, true);
    }
  }

  /**
   * The completion handler run with the viewport exactly on the pending
   * target's page: the target becomes the selection and the window is
   * recentred on it, the viewport on the middle slot.
   */
  lemma SettleOnTarget(l: State, v: int)
    requires Valid(l) && l.width > 0
    requires l.nextValue == Some(v) && v in l.pages
    requires l.contentOffset == OffsetFor(l, v)
    ensures Settle(l).selected == v && Settle(l).nextValue == None && Settle(l).centerPage == v
    ensures Settle(l).pages == Span(v - BufferSize, 2 * BufferSize + 1)
    ensures Settle(l).contentOffset == OffsetFor(Settle(l), v) == BufferSize * l.width
    ensures Valid(Settle(l))
  {
    CommitTarget(l, v);
    var u := UpdateSelection(l, true);
    assert EnsurePaging(u) == u;
    RecenterOnSelected(u);
  }

  /**
   * `select(value:)` followed by its animation running to the end: the target
   * becomes the selection, the target is cleared, and the window is recentred
   * on it with the viewport exactly on its page in the middle slot.
   */
  lemma SelectThenFinish(s: State, v: int)
    requires Valid(s) && s.width > 0
    requires StartsNavigation(s, v)
    ensures var t := Select(s, v);
      var r := FinishAnimation(t, OffsetFor(t, v));
      && r.selected == v && r.nextValue == None && r.centerPage == v
      && r.pages == Span(v - BufferSize, 2 * BufferSize + 1)
      && r.contentOffset == OffsetFor(r, v) == BufferSize * s.width
      && Valid(r)
  {
    var t := Select(s, v);
    var landed := t.(contentOffset := OffsetFor(t, v));
    assert Valid(landed);
    SettleOnTarget(landed, v);
  }

  /**
   * A `select` issued while another navigation is still animating always
   * starts anew, and its animation alone decides the outcome.
   */
  lemma SupersededNavigation(s: State, a: int, b: int)
    requires Valid(s) && s.width > 0
    requires StartsNavigation(s, a) && a != b
    ensures StartsNavigation(Select(s, a), b)
    ensures var t := Select(Select(s, a), b);
      var r := FinishAnimation(t, OffsetFor(t, b));
      r.selected == b && r.nextValue == None && r.centerPage == b
  {
    SelectThenFinish(Select(s, a), b);
  }

  /** The window of a pending forward navigation past the window's edge, with a buffer of two. */
  lemma ForwardWindow(c: int, v: int)
    requires v > c
    ensures Window(c, Some(v), BufferSize) == [c - 2, c - 1, c, v, v + 1]
  {
    var w := Window(c, Some(v), BufferSize);
    assert w == Span(c - 2, 3) + Span(v, 2);
    assert w[0] == c - 2 && w[1] == c - 1 && w[2] == c && w[3] == v && w[4] == v + 1;
  }

  /** Five consecutive pages written out. */
  lemma SpanOfFive(lo: int)
    ensures Span(lo, 5) == [lo, lo + 1, lo + 2, lo + 3, lo + 4]
  {
    var p := Span(lo, 5);
    assert p[0] == lo && p[1] == lo + 1 && p[2] == lo + 2 && p[3] == lo + 3 && p[4] == lo + 4;
  }

  /**
   * While a jump three pages forward from a settled state animates, the window
   * is the centre's three pages followed by the target and the page after it,
   * so the target sits three page widths into the content.
   */
  lemma JumpThreeWindow(s: State)
    requires Valid(s) && s.width > 0
    requires s.nextValue == None && s.selected == s.centerPage
    ensures Select(s, s.centerPage + 3).pages
      == [s.centerPage - 2, s.centerPage - 1, s.centerPage, s.centerPage + 3, s.centerPage + 4]
    ensures OffsetFor(Select(s, s.centerPage + 3), s.centerPage + 3) == 3 * s.width
  {
    ForwardWindow(s.centerPage, s.centerPage + 3);
    var t := Select(s, s.centerPage + 3);
    PositionInIncreasing(t.pages, 3);
  }

  /**
   * A jump three pages forward from a settled state with a buffer of two ends
   * with the view resting on the target in the middle of five consecutive
   * pages, the viewport on the middle slot.
   */
  lemma JumpThreeLands(s: State)
    requires Valid(s) && s.width > 0
    requires s.nextValue == None && s.selected == s.centerPage
    ensures var t := Select(s, s.centerPage + 3);
      var r := FinishAnimation(t, OffsetFor(t, s.centerPage + 3));
      && r.pages == [s.centerPage + 1, s.centerPage + 2, s.centerPage + 3, s.centerPage + 4, s.centerPage + 5]
      && r.selected == s.centerPage + 3 && r.nextValue == None
      && r.contentOffset == 2 * s.width
  {
    SelectThenFinish(s, s.centerPage + 3);
    SpanOfFive(s.centerPage + 1);
  }

  /**
   * One page of hysteresis around a settled selection: a drag of less than a
   * page leaves the selection alone, a drag of a page up to the next rounding
   * boundary moves it one page on, and a forced update (the end of a
   * deceleration) already moves it past half a page.
   */
  lemma Hysteresis(s: State, d: int)
    requires Valid(s) && s.width > 0 && s.nextValue == None
    requires s.pages == Span(s.selected - BufferSize, 2 * BufferSize + 1)
    requires 0 < d
    ensures var o := OffsetFor(s, s.selected);
      && (d < s.width ==>
            UpdateSelection(s.(contentOffset := o + d), false).selected == s.selected)
      && (s.width <= d && 2 * d < 3 * s.width ==>
            UpdateSelection(s.(contentOffset := o + d), false).selected == s.selected + 1)
      && (s.width < 2 * d < 3 * s.width ==>
            UpdateSelection(s.(contentOffset := o + d), true).selected == s.selected + 1)
  {
    var w := s.width;
    PositionInIncreasing(s.pages, BufferSize);
    assert OffsetFor(s, s.selected) == 2 * w;
    if w <= 2 * d < 3 * w {
      RoundDivUnique(2 * w + d, w, 3);
      assert s.pages[3] == s.selected + 1;
    }
  }

  /**
   * Selecting a page beyond the window while the selection is one page right of
   * the centre builds the window from the centre and the target only, so the
   * selected page leaves the window until the navigation settles.
   */
  lemma SelectMayDropSelected(s: State, v: int)
    requires Valid(s) && s.nextValue == None
    requires s.selected == s.centerPage + 1 && v > s.centerPage + BufferSize
    ensures Select(s, v).pages == [s.centerPage - 2, s.centerPage - 1, s.centerPage, v, v + 1]
    ensures Select(s, v).selected == s.selected
    ensures s.selected !in Select(s, v).pages
  {
    ForwardWindow(s.centerPage, v);

  }
}
