/**
 * `ScrollPageView`: a horizontal scroll view that shows an unbounded run of
 * integer pages while keeping only `2 * BufferSize + 1` page views alive.
 * The object is modelled as an immutable `State` record and every method of
 * the class as a pure transition on it.
 */
module ScrollPageView {
  import opened Wrappers
  import opened Pages
  import opened Geometry
  import opened CollectionSplit

  /** Pages kept on each side of the centre page (`bufferSize`). */
  const BufferSize: nat := 2

  /**
   * The view in a page slot: a content cell or an empty placeholder view.
   * `id` stands for object identity: two slots hold the same object exactly
   * when their ids agree.
   */
  datatype View = Cell(id: nat) | Placeholder(id: nat)

  /**
   * The fields of the view that the windowing logic reads and writes.
   * `contentOffset` and `width` are the scroll view's horizontal offset and
   * bounds width; `nextId` is the supply of new object identities.
   */
  datatype State = State(
    pages: seq<int>,
    selected: int,
    centerPage: int,
    nextValue: Option<int>,
    contentOffset: int,
    width: int,
    isDecelerating: bool,
    views: map<int, View>,
    nextId: nat)

  // ---------------------------------------------------------------------
  // The window of pages

  /**
   * `updatePages`: `2b+1` pages around `center`. While a navigation to `next`
   * is pending and `next` is not the centre, the far side of the window is
   * given up to `b` pages that start at `next`, on the side `next` lies on.
   */
  function Window(center: int, next: Option<int>, b: nat): (r: seq<int>)
    requires b >= 1
    ensures |r| == 2 * b + 1
    ensures StrictlyIncreasing(r)
    ensures r[b] == center && center in r
    ensures next.Some? && next.value < center ==> r[b - 1] == next.value
    ensures next.Some? && next.value > center ==> r[b + 1] == next.value
    ensures next.Some? ==> next.value in r
    ensures next.None? || next.value == center ==> r == Span(center - b, 2 * b + 1)
  {
    if next.Some? && next.value != center then
      if center > next.value then
        Span(next.value - b + 1, b) + Span(center, b + 1)
      else
        Span(center - b, b + 1) + Span(next.value, b)
    else
      Span(center - b, 2 * b + 1)
  }

  /** The pages of a window, described as one or two runs of consecutive values. */
  predicate InWindow(center: int, next: Option<int>, b: nat, x: int) {
    if next.Some? && next.value < center then
      next.value - b < x <= next.value || center <= x <= center + b
    else if next.Some? && next.value > center then
      center - b <= x <= center || next.value <= x < next.value + b
    else
      center - b <= x <= center + b
  }

  lemma WindowMembers(center: int, next: Option<int>, b: nat, x: int)
    requires b >= 1
    ensures x in Window(center, next, b) <==> InWindow(center, next, b, x)
  {
    if next.Some? && next.value < center {
      WindowBelowMembers(center, next.value, b, x);
    } else if next.Some? && next.value > center {
      WindowAboveMembers(center, next.value, b, x);
    } else {
      assert Window(center, next, b) == Span(center - b, 2 * b + 1);
      SpanMembers(center - b, 2 * b + 1, x);
    }
  }

  lemma WindowBelowMembers(center: int, next: int, b: nat, x: int)
    requires b >= 1 && next < center
    ensures x in Window(center, Some(next), b) <==> next - b < x <= next || center <= x <= center + b
  {
    assert Window(center, Some(next), b) == Span(next - b + 1, b) + Span(center, b + 1);
    TwoSpanMembers(next - b + 1, b, center, b + 1, x);
  }

  lemma WindowAboveMembers(center: int, next: int, b: nat, x: int)
    requires b >= 1 && next > center
    ensures x in Window(center, Some(next), b) <==> center - b <= x <= center || next <= x < next + b
  {
    assert Window(center, Some(next), b) == Span(center - b, b + 1) + Span(next, b);
    TwoSpanMembers(center - b, b + 1, next, b, x);
  }

  /** `x` lies in two spans laid end to end exactly when it lies in one of them. */
  lemma TwoSpanMembers(lo: int, n: nat, lo': int, n': nat, x: int)
    ensures x in Span(lo, n) + Span(lo', n') <==> lo <= x < lo + n || lo' <= x < lo' + n'
  {
    SpanMembers(lo, n, x);
    SpanMembers(lo', n', x);
  }

  function UpdatePages(s: State): State {
    s.(pages := Window(s.centerPage, s.nextValue, BufferSize))
  }

  /** `offset(for:)`. */
  function OffsetFor(s: State, v: int): int {
    OffsetOf(s.pages, s.width, v)
  }

  // ---------------------------------------------------------------------
  // Visibility

  /**
   * `isViewVisible(for:)`: the selected page and the pending target always
   * count as visible; any other page exactly when the viewport is less than one
   * page width away from its frame (the half-open ranges
   * `[contentOffset, contentOffset + width)` and `[offset, offset + width)`
   * overlap, which an empty range never does).
   */
  function IsViewVisible(s: State, v: int): (r: bool)
    ensures v == s.selected || s.nextValue == Some(v) ==> r
    ensures v != s.selected && s.nextValue != Some(v) ==>
      (r <==> s.width > 0 && Abs(s.contentOffset - OffsetFor(s, v)) < s.width)
  {
    if v == s.selected || s.nextValue == Some(v) then
      true
    else
      var offset := OffsetFor(s, v);
      var x := if s.contentOffset < offset then offset else s.contentOffset;
      assert s.width > 0 && Abs(s.contentOffset - offset) < s.width ==>
        Within(x, s.contentOffset, s.contentOffset + s.width) && Within(x, offset, offset + s.width);
      Overlaps(s.contentOffset, s.contentOffset + s.width, offset, offset + s.width)
  }

  /** Visibility reads neither the views nor the identity supply. */
  lemma VisibilityIgnoresViews(s: State, t: State)
    requires t == s.(views := t.views, nextId := t.nextId)
    ensures forall v :: IsViewVisible(t, v) == IsViewVisible(s, v)
  {
  }

  // ---------------------------------------------------------------------
  // View identity

  predicate DistinctIds(m: map<int, View>) {
    forall a, b :: a in m && b in m && a != b ==> m[a].id != m[b].id
  }

  /** No object sits in two slots, and every object predates the identity supply. */
  predicate WellFormedViews(m: map<int, View>, nextId: nat) {
    DistinctIds(m) && forall k :: k in m ==> m[k].id < nextId
  }

  function IdsOf(m: map<int, View>): set<nat> {
    set k | k in m :: m[k].id
  }

  predicate DistinctViewIds(xs: seq<View>) {
    forall i, j :: 0 <= i < j < |xs| ==> xs[i].id != xs[j].id
  }

  function ViewIds(xs: seq<View>): set<nat> {
    set i | 0 <= i < |xs| :: xs[i].id
  }

  lemma ViewIdsAppend(xs: seq<View>, x: View)
    ensures ViewIds(xs + [x]) == ViewIds(xs) + {x.id}
  {
    var ys := xs + [x];
    assert ys[|xs|] == x;
    forall id | id in ViewIds(xs) ensures id in ViewIds(ys) {
      var i :| 0 <= i < |xs| && xs[i].id == id;
      assert ys[i] == xs[i];
    }
  }

  /** `$0 as? Cell`. */
  function AsCell(v: View): Option<nat> {
    if v.Cell? then Some(v.id) else None
  }

  /**
   * Splitting views with distinct identities into cells and the rest yields
   * distinct cells, distinct placeholders, no object in both, and nothing new.
   */
  lemma {:induction false} SplitViews(xs: seq<View>)
    requires DistinctViewIds(xs)
    ensures Distinct(Accepted(xs, AsCell))
    ensures DistinctViewIds(Rejected(xs, AsCell))
    ensures forall i :: 0 <= i < |Rejected(xs, AsCell)| ==> Rejected(xs, AsCell)[i].Placeholder?
    ensures forall c :: c in Accepted(xs, AsCell) ==> c in ViewIds(xs) && c !in ViewIds(Rejected(xs, AsCell))
    ensures ViewIds(Rejected(xs, AsCell)) <= ViewIds(xs)
    decreases |xs|
  {
    if |xs| > 0 {
      var init := xs[..|xs| - 1];
      var last := xs[|xs| - 1];
      assert DistinctViewIds(init);
      SplitViews(init);
      assert xs == init + [last];
      ViewIdsAppend(init, last);
      assert last.id !in ViewIds(init);
      var cells, rest := Accepted(xs, AsCell), Rejected(xs, AsCell);
      if last.Cell? {
        assert cells == Accepted(init, AsCell) + [last.id];
        assert rest == Rejected(init, AsCell);
      } else {
        assert cells == Accepted(init, AsCell);
        assert rest == Rejected(init, AsCell) + [last];
        ViewIdsAppend(Rejected(init, AsCell), last);
      }
    }
  }

  // ---------------------------------------------------------------------
  // `updateViews`

  /**
   * The reclaimable pools and the map under construction while
   * `updateViews` walks the window.
   */
  datatype Pool = Pool(cells: seq<nat>, placeholders: seq<View>, updated: map<int, View>, nextId: nat)

  /**
   * Keys that still own a view but left the window, each once. Swift does not
   * fix the order in which a dictionary lists its entries; the model lists them
   * in ascending order.
   */
  function DroppedKeys(views: map<int, View>, pages: seq<int>): (r: seq<int>)
    ensures Distinct(r)
    ensures forall k :: k in r <==> k in views && k !in pages
  {
    Ascending(set k | k in views && k !in pages)
  }

  function Dropped(s: State): seq<View> {
    var keys := DroppedKeys(s.views, s.pages);
    seq(|keys|, j requires 0 <= j < |keys| => s.views[keys[j]])
  }

  function PopPlaceholder(acc: Pool): (View, Pool) {
    if |acc.placeholders| > 0 then
      (acc.placeholders[|acc.placeholders| - 1], acc.(placeholders := acc.placeholders[..|acc.placeholders| - 1]))
    else
      (Placeholder(acc.nextId), acc.(nextId := acc.nextId + 1))
  }

  function PopCell(acc: Pool): (View, Pool) {
    if |acc.cells| > 0 then
      (Cell(acc.cells[|acc.cells| - 1]), acc.(cells := acc.cells[..|acc.cells| - 1]))
    else
      (Cell(acc.nextId), acc.(nextId := acc.nextId + 1))
  }

  /** One iteration of the loop over the window, for page `v`. */
  function Step(s: State, acc: Pool, v: int): Pool {
    if v in s.views then
      var existing := s.views[v];
      if !IsViewVisible(s, v) && existing.Cell? then
        var (view, rest) := PopPlaceholder(acc);
        rest.(updated := rest.updated[v := view], cells := rest.cells + [existing.id])
      else
        acc.(updated := acc.updated[v := existing])
    else if IsViewVisible(s, v) then
      var (view, rest) := PopCell(acc);
      rest.(updated := rest.updated[v := view])
    else
      var (view, rest) := PopPlaceholder(acc);
      rest.(updated := rest.updated[v := view])
  }

  function Walk(s: State, i: nat, acc: Pool): Pool
    requires i <= |s.pages|
    decreases |s.pages| - i
  {
    if i == |s.pages| then acc else Walk(s, i + 1, Step(s, acc, s.pages[i]))
  }

  function InitialPool(s: State): Pool {
    var dropped := Dropped(s);
    Pool(Accepted(dropped, AsCell), Rejected(dropped, AsCell), map[], s.nextId)
  }

  /** What `updateViews` leaves at page `v`, judged against the views before the call. */
  ghost predicate Expected(s: State, v: int, view: View) {
    if v in s.views then
      if s.views[v].Cell? && !IsViewVisible(s, v) then view.Placeholder? else view == s.views[v]
    else
      view.Cell? <==> IsViewVisible(s, v)
  }

  /** Identities still owned by the pages of `s.pages[i..]` in the old map. */
  function PendingIds(s: State, i: nat): set<nat>
    requires i <= |s.pages|
  {
    set k | k in s.pages[i..] && k in s.views :: s.views[k].id
  }

  function CellSet(cells: seq<nat>): set<nat> {
    set c | c in cells
  }

  /** Every object in `ids` predates `nextId` and is either old or made during this call. */
  ghost predicate Sourced(ids: set<nat>, nextId: nat, oldIds: set<nat>, oldNext: nat) {
    forall id :: id in ids ==> id < nextId && (id in oldIds || oldNext <= id)
  }

  /** Adding a sourced object and growing the supply keeps a set sourced. */
  lemma SourcedGrow(ids: set<nat>, nextId: nat, nextId': nat, oldIds: set<nat>, oldNext: nat, extra: set<nat>)
    requires Sourced(ids, nextId, oldIds, oldNext) && nextId <= nextId'
    requires forall id :: id in extra ==> id < nextId' && (id in oldIds || oldNext <= id)
    ensures Sourced(ids + extra, nextId', oldIds, oldNext)
  {
  }

  /**
   * Ownership bookkeeping for the walk: the objects already placed (`placed`),
   * the two pools and the objects still held by unvisited pages are pairwise
   * disjoint, and each is either an old object or a new one.
   */
  ghost predicate Ledger(placed: set<nat>, cells: set<nat>, placeholders: set<nat>, pending: set<nat>,
                         nextId: nat, oldIds: set<nat>, oldNext: nat)
  {
    && placed !! cells && placed !! placeholders && placed !! pending
    && cells !! placeholders && cells !! pending && placeholders !! pending
    && Sourced(placed, nextId, oldIds, oldNext)
    && Sourced(cells, nextId, oldIds, oldNext)
    && Sourced(placeholders, nextId, oldIds, oldNext)
    && pending <= oldIds
    && (forall id :: id in pending ==> id < oldNext)
    && oldNext <= nextId
  }

  /** A page that keeps its object `kept` moves it from `pending` to `placed`. */
  lemma LedgerKeep(placed: set<nat>, cells: set<nat>, placeholders: set<nat>, pending: set<nat>,
                   nextId: nat, oldIds: set<nat>, oldNext: nat, kept: nat)
    requires Ledger(placed, cells, placeholders, pending, nextId, oldIds, oldNext) && kept in pending
    ensures Ledger(placed + {kept}, cells, placeholders, pending - {kept}, nextId, oldIds, oldNext)
  {
    SourcedGrow(placed, nextId, nextId, oldIds, oldNext, {kept});
  }

  /**
   * A demoted cell `demoted` goes to the cell pool; its slot takes the pooled
   * placeholder `taken`, or a new one when `isNew`.
   */
  lemma LedgerDemote(placed: set<nat>, cells: set<nat>, placeholders: set<nat>, pending: set<nat>,
                     nextId: nat, oldIds: set<nat>, oldNext: nat, demoted: nat, taken: nat, isNew: bool)
    requires Ledger(placed, cells, placeholders, pending, nextId, oldIds, oldNext) && demoted in pending
    requires isNew ==> taken == nextId
    requires !isNew ==> taken in placeholders
    ensures Ledger(placed + {taken}, cells + {demoted}, placeholders - {taken}, pending - {demoted},
                   if isNew then nextId + 1 else nextId, oldIds, oldNext)
  {
    var nextId' := if isNew then nextId + 1 else nextId;
    SourcedGrow(placed, nextId, nextId', oldIds, oldNext, {taken});
    SourcedGrow(cells, nextId, nextId', oldIds, oldNext, {demoted});
    SourcedGrow(placeholders - {taken}, nextId, nextId', oldIds, oldNext, {});
  }

  /**
   * A page new to the window takes `taken` from one pool (`fromCells` says
   * which), or a new object when `isNew`.
   */
  lemma LedgerTake(placed: set<nat>, cells: set<nat>, placeholders: set<nat>, pending: set<nat>,
                   nextId: nat, oldIds: set<nat>, oldNext: nat, taken: nat, isNew: bool, fromCells: bool)
    requires Ledger(placed, cells, placeholders, pending, nextId, oldIds, oldNext)
    requires isNew ==> taken == nextId
    requires !isNew && fromCells ==> taken in cells
    requires !isNew && !fromCells ==> taken in placeholders
    ensures fromCells ==> Ledger(placed + {taken}, cells - {taken}, placeholders, pending,
                                 if isNew then nextId + 1 else nextId, oldIds, oldNext)
    ensures !fromCells ==> Ledger(placed + {taken}, cells, placeholders - {taken}, pending,
                                  if isNew then nextId + 1 else nextId, oldIds, oldNext)
  {
    var nextId' := if isNew then nextId + 1 else nextId;
    SourcedGrow(placed, nextId, nextId', oldIds, oldNext, {taken});
    SourcedGrow(cells - {taken}, nextId, nextId', oldIds, oldNext, {});
    SourcedGrow(placeholders - {taken}, nextId, nextId', oldIds, oldNext, {});
    SourcedGrow(cells, nextId, nextId', oldIds, oldNext, {});
    SourcedGrow(placeholders, nextId, nextId', oldIds, oldNext, {});
  }

  ghost predicate PoolInv(s: State, i: nat, acc: Pool) {
    && i <= |s.pages|
    && (forall v :: v in acc.updated <==> v in s.pages[..i])
    && DistinctIds(acc.updated)
    && Distinct(acc.cells)
    && DistinctViewIds(acc.placeholders)
    && (forall j :: 0 <= j < |acc.placeholders| ==> acc.placeholders[j].Placeholder?)
    && Ledger(IdsOf(acc.updated), CellSet(acc.cells), ViewIds(acc.placeholders), PendingIds(s, i),
              acc.nextId, IdsOf(s.views), s.nextId)
    && (forall v :: v in acc.updated ==> Expected(s, v, acc.updated[v]))
  }

  lemma PendingSplit(s: State, i: nat)
    requires Distinct(s.pages) && DistinctIds(s.views)
    requires i < |s.pages|
    ensures s.pages[i] in s.views ==>
      PendingIds(s, i) == PendingIds(s, i + 1) + {s.views[s.pages[i]].id}
      && s.views[s.pages[i]].id !in PendingIds(s, i + 1)
    ensures s.pages[i] !in s.views ==> PendingIds(s, i) == PendingIds(s, i + 1)
  {
    var v := s.pages[i];
    assert s.pages[i..] == [v] + s.pages[i + 1..];
    assert v !in s.pages[i + 1..] by {
      forall j | i + 1 <= j < |s.pages| ensures s.pages[j] != v {
        assert s.pages[i] != s.pages[j];
      }
    }
  }

  lemma InitialPoolInv(s: State)
    requires Distinct(s.pages) && WellFormedViews(s.views, s.nextId)
    ensures PoolInv(s, 0, InitialPool(s))
  {
    var keys := DroppedKeys(s.views, s.pages);
    var dropped := Dropped(s);
    assert DistinctViewIds(dropped) by {
      forall i, j | 0 <= i < j < |dropped| ensures dropped[i].id != dropped[j].id {
        assert keys[i] != keys[j];
      }
    }
    SplitViews(dropped);
    assert ViewIds(dropped) !! PendingIds(s, 0) by {
      forall id | id in ViewIds(dropped) ensures id !in PendingIds(s, 0) {
        var j :| 0 <= j < |dropped| && dropped[j].id == id;
        var key := keys[j];
        assert key in keys;
        assert dropped[j] == s.views[key];
        assert s.pages[0..] == s.pages;
        forall k | k in s.pages && k in s.views ensures s.views[k].id != id {
          assert k != key;
        }
      }
    }
    assert ViewIds(dropped) <= IdsOf(s.views) by {
      forall id | id in ViewIds(dropped) ensures id in IdsOf(s.views) {
        var j :| 0 <= j < |dropped| && dropped[j].id == id;
        var key := keys[j];
        assert key in keys;
        assert dropped[j] == s.views[key];
      }
    }
  }

  /** Facts shared by every case of one step of the walk. */
  ghost predicate StepReady(s: State, i: nat, acc: Pool) {
    && Distinct(s.pages) && WellFormedViews(s.views, s.nextId)
    && i < |s.pages|
    && PoolInv(s, i, acc)
    && s.pages[..i + 1] == s.pages[..i] + [s.pages[i]]
    && s.pages[i] !in acc.updated
  }

  lemma AddSlot(m: map<int, View>, v: int, view: View)
    requires DistinctIds(m) && v !in m && view.id !in IdsOf(m)
    ensures DistinctIds(m[v := view])
    ensures IdsOf(m[v := view]) == IdsOf(m) + {view.id}
  {
    var m' := m[v := view];
    forall id | id in IdsOf(m') ensures id in IdsOf(m) + {view.id} {
      var k :| k in m' && m'[k].id == id;
    }
    forall id | id in IdsOf(m) ensures id in IdsOf(m') {
      var k :| k in m && m[k].id == id;
      assert m'[k] == m[k];
    }
    assert m'[v].id in IdsOf(m');
  }

  lemma PopPlaceholderFacts(acc: Pool)
    requires DistinctViewIds(acc.placeholders)
    requires forall j :: 0 <= j < |acc.placeholders| ==> acc.placeholders[j].Placeholder?
    ensures var (view, rest) := PopPlaceholder(acc);
      && view.Placeholder?
      && rest.cells == acc.cells && rest.updated == acc.updated
      && DistinctViewIds(rest.placeholders)
      && (forall j :: 0 <= j < |rest.placeholders| ==> rest.placeholders[j].Placeholder?)
      && (|acc.placeholders| == 0 ==> view.id == acc.nextId && rest.nextId == acc.nextId + 1
                                      && ViewIds(rest.placeholders) == ViewIds(acc.placeholders))
      && (|acc.placeholders| > 0 ==> view.id in ViewIds(acc.placeholders) && rest.nextId == acc.nextId
                                     && ViewIds(rest.placeholders) == ViewIds(acc.placeholders) - {view.id})
  {
    var (view, rest) := PopPlaceholder(acc);
    if |acc.placeholders| > 0 {
      assert acc.placeholders == rest.placeholders + [view];
      ViewIdsAppend(rest.placeholders, view);
      assert view.id !in ViewIds(rest.placeholders);
    }
  }

  lemma PopCellFacts(acc: Pool)
    requires Distinct(acc.cells)
    ensures var (view, rest) := PopCell(acc);
      && view.Cell?
      && rest.placeholders == acc.placeholders && rest.updated == acc.updated
      && Distinct(rest.cells)
      && (|acc.cells| == 0 ==> view.id == acc.nextId && rest.nextId == acc.nextId + 1
                               && CellSet(rest.cells) == CellSet(acc.cells))
      && (|acc.cells| > 0 ==> view.id in CellSet(acc.cells) && rest.nextId == acc.nextId
                              && CellSet(rest.cells) == CellSet(acc.cells) - {view.id})
  {
    var (view, rest) := PopCell(acc);
    if |acc.cells| > 0 {
      assert acc.cells == rest.cells + [view.id];
      assert view.id !in rest.cells;
    }
  }

  lemma StepKeep(s: State, i: nat, acc: Pool)
    requires StepReady(s, i, acc)
    requires s.pages[i] in s.views && !(s.views[s.pages[i]].Cell? && !IsViewVisible(s, s.pages[i]))
    ensures PoolInv(s, i + 1, Step(s, acc, s.pages[i]))
  {
    var v := s.pages[i];
    var x := s.views[v].id;
    PendingSplit(s, i);
    AddSlot(acc.updated, v, s.views[v]);
    LedgerKeep(IdsOf(acc.updated), CellSet(acc.cells), ViewIds(acc.placeholders), PendingIds(s, i),
               acc.nextId, IdsOf(s.views), s.nextId, x);
  }

  lemma StepDemote(s: State, i: nat, acc: Pool)
    requires StepReady(s, i, acc)
    requires s.pages[i] in s.views && s.views[s.pages[i]].Cell? && !IsViewVisible(s, s.pages[i])
    ensures PoolInv(s, i + 1, Step(s, acc, s.pages[i]))
  {
    var v := s.pages[i];
    var x := s.views[v].id;
    PendingSplit(s, i);
    PopPlaceholderFacts(acc);
    var (view, rest) := PopPlaceholder(acc);
    var isNew := |acc.placeholders| == 0;
    LedgerDemote(IdsOf(acc.updated), CellSet(acc.cells), ViewIds(acc.placeholders), PendingIds(s, i),
                 acc.nextId, IdsOf(s.views), s.nextId, x, view.id, isNew);
    AddSlot(acc.updated, v, view);
    assert CellSet(acc.cells + [x]) == CellSet(acc.cells) + {x};
    assert x !in acc.cells;
  }

  lemma StepNew(s: State, i: nat, acc: Pool)
    requires StepReady(s, i, acc)
    requires s.pages[i] !in s.views
    ensures PoolInv(s, i + 1, Step(s, acc, s.pages[i]))
  {
    var v := s.pages[i];
    PendingSplit(s, i);
    if IsViewVisible(s, v) {
      PopCellFacts(acc);
      var (view, rest) := PopCell(acc);
      LedgerTake(IdsOf(acc.updated), CellSet(acc.cells), ViewIds(acc.placeholders), PendingIds(s, i),
                 acc.nextId, IdsOf(s.views), s.nextId, view.id, |acc.cells| == 0, true);
      AddSlot(acc.updated, v, view);
    } else {
      PopPlaceholderFacts(acc);
      var (view, rest) := PopPlaceholder(acc);
      LedgerTake(IdsOf(acc.updated), CellSet(acc.cells), ViewIds(acc.placeholders), PendingIds(s, i),
                 acc.nextId, IdsOf(s.views), s.nextId, view.id, |acc.placeholders| == 0, false);
      AddSlot(acc.updated, v, view);
    }
  }

  lemma ReadyStep(s: State, i: nat, acc: Pool)
    requires Distinct(s.pages) && WellFormedViews(s.views, s.nextId)
    requires i < |s.pages|
    requires PoolInv(s, i, acc)
    ensures StepReady(s, i, acc)
  {
    var v := s.pages[i];
    assert s.pages[..i + 1] == s.pages[..i] + [v];
    assert v !in acc.updated by {
      forall j | 0 <= j < i ensures s.pages[j] != v {
        assert s.pages[j] != s.pages[i];
      }
    }
  }

  lemma StepPreservesPool(s: State, i: nat, acc: Pool)
    requires Distinct(s.pages) && WellFormedViews(s.views, s.nextId)
    requires i < |s.pages|
    requires PoolInv(s, i, acc)
    ensures PoolInv(s, i + 1, Step(s, acc, s.pages[i]))
  {
    var v := s.pages[i];
    ReadyStep(s, i, acc);
    if v !in s.views {
      StepNew(s, i, acc);
    } else if s.views[v].Cell? && !IsViewVisible(s, v) {
      StepDemote(s, i, acc);
    } else {
      StepKeep(s, i, acc);
    }
  }

  lemma {:induction false} WalkPreservesPool(s: State, i: nat, acc: Pool)
    requires Distinct(s.pages) && WellFormedViews(s.views, s.nextId)
    requires PoolInv(s, i, acc)
    ensures PoolInv(s, |s.pages|, Walk(s, i, acc))
    decreases |s.pages| - i
  {
    if i < |s.pages| {
      StepPreservesPool(s, i, acc);
      WalkPreservesPool(s, i + 1, Step(s, acc, s.pages[i]));
    }
  }

  // Reuse before construction

  /** Objects of one kind (cells when `cells`, placeholders otherwise) owned by pages that left the window. */
  function PooledIds(s: State, cells: bool): set<nat> {
    set k | k in s.views && k !in s.pages && s.views[k].Cell? == cells :: s.views[k].id
  }

  /** Some slot of `m` holds an object of the given kind that is not older than `supply`. */
  predicate MadeNew(m: map<int, View>, supply: nat, cells: bool) {
    exists v :: v in m && m[v].Cell? == cells && supply <= m[v].id
  }

  function PoolIds(acc: Pool, cells: bool): set<nat> {
    if cells then CellSet(acc.cells) else ViewIds(acc.placeholders)
  }

  /**
   * Reuse bookkeeping for one kind of object: the pool holds only old objects,
   * every reclaimed object is either placed or still pooled, and once an object
   * of that kind has been made new, every reclaimed one has been placed.
   */
  ghost predicate ReuseInv(s: State, acc: Pool, cells: bool) {
    && (forall id :: id in PoolIds(acc, cells) ==> id < s.nextId)
    && (forall id :: id in PooledIds(s, cells) ==> id in IdsOf(acc.updated) || id in PoolIds(acc, cells))
    && (MadeNew(acc.updated, s.nextId, cells) ==> PooledIds(s, cells) <= IdsOf(acc.updated))
  }

  /** Filling a free slot adds exactly its object, and makes nothing new but it. */
  lemma SlotIds(m: map<int, View>, v: int, view: View, supply: nat, cells: bool)
    requires v !in m
    ensures IdsOf(m[v := view]) == IdsOf(m) + {view.id}
    ensures MadeNew(m[v := view], supply, cells) ==>
      MadeNew(m, supply, cells) || (view.Cell? == cells && supply <= view.id)
  {
    var m' := m[v := view];
    forall id | id in IdsOf(m') ensures id in IdsOf(m) + {view.id} {
      var k :| k in m' && m'[k].id == id;
    }
    forall id | id in IdsOf(m) ensures id in IdsOf(m') {
      var k :| k in m && m[k].id == id;
      assert m'[k] == m[k];
    }
    assert m'[v].id in IdsOf(m');
    if MadeNew(m', supply, cells) {
      var k :| k in m' && m'[k].Cell? == cells && supply <= m'[k].id;
      if k != v {
        assert m[k] == m'[k];
      }
    }
  }

  /** Every reclaimed cell lands among the accepted values, every reclaimed placeholder among the rejected. */
  lemma {:induction false} SplitCovers(xs: seq<View>)
    ensures forall j :: 0 <= j < |xs| && xs[j].Cell? ==> xs[j].id in Accepted(xs, AsCell)
    ensures forall j :: 0 <= j < |xs| && xs[j].Placeholder? ==> xs[j].id in ViewIds(Rejected(xs, AsCell))
    decreases |xs|
  {
    if |xs| > 0 {
      var init := xs[..|xs| - 1];
      var last := xs[|xs| - 1];
      SplitCovers(init);
      assert xs[..|xs| - 1] == init;
      if last.Cell? {
        assert Rejected(xs, AsCell) == Rejected(init, AsCell);
      } else {
        assert Rejected(xs, AsCell) == Rejected(init, AsCell) + [last];
        ViewIdsAppend(Rejected(init, AsCell), last);
      }
      forall j | 0 <= j < |xs| - 1
        ensures xs[j].Cell? ==> xs[j].id in Accepted(xs, AsCell)
        ensures xs[j].Placeholder? ==> xs[j].id in ViewIds(Rejected(xs, AsCell))
      {
        assert xs[j] == init[j];
      }
    }
  }

  lemma InitialReuse(s: State, cells: bool)
    requires Distinct(s.pages) && WellFormedViews(s.views, s.nextId)
    ensures ReuseInv(s, InitialPool(s), cells)
  {
    InitialPoolInv(s);
    var keys := DroppedKeys(s.views, s.pages);
    var dropped := Dropped(s);
    SplitCovers(dropped);
    forall id | id in PooledIds(s, cells) ensures id in PoolIds(InitialPool(s), cells) {
      var k :| k in s.views && k !in s.pages && s.views[k].Cell? == cells && s.views[k].id == id;
      assert k in keys;
      var j :| 0 <= j < |keys| && keys[j] == k;
      assert dropped[j] == s.views[k];
    }
  }

  lemma ReuseKeep(s: State, i: nat, acc: Pool, cells: bool)
    requires StepReady(s, i, acc) && ReuseInv(s, acc, cells)
    requires s.pages[i] in s.views && !(s.views[s.pages[i]].Cell? && !IsViewVisible(s, s.pages[i]))
    ensures ReuseInv(s, Step(s, acc, s.pages[i]), cells)
  {
    var v := s.pages[i];
    SlotIds(acc.updated, v, s.views[v], s.nextId, cells);
    var next := Step(s, acc, v);
    assert next.cells == acc.cells && next.placeholders == acc.placeholders;
    assert PoolIds(next, cells) == PoolIds(acc, cells);
  }

  lemma ReuseDemote(s: State, i: nat, acc: Pool, cells: bool)
    requires StepReady(s, i, acc) && ReuseInv(s, acc, cells)
    requires s.pages[i] in s.views && s.views[s.pages[i]].Cell? && !IsViewVisible(s, s.pages[i])
    ensures ReuseInv(s, Step(s, acc, s.pages[i]), cells)
  {
    var v := s.pages[i];
    var x := s.views[v].id;
    PopPlaceholderFacts(acc);
    var (view, rest) := PopPlaceholder(acc);
    var next := Step(s, acc, v);
    assert next == rest.(updated := acc.updated[v := view], cells := acc.cells + [x]);
    assert x < s.nextId;
    SlotIds(acc.updated, v, view, s.nextId, cells);
    if cells {
      assert PoolIds(next, cells) == PoolIds(acc, cells) + {x} by {
        assert CellSet(next.cells) == CellSet(acc.cells) + {x};
      }
    } else {
      assert PoolIds(next, cells) <= PoolIds(acc, cells) by {
        assert next.placeholders == rest.placeholders;
      }
    }
  }

  lemma ReuseNew(s: State, i: nat, acc: Pool, cells: bool)
    requires StepReady(s, i, acc) && ReuseInv(s, acc, cells)
    requires s.pages[i] !in s.views
    ensures ReuseInv(s, Step(s, acc, s.pages[i]), cells)
  {
    var v := s.pages[i];
    var next := Step(s, acc, v);
    if IsViewVisible(s, v) {
      PopCellFacts(acc);
      var (view, rest) := PopCell(acc);
      SlotIds(acc.updated, v, view, s.nextId, cells);
      assert next.cells == rest.cells && next.placeholders == acc.placeholders;
    } else {
      PopPlaceholderFacts(acc);
      var (view, rest) := PopPlaceholder(acc);
      SlotIds(acc.updated, v, view, s.nextId, cells);
      assert next.cells == acc.cells && next.placeholders == rest.placeholders;
    }
    assert PoolIds(next, cells) <= PoolIds(acc, cells);
  }

  lemma StepReuse(s: State, i: nat, acc: Pool, cells: bool)
    requires StepReady(s, i, acc) && ReuseInv(s, acc, cells)
    ensures ReuseInv(s, Step(s, acc, s.pages[i]), cells)
  {
    var v := s.pages[i];
    if v !in s.views {
      ReuseNew(s, i, acc, cells);
    } else if s.views[v].Cell? && !IsViewVisible(s, v) {
      ReuseDemote(s, i, acc, cells);
    } else {
      ReuseKeep(s, i, acc, cells);
    }
  }

  lemma {:induction false} WalkReuse(s: State, i: nat, acc: Pool, cells: bool)
    requires Distinct(s.pages) && WellFormedViews(s.views, s.nextId)
    requires PoolInv(s, i, acc) && ReuseInv(s, acc, cells)
    ensures ReuseInv(s, Walk(s, i, acc), cells)
    decreases |s.pages| - i
  {
    if i < |s.pages| {
      ReadyStep(s, i, acc);
      StepPreservesPool(s, i, acc);
      StepReuse(s, i, acc, cells);
      WalkReuse(s, i + 1, Step(s, acc, s.pages[i]), cells);
    }
  }

  /** Every cell the split accepts and every view it rejects comes from the input. */
  lemma {:induction false} SplitFrom(xs: seq<View>)
    ensures forall c :: c in Accepted(xs, AsCell) ==> Cell(c) in xs
    ensures forall x :: x in Rejected(xs, AsCell) ==> x in xs
    decreases |xs|
  {
    if |xs| > 0 {
      var init := xs[..|xs| - 1];
      var last := xs[|xs| - 1];
      SplitFrom(init);
      assert xs == init + [last];
      if last.Cell? {
        assert Accepted(xs, AsCell) == Accepted(init, AsCell) + [last.id];
        assert Rejected(xs, AsCell) == Rejected(init, AsCell);
      } else {
        assert Accepted(xs, AsCell) == Accepted(init, AsCell);
        assert Rejected(xs, AsCell) == Rejected(init, AsCell) + [last];
      }
    }
  }

  // Objects keep their kind

  /** The identities of the old objects of one kind (cells when `cells`). */
  function OldIds(s: State, cells: bool): set<nat> {
    set k | k in s.views && s.views[k].Cell? == cells :: s.views[k].id
  }

  /**
   * Every pooled object is an old object of the pool's kind, and every placed
   * object is an old object of its own kind or a new one.
   */
  ghost predicate KindInv(s: State, acc: Pool) {
    && (forall c :: c in acc.cells ==> c in OldIds(s, true))
    && (forall j :: 0 <= j < |acc.placeholders| ==> acc.placeholders[j].id in OldIds(s, false))
    && (forall v :: v in acc.updated ==>
          acc.updated[v].id in OldIds(s, acc.updated[v].Cell?) || s.nextId <= acc.updated[v].id)
  }

  lemma InitialKinds(s: State)
    requires Distinct(s.pages) && WellFormedViews(s.views, s.nextId)
    ensures KindInv(s, InitialPool(s))
  {
    InitialPoolInv(s);
    var keys := DroppedKeys(s.views, s.pages);
    var dropped := Dropped(s);
    SplitFrom(dropped);
    forall x | x in dropped ensures x.id in OldIds(s, x.Cell?) {
      var j :| 0 <= j < |dropped| && dropped[j] == x;
      assert keys[j] in keys;
    }
    var pool := InitialPool(s);
    forall j | 0 <= j < |pool.placeholders| ensures pool.placeholders[j].id in OldIds(s, false) {
      assert pool.placeholders[j] in Rejected(dropped, AsCell);
    }
  }

  lemma PopCellKind(s: State, acc: Pool)
    requires KindInv(s, acc) && s.nextId <= acc.nextId
    ensures var (view, rest) := PopCell(acc);
      && (view.id in OldIds(s, view.Cell?) || s.nextId <= view.id)
      && (forall c :: c in rest.cells ==> c in OldIds(s, true))
  {
    var (view, rest) := PopCell(acc);
    if |acc.cells| > 0 {
      assert acc.cells[|acc.cells| - 1] in acc.cells;
      forall c | c in rest.cells ensures c in OldIds(s, true) {
        var k :| 0 <= k < |rest.cells| && rest.cells[k] == c;
        assert acc.cells[k] == c;
      }
    }
  }

  lemma PopPlaceholderKind(s: State, acc: Pool)
    requires KindInv(s, acc) && s.nextId <= acc.nextId
    requires forall j :: 0 <= j < |acc.placeholders| ==> acc.placeholders[j].Placeholder?
    ensures var (view, rest) := PopPlaceholder(acc);
      && (view.id in OldIds(s, view.Cell?) || s.nextId <= view.id)
      && (forall j :: 0 <= j < |rest.placeholders| ==> rest.placeholders[j].id in OldIds(s, false))
  {
    var (view, rest) := PopPlaceholder(acc);
    if |acc.placeholders| > 0 {
      forall j | 0 <= j < |rest.placeholders| ensures rest.placeholders[j].id in OldIds(s, false) {
        assert rest.placeholders[j] == acc.placeholders[j];
      }
    }
  }

  lemma StepKinds(s: State, i: nat, acc: Pool)
    requires StepReady(s, i, acc) && KindInv(s, acc)
    ensures KindInv(s, Step(s, acc, s.pages[i]))
  {
    var v := s.pages[i];
    var next := Step(s, acc, v);
    if v in s.views && s.views[v].Cell? && !IsViewVisible(s, v) {
      PopPlaceholderKind(s, acc);
      var (view, rest) := PopPlaceholder(acc);
      var x := s.views[v].id;
      assert next == rest.(updated := acc.updated[v := view], cells := acc.cells + [x]);
      assert x in OldIds(s, true);
      forall c | c in next.cells ensures c in OldIds(s, true) {
        if c != x {
          assert c in acc.cells;
        }
      }
    } else if v in s.views {
      assert next == acc.(updated := acc.updated[v := s.views[v]]);
      assert s.views[v].id in OldIds(s, s.views[v].Cell?);
    } else if IsViewVisible(s, v) {
      PopCellKind(s, acc);
      var (view, rest) := PopCell(acc);
      assert next == rest.(updated := acc.updated[v := view]);
    } else {
      PopPlaceholderKind(s, acc);
      var (view, rest) := PopPlaceholder(acc);
      assert next == rest.(updated := acc.updated[v := view]);
    }
  }

  lemma {:induction false} WalkKinds(s: State, i: nat, acc: Pool)
    requires Distinct(s.pages) && WellFormedViews(s.views, s.nextId)
    requires PoolInv(s, i, acc) && KindInv(s, acc)
    ensures KindInv(s, Walk(s, i, acc))
    decreases |s.pages| - i
  {
    if i < |s.pages| {
      ReadyStep(s, i, acc);
      StepPreservesPool(s, i, acc);
      StepKinds(s, i, acc);
      WalkKinds(s, i + 1, Step(s, acc, s.pages[i]));
    }
  }

  /** A map whose objects are old objects of their kind, or new ones, gives every old object back as itself. */
  lemma OldObjectsKeepKind(s: State, m: map<int, View>)
    requires WellFormedViews(s.views, s.nextId)
    requires forall v :: v in m ==> m[v].id in OldIds(s, m[v].Cell?) || s.nextId <= m[v].id
    ensures forall v, k :: v in m && k in s.views && m[v].id == s.views[k].id ==> m[v] == s.views[k]
  {
    forall v, k | v in m && k in s.views && m[v].id == s.views[k].id
      ensures m[v] == s.views[k]
    {
      var x := m[v];
      assert x.id in OldIds(s, x.Cell?);
      var k' :| k' in s.views && s.views[k'].Cell? == x.Cell? && s.views[k'].id == x.id;
      assert k' == k;
    }
  }

  // Demoted cells are reused too

  /** `updateViews` demotes the view of `v`: a cell that is no longer visible. */
  predicate Demotes(s: State, v: int) {
    v in s.views && s.views[v].Cell? && !IsViewVisible(s, v)
  }

  /** The cells that the slots before slot `i` demote. */
  function DemotedBefore(s: State, i: nat): set<nat>
    requires i <= |s.pages|
  {
    set j | 0 <= j < i && Demotes(s, s.pages[j]) :: s.views[s.pages[j]].id
  }

  /**
   * If slot `j` of the window holds a newly made cell, then every cell that was
   * reclaimed before slot `j` (from a page that left the window, or demoted at
   * an earlier slot) is in a slot of `m`.
   */
  ghost predicate ReusedBefore(s: State, m: map<int, View>, j: nat) {
    j < |s.pages| && s.pages[j] in m && m[s.pages[j]].Cell? && s.nextId <= m[s.pages[j]].id ==>
      PooledIds(s, true) + DemotedBefore(s, j) <= IdsOf(m)
  }

  /**
   * The cell pool holds old objects; every cell reclaimed so far is placed or
   * pooled; and every slot visited so far satisfies `ReusedBefore`.
   */
  ghost predicate OrderInv(s: State, i: nat, acc: Pool) {
    && i <= |s.pages|
    && (forall c :: c in CellSet(acc.cells) ==> c < s.nextId)
    && (forall id :: id in PooledIds(s, true) + DemotedBefore(s, i) ==>
          id in IdsOf(acc.updated) || id in CellSet(acc.cells))
    && (forall j :: 0 <= j < i ==> ReusedBefore(s, acc.updated, j))
  }

  lemma DemotedStep(s: State, i: nat)
    requires i < |s.pages|
    ensures Demotes(s, s.pages[i]) ==> DemotedBefore(s, i + 1) == DemotedBefore(s, i) + {s.views[s.pages[i]].id}
    ensures !Demotes(s, s.pages[i]) ==> DemotedBefore(s, i + 1) == DemotedBefore(s, i)
  {
  }

  lemma InitialOrder(s: State)
    requires Distinct(s.pages) && WellFormedViews(s.views, s.nextId)
    ensures OrderInv(s, 0, InitialPool(s))
  {
    InitialReuse(s, true);
    assert PoolIds(InitialPool(s), true) == CellSet(InitialPool(s).cells);
    assert DemotedBefore(s, 0) == {};
  }

  /** Filling slot `i` leaves the earlier slots' guarantees in place. */
  lemma EarlierSlotsKept(s: State, i: nat, acc: Pool, view: View, m: map<int, View>)
    requires StepReady(s, i, acc) && m == acc.updated[s.pages[i] := view]
    requires forall j :: 0 <= j < i ==> ReusedBefore(s, acc.updated, j)
    ensures forall j :: 0 <= j < i ==> ReusedBefore(s, m, j)
  {
    SlotIds(acc.updated, s.pages[i], view, s.nextId, true);
    forall j | 0 <= j < i ensures ReusedBefore(s, m, j) {
      assert s.pages[..i][j] == s.pages[j];
      assert s.pages[j] in acc.updated;
      assert m[s.pages[j]] == acc.updated[s.pages[j]];
      assert ReusedBefore(s, acc.updated, j);
    }
  }

  lemma OrderKeep(s: State, i: nat, acc: Pool)
    requires StepReady(s, i, acc) && OrderInv(s, i, acc)
    requires s.pages[i] in s.views && !Demotes(s, s.pages[i])
    ensures OrderInv(s, i + 1, Step(s, acc, s.pages[i]))
  {
    var v := s.pages[i];
    var next := Step(s, acc, v);
    assert next == acc.(updated := acc.updated[v := s.views[v]]);
    DemotedStep(s, i);
    SlotIds(acc.updated, v, s.views[v], s.nextId, true);
    EarlierSlotsKept(s, i, acc, s.views[v], next.updated);
    assert ReusedBefore(s, next.updated, i);
  }

  lemma OrderDemote(s: State, i: nat, acc: Pool)
    requires StepReady(s, i, acc) && OrderInv(s, i, acc)
    requires Demotes(s, s.pages[i])
    ensures OrderInv(s, i + 1, Step(s, acc, s.pages[i]))
  {
    var v := s.pages[i];
    var x := s.views[v].id;
    PopPlaceholderFacts(acc);
    var (view, rest) := PopPlaceholder(acc);
    var next := Step(s, acc, v);
    assert next == rest.(updated := acc.updated[v := view], cells := acc.cells + [x]);
    assert CellSet(next.cells) == CellSet(acc.cells) + {x};
    assert x < s.nextId;
    DemotedStep(s, i);
    SlotIds(acc.updated, v, view, s.nextId, true);
    EarlierSlotsKept(s, i, acc, view, next.updated);
    assert ReusedBefore(s, next.updated, i);
  }

  lemma OrderNewCell(s: State, i: nat, acc: Pool)
    requires StepReady(s, i, acc) && OrderInv(s, i, acc)
    requires s.pages[i] !in s.views && IsViewVisible(s, s.pages[i])
    ensures OrderInv(s, i + 1, Step(s, acc, s.pages[i]))
  {
    var v := s.pages[i];
    var next := Step(s, acc, v);
    DemotedStep(s, i);
    PopCellFacts(acc);
    var (view, rest) := PopCell(acc);
    assert next == rest.(updated := acc.updated[v := view]);
    SlotIds(acc.updated, v, view, s.nextId, true);
    EarlierSlotsKept(s, i, acc, view, next.updated);
    if |acc.cells| == 0 {
      assert CellSet(acc.cells) == {};
      assert s.nextId <= acc.nextId;
    }
    assert ReusedBefore(s, next.updated, i);
  }

  lemma OrderNewPlaceholder(s: State, i: nat, acc: Pool)
    requires StepReady(s, i, acc) && OrderInv(s, i, acc)
    requires s.pages[i] !in s.views && !IsViewVisible(s, s.pages[i])
    ensures OrderInv(s, i + 1, Step(s, acc, s.pages[i]))
  {
    var v := s.pages[i];
    var next := Step(s, acc, v);
    DemotedStep(s, i);
    PopPlaceholderFacts(acc);
    var (view, rest) := PopPlaceholder(acc);
    assert next == rest.(updated := acc.updated[v := view]);
    SlotIds(acc.updated, v, view, s.nextId, true);
    EarlierSlotsKept(s, i, acc, view, next.updated);
    assert ReusedBefore(s, next.updated, i);
  }

  lemma {:induction false} WalkOrder(s: State, i: nat, acc: Pool)
    requires Distinct(s.pages) && WellFormedViews(s.views, s.nextId)
    requires PoolInv(s, i, acc) && OrderInv(s, i, acc)
    ensures OrderInv(s, |s.pages|, Walk(s, i, acc))
    decreases |s.pages| - i
  {
    if i < |s.pages| {
      var v := s.pages[i];
      ReadyStep(s, i, acc);
      StepPreservesPool(s, i, acc);
      if v !in s.views && IsViewVisible(s, v) {
        OrderNewCell(s, i, acc);
      } else if v !in s.views {
        OrderNewPlaceholder(s, i, acc);
      } else if Demotes(s, v) {
        OrderDemote(s, i, acc);
      } else {
        OrderKeep(s, i, acc);
      }
      WalkOrder(s, i + 1, Step(s, acc, v));
    }
  }

  /**
   * `updateViews`: one slot per page of the window. A kept cell that scrolled
   * out of sight is demoted to a placeholder, every other kept view stays the
   * same object, and a page new to the window gets a cell exactly when it is
   * visible. Reclaimed objects are reused before new ones are made, and the
   * pools' leftovers are discarded: no object ends up in two slots.
   */
  function UpdateViews(s: State): (r: State)
    requires Distinct(s.pages)
    requires WellFormedViews(s.views, s.nextId)
    ensures r == s.(views := r.views, nextId := r.nextId)
    ensures forall v :: v in r.views <==> v in s.pages
    ensures WellFormedViews(r.views, r.nextId) && s.nextId <= r.nextId
    ensures forall v :: v in s.pages && v in s.views && s.views[v].Cell? && !IsViewVisible(s, v) ==>
      r.views[v].Placeholder?
    ensures forall v :: v in s.pages && v in s.views && (s.views[v].Placeholder? || IsViewVisible(s, v)) ==>
      r.views[v] == s.views[v]
    ensures forall v :: v in s.pages && v !in s.views ==> (r.views[v].Cell? <==> IsViewVisible(s, v))
    ensures forall v :: v in r.views ==> r.views[v].id in IdsOf(s.views) || s.nextId <= r.views[v].id
    ensures forall v, k :: v in r.views && k in s.views && r.views[v].id == s.views[k].id ==> r.views[v] == s.views[k]
  {
    InitialPoolInv(s);
    WalkPreservesPool(s, 0, InitialPool(s));
    InitialKinds(s);
    WalkKinds(s, 0, InitialPool(s));
    OldObjectsKeepKind(s, Walk(s, 0, InitialPool(s)).updated);
    var pool := Walk(s, 0, InitialPool(s));
    assert s.pages[..|s.pages|] == s.pages;
    assert forall v :: v in pool.updated ==> pool.updated[v].id in IdsOf(pool.updated);
    s.(views := pool.updated, nextId := pool.nextId)
  }

  /**
   * `updateViews` reuses before it constructs. If it made a new placeholder,
   * every placeholder of a page that left the window was placed again. If it
   * made a new cell, every such cell was placed again; and a new cell at slot
   * `j` also means every cell demoted at an earlier slot was placed again,
   * because demoted cells join the same pool and are taken last-in first-out.
   */
  lemma UpdateViewsReuses(s: State)
    requires Distinct(s.pages)
    requires WellFormedViews(s.views, s.nextId)
    ensures MadeNew(UpdateViews(s).views, s.nextId, true) ==> PooledIds(s, true) <= IdsOf(UpdateViews(s).views)
    ensures MadeNew(UpdateViews(s).views, s.nextId, false) ==> PooledIds(s, false) <= IdsOf(UpdateViews(s).views)
    ensures forall j :: 0 <= j < |s.pages| ==> ReusedBefore(s, UpdateViews(s).views, j)
  {
    InitialPoolInv(s);
    InitialReuse(s, true);
    InitialReuse(s, false);
    WalkReuse(s, 0, InitialPool(s), true);
    WalkReuse(s, 0, InitialPool(s), false);
    InitialOrder(s);
    WalkOrder(s, 0, InitialPool(s));
  }

  // ---------------------------------------------------------------------
  // `checkVisible`

  /** One iteration of `checkVisible`'s loop: a visible page's placeholder is replaced by a new cell. */
  function Promote(s: State, v: int): State {
    if IsViewVisible(s, v) && v in s.views && !s.views[v].Cell? then
      s.(views := s.views[v := Cell(s.nextId)], nextId := s.nextId + 1)
    else s
  }

  /** The loop of `checkVisible` from slot `i` on. */
  function PromoteFrom(s: State, i: nat): State
    requires i <= |s.pages|
    decreases |s.pages| - i
  {
    if i == |s.pages| then s else PromoteFrom(Promote(s, s.pages[i]), i + 1)
  }

  /** What the remaining loop guarantees, measured against the state it starts from. */
  ghost predicate PromotedFrom(s: State, i: nat, r: State)
    requires i <= |s.pages|
  {
    && r == s.(views := r.views, nextId := r.nextId)
    && (forall v :: v in r.views <==> v in s.views)
    && s.nextId <= r.nextId
    && (WellFormedViews(s.views, s.nextId) ==> WellFormedViews(r.views, r.nextId))
    && (forall v :: v in s.pages[i..] && v in s.views && IsViewVisible(s, v) ==> r.views[v].Cell?)
    && (forall v :: v in s.views && r.views[v] != s.views[v] ==>
          IsViewVisible(s, v) && s.views[v].Placeholder? && r.views[v].Cell? && s.nextId <= r.views[v].id)
  }

  lemma PromoteStep(s: State, v: int)
    ensures PromotedFrom(s, |s.pages|, Promote(s, v))
    ensures v in s.views && IsViewVisible(s, v) ==> Promote(s, v).views[v].Cell?
  {
  }

  lemma {:induction false} PromoteFromCorrect(s: State, i: nat)
    requires i <= |s.pages|
    ensures PromotedFrom(s, i, PromoteFrom(s, i))
    decreases |s.pages| - i
  {
    if i < |s.pages| {
      var v := s.pages[i];
      var t := Promote(s, v);
      PromoteStep(s, v);
      VisibilityIgnoresViews(s, t);
      PromoteFromCorrect(t, i + 1);
      assert s.pages[i..] == [v] + s.pages[i + 1..];
      var r := PromoteFrom(t, i + 1);
      assert r == PromoteFrom(s, i);
      forall u | u in s.views && r.views[u] != s.views[u]
        ensures IsViewVisible(s, u) && s.views[u].Placeholder? && r.views[u].Cell? && s.nextId <= r.views[u].id
      {
        if t.views[u] == s.views[u] {
        } else {
          assert r.views[u] == t.views[u];
        }
      }
    } else {
      assert PromoteFrom(s, i) == s;
    }
  }

  /**
   * `checkVisible`: afterwards every visible page of the window shows a cell;
   * the only changes are placeholders of visible pages replaced by new cells.
   */
  function CheckVisible(s: State): (r: State)
    ensures r == s.(views := r.views, nextId := r.nextId)
    ensures forall v :: v in r.views <==> v in s.views
    ensures WellFormedViews(s.views, s.nextId) ==> WellFormedViews(r.views, r.nextId)
    ensures forall v :: v in s.pages && v in s.views && IsViewVisible(s, v) ==> r.views[v].Cell?
    ensures forall v :: v in s.views && r.views[v] != s.views[v] ==>
      IsViewVisible(s, v) && s.views[v].Placeholder? && r.views[v].Cell? && s.nextId <= r.views[v].id
  {
    assert s.pages[0..] == s.pages;
    PromoteFromCorrect(s, 0);
    PromoteFrom(s, 0)
  }

  // ---------------------------------------------------------------------
  // The object invariant and the initial state

  /**
   * What holds of the view between calls: the window has `2b+1` increasing
   * pages with the centre page in the middle slot, it is the window for the
   * pending target while one is set, and exactly the pages of the window own
   * a view, no object twice.
   */
  ghost predicate Valid(s: State) {
    && |s.pages| == 2 * BufferSize + 1
    && StrictlyIncreasing(s.pages)
    && s.pages[BufferSize] == s.centerPage
    && (s.nextValue.Some? ==> s.pages == Window(s.centerPage, s.nextValue, BufferSize))
    && (forall v :: v in s.views <==> v in s.pages)
    && WellFormedViews(s.views, s.nextId)
  }

  /**
   * `init(selected:configureCell:)`: the frame starts empty, so the width is
   * zero and only the selected page gets a cell.
   */
  function Init(selected: int): (r: State)
    ensures Valid(r)
    ensures r.selected == selected && r.centerPage == selected && r.nextValue == None
    ensures r.pages == Span(selected - BufferSize, 2 * BufferSize + 1)
    ensures r.contentOffset == 0 && r.width == 0
    ensures forall v :: v in r.views ==> (r.views[v].Cell? <==> v == selected)
  {
    var s := State([], selected, selected, None, 0, 0, false, map[], 0);
    var t := UpdateViews(UpdatePages(s));
    t.(contentOffset := OffsetFor(t, selected))
  }

  // ---------------------------------------------------------------------
  // Selection

  /** The viewport is less than one page away from the selected page's slot. */
  predicate NearSelected(s: State) {
    OffsetFor(s, s.selected) - s.width < s.contentOffset < OffsetFor(s, s.selected) + s.width
  }

  /** The slot under the viewport, `Int(round(contentOffset / width))`. */
  function RoundedSlot(s: State): int
    requires s.width > 0
  {
    RoundDiv(s.contentOffset, s.width)
  }

  /**
   * `updateSelection(force:)`: with a positive width, and when forced or once
   * the viewport is a full page away from the selected page, the page in the
   * rounded slot becomes selected, unless that slot is outside the window or a
   * different page is the pending target. A commit clears the target.
   */
  function UpdateSelection(s: State, force: bool): (r: State)
    ensures r == s.(selected := r.selected, nextValue := r.nextValue)
    ensures s.width <= 0 ==> r == s
    ensures !force && NearSelected(s) ==> r == s
    ensures r != s ==>
      && s.width > 0
      && 0 <= RoundedSlot(s) < |s.pages|
      && r.selected == s.pages[RoundedSlot(s)]
      && r.nextValue == None
      && (s.nextValue == None || s.nextValue == Some(r.selected))
    ensures s.width > 0 && (force || !NearSelected(s)) && 0 <= RoundedSlot(s) < |s.pages|
            && (s.nextValue == None || s.nextValue == Some(s.pages[RoundedSlot(s)])) ==>
      r.selected == s.pages[RoundedSlot(s)] && r.nextValue == None
  {
    if s.width <= 0 then s
    else if !(force || !NearSelected(s)) then s
    else
      var index := RoundedSlot(s);
      if 0 <= index < |s.pages| && (s.nextValue == None || s.nextValue == Some(s.pages[index])) then
        s.(nextValue := None, selected := s.pages[index])
      else s
  }

  /**
   * A committed page is part of the window and the viewport is within half a
   * page of it.
   */
  lemma CommitIsNearViewport(s: State, force: bool)
    requires StrictlyIncreasing(s.pages)
    requires UpdateSelection(s, force) != s
    ensures var r := UpdateSelection(s, force);
      r.selected in r.pages && 2 * Abs(r.contentOffset - OffsetFor(r, r.selected)) <= r.width
  {
    var r := UpdateSelection(s, force);
    var index := RoundedSlot(s);
    PositionInIncreasing(s.pages, index);
  }

  /** The scroll view's `ensurePaging`: snap the viewport onto the selected page when it is more than a point off. */
  function EnsurePaging(s: State): (r: State)
    ensures r == s.(contentOffset := r.contentOffset)
    ensures Abs(r.contentOffset - OffsetFor(r, r.selected)) <= 1
    ensures Abs(s.contentOffset - OffsetFor(s, s.selected)) <= 1 ==> r == s
    ensures Abs(s.contentOffset - OffsetFor(s, s.selected)) > 1 ==> r.contentOffset == OffsetFor(s, s.selected)
  {
    if Abs(s.contentOffset - OffsetFor(s, s.selected)) > 1 then
      s.(contentOffset := OffsetFor(s, s.selected))
    else s
  }

  lemma EnsurePagingIdempotent(s: State)
    ensures EnsurePaging(EnsurePaging(s)) == EnsurePaging(s)
  {
  }

  // ---------------------------------------------------------------------
  // Programmatic navigation

  /** `select(value:)` does something: `value` is not already the target and not the settled selection. */
  predicate StartsNavigation(s: State, v: int) {
    s.nextValue != Some(v) && (s.selected != v || s.nextValue.Some?)
  }

  /**
   * The state part of `select(value:)`: record the target and rebuild the
   * window and views around the centre and the target. The animation it then
   * starts is `FinishAnimation`.
   */
  function Select(s: State, v: int): (r: State)
    requires WellFormedViews(s.views, s.nextId)
    ensures !StartsNavigation(s, v) ==> r == s
    ensures StartsNavigation(s, v) ==>
      && r.nextValue == Some(v)
      && r.pages == Window(s.centerPage, Some(v), BufferSize)
      && v in r.pages && s.centerPage in r.pages
      && r.selected == s.selected && r.centerPage == s.centerPage
      && r.contentOffset == s.contentOffset && r.width == s.width && r.isDecelerating == s.isDecelerating
      && Valid(r)
  {
    if StartsNavigation(s, v) then
      UpdateViews(UpdatePages(s.(nextValue := Some(v))))
    else s
  }

  /** A second `select` of the same page does nothing. */
  lemma SelectIdempotent(s: State, v: int)
    requires WellFormedViews(s.views, s.nextId)
    ensures WellFormedViews(Select(s, v).views, Select(s, v).nextId)
    ensures Select(Select(s, v), v) == Select(s, v)
  {
  }

  // ---------------------------------------------------------------------
  // Recentering

  /**
   * `recenter(force:)` fires when, outside a deceleration, the centre page is
   * `BufferSize` or more pages from the selected one, or when forced and the
   * two differ.
   */
  predicate RecenterDue(s: State, force: bool) {
    || (!s.isDecelerating && Abs(OffsetFor(s, s.centerPage) - OffsetFor(s, s.selected)) >= BufferSize * s.width)
    || (force && s.centerPage != s.selected)
  }

  /**
   * `recenter(force:)`: re-anchor the window on the selected page, moving the
   * viewport by exactly the distance the selected page moved, so that the
   * content does not jump; the selected page lands in the middle slot.
   */
  function Recenter(s: State, force: bool): (r: State)
    requires WellFormedViews(s.views, s.nextId)
    ensures s.width <= 0 || !RecenterDue(s, force) ==> r == s
    ensures s.width > 0 && RecenterDue(s, force) ==>
      && r.centerPage == s.selected
      && r.pages == Window(s.selected, s.nextValue, BufferSize)
      && r.selected == s.selected && r.nextValue == s.nextValue
      && r.width == s.width && r.isDecelerating == s.isDecelerating
      && r.contentOffset - OffsetFor(r, r.selected) == s.contentOffset - OffsetFor(s, s.selected)
      && OffsetFor(r, r.selected) == BufferSize * s.width
      && Valid(r)
  {
    if s.width > 0 && RecenterDue(s, force) then
      var selectedOffset := OffsetFor(s, s.selected);
      var t := UpdatePages(s.(centerPage := s.selected));
      var newOffset := OffsetFor(t, s.selected);
      PositionInIncreasing(t.pages, BufferSize);
      UpdateViews(t.(contentOffset := s.contentOffset + (newOffset - selectedOffset)))
    else s
  }
}
