/**
 * Page values and their positions in a window. A window is a `seq<int>` of
 * page values; a page is drawn at `width * (its position in the window)`.
 */
module Pages {
  import opened Wrappers

  /** The `n` consecutive page values starting at `lo`, Swift's `Array(lo...lo.advanced(by: n - 1))`. */
  function Span(lo: int, n: nat): (r: seq<int>)
    ensures |r| == n
    ensures forall i :: 0 <= i < n ==> r[i] == lo + i
  {
    seq(n, i => lo + i)
  }

  /** `x` lies in a span exactly when it is between its ends. */
  lemma SpanMembers(lo: int, n: nat, x: int)
    ensures x in Span(lo, n) <==> lo <= x < lo + n
  {
    if lo <= x < lo + n {
      assert Span(lo, n)[x - lo] == x;
    }
  }

  predicate StrictlyIncreasing(s: seq<int>) {
    forall i, j :: 0 <= i < j < |s| ==> s[i] < s[j]
  }

  /** No value occurs twice. */
  predicate Distinct<T(==)>(s: seq<T>) {
    forall i, j :: 0 <= i < j < |s| ==> s[i] != s[j]
  }

  /** Swift's `firstIndex(of:)`. */
  function FirstIndex(s: seq<int>, v: int): (r: Option<nat>)
    ensures r.None? <==> v !in s
    ensures r.Some? ==> r.value < |s| && s[r.value] == v
    ensures r.Some? ==> forall j :: 0 <= j < r.value ==> s[j] != v
  {
    if |s| == 0 then None
    else if s[0] == v then Some(0)
    else match FirstIndex(s[1..], v)
      case None => None
      case Some(k) => Some(k + 1)
  }

  /** `firstIndex(of: v) ?? 0`: the slot of `v`, falling back to slot 0 when `v` is absent. */
  function Position(s: seq<int>, v: int): nat
  {
    match FirstIndex(s, v)
    case None => 0
    case Some(k) => k
  }

  /** `offset(for:)`: where page `v` is drawn, `width` times its slot, or 0 when `v` is not windowed. */
  function OffsetOf(pages: seq<int>, width: int, v: int): (r: int)
    ensures v !in pages ==> r == 0
    ensures forall i :: 0 <= i < |pages| && pages[i] == v && v !in pages[..i] ==> r == width * i
  {
    width * Position(pages, v)
  }

  /** In a strictly increasing window every page is found at its own slot. */
  lemma PositionInIncreasing(s: seq<int>, i: int)
    requires StrictlyIncreasing(s)
    requires 0 <= i < |s|
    ensures Position(s, s[i]) == i
  {
    var f := FirstIndex(s, s[i]);
    assert f.Some?;
  }

  /** `x` is the least element of `xs`. */
  predicate IsLeast(x: int, xs: set<int>) {
    x in xs && forall y :: y in xs ==> x <= y
  }

  lemma HasElement(xs: set<int>)
    ensures xs == {} || exists y :: y in xs
  {
    if forall y :: y !in xs {
      assert xs == {};
    }
  }

  lemma {:induction false} LeastExists(xs: set<int>)
    requires xs != {}
    ensures exists x :: IsLeast(x, xs)
    decreases |xs|
  {
    HasElement(xs);
    var y :| y in xs;
    var rest := xs - {y};
    if rest == {} {
      forall z | z in xs ensures y <= z {
        assert z !in rest;
      }
      assert IsLeast(y, xs);
    } else {
      LeastExists(rest);
      var z :| IsLeast(z, rest);
      var m := if y < z then y else z;
      forall u | u in xs ensures m <= u {
        if u != y {
          assert u in rest;
        }
      }
      assert IsLeast(m, xs);
    }
  }

  /** The elements of a finite set of pages, each once, in ascending order. */
  function Ascending(xs: set<int>): (r: seq<int>)
    ensures Distinct(r) && StrictlyIncreasing(r)
    ensures forall x :: x in r <==> x in xs
    decreases |xs|
  {
    if xs == {} then []
    else
      LeastExists(xs);
      var x :| IsLeast(x, xs);
      [x] + Ascending(xs - {x})
  }
}
