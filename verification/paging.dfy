/**
  Pagination of the filtered list: the page count, the repair of a stale page
  number, the slice of one page, and the navigation controls drawn under the
  table (`dibujarPaginacion`).
 */
module Paging {
  import opened JsValues

  /** Records per page (`registrosPorPagina`). */
  const PageSize: nat := 10

  /** `Math.ceil(n / registrosPorPagina)`. */
  function PageCount(n: nat): (tp: nat)
    ensures tp * PageSize >= n
    ensures tp > 0 ==> (tp - 1) * PageSize < n
    ensures tp == 0 <==> n == 0
  {
    (n + PageSize - 1) / PageSize
  }

  /** The page a too-large page number snaps to: `totalPaginas || 1`. */
  function LastPage(tp: nat): (q: nat)
    ensures q >= 1
  {
    if tp == 0 then 1 else tp
  }

  /**
    The repair of the current page after filtering: only a page number beyond
    the count is changed, and it becomes the last page (1 when nothing matches).
   */
  function Clamp(p: int, tp: nat): (q: int)
    ensures p <= tp ==> q == p
    ensures p >= 1 ==> 1 <= q <= LastPage(tp)
    ensures p > LastPage(tp) ==> q == LastPage(tp)
    ensures 1 <= p <= LastPage(tp) ==> q == p
  {
    if p > tp then LastPage(tp) else p
  }

  /** `filtrados.slice(inicio, fin)` with `inicio = (p - 1) * 10` and `fin = inicio + 10`. */
  function PageOf<T>(s: seq<T>, p: int): seq<T>
  {
    var inicio := (p - 1) * PageSize;
    Slice(s, inicio, inicio + PageSize)
  }

  /**
    Page `p` (from 1) is the block of positions `[(p-1)*10, p*10)` cut to the
    list; it holds at most 10 records, and a page in range of a non-empty list
    is never empty.
   */
  lemma PageBounds<T>(s: seq<T>, p: int)
    requires p >= 1
    ensures PageOf(s, p) == s[Min((p - 1) * PageSize, |s|)..Min(p * PageSize, |s|)]
    ensures |PageOf(s, p)| <= PageSize
    ensures |s| > 0 && p <= LastPage(PageCount(|s|)) ==> |PageOf(s, p)| > 0
  {
    SliceNonNegative(s, (p - 1) * PageSize, (p - 1) * PageSize + PageSize);
  }

  /**
    Cutting the same page out of a list `fs` and out of the list `ps` of
    positions `fs` was read from keeps each element next to its position.
   */
  lemma PageParallel<A>(fs: seq<A>, ps: seq<nat>, rs: seq<A>, p: int)
    requires |fs| == |ps|
    requires forall k :: 0 <= k < |ps| ==> ps[k] < |rs| && fs[k] == rs[ps[k]]
    ensures |PageOf(fs, p)| == |PageOf(ps, p)|
    ensures forall k :: 0 <= k < |PageOf(ps, p)| ==>
      PageOf(ps, p)[k] < |rs| && PageOf(fs, p)[k] == rs[PageOf(ps, p)[k]]
  {
    var start := (p - 1) * PageSize;
    forall k | 0 <= k < |PageOf(ps, p)|
      ensures PageOf(ps, p)[k] < |rs| && PageOf(fs, p)[k] == rs[PageOf(ps, p)[k]]
    {
      SliceAt(fs, start, start + PageSize, k);
      SliceAt(ps, start, start + PageSize, k);
    }
  }

  /** A page of a strictly increasing list of positions is strictly increasing. */
  lemma PageIncreasing(ps: seq<nat>, p: int)
    requires forall k, l :: 0 <= k < l < |ps| ==> ps[k] < ps[l]
    ensures forall k, l :: 0 <= k < l < |PageOf(ps, p)| ==> PageOf(ps, p)[k] < PageOf(ps, p)[l]
  {
    var start := (p - 1) * PageSize;
    SliceIncreasing(ps, start, start + PageSize);
  }

  /** The pages `1..PageCount(|s|)` of a list, in order. */
  function Pages<T>(s: seq<T>): (ps: seq<seq<T>>)
    ensures |ps| == PageCount(|s|)
    ensures forall i :: 0 <= i < |ps| ==> ps[i] == PageOf(s, i + 1)
  {
    seq(PageCount(|s|), i requires 0 <= i => PageOf(s, i + 1))
  }

  function Flatten<T>(ss: seq<seq<T>>): seq<T>
    decreases |ss|
  {
    if ss == [] then [] else Flatten(ss[..|ss| - 1]) + ss[|ss| - 1]
  }

  lemma {:induction false} PagesPrefix<T>(s: seq<T>, k: nat)
    requires k <= PageCount(|s|)
    ensures Flatten(Pages(s)[..k]) == s[..Min(k * PageSize, |s|)]
    decreases k
  {
    if k > 0 {
      var ps := Pages(s);
      PagesPrefix(s, k - 1);
      assert ps[..k][..k - 1] == ps[..k - 1];
      PageBounds(s, k);
      assert ps[k - 1] == s[Min((k - 1) * PageSize, |s|)..Min(k * PageSize, |s|)];
      assert s[..Min((k - 1) * PageSize, |s|)] + s[Min((k - 1) * PageSize, |s|)..Min(k * PageSize, |s|)]
          == s[..Min(k * PageSize, |s|)];
    }
  }

  /** Putting the pages `1..PageCount` back together in order gives the whole list. */
  lemma PagesConcat<T>(s: seq<T>)
    ensures Flatten(Pages(s)) == s
  {
    var tp := PageCount(|s|);
    PagesPrefix(s, tp);
    assert Pages(s)[..tp] == Pages(s);
  }

  // ---- Navigation controls ----

  /**
    The controls under the table: none at all, or a "previous" button, one
    button per page number with the current one marked, and a "next" button.
   */
  datatype Nav =
    | NoControls
    | Bar(prevDisabled: bool, buttons: seq<int>, active: int, nextDisabled: bool)

  function Controls(tp: nat, p: int): Nav
  {
    if tp <= 1 then NoControls
    else Bar(p == 1, seq(tp, i requires 0 <= i < tp => i + 1), p, p == tp)
  }

  /** A click on the navigation bar. */
  datatype Click = Prev | Next | GoTo(i: int)

  /**
    The page number a click sets before the view is redrawn, or `None` when the
    clicked control is absent or disabled.
   */
  function Target(nav: Nav, p: int, click: Click): Option<int>
  {
    if nav.NoControls? then None
    else match click
      case Prev => if nav.prevDisabled then None else Some(p - 1)
      case Next => if nav.nextDisabled then None else Some(p + 1)
      case GoTo(i) => if i in nav.buttons then Some(i) else None
  }

  /**
    From a page in range, the controls offer: nothing when there is at most one
    page; "previous" exactly when not on page 1; "next" exactly when not on the
    last page; a page button exactly for `1..tp`. Every offered target is in
    range.
   */
  lemma NavigationInRange(tp: nat, p: int, click: Click)
    requires 1 <= p <= LastPage(tp)
    ensures tp <= 1 ==> Target(Controls(tp, p), p, click) == None
    ensures click == Prev ==> (Target(Controls(tp, p), p, click).Some? <==> tp > 1 && p > 1)
    ensures click == Next ==> (Target(Controls(tp, p), p, click).Some? <==> tp > 1 && p < tp)
    ensures click.GoTo? ==> (Target(Controls(tp, p), p, click).Some? <==> tp > 1 && 1 <= click.i <= tp)
    ensures Target(Controls(tp, p), p, click).Some? ==> 1 <= Target(Controls(tp, p), p, click).value <= tp
  {
    var nav := Controls(tp, p);
    if tp > 1 && click.GoTo? {
      if 1 <= click.i <= tp {
        assert nav.buttons[click.i - 1] == click.i;
      }
    }
  }
}
