/** The side navigation dots: one dot per fixed section id, and a scroll
    handler that lights the dot whose section lies under the activation
    point, chosen by the section's position in the fixed list. */
module NavDots {

  import opened Wrappers
  import Navigation

  /** The section ids the dots stand for, in order; dot `i` belongs to the `i`-th. */
  const DotSections: seq<string> := ["home", "about", "skills", "projects", "contact"]

  const DimBackground: string := "rgba(102, 126, 234, 0.3)"
  const LitBackground: string := "rgba(102, 126, 234, 1)"
  const DimTransform: string := "scale(1)"
  const LitTransform: string := "scale(1.2)"

  /** The two inline style properties the handler writes on a dot. */
  datatype Dot = Dot(background: string, transform: string)

  const Dim: Dot := Dot(DimBackground, DimTransform)
  const Lit: Dot := Dot(LitBackground, LitTransform)

  /** The boxes of the page's elements by id, standing for `getElementById`
      followed by `offsetTop` and `offsetHeight`; an id that is not a key has
      no element. */
  type Page = map<string, Navigation.Extent>

  /** The element with this id exists on the page and its box holds `pos`. */
  predicate Shown(page: Page, id: string, pos: int) {
    id in page && Navigation.Covers(page[id], pos)
  }

  /** The inner step run for the `k`-th section under the activation point:
      every dot is dimmed, then dot `k` is lit when there is such a dot
      (`dots[index]` is checked before use). Afterwards only dot `k` is lit. */
  function LightOnly(dots: seq<Dot>, k: nat): (r: seq<Dot>)
    ensures |r| == |dots|
    ensures forall i | 0 <= i < |r| :: r[i] == (if i == k then Lit else Dim)
  {
    var dimmed := seq(|dots|, i => Dim);
    if k < |dimmed| then dimmed[k := Lit] else dimmed
  }

  /** The index of the last id in `ids` that is shown at `pos`, if any. */
  function LastShown(ids: seq<string>, page: Page, pos: int): (r: Option<nat>)
    ensures r.None? ==> forall j | 0 <= j < |ids| :: !Shown(page, ids[j], pos)
    ensures r.Some? ==>
      && r.value < |ids|
      && Shown(page, ids[r.value], pos)
      && forall j | r.value < j < |ids| :: !Shown(page, ids[j], pos)
    decreases |ids|
  {
    if |ids| == 0 then None
    else if Shown(page, ids[|ids| - 1], pos) then Some(|ids| - 1)
    else LastShown(ids[..|ids| - 1], page, pos)
  }

  /** The loop over `ids` in order, as a left fold: the `k`-th id that is
      shown at `pos` relights the dots around dot `k`. The net effect is that
      of the last shown id alone, and with none the dots are left as they
      were. */
  function DotsAt(dots: seq<Dot>, ids: seq<string>, page: Page, pos: int): (r: seq<Dot>)
    ensures r ==
      match LastShown(ids, page, pos)
      case None => dots
      case Some(k) => LightOnly(dots, k)
    decreases |ids|
  {
    if |ids| == 0 then dots
    else
      var before := DotsAt(dots, ids[..|ids| - 1], page, pos);
      if Shown(page, ids[|ids| - 1], pos) then LightOnly(before, |ids| - 1) else before
  }

  /** The dot scroll handler: only the dot of the last listed section whose
      box holds `scrollY + 100` is lit, or the dots are unchanged when there
      is none. */
  function OnScroll(dots: seq<Dot>, page: Page, scrollY: int): (r: seq<Dot>)
    ensures r ==
      match LastShown(DotSections, page, Navigation.ScrollPos(scrollY))
      case None => dots
      case Some(k) => LightOnly(dots, k)
  {
    DotsAt(dots, DotSections, page, Navigation.ScrollPos(scrollY))
  }

  /** After a scroll whose last listed section under the activation point is
      the `k`-th, dot `k` is lit (when it exists) and every other dot is dim. */
  lemma OnScrollLightsLast(dots: seq<Dot>, page: Page, scrollY: int, k: nat)
    requires k < |DotSections| && Shown(page, DotSections[k], Navigation.ScrollPos(scrollY))
    requires forall j | k < j < |DotSections| :: !Shown(page, DotSections[j], Navigation.ScrollPos(scrollY))
    ensures var r := OnScroll(dots, page, scrollY);
      && |r| == |dots|
      && forall i | 0 <= i < |r| :: r[i] == (if i == k then Lit else Dim)
  {
    assert LastShown(DotSections, page, Navigation.ScrollPos(scrollY)) == Some(k);
  }

  /** When no listed section is under the activation point the dots keep
      their styles, including a stale lit dot. */
  lemma OnScrollNoHit(dots: seq<Dot>, page: Page, scrollY: int)
    requires forall j | 0 <= j < |DotSections| :: !Shown(page, DotSections[j], Navigation.ScrollPos(scrollY))
    ensures OnScroll(dots, page, scrollY) == dots
  {
  }

  /** Handling the same scroll position twice leaves the dots as handling it once. */
  lemma OnScrollIdempotent(dots: seq<Dot>, page: Page, scrollY: int)
    ensures OnScroll(OnScroll(dots, page, scrollY), page, scrollY) == OnScroll(dots, page, scrollY)
  {
  }

  /** A scroll that lands inside a listed section leaves at most one dot lit. */
  lemma OnScrollAtMostOneLit(dots: seq<Dot>, page: Page, scrollY: int)
    requires exists j | 0 <= j < |DotSections| :: Shown(page, DotSections[j], Navigation.ScrollPos(scrollY))
    ensures var r := OnScroll(dots, page, scrollY);
      forall i, j | 0 <= i < |r| && 0 <= j < |r| && r[i] == Lit && r[j] == Lit :: i == j
  {
    assert LastShown(DotSections, page, Navigation.ScrollPos(scrollY)).Some?;
  }

}
