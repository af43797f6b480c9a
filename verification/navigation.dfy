/** The two scroll handlers of the navigation bar: the `scrolled` class past a
    fixed threshold, and the highlight of the link that belongs to the
    section under the activation point. */
module Navigation {

  import opened Wrappers
  import Dom

  /** The navbar takes its `scrolled` class once the page is scrolled past this. */
  const ScrolledThreshold: int := 100
  const ScrolledClass: string := "scrolled"

  /** The activation point sits this far below the top of the viewport. */
  const ActivationOffset: int := 100

  /** The navbar scroll handler: `scrolled` is present exactly when the page
      is scrolled past the threshold, and no other class changes. */
  function NavbarOnScroll(classes: Dom.ClassList, scrollY: int): (r: Dom.ClassList)
    ensures ScrolledClass in r <==> scrollY > ScrolledThreshold
    ensures r - {ScrolledClass} == classes - {ScrolledClass}
  {
    Dom.SetClass(classes, ScrolledClass, scrollY > ScrolledThreshold)
  }

  /** A vertical box on the page: its offset from the top of the page and
      its height, as `offsetTop` and `offsetHeight` report them. */
  datatype Extent = Extent(top: int, height: int)

  /** A `section` element: its box and its `id` attribute. */
  datatype Section = Section(extent: Extent, id: Option<string>)

  /** A navigation link: its `data-section` attribute and its classes. */
  datatype Link = Link(dataSection: Option<string>, classes: Dom.ClassList)

  /** The half-open range `[top, top + height)` of a box holds `pos`. */
  predicate Covers(e: Extent, pos: int) {
    e.top <= pos < e.top + e.height
  }

  /** The page coordinate of the activation point. */
  function ScrollPos(scrollY: int): int {
    scrollY + ActivationOffset
  }

  predicate IsActive(l: Link) {
    Dom.ActiveClass in l.classes
  }

  /** The inner loop run for a section under the activation point: every
      link loses `active`, and the links whose `data-section` equals the
      section's id get it back; nothing else about a link changes. */
  function MarkLinks(links: seq<Link>, id: Option<string>): (r: seq<Link>)
    ensures |r| == |links|
    ensures forall i | 0 <= i < |r| ::
      && r[i].dataSection == links[i].dataSection
      && (IsActive(r[i]) <==> links[i].dataSection == id)
      && r[i].classes - {Dom.ActiveClass} == links[i].classes - {Dom.ActiveClass}
  {
    seq(|links|, i requires 0 <= i < |links| =>
      links[i].(classes := Dom.SetClass(links[i].classes, Dom.ActiveClass, links[i].dataSection == id)))
  }

  /** Marking for one id and then for another is marking for the second. */
  lemma MarkLinksOverwrites(links: seq<Link>, first: Option<string>, second: Option<string>)
    ensures MarkLinks(MarkLinks(links, first), second) == MarkLinks(links, second)
  {
    var once, twice := MarkLinks(links, second), MarkLinks(MarkLinks(links, first), second);
    forall i | 0 <= i < |links|
      ensures twice[i] == once[i]
    {
      Dom.SetClassOverwrites(links[i].classes, Dom.ActiveClass, links[i].dataSection == first, links[i].dataSection == second);
    }
  }

  /** The last section in document order whose box holds `pos`, if any. */
  function LastCovering(sections: seq<Section>, pos: int): (r: Option<nat>)
    ensures r.None? ==> forall j | 0 <= j < |sections| :: !Covers(sections[j].extent, pos)
    ensures r.Some? ==>
      && r.value < |sections|
      && Covers(sections[r.value].extent, pos)
      && forall j | r.value < j < |sections| :: !Covers(sections[j].extent, pos)
    decreases |sections|
  {
    if |sections| == 0 then None
    else if Covers(sections[|sections| - 1].extent, pos) then Some(|sections| - 1)
    else LastCovering(sections[..|sections| - 1], pos)
  }

  /** Marking for `id` after the net effect of a fold over `sections` is
      marking for `id` alone: an earlier mark is overwritten. */
  lemma MarkAfterFold(links: seq<Link>, sections: seq<Section>, pos: int, id: Option<string>)
    ensures var folded := match LastCovering(sections, pos)
                          case None => links
                          case Some(j) => MarkLinks(links, sections[j].id);
            MarkLinks(folded, id) == MarkLinks(links, id)
  {
    match LastCovering(sections, pos)
    case None =>
    case Some(j) => MarkLinksOverwrites(links, sections[j].id, id);
  }

  /** The outer loop over the sections in document order, as a left fold:
      each section that covers `pos` re-marks the links. The net effect is
      that of the last covering section alone, and with no covering section
      the links are left as they were. */
  function HighlightAt(links: seq<Link>, sections: seq<Section>, pos: int): (r: seq<Link>)
    ensures r ==
      match LastCovering(sections, pos)
      case None => links
      case Some(k) => MarkLinks(links, sections[k].id)
    decreases |sections|
  {
    if |sections| == 0 then links
    else
      var prefix := sections[..|sections| - 1];
      var before := HighlightAt(links, prefix, pos);
      var last := sections[|sections| - 1];
      if Covers(last.extent, pos) then
        MarkAfterFold(links, prefix, pos, last.id);
        MarkLinks(before, last.id)
      else before
  }

  /** The active-link scroll handler: the links marked for the last section
      whose box holds `scrollY + 100`, or the links unchanged when there is
      none. */
  function OnScroll(links: seq<Link>, sections: seq<Section>, scrollY: int): (r: seq<Link>)
    ensures r ==
      match LastCovering(sections, ScrollPos(scrollY))
      case None => links
      case Some(k) => MarkLinks(links, sections[k].id)
  {
    HighlightAt(links, sections, ScrollPos(scrollY))
  }

  /** After a scroll with section `k` the last one under the activation
      point, the active links are exactly those whose `data-section` equals
      that section's id; no other class of any link changes. */
  lemma OnScrollPicksLast(links: seq<Link>, sections: seq<Section>, scrollY: int, k: int)
    requires 0 <= k < |sections| && Covers(sections[k].extent, ScrollPos(scrollY))
    requires forall j | k < j < |sections| :: !Covers(sections[j].extent, ScrollPos(scrollY))
    ensures var r := OnScroll(links, sections, scrollY);
      && |r| == |links|
      && forall i | 0 <= i < |r| ::
        && r[i].dataSection == links[i].dataSection
        && (IsActive(r[i]) <==> links[i].dataSection == sections[k].id)
        && r[i].classes - {Dom.ActiveClass} == links[i].classes - {Dom.ActiveClass}
  {
    var last := LastCovering(sections, ScrollPos(scrollY));
    assert last == Some(k);
  }

  /** When no section is under the activation point the links keep their
      state, including any stale `active` class. */
  lemma OnScrollNoHit(links: seq<Link>, sections: seq<Section>, scrollY: int)
    requires forall j | 0 <= j < |sections| :: !Covers(sections[j].extent, ScrollPos(scrollY))
    ensures OnScroll(links, sections, scrollY) == links
  {
  }

  /** Handling the same scroll position twice leaves the links as handling it once. */
  lemma OnScrollIdempotent(links: seq<Link>, sections: seq<Section>, scrollY: int)
    ensures OnScroll(OnScroll(links, sections, scrollY), sections, scrollY) == OnScroll(links, sections, scrollY)
  {
    match LastCovering(sections, ScrollPos(scrollY))
    case None =>
    case Some(k) =>
      MarkLinksOverwrites(links, sections[k].id, sections[k].id);
  }

  /** When the links name distinct sections, a scroll that lands inside some
      section leaves at most one link active. */
  lemma OnScrollAtMostOneActive(links: seq<Link>, sections: seq<Section>, scrollY: int)
    requires forall i, j | 0 <= i < j < |links| :: links[i].dataSection != links[j].dataSection
    requires exists j | 0 <= j < |sections| :: Covers(sections[j].extent, ScrollPos(scrollY))
    ensures var r := OnScroll(links, sections, scrollY);
      forall i, j | 0 <= i < |r| && 0 <= j < |r| && IsActive(r[i]) && IsActive(r[j]) :: i == j
  {
    assert LastCovering(sections, ScrollPos(scrollY)).Some?;
  }

}
