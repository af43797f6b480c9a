/** The project gallery filter: a click on a filter button makes that button
    the only active one and hides the cards whose category the filter
    excludes. */
module ProjectFilter {

  import opened Wrappers
  import Dom

  /** The wildcard filter tag that shows every card. */
  const AllFilter: string := "all"
  const HiddenClass: string := "hidden"

  /** A filter button: its `data-filter` attribute and its classes. */
  datatype FilterButton = FilterButton(filter: Option<string>, classes: Dom.ClassList)

  /** A project card: its `data-category` attribute and its classes. */
  datatype Card = Card(category: Option<string>, classes: Dom.ClassList)

  /** The buttons and the cards of the gallery, each in document order. */
  datatype Gallery = Gallery(buttons: seq<FilterButton>, cards: seq<Card>)

  predicate IsActive(b: FilterButton) {
    Dom.ActiveClass in b.classes
  }

  predicate IsHidden(c: Card) {
    HiddenClass in c.classes
  }

  /** The filter keeps a card: it is the wildcard or it equals the card's
      category (two absent attributes compare equal, as `===` on `null` does). */
  predicate Keeps(filter: Option<string>, category: Option<string>) {
    filter == Some(AllFilter) || category == filter
  }

  /** Every button loses `active` and the clicked one gets it back. */
  function SelectButton(buttons: seq<FilterButton>, clicked: nat): (r: seq<FilterButton>)
    requires clicked < |buttons|
    ensures |r| == |buttons|
    ensures forall i | 0 <= i < |r| ::
      && r[i].filter == buttons[i].filter
      && (IsActive(r[i]) <==> i == clicked)
      && r[i].classes - {Dom.ActiveClass} == buttons[i].classes - {Dom.ActiveClass}
  {
    seq(|buttons|, i requires 0 <= i < |buttons| =>
      buttons[i].(classes := Dom.SetClass(buttons[i].classes, Dom.ActiveClass, i == clicked)))
  }

  /** Each card loses `hidden` when the filter keeps it and gains it otherwise. */
  function FilterCards(cards: seq<Card>, filter: Option<string>): (r: seq<Card>)
    ensures |r| == |cards|
    ensures forall i | 0 <= i < |r| ::
      && r[i].category == cards[i].category
      && (IsHidden(r[i]) <==> !Keeps(filter, cards[i].category))
      && r[i].classes - {HiddenClass} == cards[i].classes - {HiddenClass}
  {
    seq(|cards|, i requires 0 <= i < |cards| =>
      cards[i].(classes := Dom.SetClass(cards[i].classes, HiddenClass, !Keeps(filter, cards[i].category))))
  }

  /** The click handler of button `clicked`, up to its synchronous effects:
      exactly the clicked button is active, and a card is hidden exactly when
      the button's filter is not the wildcard and differs from the card's
      category. No other class of a button or a card changes. */
  function Click(g: Gallery, clicked: nat): (r: Gallery)
    requires clicked < |g.buttons|
    ensures |r.buttons| == |g.buttons| && |r.cards| == |g.cards|
    ensures forall i | 0 <= i < |r.buttons| ::
      && r.buttons[i].filter == g.buttons[i].filter
      && (IsActive(r.buttons[i]) <==> i == clicked)
      && r.buttons[i].classes - {Dom.ActiveClass} == g.buttons[i].classes - {Dom.ActiveClass}
    ensures forall i | 0 <= i < |r.cards| ::
      && r.cards[i].category == g.cards[i].category
      && (IsHidden(r.cards[i]) <==>
            g.buttons[clicked].filter != Some(AllFilter) && g.cards[i].category != g.buttons[clicked].filter)
      && r.cards[i].classes - {HiddenClass} == g.cards[i].classes - {HiddenClass}
  {
    Gallery(SelectButton(g.buttons, clicked), FilterCards(g.cards, g.buttons[clicked].filter))
  }

  /** The wildcard button shows every card. */
  lemma WildcardShowsAll(g: Gallery, clicked: nat)
    requires clicked < |g.buttons| && g.buttons[clicked].filter == Some(AllFilter)
    ensures forall i | 0 <= i < |Click(g, clicked).cards| :: !IsHidden(Click(g, clicked).cards[i])
  {
  }

  /** A button with a specific tag shows exactly the cards of that category. */
  lemma TagShowsExactlyItsCategory(g: Gallery, clicked: nat, tag: string)
    requires clicked < |g.buttons| && g.buttons[clicked].filter == Some(tag) && tag != AllFilter
    ensures forall i | 0 <= i < |Click(g, clicked).cards| ::
      !IsHidden(Click(g, clicked).cards[i]) <==> g.cards[i].category == Some(tag)
  {
  }

  /** The gallery after two clicks is the gallery after the second alone:
      the state depends only on the latest click. */
  lemma LatestClickWins(g: Gallery, first: nat, second: nat)
    requires first < |g.buttons| && second < |g.buttons|
    ensures Click(Click(g, first), second) == Click(g, second)
  {
    var once, twice := Click(g, second), Click(Click(g, first), second);
    forall i | 0 <= i < |g.buttons|
      ensures twice.buttons[i] == once.buttons[i]
    {
      Dom.SetClassOverwrites(g.buttons[i].classes, Dom.ActiveClass, i == first, i == second);
    }
    var filter1, filter2 := g.buttons[first].filter, g.buttons[second].filter;
    forall i | 0 <= i < |g.cards|
      ensures twice.cards[i] == once.cards[i]
    {
      Dom.SetClassOverwrites(g.cards[i].classes, HiddenClass,
        !Keeps(filter1, g.cards[i].category), !Keeps(filter2, g.cards[i].category));
    }
  }

  /** Clicking the same button again changes nothing. */
  lemma ClickIdempotent(g: Gallery, clicked: nat)
    requires clicked < |g.buttons|
    ensures Click(Click(g, clicked), clicked) == Click(g, clicked)
  {
    LatestClickWins(g, clicked, clicked);
  }

}
