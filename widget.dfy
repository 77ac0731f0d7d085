/**
  The carousel component: its props and the one state cell it owns, the
  selected item index. The index is seeded once, at mount; afterwards only the
  prev/next buttons and the dots overwrite it, while the props may change.
 */
module CarouselWidget {
  import opened CarouselNavigation
  import opened CarouselRendering

  class Carousel {
    var items: seq<Item>
    var showTitle: bool
    var selectedItemIndex: int

    /** The state the source only preserves: an index that names an item. */
    predicate InRange()
      reads this
    {
      0 <= selectedItemIndex < |items|
    }

    /** Mounting: the index starts at `defaultSelected` (already a number), with
        no range check and no fallback. The defaults are those of the props. */
    constructor (items: seq<Item> := [], defaultSelected: int := 0, showTitle: bool := false)
      ensures this.items == items && this.showTitle == showTitle
      ensures selectedItemIndex == defaultSelected
    {
      this.items := items;
      this.showTitle := showTitle;
      selectedItemIndex := defaultSelected;
    }

    /** `moveCarousel(key)`: applies the updater to the current index. */
    method MoveCarousel(key: string)
      modifies this
      ensures items == old(items) && showTitle == old(showTitle)
      ensures selectedItemIndex == MoveUpdate(key, old(selectedItemIndex), |items|)
      ensures IsNavigationKey(key) && old(InRange()) ==> InRange()
    {
      if IsNavigationKey(key) && InRange() {
        MoveStaysInRange(key, selectedItemIndex, |items|);
      }
      selectedItemIndex := MoveUpdate(key, selectedItemIndex, |items|);
    }

    /** The previous-button click. */
    method ClickPrev()
      modifies this
      ensures items == old(items) && showTitle == old(showTitle)
      ensures selectedItemIndex == MoveUpdate(PrevKey, old(selectedItemIndex), |items|)
      ensures old(InRange()) ==> InRange()
      ensures old(InRange()) ==> selectedItemIndex == (old(selectedItemIndex) - 1) % |items|
    {
      if InRange() {
        MoveIsModularStep(selectedItemIndex, |items|);
      }
      MoveCarousel(PrevKey);
    }

    /** The next-button click. */
    method ClickNext()
      modifies this
      ensures items == old(items) && showTitle == old(showTitle)
      ensures selectedItemIndex == MoveUpdate(NextKey, old(selectedItemIndex), |items|)
      ensures old(InRange()) ==> InRange()
      ensures old(InRange()) ==> selectedItemIndex == (old(selectedItemIndex) + 1) % |items|
    {
      if InRange() {
        MoveIsModularStep(selectedItemIndex, |items|);
      }
      MoveCarousel(NextKey);
    }

    /** A click on the dot at `position`: the index becomes that position,
        whatever it was before. */
    method ClickDot(position: nat)
      requires position < |items|
      modifies this
      ensures items == old(items) && showTitle == old(showTitle)
      ensures selectedItemIndex == position && InRange()
    {
      selectedItemIndex := position;
    }

    /** A re-render with new props: `items` and `showTitle` are read afresh,
        while the state cell keeps its index and a new `defaultSelected` is
        ignored. Nothing brings the index back into range for a shorter list. */
    method ReceiveProps(items: seq<Item> := [], defaultSelected: int := 0, showTitle: bool := false)
      modifies this
      ensures this.items == items && this.showTitle == showTitle
      ensures selectedItemIndex == old(selectedItemIndex)
    {
      this.items := items;
      this.showTitle := showTitle;
    }

    /** What the component renders in its current state. */
    function View(): (v: CarouselView)
      reads this
      ensures |v.items| == |items| && |v.dots| == |items|
      ensures ItemFlags(v.items) == DotFlags(v.dots)
      ensures CountTrue(ItemFlags(v.items)) == if InRange() then 1 else 0
      ensures forall p :: 0 <= p < |items| ==> (v.items[p].isSelected <==> p == selectedItemIndex)
    {
      ItemAndDotFlagsAgree(items, selectedItemIndex, showTitle);
      ExactlyOneFlagged(items, selectedItemIndex, showTitle);
      Render(items, selectedItemIndex, showTitle)
    }
  }

  /** A client of the component's handlers: three items, first one selected,
      then next, next, next (wrapping), prev (wrapping back), dot 1. */
  method ScenarioThreeItems(a: Item, b: Item, c: Item)
  {
    var carousel := new Carousel([a, b, c], 0, false);
    carousel.ClickNext();
    assert carousel.selectedItemIndex == 1;
    carousel.ClickNext();
    assert carousel.selectedItemIndex == 2;
    carousel.ClickNext();
    assert carousel.selectedItemIndex == 0;
    carousel.ClickPrev();
    assert carousel.selectedItemIndex == 2;
    carousel.ClickDot(1);
    assert carousel.selectedItemIndex == 1;
    var view := carousel.View();
    assert view.items[1].isSelected && !view.items[0].isSelected;
  }

  /** A client that shrinks the list under a selection at the end: the index
      survives the re-render out of range, no item is flagged, and NEXT from
      there moves it further out. */
  method ScenarioShrinkingList(a: Item, b: Item, c: Item)
  {
    var carousel := new Carousel([a, b, c], 2);
    assert carousel.InRange();
    carousel.ReceiveProps([a], 0);
    assert carousel.selectedItemIndex == 2 && !carousel.InRange();
    var view := carousel.View();
    assert CountTrue(ItemFlags(view.items)) == 0;
    carousel.ClickNext();
    assert carousel.selectedItemIndex == 3;
  }
}
