/**
  What the carousel renders for a given list of items, selected index and
  `showTitle` flag: one item view per item (all of them present, only the
  selected one shown) and one dot per item.
 */
module CarouselRendering {
  import opened Wrappers

  /** `main_image`: both fields may be absent. */
  datatype Image = Image(url: Option<string>, alt: Option<string>)

  /** An item's `data`: both fields may be absent. */
  datatype ItemData = ItemData(title: Option<string>, mainImage: Option<Image>)

  /** One item of the `items` prop; `data` itself may be absent. */
  datatype Item = Item(id: string, data: Option<ItemData>)

  /**
    One rendered item. `title` is `None` when no title element is rendered and
    `Some(text)` when it is, `text` being `None` for an empty element.
   */
  datatype ItemView = ItemView(
    key: string,
    isSelected: bool,
    src: Option<string>,
    alt: Option<string>,
    title: Option<Option<string>>)

  /** One rendered dot; `selects` is the index its click handler sets. */
  datatype DotView = DotView(key: string, isSelected: bool, selects: nat)

  /** Everything the carousel renders that depends on its state. */
  datatype CarouselView = CarouselView(items: seq<ItemView>, dots: seq<DotView>)

  /** The only thing that fails while rendering: reading a field of `undefined`. */
  datatype ItemOutcome = Rendered(view: ItemView) | TypeErrorThrown

  /** `isItemSelected`: a position is selected when it equals the state's index. */
  predicate IsItemSelected(itemIndex: int, selectedIndex: int) {
    itemIndex == selectedIndex
  }

  /** `itemData?.main_image?.url` */
  function ImageUrl(data: Option<ItemData>): (r: Option<string>)
    ensures r.Some? ==> data.Some? && data.value.mainImage.Some? && r == data.value.mainImage.value.url
    ensures data.Some? && data.value.mainImage.Some? ==> r == data.value.mainImage.value.url
  {
    if data.Some? && data.value.mainImage.Some? then data.value.mainImage.value.url else None
  }

  /** `itemData?.main_image?.alt` */
  function ImageAlt(data: Option<ItemData>): (r: Option<string>)
    ensures r.Some? ==> data.Some? && data.value.mainImage.Some? && r == data.value.mainImage.value.alt
    ensures data.Some? && data.value.mainImage.Some? ==> r == data.value.mainImage.value.alt
  {
    if data.Some? && data.value.mainImage.Some? then data.value.mainImage.value.alt else None
  }

  /** `itemData?.title`: the title text, absent when the item has no data. */
  function TitleText(data: Option<ItemData>): (r: Option<string>)
    ensures r.Some? ==> data.Some? && r == data.value.title
    ensures data.Some? ==> r == data.value.title
  {
    if data.Some? then data.value.title else None
  }

  /**
    One item view as the source writes it: the title is read as `itemData.title`,
    without optional access, so an item without `data` throws once titles are shown.
   */
  function RenderItemAsWritten(item: Item, selected: bool, showTitle: bool): (r: ItemOutcome)
    ensures r.TypeErrorThrown? <==> showTitle && item.data.None?
  {
    if showTitle && item.data.None? then TypeErrorThrown
    else Rendered(ItemView(item.id, selected, ImageUrl(item.data), ImageAlt(item.data),
                           if showTitle then Some(item.data.value.title) else None))
  }

  /**
    One item view with the title read by optional access, as the image fields
    are. The mapping over the list uses this one.
   */
  function RenderItem(item: Item, selected: bool, showTitle: bool): (r: ItemView)
    ensures r.key == item.id && r.isSelected == selected
    ensures r.title.Some? <==> showTitle
    ensures showTitle ==> r.title.value == TitleText(item.data)
    ensures item.data.None? || item.data.value.mainImage.None? ==> r.src.None? && r.alt.None?
    ensures item.data.Some? && item.data.value.mainImage.Some? ==>
              r.src == item.data.value.mainImage.value.url &&
              r.alt == item.data.value.mainImage.value.alt
  {
    ItemView(item.id, selected, ImageUrl(item.data), ImageAlt(item.data),
             if showTitle then Some(TitleText(item.data)) else None)
  }

  /** Wherever the source does not throw, the corrected view is what it renders. */
  lemma CorrectedAgreesWhereSourceRenders(item: Item, selected: bool, showTitle: bool)
    requires !(showTitle && item.data.None?)
    ensures RenderItemAsWritten(item, selected, showTitle) == Rendered(RenderItem(item, selected, showTitle))
  {
  }

  /** The discrepancy: an item with only an id, titles shown, makes the source throw. */
  lemma MissingDataThrowsAsWritten()
    ensures RenderItemAsWritten(Item("a", None), true, true) == TypeErrorThrown
    ensures RenderItem(Item("a", None), true, true).title == Some(None)
  {
  }

  /** `items.map(...)` producing the item views, in item order. */
  function RenderItems(items: seq<Item>, selectedIndex: int, showTitle: bool): (r: seq<ItemView>)
    ensures |r| == |items|
    ensures forall p :: 0 <= p < |items| ==>
              r[p] == RenderItem(items[p], IsItemSelected(p, selectedIndex), showTitle)
  {
    seq(|items|, p requires 0 <= p < |items| =>
      RenderItem(items[p], IsItemSelected(p, selectedIndex), showTitle))
  }

  /** `items.map(...)` producing the dots, in item order. */
  function RenderDots(items: seq<Item>, selectedIndex: int): (r: seq<DotView>)
    ensures |r| == |items|
    ensures forall p :: 0 <= p < |items| ==>
              r[p].key == items[p].id && r[p].selects == p &&
              (r[p].isSelected <==> p == selectedIndex)
  {
    seq(|items|, p requires 0 <= p < |items| =>
      DotView(items[p].id, IsItemSelected(p, selectedIndex), p))
  }

  /** The whole state-dependent part of the render. */
  function Render(items: seq<Item>, selectedIndex: int, showTitle: bool): (v: CarouselView)
    ensures |v.items| == |items| && |v.dots| == |items|
    ensures forall p :: 0 <= p < |items| ==>
              v.items[p].key == items[p].id && v.dots[p].key == items[p].id &&
              v.items[p].isSelected == v.dots[p].isSelected
  {
    CarouselView(RenderItems(items, selectedIndex, showTitle), RenderDots(items, selectedIndex))
  }

  function ItemFlags(views: seq<ItemView>): (flags: seq<bool>)
    ensures |flags| == |views| && forall p :: 0 <= p < |views| ==> flags[p] == views[p].isSelected
  {
    seq(|views|, p requires 0 <= p < |views| => views[p].isSelected)
  }

  function DotFlags(dots: seq<DotView>): (flags: seq<bool>)
    ensures |flags| == |dots| && forall p :: 0 <= p < |dots| ==> flags[p] == dots[p].isSelected
  {
    seq(|dots|, p requires 0 <= p < |dots| => dots[p].isSelected)
  }

  /** The number of `true` entries. */
  function CountTrue(flags: seq<bool>): nat {
    if flags == [] then 0
    else CountTrue(flags[..|flags| - 1]) + (if flags[|flags| - 1] then 1 else 0)
  }

  /** A flag sequence that is true exactly at `selected` has one true entry when
      `selected` is a position and none otherwise. */
  lemma {:induction false} CountOfIndicator(flags: seq<bool>, selected: int)
    requires forall p :: 0 <= p < |flags| ==> (flags[p] <==> p == selected)
    ensures CountTrue(flags) == if 0 <= selected < |flags| then 1 else 0
  {
    if flags != [] {
      var rest := flags[..|flags| - 1];
      assert forall p :: 0 <= p < |rest| ==> rest[p] == flags[p];
      CountOfIndicator(rest, selected);
    }
  }

  /** Position `p` is flagged, among items and among dots, exactly when it is the
      selected index, and each dot's click selects its own position. */
  lemma FlaggedIffSelected(items: seq<Item>, selectedIndex: int, showTitle: bool, p: int)
    requires 0 <= p < |items|
    ensures Render(items, selectedIndex, showTitle).items[p].isSelected <==> p == selectedIndex
    ensures Render(items, selectedIndex, showTitle).dots[p].isSelected <==> p == selectedIndex
    ensures Render(items, selectedIndex, showTitle).dots[p].selects == p
  {
  }

  /** Items and dots are flagged alike. */
  lemma ItemAndDotFlagsAgree(items: seq<Item>, selectedIndex: int, showTitle: bool)
    ensures ItemFlags(Render(items, selectedIndex, showTitle).items) ==
            DotFlags(Render(items, selectedIndex, showTitle).dots)
  {
  }

  /** One item and one dot are flagged when the index is in range, none otherwise
      (in particular none when the list is empty). */
  lemma ExactlyOneFlagged(items: seq<Item>, selectedIndex: int, showTitle: bool)
    ensures CountTrue(ItemFlags(Render(items, selectedIndex, showTitle).items)) ==
            if 0 <= selectedIndex < |items| then 1 else 0
    ensures CountTrue(DotFlags(Render(items, selectedIndex, showTitle).dots)) ==
            if 0 <= selectedIndex < |items| then 1 else 0
  {
    var view := Render(items, selectedIndex, showTitle);
    CountOfIndicator(ItemFlags(view.items), selectedIndex);
    CountOfIndicator(DotFlags(view.dots), selectedIndex);
  }

  /** With `showTitle` false no item renders a title element, whatever its data;
      with it true every item does. */
  lemma TitleOnlyWhenShown(items: seq<Item>, selectedIndex: int, showTitle: bool, p: int)
    requires 0 <= p < |items|
    ensures !showTitle ==> Render(items, selectedIndex, showTitle).items[p].title == None
    ensures showTitle ==> Render(items, selectedIndex, showTitle).items[p].title == Some(TitleText(items[p].data))
  {
  }
}
