# Carousel selection model

A Dafny model of the carousel widget in `src/components/UI/Carousel.js`. The
widget shows one item of a caller-supplied list at a time. It has previous and
next buttons that move the selection with wraparound, and a row of dots, one
per item, that show the selection and set it when clicked.

The model has four modules:

- `Wrappers` holds `Option`, which stands for JavaScript's `undefined` fields.
- `CarouselNavigation` holds the transition that `moveCarousel` hands to the
  state setter. It is a pure function `MoveUpdate(key, prevIndex, length)`.
  `Moves` applies it repeatedly. The navigation keys are the source's strings
  `"prev"` and `"next"`.
- `CarouselRendering` holds the item record (id, optional data, optional title,
  optional image with optional url and alt). It also holds the two `items.map`
  renderings, one for item views and one for dots, and the `isItemSelected` rule.
- `CarouselWidget` holds the component as a class. `selectedItemIndex` is a
  mutable field. The button and dot click handlers are methods that overwrite
  it, and `View` gives what the component renders in its current state.

Where the widget's intended design and its code disagree, the model follows the code:

- The seed `defaultSelected` is used as given. It is not clamped, and an
  out-of-range seed does not fall back to 0.
- With an empty list the transitions still run. PREV from 0 gives -1 and NEXT
  from 0 gives 1, so they are not no-ops.
- The index is kept in range only if it starts in range and the list does not
  change. Moves from an out-of-range index just add or subtract one.
- A title element is rendered whenever `showTitle` is true. If the item has no
  title, the element is empty; it is not omitted.

## Model

| member | source | states |
|---|---|---|
| `CarouselNavigation.MoveUpdate` | src/components/UI/Carousel.js:140-144 | the updater's result is always 0, `n-1`, `i+1` or `i-1`, and in `[0, n)` for either navigation key from an in-range index; its cases are stated in `PrevWrapsToLast`, `NextWrapsToFirst`, `MovesByOneElsewhere`, `OutOfRangeMovesByOne` and `MoveIsModularStep` |
| `CarouselNavigation.PrevWrapsToLast` | src/components/UI/Carousel.js:141 | PREV from index 0 yields `items.length - 1` |
| `CarouselNavigation.NextWrapsToFirst` | src/components/UI/Carousel.js:142 | NEXT from index `items.length - 1` yields 0, for every length (with no items, from -1) |
| `CarouselNavigation.MovesByOneElsewhere` | src/components/UI/Carousel.js:141-143 | away from the wrap points NEXT yields `i+1` and PREV yields `i-1`, in range or not |
| `CarouselNavigation.EmptyListIsNotANoOp` | src/components/UI/Carousel.js:139-145 | with zero items PREV from 0 gives -1 and NEXT from 0 gives 1 |
| `CarouselNavigation.OutOfRangeMovesByOne` | src/components/UI/Carousel.js:141-143 | an out-of-range index is only ever moved by one (NEXT adds one, PREV subtracts one), for every length including 0 |
| `CarouselNavigation.OneStepCanReenter` | src/components/UI/Carousel.js:143 | one step towards the range can re-enter it: PREV from `n` gives `n-1`, NEXT from -1 gives 0 |
| `CarouselNavigation.MoveStaysInRange` | src/components/UI/Carousel.js:139-145 | for both navigation keys, an index in `[0, n)` stays in `[0, n)` |
| `CarouselNavigation.UnknownKeyStepsBack` | src/components/UI/Carousel.js:141-143 | any key other than "prev" and "next" decrements, so the range guarantee covers the two real keys only |
| `CarouselNavigation.MovesAreInverse` | src/components/UI/Carousel.js:141-143 | NEXT after PREV and PREV after NEXT return to an in-range index |
| `CarouselNavigation.MoveIsModularStep` | src/components/UI/Carousel.js:140-144 | on an in-range index NEXT is `(i+1) mod n` and PREV is `(i-1) mod n` |
| `CarouselNavigation.RepeatedNextIsModular` | src/components/UI/Carousel.js:139-145 | `k` NEXT presses from an in-range index give `(i+k) mod n` |
| `CarouselNavigation.RepeatedPrevIsModular` | src/components/UI/Carousel.js:139-145 | `k` PREV presses from an in-range index give `(i-k) mod n` |
| `CarouselNavigation.CycleCloses` | src/components/UI/Carousel.js:139-145 | `n` presses of either button return to the starting in-range index |
| `CarouselRendering.IsItemSelected` | src/components/UI/Carousel.js:137 | no contract; properties in the lemmas `FlaggedIffSelected` and `ExactlyOneFlagged` |
| `CarouselRendering.ImageUrl` | src/components/UI/Carousel.js:152 | a url is produced only when `data` and `main_image` are both present, and it is then the image's url |
| `CarouselRendering.ImageAlt` | src/components/UI/Carousel.js:153 | an alt is produced only when `data` and `main_image` are both present, and it is then the image's alt |
| `CarouselRendering.TitleText` | src/components/UI/Carousel.js:155 | the corrected optional title access: a title only when `data` is present, and then `data.title` |
| `CarouselRendering.RenderItemAsWritten` | src/components/UI/Carousel.js:149-156 | the item render throws exactly when titles are shown and the item has no `data` |
| `CarouselRendering.MissingDataThrowsAsWritten` | src/components/UI/Carousel.js:155 | the item `{id: "a"}` with `showTitle` throws as written; the corrected render gives an empty title |
| `CarouselRendering.RenderItem` | src/components/UI/Carousel.js:150-155 | key is the id, the selected flag is passed through, a title element exists iff `showTitle`, a missing image gives no src and no alt |
| `CarouselRendering.CorrectedAgreesWhereSourceRenders` | src/components/UI/Carousel.js:151-155 | wherever the source does not throw, the corrected item view is what it renders |
| `CarouselRendering.RenderItems` | src/components/UI/Carousel.js:149-157 | one view per item, in order, each flagged by `isItemSelected` of its position |
| `CarouselRendering.RenderDots` | src/components/UI/Carousel.js:164-170 | one dot per item, in order, keyed by the id, flagged iff its position is the index, its click selecting its own position |
| `CarouselRendering.Render` | src/components/UI/Carousel.js:147-173 | as many item views and dots as items, both keyed by the item id, item `p` and dot `p` flagged alike |
| `CarouselRendering.FlaggedIffSelected` | src/components/UI/Carousel.js:137 | item `p` and dot `p` are flagged iff `p` equals the selected index |
| `CarouselRendering.ItemAndDotFlagsAgree` | src/components/UI/Carousel.js:150-167 | the item flags and the dot flags are the same sequence |
| `CarouselRendering.ExactlyOneFlagged` | src/components/UI/Carousel.js:137-167 | exactly one item and one dot are flagged when the index is in range, none otherwise (none for an empty list) |
| `CarouselRendering.TitleOnlyWhenShown` | src/components/UI/Carousel.js:155 | no title element without `showTitle`; with it, every item has one holding its optional title |
| `CarouselWidget.Carousel.constructor` | src/components/UI/Carousel.js:132-135 | the props take their defaults (`[]`, 0, false) and the index starts at `defaultSelected`, unclamped |
| `CarouselWidget.Carousel.ReceiveProps` | src/components/UI/Carousel.js:132-135 | a re-render reads new `items` and `showTitle` but keeps the index and ignores a new `defaultSelected` |
| `CarouselWidget.Carousel.MoveCarousel` | src/components/UI/Carousel.js:139-145 | the new index is the updater applied to the old one, the props are unchanged; for the navigation keys the in-range invariant is preserved |
| `CarouselWidget.Carousel.ClickPrev` | src/components/UI/Carousel.js:158 | the prev button applies PREV; from in range it lands on `(i-1) mod n`, still in range |
| `CarouselWidget.Carousel.ClickNext` | src/components/UI/Carousel.js:159-162 | the next button applies NEXT; from in range it lands on `(i+1) mod n`, still in range |
| `CarouselWidget.Carousel.ClickDot` | src/components/UI/Carousel.js:164-168 | a dot click sets the index to the dot's position whatever it was; `items` and `showTitle` are unchanged |
| `CarouselWidget.Carousel.View` | src/components/UI/Carousel.js:147-173 | the render of the current state has one view and one dot per item, the same flags on both, flagged iff the position is the index, one flag iff in range |

## Findings

| source | as written | input that shows it | evidently intended | confidence | as-written member | corrected member |
|---|---|---|---|---|---|---|
| src/components/UI/Carousel.js:155 | the title is read as `itemData.title`, without the optional access used for the image on lines 152-153 | an item `{id: "a"}` with no `data`, rendered with `showTitle` true, throws a TypeError | a missing `data` is tolerated like a missing image, giving an empty title | medium, not executed | `CarouselRendering.RenderItemAsWritten`, `CarouselRendering.MissingDataThrowsAsWritten` | `CarouselRendering.RenderItem`, `CarouselRendering.TitleOnlyWhenShown` |

## Left out

- Styling: the styled-components CSS (src/components/UI/Carousel.js:16-130), including the fade animation and the `display` rule that hides unselected items. The style sheet in src/App/GlobalStyle.js is also left out. It is declarative, with no logic.
- Icons and theme colours (src/components/UI/Carousel.js:5-11, 158-162) come from external libraries and configuration.
- `toNumber` coercion of `defaultSelected` (src/components/UI/Carousel.js:134) can yield `NaN` or a fraction. The constructor takes the already coerced value as an `int`.
- React mechanics: the `useState` hook and the batching of functional updaters. They are modelled as a field that the handler methods overwrite one call at a time. A re-render with new props is the method `ReceiveProps`. It keeps the index, so the range results of `MoveCarousel`, `ClickPrev` and `ClickNext` hold only from an index that is in range for the current list. A re-render with a shorter list can break that, as `ScenarioShrinkingList` shows.
- PropTypes validation (src/components/UI/Carousel.js:176-191) is only a runtime check. The `Item` datatype replaces it. The unused `description` field is not modelled.
- `CarouselRendering.RenderItems`: its views are produced with the corrected title access. The exception that the source throws for an item without `data` is modelled per item, by `RenderItemAsWritten`.
- `CarouselWidget.Carousel.View`: it renders through `RenderItems`, so it has the corrected title access. It does not throw for an item without `data` under `showTitle`.
- The index is a JavaScript number. Above 2^53, `prevIndex + 1` and `prevIndex - 1` (src/components/UI/Carousel.js:143) are inexact, but the model's `int` is unbounded.
