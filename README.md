# Carousel block: the active-slide state machine

This project models the carousel block of a page-authoring site
(`blocks/carousel/carousel.js`) in Dafny. `decorate(block)` turns the rows an
author wrote into a list of slides, a list of indicator buttons and
previous/next buttons. After that, one index, the active slide, drives
everything. Each slide has an `aria-hidden` flag and an `active` class. Each
link in a slide is either a tab stop or carries `tabindex="-1"`. Each
indicator button is either enabled or disabled.

The DOM is replaced by plain state:

- `ActiveSlide.ViewState` is that state as a value. The transitions of the
  source are pure functions on it: `UpdateActive` (`updateActiveSlide`),
  `ShowSlide` (`showSlide`), `Next`/`Prev` (the navigation buttons) and
  `ObserveEntries` (the intersection observer's callback).
- `CarouselBlock.Carousel` is the decorated block. It is a class whose arrays
  the methods update in place, loop by loop, as the source does. Each method
  is proved to leave exactly the state the matching pure function gives.
- `Construction` builds slides and indicators from authored rows
  (`createSlide` and the row branch of `decorate`).
- `SlideIndex` is the wrap-around arithmetic of `showSlide`.
- `Decimal` covers how indices are written into attributes and read back with
  `parseInt`.

Behaviour of the code that the model keeps, some of it surprising:

- The `active` class is toggled inside the per-link loop. A slide with no
  links therefore never gains or loses the class, and a visible slide without
  links has no `active` class (`UpdateActiveClass`,
  `VisibleLinklessSlideLacksClass`).
- `isSingleSlide` reads `.length` of a boolean, which is `undefined`, and
  `undefined < 2` is false. Single-slide mode therefore never happens: the
  navigation buttons, the indicators and the event handlers are built even
  for one row or none (`IsSingleSlide`). The flag exists to skip the
  navigation (carousel.js:127) and the event binding (carousel.js:251), so the
  code evidently meant to skip them for a single row; the model follows what
  the code does.
- Until the observer has committed a slide, `block.dataset.activeSlide` is
  unset. `parseInt` then gives NaN, and the previous/next handlers throw on
  `slides[NaN]`. The model returns "no slide" and leaves the state unchanged
  (`NavigationNeedsCommittedSlide`). A carousel with no slides fails the same
  way for every requested index.
- `showSlide` only makes the target's links tab stops. The commit happens
  later, when the observer reports the slide as visible. Until then two slides
  can have tab-stop links. `ShowThenCommit` shows that the commit makes that
  early change irrelevant.

## Model

| member | source | states |
|---|---|---|
| `Decimal.NatToString` | blocks/carousel/carousel.js:79 | an index written into an attribute is a non-empty string of digits with no leading zero |
| `Decimal.ParseNat` | blocks/carousel/carousel.js:5 | `parseInt(…, 10)` of a decimal numeral of n digits is below 10^n, and at least 10^(n-1) when the numeral has no leading zero |
| `Decimal.ParseNatCanonical` | blocks/carousel/carousel.js:5 | a numeral without a leading zero is the text of the number `parseInt` reads from it |
| `Decimal.ParseNatToString` | blocks/carousel/carousel.js:5 | `parseInt` of a written slide index gives the index back, so indices can be treated as integers |
| `SlideIndex.TargetIndex` | blocks/carousel/carousel.js:36-37 | a negative index targets the last slide, an index at or past the end targets slide 0, an in-range index is kept; the target is in range exactly when there is at least one slide |
| `SlideIndex.StepIsModular` | blocks/carousel/carousel.js:59-64 | from an in-range slide, a step of +1 or -1 followed by wrapping lands on (a + 1) mod n or (a - 1) mod n |
| `ActiveSlide.UpdateActive` | blocks/carousel/carousel.js:3-32 | the committed transition records k and keeps the number of slides, links and indicators |
| `ActiveSlide.UpdateActiveShowsOneSlide` | blocks/carousel/carousel.js:3-11 | after `updateActiveSlide(k)` the recorded index is k, slide i is not hidden iff i = k, and exactly one slide is visible when k is in range (none otherwise) |
| `ActiveSlide.UpdateActiveDisablesOneIndicator` | blocks/carousel/carousel.js:24-31 | indicator i is disabled iff i = k, so exactly one indicator is disabled when k is in range |
| `ActiveSlide.UpdateActiveLinks` | blocks/carousel/carousel.js:12-18 | every link of slide k is a tab stop and every link of every other slide is not; no link is added or removed |
| `ActiveSlide.UpdateActiveClass` | blocks/carousel/carousel.js:12-21 | a slide with links has the `active` class iff it is slide k; a slide without links keeps its previous class; if no linkless slide had the class before, none has it after |
| `ActiveSlide.VisibleLinklessSlideLacksClass` | blocks/carousel/carousel.js:12-21 | a one-slide carousel whose slide has no links shows that slide without the `active` class |
| `ActiveSlide.UpdateActiveLastWins` | blocks/carousel/carousel.js:3-32 | two updates in a row have the effect of the second alone |
| `ActiveSlide.UpdateActiveIdempotent` | blocks/carousel/carousel.js:3-32 | re-applying the same update changes nothing |
| `ActiveSlide.ShowSlide` | blocks/carousel/carousel.js:34-40 | `showSlide` reaches a slide iff there is one, the slide is in range, and the active index and visibility are not touched |
| `ActiveSlide.ShowSlideEffect` | blocks/carousel/carousel.js:34-40 | `showSlide` reaches a slide iff there is one; the target is the wrapped index; the target's links become tab stops; the active index, visibility, classes, indicators and other slides' links are unchanged |
| `ActiveSlide.ShowThenCommit` | blocks/carousel/carousel.js:34-40 | showing a slide and then committing it leaves the same state as committing it directly |
| `ActiveSlide.Step` | blocks/carousel/carousel.js:59-64 | a button reaches a slide iff a slide has been committed and slides exist, and it targets the wrapped index of the active index plus the step |
| `ActiveSlide.Next` | blocks/carousel/carousel.js:62-64 | from a committed in-range slide a, the next button targets (a + 1) mod n |
| `ActiveSlide.Prev` | blocks/carousel/carousel.js:59-61 | from a committed in-range slide a, the previous button targets (a - 1) mod n |
| `ActiveSlide.NavigationWraps` | blocks/carousel/carousel.js:59-64 | next from the last slide targets slide 0, previous from slide 0 targets the last slide |
| `ActiveSlide.NavigationNeedsCommittedSlide` | blocks/carousel/carousel.js:59-64 | with no recorded active slide, previous and next reach no slide |
| `ActiveSlide.NavigateThenCommit` | blocks/carousel/carousel.js:59-64 | from committed slide a, next then commit equals committing (a + 1) mod n, previous then commit equals committing (a - 1) mod n, and each leaves exactly one slide visible |
| `ActiveSlide.ObserveEntries` | blocks/carousel/carousel.js:66-70 | the callback keeps the number of slides, links and indicators, and a batch with no intersecting entry changes nothing |
| `ActiveSlide.ObserveEntriesLastWins` | blocks/carousel/carousel.js:66-70 | a batch of observer entries has the effect of its last intersecting entry alone, or none if no entry intersects |
| `Construction.BlockId` | blocks/carousel/carousel.js:111 | the block id is "carousel-" followed by a numeral that reads back as the carousel id |
| `Construction.SlideId` | blocks/carousel/carousel.js:80 | a slide id is its block's id, "-slide-" and a numeral that reads back as the slide index |
| `Construction.Tag` | blocks/carousel/carousel.js:83-84 | tagging a column keeps its class list as a prefix and its links, and appends the positional class only when it is not already there |
| `Construction.SlideFor` | blocks/carousel/carousel.js:77-94 | a created slide has class `carousel-slide`, the slide id, an index text reading back as the index, and the row's columns in order, each with its links and its positional class |
| `Construction.IndicatorLabel` | blocks/carousel/carousel.js:242 | the label is "Show Slide ", the text of idx + 1, " of ", and a numeral reading back as the count |
| `Construction.IndicatorFor` | blocks/carousel/carousel.js:239-242 | an indicator has class `carousel-slide-indicator`, a target that reads back as idx, and the label for idx of count |
| `Construction.CreateSlide` | blocks/carousel/carousel.js:77-94 | the loop over columns builds exactly `SlideFor(row, idx, id)`: index text, id `carousel-{id}-slide-{idx}`, class `carousel-slide`, columns tagged by position |
| `Construction.BuildFromRows` | blocks/carousel/carousel.js:234-246 | r rows give r slides, slide idx built from row idx, and, when the indicator list exists, r indicators with indicator idx for slide idx of r |
| `Construction.SlideForShape` | blocks/carousel/carousel.js:79-85 | a slide's index text parses back to its index; column 0 is tagged `carousel-slide-image` and every later column `carousel-slide-content`; the slide holds as many links as its row did |
| `Construction.IndicatorForShape` | blocks/carousel/carousel.js:238-243 | indicator idx targets slide idx; its text starts with "Show Slide " followed by the numeral of idx + 1, which reads back as idx + 1 and lies between 1 and the count (the " of " count part is stated by `Construction.IndicatorLabel`) |
| `Construction.IndicatorLabelsDistinct` | blocks/carousel/carousel.js:242 | two indicators of one carousel have the same text only if they are the same indicator |
| `Construction.SlideIdsUnique` | blocks/carousel/carousel.js:80 | two slide ids are equal only for the same carousel id and the same slide index |
| `Construction.IsSingleSlide` | blocks/carousel/carousel.js:113 | `isSingleSlide` is false for every flag and every row count |
| `CarouselBlock.Carousel.Decorate` | blocks/carousel/carousel.js:107-143 | the block gets id `carousel-{id}`, role `region` and the English role description; navigation and indicators are always built; one slide and one indicator per row; no slide hidden, none active, every link a tab stop, no indicator disabled, no active index yet |
| `CarouselBlock.Carousel.MarkSlideLinks` | blocks/carousel/carousel.js:12-21 | the per-link loop of one slide sets every link's tab stop to whether the slide is active, and sets the class only if the slide has a link |
| `CarouselBlock.Carousel.MarkSlides` | blocks/carousel/carousel.js:10-22 | the slide loop hides every slide but k and applies the per-link loop to each slide |
| `CarouselBlock.Carousel.MarkIndicators` | blocks/carousel/carousel.js:24-31 | the indicator loop disables indicator k and enables every other |
| `CarouselBlock.Carousel.UpdateActiveSlide` | blocks/carousel/carousel.js:3-32 | the new state is `UpdateActive(old state, k)`, and the carousel's invariant (array sizes, link counts, no class on linkless slides) is kept |
| `CarouselBlock.Carousel.ShowSlide` | blocks/carousel/carousel.js:34-46 | the returned target and the new state are those of `ShowSlide` on the old state; on failure nothing changes |
| `CarouselBlock.Carousel.Prev` | blocks/carousel/carousel.js:59-61 | the previous button shows what `Prev` of the old state gives |
| `CarouselBlock.Carousel.Next` | blocks/carousel/carousel.js:62-64 | the next button shows what `Next` of the old state gives |
| `CarouselBlock.Carousel.SelectIndicator` | blocks/carousel/carousel.js:52-57 | clicking indicator j parses its target and shows slide j |
| `CarouselBlock.Carousel.HandleIntersections` | blocks/carousel/carousel.js:66-70 | the observer callback leaves the state `ObserveEntries` gives: each intersecting entry committed in order |

## Left out

- The JSON card branch (`fetchJson` and the product/teaser rendering, carousel.js:96-104 and 146-232). It is a network fetch plus HTML string templates.
- CarouselBlock.Carousel.Decorate: models only the branch that builds slides from authored rows, not the JSON card branch.
- `fetchPlaceholders` and `createOptimizedPicture` are not part of this model. Their code is not shown. The labels use the English fallbacks as constants.
- The smooth `scrollTo` of `showSlide` (carousel.js:41-45) is browser layout. `showSlide` returns the slide it would scroll to.
- The `IntersectionObserver` itself (its 0.5 threshold, registration, asynchronous delivery) is left out. Only its callback on a given batch of entries is modelled.
- Registration of click listeners is left out. `Prev`, `Next` and `SelectIndicator` stand for the handlers being invoked, and they require the navigation to exist.
- The module-level `carouselId` counter is a parameter of `Decorate`.
- The `aria-labelledby` copy from a heading (carousel.js:88-91) is DOM querying. So are the `innerHTML` markup of the buttons, the wrapper elements (`carousel-slides-container`, the `ul`, the `nav`) and `row.remove()`. None of them affects the active-slide state.
- Rows and columns are given as their `div` children only. Other children of an authored row are not modelled.
- `aria-hidden` and `tabindex` are string attributes in the page and booleans here. The active index is stored as a string attribute and is modelled as an integer (`Decimal.ParseNatToString` justifies this).
- Indices and carousel ids are unbounded naturals here. JavaScript writes a number as plain digits only below 10^21, and holds integers exactly only below 2^53. The model assumes every index and carousel id stays below those bounds.
