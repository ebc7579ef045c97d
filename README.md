# Maths Point site script: the carousel, the form validator and the page rules

`main.js` is the one script of a static website for a maths coaching business.
Most of it is glue that restyles page elements. What this project models is
the part with state and rules:

- **The testimonial carousel** (`carousel.dfy`). This is a class with one field
  for each piece of state the script keeps: the current page, the track's shift,
  the indicator dots, where a touch started, and the auto-advance interval. The
  layout it reads is kept in fields too: the viewport width and the first card's
  width. Its methods are the event handlers: the constructor (page load), the
  dot builder, `GoTo`, the interval restart, the interval's tick, the previous
  and next buttons, a dot click, touch start and touch end, and resize. The
  arithmetic behind them is pure functions with lemmas:
  - the page size for a viewport width;
  - the page count, `Math.ceil(cards / visible)`;
  - the wrap of any integer index onto a page, written with JavaScript's
    truncating `%`;
  - the track's shift for a page.
- **The form validator** (`forms.dfy`). `ValidateForm` is a method with a loop
  over the required fields. It returns the verdict, the per-field "required"
  flags and the error notices it raises. The email pattern
  `^[^\s@]+@[^\s@]+\.[^\s@]+$` is modelled twice: once as a hand-written scan
  and once as a declarative predicate. A lemma proves the two accept the same
  values.
- **Small page rules**, each a pure function with lemmas:
  - which navigation link is marked active (`active_nav.dfy`);
  - which course cards a category filter shows (`course_filter.dfy`);
  - how the star labels are coloured on hover (`star_rating.dfy`);
  - how a statistic's text is split into a number and a suffix (`counters.dfy`).
- **The string operations they share** (`js_text.dfy`):
  - `trim`, with JavaScript's white-space set;
  - `\d`;
  - `replace(/[...]/g, '')` as a character filter;
  - `includes`;
  - the first and last pieces of `split`.

Points where the code's behaviour is easy to misread:

- `initCarousel` returns early only when the track element is missing
  (main.js:420). With a track and no cards, the page count is 0 and
  `index % 0` makes the current page `NaN` (main.js:452-453). The model keeps
  this case as `JsNum.NaN`. With at least one card, the current page is always
  a valid page.
- The dots carry two separate marks:
  - building the dots gives the class `active` to dot 0 only (main.js:442),
    and no later step moves that class;
  - navigation sets an inline highlight on the current page's dot
    (main.js:459-460).

  `Dot` keeps both attributes. Right after the page loads no dot is
  highlighted, because `goTo` has not run yet.
- A dot click calls `goTo` without restarting the interval. The buttons and
  swipes do restart it.

## Model

| member | source | states |
|---|---|---|
| `JsText.TrimStartSpec` | main.js:210 | trimming the front removes only leading white space and leaves a suffix that does not start with white space |
| `JsText.TrimEndSpec` | main.js:210 | trimming the back removes only trailing white space and leaves a prefix that does not end with white space |
| `JsText.TrimEmptyIff` | main.js:210 | `value.trim()` is empty exactly when every character is JavaScript white space |
| `JsText.TrimKeepsNonSpace` | main.js:232 | trimming never drops a character that is not white space |
| `JsText.Keep` | main.js:233 | the filtered text is no longer than the input, and every character in it passes the filter |
| `JsText.KeepConcat` | main.js:233 | filtering a concatenation is the concatenation of the filtered pieces |
| `JsText.KeepAll` | main.js:149 | filtering text whose characters all pass returns the text unchanged |
| `JsText.KeepNone` | main.js:150 | filtering text whose characters all fail returns the empty string |
| `JsText.Includes` | main.js:401 | `s.includes(t)` holds exactly when `t` occurs in `s` at some index |
| `JsText.BeforeFirstSpec` | main.js:88 | `split('#')[0]` is the longest prefix without `#`, ended by a `#` or by the end of the string |
| `JsText.AfterLastSpec` | main.js:86 | `split('/').pop()` is the longest suffix without `/`, started by a `/` or by the start of the string |
| `JsText.BeforeFirstOfJoin` | main.js:88 | the part before the first separator of `head + sep + tail` is `head` when `head` has no separator |
| `JsText.AfterLastOfJoin` | main.js:86 | the part after the last separator of `dir + sep + name` is `name` when `name` has no separator |
| `Carousel.VisibleCards` | main.js:429-433 | a page holds 1 card up to 600 px, 3 cards above 900 px and 2 in between, so always 1, 2 or 3 |
| `Carousel.VisibleCardsMonotone` | main.js:429-433 | a wider viewport never shows fewer cards per page |
| `Carousel.PageCount` | main.js:452 | `ceil(cards / visible)` is the least page count whose pages hold all the cards; it is 0 exactly when there are no cards |
| `Carousel.PageCountAntitone` | main.js:452 | fewer cards per page never gives fewer pages |
| `Carousel.NarrowerViewportNotFewerPages` | main.js:429-438 | narrowing the viewport never decreases the number of pages |
| `Carousel.TruncRem` | main.js:453 | JavaScript `%` with a positive divisor: the remainder is smaller than the divisor, has the sign of the dividend, and differs from it by a multiple of the divisor |
| `Carousel.WrapPage` | main.js:453 | the double modulo takes any integer index, negative ones included, to a page in `[0, total)` that equals the index's mathematical residue modulo `total` |
| `Carousel.WrapPagePeriodic` | main.js:453 | going to `index` and going to `index + total` land on the same page |
| `Carousel.WrapPageInRange` | main.js:444 | an index that is already a page, such as a dot's own index, is left unchanged |
| `Carousel.PrevNextInverse` | main.js:472-473 | one page back then one forward, or the reverse, returns to the starting page, including at both ends |
| `Carousel.TrackOffsetProperties` | main.js:454-456 | the shift `page * visible * (cardWidth + 24)` is non-negative, is 0 exactly on page 0, and differs between pages |
| `Carousel.SwipeBoundary` | main.js:480 | the swipe threshold is strict: 51 px in either direction is a swipe, 50 px and 49 px are not |
| `Carousel.SevenCardsExample` | main.js:429-453 | seven cards on a 1024 px viewport make 3 pages, and index 5 lands on page 2 |
| `Carousel.Carousel.constructor` | main.js:422-427 | on page load: page 0, no shift, one dot per page with only dot 0 `active`, and exactly one interval running |
| `Carousel.Carousel.BuildDots` | main.js:435-447 | with a dot container, the dots are replaced by `ceil(cards / visible)` fresh dots, only the first `active` and none highlighted; without a container nothing changes |
| `Carousel.Carousel.GoTo` | main.js:450-463 | the current page becomes the wrapped index (NaN when there are no cards), the shift matches it, exactly the current page's dot is highlighted, and every dot's `active` class is kept |
| `Carousel.Carousel.StartAuto` | main.js:465-470 | the previous interval is cleared and one fresh interval becomes the only live one |
| `Carousel.Carousel.Tick` | main.js:467-469 | an interval firing moves one page forward and leaves the timers alone |
| `Carousel.Carousel.Prev` | main.js:472 | the previous button moves one page back, wrapping from page 0 to the last page, highlights exactly the new page's dot, keeps every dot's `active` class, and restarts the interval |
| `Carousel.Carousel.Next` | main.js:473 | the next button moves one page forward, wrapping from the last page to page 0, highlights exactly the new page's dot, keeps every dot's `active` class, and restarts the interval |
| `Carousel.Carousel.ClickDot` | main.js:444 | clicking dot `idx` shows page `idx` and highlights only that dot, keeps every dot's `active` class, and does not restart the interval |
| `Carousel.Carousel.TouchStart` | main.js:477 | a touch records its horizontal start position |
| `Carousel.Carousel.TouchEnd` | main.js:478-481 | a move of more than 50 px goes forward when the finger moved left and back when it moved right, highlights exactly the new page's dot, keeps every dot's `active` class, and restarts the interval; any shorter move changes neither the page, the shift, the dots nor the timers |
| `Carousel.Carousel.Resize` | main.js:483 | a resize lays out for the new width, rebuilds the dots and returns to page 0 with dot 0 highlighted; the interval is untouched |
| `Carousel.AtMostOneTimer` | main.js:465-470 | at most one auto-advance interval is alive in any valid state |
| `Carousel.PrevThenNext` | main.js:472-473 | the previous button then the next button restores the page and leaves exactly one interval alive |
| `Carousel.NextThenPrev` | main.js:472-473 | the next button then the previous button restores the page and leaves exactly one interval alive |
| `Forms.MatchesEmailSound` | main.js:243 | every value the hand-written scan accepts fits `^[^\s@]+@[^\s@]+\.[^\s@]+$` |
| `Forms.PatternAtIsFirst` | main.js:243 | the `@` the pattern splits at is the first `@` in the value |
| `Forms.MatchesEmailComplete` | main.js:243 | every value that fits the pattern is accepted by the scan |
| `Forms.MatchesEmailIffPattern` | main.js:243 | the scan and the pattern accept exactly the same values |
| `Forms.ValidateForm` | main.js:206-250 | the form is valid exactly when no required field is blank after trimming, a non-blank phone has at least 10 digits and a non-blank email matches the pattern. Every blank required field is flagged, and the phone and email notices are raised in that order |
| `Forms.FormattedPhoneAccepted` | main.js:233-234 | separators between digits do not count: digits, non-digit separators, digits, with ten digits in all, is accepted |
| `Forms.ShortPhoneRejected` | main.js:232-234 | a non-blank phone value shorter than ten characters is always refused |
| `Forms.BlankOptionalFieldsPass` | main.js:232-242 | a blank phone or email field is never a reason to refuse the form |
| `Forms.AcceptedEmailHasOneAt` | main.js:243 | an accepted address contains exactly one `@` |
| `Forms.NoBreakSpaceEmailRejected` | main.js:242-243 | the trimmed value only decides whether the email is checked at all; the pattern is tested on the raw value, so an address starting with a no-break space (white space to both `trim` and `\s`) is refused |
| `Forms.PlainEmailAccepted` | main.js:243 | `ravi@maths.in` is accepted |
| `Forms.EmailWithoutDotRefused` | main.js:243 | `ravi@maths` is refused, because there is no dot after the `@` |
| `Forms.EmailWithTwoAtsRefused` | main.js:243 | `ravi@@maths.in` is refused |
| `ActiveNav.CurrentPageShape` | main.js:86 | the current page name is never empty and never contains `/` |
| `ActiveNav.LinkToCurrentPageIsActive` | main.js:86-89 | a link to the last path segment is marked active, with or without a `#fragment` |
| `ActiveNav.DirectoryPathActivatesIndex` | main.js:86 | on a path ending in `/`, the link to `index.html` is the active one |
| `ActiveNav.UnmatchableLinksNeverActive` | main.js:88-89 | a link with an empty target, or with a `/` in its target (`./about.html`), is never marked active |
| `CourseFilter.EverythingFiltersShowAll` | main.js:401 | the filters `all` and the empty string show every card |
| `CourseFilter.MatchingCategoryShown` | main.js:401 | a card whose category text contains the filter anywhere is shown |
| `CourseFilter.UnrelatedCategoryHidden` | main.js:401 | a card whose category does not contain the filter is hidden, unless the filter is `all` |
| `CourseFilter.UncategorisedCardShownIff` | main.js:398-401 | a card without a category is shown exactly for `all` and the empty filter; a button without `data-filter` searches for "undefined" |
| `StarRating.HoverColors` | main.js:544-548 | while label `idx` is hovered, label `i` is gold exactly when `i >= idx`, and every other label is dimmed |
| `StarRating.LeaveColors` | main.js:550-552 | leaving a label clears every label's inline colour |
| `StarRating.HoverGoldCount` | main.js:547 | hovering label `idx` of `count` lights exactly `count - idx` labels |
| `StarRating.NoGoldBefore` | main.js:547 | no label before the hovered one is gold |
| `StarRating.HoverIsDimThenGold` | main.js:547 | the colours are a run of dimmed labels followed by one run of gold labels that starts at the hovered label |
| `Counters.SplitPartitions` | main.js:149-150 | every character of the statistic's text goes to exactly one of the number and the suffix |
| `Counters.NumberThenUnit` | main.js:149-150 | a number followed by a unit (`500+`) splits into exactly that number and that unit |
| `Counters.UnitThenNumber` | main.js:149-150 | a unit written before the number (`$500`) also goes to the suffix, which is displayed after the number |
| `Counters.PercentExample` | main.js:149-150 | `98.5%` splits into `98.5` and `%` |

## Left out

- Styling, `innerHTML` and class writes are not modelled: the navbar, back-to-top button, modals, drawer, payment options, loader, toasts and per-field error spans. Field highlighting appears only as the validator's `flagged` result. Dot styling is reduced to the `Dot.highlighted` flag.
- Real timers are not modelled: `setInterval`, `setTimeout` and `requestAnimationFrame`. An interval is an id in `liveTimers`; a firing is a call to `Tick`. The 5000 ms period is a constant only.
- `animateCounter` and the reading progress bar are left out: both are floating-point easing and percentage arithmetic. So is the caching of the split in `data-target` and `data-suffix`.
- The browser's own clean-up of an `input[type="email"]` value is not modelled: the browser strips leading and trailing ASCII white space from `.value` before the script reads it. `Form.email` is any string, which is more general than what such an input delivers, so the email rules hold for every value the script can see.
- Smooth-scroll coordinates are left out: they come from browser layout measurements.
- The `IntersectionObserver` callbacks for scroll reveal and counters are left out: they are browser callbacks with no local rule.
- Copying contact details to the clipboard is left out: it is a foreign asynchronous API with an `execCommand` fallback.
- The course-filter toast text and the button `active` class swap are left out: they are DOM writes.
- `window.innerWidth` and the first card's `offsetWidth` are fields that only `Resize` and the constructor set. The model assumes a `resize` event follows every layout change. Touch coordinates are integers, not floating-point pixels.
- The carousel's optional previous and next buttons are always present: their handlers are the methods `Prev` and `Next`. The dot container's presence is `hasDots`.
- The form model takes the values of the required fields, the first `tel` input and the first `email` input. A field that is both required and a phone or email field appears in both places, as in the page.
