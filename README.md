# Hero carousel controller of the Nimble portfolio page

This project is a Dafny model of the hero image carousel on the landing page
(`Home` in `src/app/page.jsx`). The carousel keeps two pieces of state:

- `currentIndex`: the active slide, an index into the fixed `artworks` list.
- `isTransitioning`: a flag that debounces slide changes while a 500 ms
  animation is in flight.

Five events change that state:

- `nextSlide` and `prevSlide` move one slide forward or back with wrap-around,
  set the flag and schedule a timeout that clears it. As written, both do
  nothing while the flag is set (but see the notes below: the page reaches
  `nextSlide` only through the interval, and `prevSlide` not at all).
- A click on a bottom navigation button jumps straight to that slide unless the
  flag is set. It does not set the flag.
- The 5 s auto-advance interval.
- The end of the 500 ms timeout, which clears the flag.

A pure function, `calculateSlideStyles`, computes each slide's layout from the
slide index, the active index and the slide count. It returns a rotational
position, a signed stacking order, a width and left offset in percent, and a
z-index.

Modules:

- `JsArith` (`js_arith.dfy`) writes out the JavaScript arithmetic the code
  uses: the truncating remainder `%` and `Math.abs`.
- `SlideLayout` (`slide_layout.dfy`) is `calculateSlideStyles` as a function,
  with lemmas about the layout it produces.
- `Carousel` (`carousel.dfy`) has three parts:
  - the index arithmetic `Next` and `Prev`;
  - a reference state machine, `Step`, and its extension to event sequences,
    `Run`;
  - the class `Controller`, which holds the two fields and has one method per
    event. Each method's contract states the new state outright and also ties
    it to `Step`.

The slide count is a parameter `n >= 1`. The page itself has four artworks.
Results specific to four slides are stated as such.

Modelling notes:

- The auto-advance interval is registered once, at mount, with an empty
  dependency list. Its callback therefore calls the `nextSlide` of the first
  render, which always sees `isTransitioning == false`. The index stays right
  because the update uses the functional form `prev => (prev + 1) % n`. So the
  model treats a tick as an unguarded advance that sets the flag
  (`Carousel.Step`, case `Tick`; `Carousel.TickIgnoresFlag`).
- Selecting a slide from the navigation does not set the transition flag. The
  code at `src/app/page.jsx:350` only calls `setCurrentIndex`. A design reading
  in which a selection also starts a transition is not what the code does; the
  model follows the code.
- `(100 - 70) / 3` is evaluated in floating point in the source. It is exactly
  10, so integer widths lose nothing. The test `position > totalSlides / 2`
  (real division) is written `2 * p > n`.
- No element of the page calls `nextSlide` or `prevSlide` directly. The only
  caller of `nextSlide` is the interval callback (`src/app/page.jsx:174`), and
  it never sees the flag set. So on the page every forward move is a `Tick`,
  which is never dropped, and nothing moves backwards. The guarded `Advance`
  and `Retreat` events, and the dropped second "next" in
  `Carousel.DropThenAccept` and `Carousel.Scenarios`, describe the two
  handlers as written, not something the page can produce. They are modelled
  because the handlers are part of the component.

## Model

| member | source | states |
|---|---|---|
| `JsArith.Rem` | src/app/page.jsx:182 | JavaScript `%` truncates toward zero: the result is smaller in magnitude than the divisor, takes the dividend's sign and differs from the dividend by a multiple of the divisor (unique by `RemUnique`); it agrees with the Euclidean remainder for a non-negative dividend and positive divisor |
| `JsArith.RemUnique` | src/app/page.jsx:182 | any value with the bound, sign and congruence of `Rem`'s contract is `Rem`'s result, so that contract determines JavaScript `%` exactly |
| `JsArith.Abs` | src/app/page.jsx:215 | `Math.abs` returns a non-negative value equal to `x` or `-x` |
| `SlideLayout.Position` | src/app/page.jsx:195-196 | the position lies in [0, n), is 0 exactly for the active slide, and is the number of forward steps (with wrap) from the active slide to this one |
| `SlideLayout.Order` | src/app/page.jsx:202-205 | the stacking order satisfies -n/2 < order <= n/2, is congruent to the position modulo n, and is 0 exactly at position 0 |
| `SlideLayout.SlideStyles` | src/app/page.jsx:195-217 | the z-index equals n exactly for the active slide, is n - abs(order) for every other slide, and lies in [1, n]; widths are positive; the order is in (-n/2, n/2] |
| `SlideLayout.SlideAt` | src/app/page.jsx:196 | every position in [0, n) is held by some slide, so positions are onto |
| `SlideLayout.PositionInjective` | src/app/page.jsx:196 | two slides with the same position are the same slide |
| `SlideLayout.ExactlyOneActive` | src/app/page.jsx:196-201 | the set of slides at position 0 is exactly the active index |
| `SlideLayout.OrderUnique` | src/app/page.jsx:202-205 | any value congruent to the position modulo n and in (-n/2, n/2] is the computed order, so the order is the canonical signed offset |
| `SlideLayout.StackingOrder` | src/app/page.jsx:202-205 | a slide's order is its position when 2p <= n and p - n otherwise, and is congruent to p modulo n |
| `SlideLayout.ActiveOnTop` | src/app/page.jsx:215 | every inactive slide has a z-index of at least 1 and strictly below the active slide's z-index n |
| `SlideLayout.NearerStacksHigher` | src/app/page.jsx:215 | of two inactive slides, the one with the smaller absolute order has the larger z-index, and conversely |
| `SlideLayout.Geometry` | src/app/page.jsx:198-212 | the active slide is 70 wide at left 0; a slide at position p > 0 is 10 wide at left 70 + (p - 1) * 10 |
| `SlideLayout.Abut` | src/app/page.jsx:207-212 | the slide at position p + 1 starts exactly where the slide at position p ends |
| `SlideLayout.LeftsDistinct` | src/app/page.jsx:207-209 | different slides have different left offsets |
| `SlideLayout.WidthSumPrefix` | src/app/page.jsx:198-199 | the widths of slides 0..k-1 add up to 70 + 10(k-1) if the active slide is among them, else 10k |
| `SlideLayout.WidthsFillViewport` | src/app/page.jsx:198-199 | all widths together are 70 + 10(n-1) percent, which is exactly 100 if and only if there are four slides |
| `Carousel.Next` | src/app/page.jsx:182 | `(i + 1) % n` stays in [0, n): it is i + 1, and it wraps to 0 from the last slide |
| `Carousel.Prev` | src/app/page.jsx:190 | `(i - 1 + n) % n` stays in [0, n): it is i - 1, and it wraps to n - 1 from slide 0 |
| `Carousel.NextPrevInverse` | src/app/page.jsx:182-190 | moving back undoes moving forward and the other way round |
| `Carousel.LayoutRotates` | src/app/page.jsx:195-217 | after the active index advances, the slide after i gets exactly the style slide i had, so the layout is a rotation |
| `Carousel.Step` | src/app/page.jsx:172-193 | every event keeps the index in [0, n); next, previous and select are no-ops while transitioning; transition end clears the flag and keeps the index; only next, previous or a tick can set the flag |
| `Carousel.Run` | src/app/page.jsx:172-193 | any sequence of valid events from a valid state keeps the index in [0, n) |
| `Carousel.RunAppend` | src/app/page.jsx:172-193 | running a sequence of events and then one more is the same as stepping once from the run's final state |
| `Carousel.DropThenAccept` | src/app/page.jsx:179-185 | the "next" handler as written: a second call during a transition is dropped, and after the transition ends it advances again |
| `Carousel.TicksCycle` | src/app/page.jsx:172-183 | after k auto-advance ticks the index is the start index plus k modulo n, the flag is set once k > 0, and n ticks bring back the starting slide |
| `Carousel.TickIgnoresFlag` | src/app/page.jsx:172-185 | during a transition "next" is a no-op but an auto-advance tick still advances and keeps the flag set |
| `Carousel.SelectJumps` | src/app/page.jsx:350 | a navigation click while idle sets the index to any slide, adjacent or not, and leaves the flag clear |
| `Carousel.Scenarios` | src/app/page.jsx:172-185 | with four slides: tick, tick gives 2; next, next gives 1; next, next, end, next gives 2; next from 3 wraps to 0; select 2 from 0 gives 2 |
| `Carousel.Controller.constructor` | src/app/page.jsx:167-168 | the carousel starts on slide 0 and idle |
| `Carousel.Controller.NextSlide` | src/app/page.jsx:179-185 | while idle it moves to `Next` of the old index and sets the flag; while transitioning nothing changes; agrees with `Step` |
| `Carousel.Controller.PrevSlide` | src/app/page.jsx:187-193 | while idle it moves to `Prev` of the old index and sets the flag; while transitioning nothing changes; agrees with `Step` |
| `Carousel.Controller.SelectSlide` | src/app/page.jsx:350 | while idle it sets the index to the clicked slide; the flag never changes; agrees with `Step` |
| `Carousel.Controller.OnTick` | src/app/page.jsx:172-177 | always moves to `Next` of the old index and sets the flag; agrees with `Step` |
| `Carousel.Controller.OnTransitionEnd` | src/app/page.jsx:183 | clears the flag and leaves the index unchanged; agrees with `Step` |

## Left out

- Durations: the 5000 ms interval and the 500 ms timeout are not modelled as
  time. Each firing is one event (`Tick`, `TransitionEnd`). The model does not
  say when a timeout fires relative to other events, and it does not pair each
  timeout with the change that scheduled it.
- Mount and unmount of the interval (`clearInterval` on teardown): lifecycle
  only, with no effect on the two state fields.
- React batching and rendering: each event is applied atomically to the latest
  state. The model does not cover the window in which a handler could see a
  stale `isTransitioning` from an older render. The one such case that matters,
  the interval callback, is modelled as `Tick`.
- The CSS string formatting of widths and offsets (`` `${...}%` ``): widths and
  offsets are integers in percent.
- The contents of the artwork records (titles, images, prices, identifiers):
  only their number matters to the carousel.
- `toggleAudio`: it starts and stops an HTML media element through a ref, a
  browser call outside the model.
- `ArtId.copyToClipboard`: it is a clipboard browser call plus a 2 s visual
  feedback flag.
- JSX rendering, animation settings, fonts and the `Logo`, `PriceTag` and
  `AnimatedNotes` components: presentation only, with no state contract.
