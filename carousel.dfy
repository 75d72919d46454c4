/**
 * The hero carousel controller of `Home`: the active slide index
 * `currentIndex` and the `isTransitioning` flag that debounces slide changes
 * while a 500 ms slide animation is in flight.
 *
 * The events are the "next" and "previous" handlers, a click on one of the
 * bottom navigation buttons, a tick of the 5 s auto-advance interval and the
 * end of the 500 ms transition timeout. Durations are not modelled: each timer
 * firing is one event.
 *
 * On the page itself only three of these occur: no element calls the "next"
 * or "previous" handler directly, and the interval calls the "next" handler of
 * the first render, which never sees the flag set. So every forward move the
 * page makes is a `Tick`, which is never dropped; the guarded `Advance` and
 * `Retreat` events model the handlers as written.
 */
module Carousel {
  import opened JsArith
  import opened SlideLayout

  /** Index after moving one slide forward, wrapping from the last to the first. */
  function Next(i: int, n: int): (r: int)
    requires 0 <= i < n
    ensures 0 <= r < n
    ensures r == if i == n - 1 then 0 else i + 1
  {
    if i == n - 1 then ModShift(i + 1, n); Rem(i + 1, n)
    else ModSmall(i + 1, n); Rem(i + 1, n)
  }

  /** Index after moving one slide back, wrapping from the first to the last. */
  function Prev(i: int, n: int): (r: int)
    requires 0 <= i < n
    ensures 0 <= r < n
    ensures r == if i == 0 then n - 1 else i - 1
  {
    if i == 0 then ModSmall(i - 1 + n, n); Rem(i - 1 + n, n)
    else ModShift(i - 1 + n, n); Rem(i - 1 + n, n)
  }

  /** Moving back undoes moving forward, and the other way round. */
  lemma NextPrevInverse(i: int, n: int)
    requires 0 <= i < n
    ensures Prev(Next(i, n), n) == i
    ensures Next(Prev(i, n), n) == i
  {
  }

  /**
   * Advancing the active index rotates the whole layout: the slide after `i`
   * gets, under the new active index, exactly the style `i` had before.
   */
  lemma {:induction false} LayoutRotates(i: int, current: int, n: int)
    requires 0 <= i < n && 0 <= current < n
    ensures SlideStyles(Next(i, n), Next(current, n), n) == SlideStyles(i, current, n)
  {
    assert Position(Next(i, n), Next(current, n), n) == Position(i, current, n);
  }

  /** The controller's two state fields. */
  datatype State = State(index: int, transitioning: bool)

  datatype Event =
    | Advance            // `nextSlide`
    | Retreat            // `prevSlide`
    | Select(target: int) // a bottom navigation button
    | Tick               // the auto-advance interval
    | TransitionEnd      // the 500 ms timeout scheduled by a slide change

  predicate ValidState(s: State, n: int) {
    0 <= s.index < n
  }

  /** Navigation buttons only ever pass the index of an existing slide. */
  predicate ValidEvent(e: Event, n: int) {
    e.Select? ==> 0 <= e.target < n
  }

  /** The controller's reaction to one event. */
  function Step(s: State, e: Event, n: int): (t: State)
    requires ValidState(s, n) && ValidEvent(e, n)
    ensures ValidState(t, n)
    ensures s.transitioning && (e.Advance? || e.Retreat? || e.Select?) ==> t == s
    ensures e.TransitionEnd? ==> t == State(s.index, false)
    ensures t.transitioning ==> s.transitioning || e.Advance? || e.Retreat? || e.Tick?
  {
    match e
    case Advance => if s.transitioning then s else State(Next(s.index, n), true)
    case Retreat => if s.transitioning then s else State(Prev(s.index, n), true)
    case Select(i) => if s.transitioning then s else State(i, false)
    // The interval callback keeps the `nextSlide` of the first render, whose
    // view of the flag is always false, so a tick is never dropped.
    case Tick => State(Next(s.index, n), true)
    case TransitionEnd => State(s.index, false)
  }

  /** The state after a sequence of events. */
  function Run(s: State, events: seq<Event>, n: int): (t: State)
    requires ValidState(s, n)
    requires forall k :: 0 <= k < |events| ==> ValidEvent(events[k], n)
    ensures ValidState(t, n)
    decreases |events|
  {
    if events == [] then s else Run(Step(s, events[0], n), events[1..], n)
  }

  /** Running a sequence and then one more event is the run followed by one step. */
  lemma {:induction false} RunAppend(s: State, events: seq<Event>, e: Event, n: int)
    requires ValidState(s, n) && ValidEvent(e, n)
    requires forall k :: 0 <= k < |events| ==> ValidEvent(events[k], n)
    ensures Run(s, events + [e], n) == Step(Run(s, events, n), e, n)
    decreases |events|
  {
    if events == [] {
      assert events + [e] == [e];
    } else {
      assert (events + [e])[1..] == events[1..] + [e];
      RunAppend(Step(s, events[0], n), events[1..], e, n);
    }
  }

  /**
   * The "next" handler as written: while a transition is in flight a second
   * call is dropped, and after the transition ends it is accepted again. On
   * the page the handler is only reached through the interval, as a `Tick`,
   * which is never dropped (`TickIgnoresFlag`).
   */
  lemma DropThenAccept(s: State, n: int)
    requires ValidState(s, n) && !s.transitioning
    ensures var t := Step(s, Advance, n);
      Step(t, Advance, n) == t &&
      Step(Step(t, TransitionEnd, n), Advance, n) == State(Next(t.index, n), true)
  {
  }

  /**
   * Unlike "next", an auto-advance tick is not dropped during a transition:
   * the index still moves forward.
   */
  lemma TickIgnoresFlag(s: State, n: int)
    requires ValidState(s, n) && s.transitioning
    ensures Step(s, Advance, n) == s
    ensures Step(s, Tick, n) == State(Next(s.index, n), true)
  {
  }

  /**
   * The auto-advance interval alone cycles through the slides: after `k`
   * ticks the active index is the start index plus `k`, modulo `n`, so after
   * `n` ticks the first slide is active again.
   */
  lemma {:induction false} TicksCycle(s: State, k: nat, n: int)
    requires ValidState(s, n)
    ensures Run(s, seq(k, _ => Tick), n).index == (s.index + k) % n
    ensures k > 0 ==> Run(s, seq(k, _ => Tick), n).transitioning
    ensures k == n ==> Run(s, seq(k, _ => Tick), n).index == s.index
  {
    if k == 0 {
      ModSmall(s.index, n);
    } else {
      var ticks := seq(k - 1, _ => Tick);
      assert seq(k, _ => Tick) == ticks + [Tick];
      RunAppend(s, ticks, Tick, n);
      TicksCycle(s, k - 1, n);
      var r := (s.index + k - 1) % n;
      ModSucc(s.index + k - 1, n);
      if r + 1 < n { ModSmall(r + 1, n); } else { ModShift(r + 1, n); }
    }
    if k == n {
      ModShift(s.index + k, n);
    }
  }

  /** A navigation click while idle jumps straight to the slide and starts no transition. */
  lemma SelectJumps(s: State, i: int, n: int)
    requires ValidState(s, n) && !s.transitioning && 0 <= i < n
    ensures Step(s, Select(i), n) == State(i, false)
  {
  }

  /**
   * With four slides, starting at the first: "next" moves to 1, an immediate
   * second "next" is dropped, and after the timeout "next" moves to 2; from
   * the last slide "next" wraps to the first; a click on the third button
   * jumps there directly. The dropped "next" is the handler as written; the
   * page's own forward moves are ticks, and two quick ticks both advance.
   */
  lemma Scenarios()
    ensures Run(State(0, false), [Tick, Tick], 4) == State(2, true)
    ensures Run(State(0, false), [Advance, Advance], 4) == State(1, true)
    ensures Run(State(0, false), [Advance, Advance, TransitionEnd, Advance], 4) == State(2, true)
    ensures Step(State(3, false), Advance, 4) == State(0, true)
    ensures Step(State(0, false), Select(2), 4) == State(2, false)
  {
  }

  /** The `Home` component's carousel state. */
  class Controller {
    /** Number of slides (`artworks.length`), fixed for the session. */
    const n: int
    var currentIndex: int
    var isTransitioning: bool

    ghost predicate Valid()
      reads this
    {
      ValidState(State(currentIndex, isTransitioning), n)
    }

    function Current(): State
      reads this
    {
      State(currentIndex, isTransitioning)
    }

    constructor (slideCount: int)
      requires slideCount >= 1
      ensures Valid() && n == slideCount
      ensures currentIndex == 0 && !isTransitioning
    {
      n := slideCount;
      currentIndex := 0;
      isTransitioning := false;
    }

    /** `nextSlide`: advance one slide and start a transition, unless one is in flight. */
    method NextSlide()
      requires Valid()
      modifies this
      ensures Valid()
      ensures old(isTransitioning) ==> currentIndex == old(currentIndex) && isTransitioning
      ensures !old(isTransitioning) ==> currentIndex == Next(old(currentIndex), n) && isTransitioning
      ensures Current() == Step(old(Current()), Advance, n)
    {
      if !isTransitioning {
        isTransitioning := true;
        currentIndex := Rem(currentIndex + 1, n);
      }
    }

    /** `prevSlide`: go back one slide and start a transition, unless one is in flight. */
    method PrevSlide()
      requires Valid()
      modifies this
      ensures Valid()
      ensures old(isTransitioning) ==> currentIndex == old(currentIndex) && isTransitioning
      ensures !old(isTransitioning) ==> currentIndex == Prev(old(currentIndex), n) && isTransitioning
      ensures Current() == Step(old(Current()), Retreat, n)
    {
      if !isTransitioning {
        isTransitioning := true;
        currentIndex := Rem(currentIndex - 1 + n, n);
      }
    }

    /** Click on navigation button `index`: jump there unless a transition is in flight. */
    method SelectSlide(index: int)
      requires Valid() && 0 <= index < n
      modifies this
      ensures Valid()
      ensures isTransitioning == old(isTransitioning)
      ensures currentIndex == if old(isTransitioning) then old(currentIndex) else index
      ensures Current() == Step(old(Current()), Select(index), n)
    {
      if !isTransitioning {
        currentIndex := index;
      }
    }

    /** Auto-advance tick: always advances and starts a transition. */
    method OnTick()
      requires Valid()
      modifies this
      ensures Valid()
      ensures currentIndex == Next(old(currentIndex), n) && isTransitioning
      ensures Current() == Step(old(Current()), Tick, n)
    {
      isTransitioning := true;
      currentIndex := Rem(currentIndex + 1, n);
    }

    /** End of the 500 ms transition timeout: clears the flag only. */
    method OnTransitionEnd()
      requires Valid()
      modifies this
      ensures Valid()
      ensures currentIndex == old(currentIndex) && !isTransitioning
      ensures Current() == Step(old(Current()), TransitionEnd, n)
    {
      isTransitioning := false;
    }
  }
}
