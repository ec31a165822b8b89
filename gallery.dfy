/** The hero gallery carousel: N slides and their indicators, the index of
    the slide on show, and the auto-advance timer. */
module Gallery {
  import opened Flags
  import opened Options
  import opened AutoAdvance

  /** JavaScript's `%`: the remainder takes the sign of the dividend. */
  function JsRem(a: int, n: int): (r: int)
    requires n > 0
    ensures a >= 0 ==> r == a % n
  {
    if a >= 0 then a % n else -((-a) % n)
  }

  /** The index `nextSlide` moves to. */
  function NextIndex(cur: int, n: int): (r: int)
    requires n >= 1
  {
    JsRem(cur + 1, n)
  }

  /** The index `prevSlide` moves to. */
  function PrevIndex(cur: int, n: int): (r: int)
    requires n >= 1
  {
    JsRem(cur - 1 + n, n)
  }

  /** Forward by one, and from the last slide back to the first. */
  lemma NextIndexWraps(cur: int, n: int)
    requires 0 <= cur < n
    ensures NextIndex(cur, n) == if cur == n - 1 then 0 else cur + 1
  {
  }

  /** Back by one, and from the first slide round to the last. */
  lemma PrevIndexWraps(cur: int, n: int)
    requires 0 <= cur < n
    ensures PrevIndex(cur, n) == if cur == 0 then n - 1 else cur - 1
  {
    if cur == 0 {
      assert cur - 1 + n == n - 1;
    } else {
      assert cur - 1 + n == (cur - 1) + 1 * n;
    }
  }

  /** `prevSlide` undoes `nextSlide` and the other way round. */
  lemma PrevUndoesNext(cur: int, n: int)
    requires 0 <= cur < n
    ensures PrevIndex(NextIndex(cur, n), n) == cur
    ensures NextIndex(PrevIndex(cur, n), n) == cur
  {
    NextIndexWraps(cur, n);
    PrevIndexWraps(cur, n);
    PrevIndexWraps(NextIndex(cur, n), n);
    NextIndexWraps(PrevIndex(cur, n), n);
  }

  /** A change of slide requested by the user or the timer: forward, back,
      or straight to the slide of indicator `i`. */
  datatype Step = Next | Prev | Jump(i: int)

  /** The index `showSlide` is called with. */
  function Target(cur: int, n: int, s: Step): (r: int)
    requires n >= 1
  {
    match s
    case Next => NextIndex(cur, n)
    case Prev => PrevIndex(cur, n)
    case Jump(i) => i
  }

  /** `showSlide(t)` completes only when both `slides[t]` and `indicators[t]`
      exist; otherwise it throws before `currentSlide` is assigned. */
  predicate Lands(t: int, n: int, m: int)
  {
    0 <= t < n && t < m
  }

  /** `currentSlide` after one step, with `n` slides and `m` indicators. */
  function StepIndex(cur: int, n: int, m: int, s: Step): (r: int)
    requires n >= 1
  {
    var t := Target(cur, n, s);
    if Lands(t, n, m) then t else cur
  }

  /** `currentSlide` after a sequence of steps. */
  function Run(cur: int, n: int, m: int, steps: seq<Step>): (r: int)
    requires n >= 1
    decreases |steps|
  {
    if steps == [] then cur else Run(StepIndex(cur, n, m, steps[0]), n, m, steps[1..])
  }

  lemma StepIndexInRange(cur: int, n: int, m: int, s: Step)
    requires 0 <= cur < n
    ensures 0 <= StepIndex(cur, n, m, s) < n
  {
    match s
    case Next => NextIndexWraps(cur, n);
    case Prev => PrevIndexWraps(cur, n);
    case Jump(i) =>
  }

  /** Any sequence of next, prev and indicator steps keeps the index on a slide. */
  lemma {:induction false} RunInRange(cur: int, n: int, m: int, steps: seq<Step>)
    requires 0 <= cur < n
    ensures 0 <= Run(cur, n, m, steps) < n
    decreases |steps|
  {
    if steps != [] {
      StepIndexInRange(cur, n, m, steps[0]);
      RunInRange(StepIndex(cur, n, m, steps[0]), n, m, steps[1..]);
    }
  }

  lemma ModOfSumAt(n: int, r: int, a: int, b: int, total: int)
    requires n > 0 && r == a % n && total == a + b
    ensures (r + b) % n == total % n
  {
    ModOfSum(a, b, n);
  }

  /** The signed number of slots a next or prev step moves. */
  function Delta(s: Step): (r: int)
  {
    match s
    case Next => 1
    case Prev => -1
    case Jump(_) => 0
  }

  /** The signed number of slots a sequence of next and prev steps moves. */
  function Offset(steps: seq<Step>): (r: int)
  {
    if steps == [] then 0 else Delta(steps[0]) + Offset(steps[1..])
  }

  predicate OnlyNextPrev(steps: seq<Step>)
  {
    forall k :: 0 <= k < |steps| ==> !steps[k].Jump?
  }

  lemma ModUnique(x: int, d: int, r: int, n: int)
    requires n > 0 && 0 <= r < n && x == d * n + r
    ensures x % n == r
  {
    var k := d - x / n;
    assert x == (x / n) * n + x % n;
    assert k * n == x % n - r;
  }

  lemma ModShift(x: int, q: int, n: int)
    requires n > 0
    ensures (x + q * n) % n == x % n
  {
    var d := x / n;
    assert x == d * n + x % n;
    assert x + q * n == (d + q) * n + x % n;
    ModUnique(x + q * n, d + q, x % n, n);
  }

  lemma ModOfSum(a: int, b: int, n: int)
    requires n > 0
    ensures (a % n + b) % n == (a + b) % n
  {
    var d := a / n;
    assert a == d * n + a % n;
    ModShift(a % n + b, d, n);
    assert a % n + b + d * n == a + b;
  }

  lemma OnlyNextPrevTail(steps: seq<Step>)
    requires steps != [] && OnlyNextPrev(steps)
    ensures OnlyNextPrev(steps[1..]) && !steps[0].Jump?
  {
    forall k | 0 <= k < |steps[1..]| ensures !steps[1..][k].Jump? {
      assert steps[1..][k] == steps[k + 1];
    }
  }

  lemma StepIsShift(cur: int, n: int, m: int, s: Step)
    requires 0 <= cur < n <= m && !s.Jump?
    ensures StepIndex(cur, n, m, s) == (cur + Delta(s)) % n
  {
    StepIndexInRange(cur, n, m, s);
    if s.Prev? {
      ModShift(cur - 1, 1, n);
    }
  }

  /** One next or prev step followed by a shift of `rest` slots is a shift
      of the step's delta plus `rest`. */
  lemma StepThenShift(cur: int, n: int, m: int, s: Step, rest: int)
    requires 0 <= cur < n <= m && !s.Jump?
    ensures (StepIndex(cur, n, m, s) + rest) % n == (cur + (Delta(s) + rest)) % n
  {
    StepIsShift(cur, n, m, s);
    ModOfSumAt(n, StepIndex(cur, n, m, s), cur + Delta(s), rest, cur + (Delta(s) + rest));
  }

  /** With every slide having an indicator, next and prev steps from slide
      `cur` end on `cur` plus the signed number of steps, taken modulo N. */
  lemma {:induction false} RunIsSignedSum(cur: int, n: int, m: int, steps: seq<Step>)
    requires 0 <= cur < n <= m
    requires OnlyNextPrev(steps)
    ensures Run(cur, n, m, steps) == (cur + Offset(steps)) % n
    decreases |steps|
  {
    if steps == [] {
      ModUnique(cur, 0, cur, n);
    } else {
      StepIndexInRange(cur, n, m, steps[0]);
      OnlyNextPrevTail(steps);
      RunIsSignedSum(StepIndex(cur, n, m, steps[0]), n, m, steps[1..]);
      StepThenShift(cur, n, m, steps[0], Offset(steps[1..]));
    }
  }

  /** The three-slide scenario: next, next, next from slide 0 wraps to 0. */
  lemma ThreeNextsWrap()
    ensures Run(0, 3, 3, [Next]) == 1
    ensures Run(0, 3, 3, [Next, Next]) == 2
    ensures Run(0, 3, 3, [Next, Next, Next]) == 0
  {
    assert [Next, Next, Next][1..] == [Next, Next];
    assert [Next, Next][1..] == [Next];
  }

  /** The page events the carousel listens to. `TimerFire(h)` is interval
      `h` calling `nextSlide`. */
  datatype Event =
    | NextClick
    | PrevClick
    | IndicatorClick(i: nat)
    | MouseEnter
    | MouseLeave
    | KeyDown(key: string)
    | TimerFire(h: nat)

  /** The slide change an event asks for, if any. */
  function StepOf(e: Event): (r: Option<Step>)
    ensures r.None? <==> e.MouseEnter? || e.MouseLeave? || (e.KeyDown? && e.key != "ArrowLeft" && e.key != "ArrowRight")
  {
    match e
    case NextClick => Some(Next)
    case PrevClick => Some(Prev)
    case IndicatorClick(i) => Some(Jump(i))
    case KeyDown(key) =>
      if key == "ArrowLeft" then Some(Prev)
      else if key == "ArrowRight" then Some(Next)
      else None
    case TimerFire(_) => Some(Next)
    case _ => None
  }

  /** The timer after an event as the script handles it; `navigated` says
      whether the event's `showSlide` completed (a throw aborts the handler
      before it restarts the timer). */
  function TimerAfter(s: AutoSlide, e: Event, navigated: bool): (r: AutoSlide)
  {
    match e
    case MouseEnter => Stop(s)
    case MouseLeave => Start(s)
    case TimerFire(_) => s
    case _ => if navigated then Start(Stop(s)) else s
  }

  /** The corrected timer handling: `mouseleave` restarts (stop, then start)
      like every other interaction, as pausing on hover implies. */
  function TimerAfterFixed(s: AutoSlide, e: Event, navigated: bool): (r: AutoSlide)
  {
    match e
    case MouseEnter => Stop(s)
    case MouseLeave => Start(Stop(s))
    case TimerFire(_) => s
    case _ => if navigated then Start(Stop(s)) else s
  }

  /** Under the corrected handling no event ever leaves more than the stored
      interval live. */
  lemma FixedKeepsOneInterval(s: AutoSlide, e: Event, navigated: bool)
    requires AtMostStoredLive(s)
    ensures AtMostStoredLive(TimerAfterFixed(s, e, navigated))
    ensures |TimerAfterFixed(s, e, navigated).host.live| <= 1
  {
    match e {
      case MouseEnter =>
      case TimerFire(_) =>
      case _ => RestartLeavesOneLive(s);
    }
    AtMostStoredLiveIsAtMostOne(TimerAfterFixed(s, e, navigated));
  }

  /** The corrected handling over a whole session of events. */
  function TimerRunFixed(s: AutoSlide, events: seq<(Event, bool)>): (r: AutoSlide)
    decreases |events|
  {
    if events == [] then s
    else TimerRunFixed(TimerAfterFixed(s, events[0].0, events[0].1), events[1..])
  }

  lemma {:induction false} FixedRunKeepsOneInterval(s: AutoSlide, events: seq<(Event, bool)>)
    requires AtMostStoredLive(s)
    ensures AtMostStoredLive(TimerRunFixed(s, events))
    ensures |TimerRunFixed(s, events).host.live| <= 1
    decreases |events|
  {
    if events == [] {
      AtMostStoredLiveIsAtMostOne(s);
    } else {
      FixedKeepsOneInterval(s, events[0].0, events[0].1);
      FixedRunKeepsOneInterval(TimerAfterFixed(s, events[0].0, events[0].1), events[1..]);
    }
  }

  /** The timer state the page load leaves, with no interval yet live on the
      page, already keeps at most the stored interval live, whether or not
      the load arms the timer; so the corrected handling keeps at most one
      interval live from load on. */
  lemma LoadKeepsOneInterval(host0: TimerHost, slideCount: nat, events: seq<(Event, bool)>)
    requires host0.Wf() && host0.live == {}
    ensures var s0 := if slideCount > 1 then Start(AutoSlide(host0, None)) else AutoSlide(host0, None);
            AtMostStoredLive(s0) && |TimerRunFixed(s0, events).host.live| <= 1
  {
    var s0 := if slideCount > 1 then Start(AutoSlide(host0, None)) else AutoSlide(host0, None);
    assert AtMostStoredLive(s0);
    FixedRunKeepsOneInterval(s0, events);
  }

  /** As written: hovering, navigating while the mouse is still over the
      gallery (which re-arms the timer), then leaving, leaves two intervals
      live, so the carousel then advances twice per period. */
  lemma HoverNavigateLeaveLeaks(s: AutoSlide, nav: Event)
    requires AtMostStoredLive(s)
    requires StepOf(nav).Some? && !nav.TimerFire?
    ensures var s3 := TimerAfter(TimerAfter(TimerAfter(s, MouseEnter, false), nav, true), MouseLeave, false);
            |s3.host.live| == 2 && !AtMostStoredLive(s3)
  {
    var s1 := TimerAfter(s, MouseEnter, false);
    var s2 := TimerAfter(s1, nav, true);
    assert AtMostStoredLive(s1);
    RestartLeavesOneLive(s1);
    assert s2.host.live == {s1.host.nextId};
    StartLeaksLiveInterval(s2);
  }

  /** The carousel's state. `slides` and `indicators` hold each element's
      `active` class; `host` is the page's timer table. */
  class Carousel {
    const slides: array<bool>
    const indicators: array<bool>
    var currentSlide: int
    var slideInterval: Option<nat>
    var host: TimerHost

    ghost predicate Valid()
      reads this
    {
      1 <= slides.Length && slides != indicators &&
      0 <= currentSlide < slides.Length &&
      host.Wf()
    }

    ghost function Timer(): (r: AutoSlide)
      reads this
    {
      AutoSlide(host, slideInterval)
    }

    /** Whether an event changes slide to completion from the current state. */
    ghost function Navigates(e: Event, cur: int): (r: bool)
    {
      1 <= slides.Length && StepOf(e).Some? && Lands(Target(cur, slides.Length, StepOf(e).value), slides.Length, indicators.Length)
    }

    /** The flags and index after `showSlide(index)` called with `currentSlide`
        equal to `before`: every flag cleared, then slide and indicator `index`
        set as far as they exist, and the index taken only when both do. */
    ghost predicate Showed(index: int, before: int, ok: bool)
      reads this, slides, indicators
    {
      ok == Lands(index, slides.Length, indicators.Length) &&
      slides[..] == OneHot(slides.Length, index) &&
      indicators[..] == (if ok then OneHot(indicators.Length, index) else AllClear(indicators.Length)) &&
      currentSlide == (if ok then index else before)
    }

    /** Page load: the flags come from the markup, `currentSlide` is 0, and
        the timer is armed only when there is more than one slide. */
    constructor (slideFlags: seq<bool>, indicatorFlags: seq<bool>, host0: TimerHost)
      requires 1 <= |slideFlags| && host0.Wf()
      ensures Valid() && fresh(slides) && fresh(indicators)
      ensures slides[..] == slideFlags && indicators[..] == indicatorFlags
      ensures currentSlide == 0
      ensures Timer() == if |slideFlags| > 1 then Start(AutoSlide(host0, None)) else AutoSlide(host0, None)
      ensures host.live != host0.live <==> |slideFlags| > 1
    {
      slides := new bool[|slideFlags|](j requires 0 <= j < |slideFlags| => slideFlags[j]);
      indicators := new bool[|indicatorFlags|](j requires 0 <= j < |indicatorFlags| => indicatorFlags[j]);
      currentSlide := 0;
      slideInterval := None;
      host := host0;
      new;
      if slides.Length > 1 {
        StartAutoSlide();
        assert host0.nextId !in host0.live;
      }
    }

    /** `showSlide(index)`; `ok` is false where the script throws. */
    method ShowSlide(index: int) returns (ok: bool)
      requires Valid()
      modifies this`currentSlide, slides, indicators
      ensures Valid() && Showed(index, old(currentSlide), ok)
      ensures currentSlide == StepIndex(old(currentSlide), slides.Length, indicators.Length, Jump(index))
    {
      ClearAll(slides);
      ClearAll(indicators);
      if !(0 <= index < slides.Length) {
        return false;
      }
      slides[index] := true;
      if !(index < indicators.Length) {
        assert OneHot(indicators.Length, index) == AllClear(indicators.Length);
        return false;
      }
      indicators[index] := true;
      currentSlide := index;
      ok := true;
    }

    method NextSlide() returns (ok: bool)
      requires Valid()
      modifies this`currentSlide, slides, indicators
      ensures Valid() && Showed(NextIndex(old(currentSlide), slides.Length), old(currentSlide), ok)
      ensures currentSlide == StepIndex(old(currentSlide), slides.Length, indicators.Length, Next)
    {
      ok := ShowSlide(NextIndex(currentSlide, slides.Length));
    }

    method PrevSlide() returns (ok: bool)
      requires Valid()
      modifies this`currentSlide, slides, indicators
      ensures Valid() && Showed(PrevIndex(old(currentSlide), slides.Length), old(currentSlide), ok)
      ensures currentSlide == StepIndex(old(currentSlide), slides.Length, indicators.Length, Prev)
    {
      ok := ShowSlide(PrevIndex(currentSlide, slides.Length));
    }

    method StartAutoSlide()
      requires Valid()
      modifies this`slideInterval, this`host
      ensures Valid() && Timer() == Start(old(Timer()))
    {
      slideInterval := Some(host.nextId);
      host := host.SetInterval();
    }

    method StopAutoSlide()
      requires Valid()
      modifies this`host
      ensures Valid() && Timer() == Stop(old(Timer()))
    {
      host := host.ClearInterval(slideInterval);
    }

    /** One event handled as its listener does: buttons, indicators,
        ArrowLeft and ArrowRight change slide and, when that completes, stop
        and restart the timer; other keys do nothing; hover stops the timer
        and leaving starts it; a live interval advances. */
    method Handle(e: Event)
      requires Valid()
      requires e.IndicatorClick? ==> e.i < indicators.Length
      requires e.TimerFire? ==> e.h in host.live
      modifies this, slides, indicators
      ensures Valid()
      ensures StepOf(e).Some? ==>
        Showed(Target(old(currentSlide), slides.Length, StepOf(e).value), old(currentSlide), Navigates(e, old(currentSlide)))
      ensures StepOf(e).Some? ==>
        currentSlide == StepIndex(old(currentSlide), slides.Length, indicators.Length, StepOf(e).value)
      ensures StepOf(e).None? ==> unchanged(slides, indicators) && currentSlide == old(currentSlide)
      ensures Timer() == TimerAfter(old(Timer()), e, Navigates(e, old(currentSlide)))
    {
      var ok := false;
      match e {
        case NextClick =>
          ok := NextSlide();
        case PrevClick =>
          ok := PrevSlide();
        case IndicatorClick(i) =>
          ok := ShowSlide(i);
        case MouseEnter =>
          StopAutoSlide();
        case MouseLeave =>
          StartAutoSlide();
        case KeyDown(key) =>
          if key == "ArrowLeft" {
            ok := PrevSlide();
          } else if key == "ArrowRight" {
            ok := NextSlide();
          }
        case TimerFire(_) =>
          ok := NextSlide();
          return;
      }
      if ok {
        StopAutoSlide();
        StartAutoSlide();
      }
    }
  }
}
