/** The carousel's auto-advance timer: the page's `slideInterval` variable
    together with the host's table of live repeating intervals. Only which
    intervals are live is modelled, not when they fire. */
module AutoAdvance {
  import opened Options

  /** The host timer facility: the ids of the intervals still live and the
      id the next `setInterval` will hand out (ids are fresh and increasing).
      `clearInterval` of `undefined`, or of an id already cleared, does nothing. */
  datatype TimerHost = TimerHost(live: set<nat>, nextId: nat)
  {
    ghost predicate Wf()
    {
      forall h :: h in live ==> h < nextId
    }

    function SetInterval(): (t: TimerHost)
      ensures t.live == live + {nextId} && t.nextId > nextId
    {
      TimerHost(live + {nextId}, nextId + 1)
    }

    function ClearInterval(h: Option<nat>): (t: TimerHost)
      ensures t.nextId == nextId
      ensures t.live == if h.Some? then live - {h.value} else live
    {
      if h.Some? then TimerHost(live - {h.value}, nextId) else this
    }
  }

  /** The timer state the carousel sees: the host's table and the handle
      stored in `slideInterval` (`None` while it is still `undefined`). */
  datatype AutoSlide = AutoSlide(host: TimerHost, stored: Option<nat>)

  function StoredIds(o: Option<nat>): (r: set<nat>)
  {
    if o.Some? then {o.value} else {}
  }

  /** `startAutoSlide`: arm a new interval and overwrite the stored handle;
      an interval armed earlier is not cleared. */
  function Start(s: AutoSlide): (r: AutoSlide)
    ensures r.stored == Some(s.host.nextId)
    ensures r.host.live == s.host.live + {s.host.nextId}
    ensures s.host.Wf() ==> r.host.Wf() && s.host.nextId !in s.host.live
  {
    AutoSlide(s.host.SetInterval(), Some(s.host.nextId))
  }

  /** `stopAutoSlide`: clear the stored handle; the variable keeps its value. */
  function Stop(s: AutoSlide): (r: AutoSlide)
    ensures r.stored == s.stored
    ensures r.host.live == s.host.live - StoredIds(s.stored)
    ensures s.host.Wf() ==> r.host.Wf()
  {
    AutoSlide(s.host.ClearInterval(s.stored), s.stored)
  }

  /** At most one interval is live, and it is the stored one. */
  ghost predicate AtMostStoredLive(s: AutoSlide)
  {
    s.host.Wf() && s.host.live <= StoredIds(s.stored)
  }

  lemma AtMostStoredLiveIsAtMostOne(s: AutoSlide)
    requires AtMostStoredLive(s)
    ensures |s.host.live| <= 1
  {
    if s.stored.Some? {
      assert |StoredIds(s.stored)| == 1;
      assert s.host.live == {} || s.host.live == {s.stored.value};
    } else {
      assert s.host.live == {};
    }
  }

  /** Stop-then-start, as every button, indicator and arrow-key handler does,
      leaves exactly one live interval, the newly stored one, when at most the
      stored interval was live before. */
  lemma RestartLeavesOneLive(s: AutoSlide)
    requires AtMostStoredLive(s)
    ensures Start(Stop(s)).host.live == {s.host.nextId}
    ensures Start(Stop(s)).stored == Some(s.host.nextId)
    ensures AtMostStoredLive(Start(Stop(s)))
  {
  }

  /** Hovering pauses auto-advance completely when no interval has leaked:
      after `mouseenter` no interval is live. */
  lemma EnterPauses(s: AutoSlide)
    requires AtMostStoredLive(s)
    ensures Stop(s).host.live == {}
  {
  }

  /** `mouseenter` clears the stored interval and leaves nothing of it live. */
  lemma StopClearsStored(s: AutoSlide)
    requires s.stored.Some?
    ensures s.stored.value !in Stop(s).host.live
    ensures forall h :: h in s.host.live && h != s.stored.value ==> h in Stop(s).host.live
  {
  }

  /** `mouseleave` arms without clearing: an interval that is still live
      stays live next to the new one and is no longer reachable through the
      stored handle. */
  lemma StartLeaksLiveInterval(s: AutoSlide)
    requires s.host.Wf() && s.stored.Some? && s.stored.value in s.host.live
    ensures s.stored.value in Start(s).host.live
    ensures Start(s).stored.value in Start(s).host.live
    ensures Start(s).stored != s.stored
    ensures |Start(s).host.live| == |s.host.live| + 1
    ensures !AtMostStoredLive(Start(s))
  {
  }
}
