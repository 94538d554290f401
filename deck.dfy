/** The presentation's state as a value, and each handler of the slide deck
    as a function from the state before to the state after. The class in
    module Controller is proved to follow these functions. */
module Deck {
  import opened Sparks
  import opened Input

  /** What the host answers during one event: the random draws a spark frame
      may make, and whether a fullscreen request would be granted. */
  datatype Env = Env(spawnRoll: Draw, decayRoll: Draw, fullscreenGranted: bool)

  /** The script's module state plus the "active" marks it toggles.
      The spark loop is tracked by its pending frame requests: `handleLive`
      says the request named by the stored animation id is still pending,
      `orphans` counts pending requests whose id was overwritten; no cancel
      reaches them until one fires and its next request is stored again. */
  datatype State = State(
    current: nat,
    slides: seq<bool>,
    dots: seq<bool>,
    canvasActive: bool,
    sparks: seq<Spark>,
    orphans: nat,
    handleLive: bool,
    fullscreen: bool,
    touchStartX: real,
    touchEndX: real)

  /** The events the handlers react to. `FrameDue` is the host running one
      scheduled spark frame; `FullscreenLeft` is the browser leaving
      fullscreen on its own (its Esc handling or exit controls), which
      changes what `document.fullscreenElement` reads without any call of
      the script. */
  datatype Event = KeyPress(key: string) | DotClick(index: nat) | TouchStartAt(x: real)
                 | TouchEndAt(x: real) | FrameDue | FullscreenLeft

  /** The document has one dot per slide, and the index names a slide. */
  predicate WellFormed(s: State) {
    |s.dots| == |s.slides| && s.current < |s.slides|
  }

  predicate Inv(s: State) {
    WellFormed(s) && AllLive(s.sparks)
  }

  function ScheduledLoops(s: State): nat {
    s.orphans + if s.handleLive then 1 else 0
  }

  /** Exactly the flag at `i` is set. */
  predicate MarkedOnlyAt(flags: seq<bool>, i: nat) {
    i < |flags| && forall k :: 0 <= k < |flags| ==> (flags[k] <==> k == i)
  }

  function CountMarked(flags: seq<bool>): nat {
    if flags == [] then 0 else (if flags[0] then 1 else 0) + CountMarked(flags[1..])
  }

  function OnlyAt(n: nat, i: nat): seq<bool> {
    seq(n, k => k == i)
  }

  /** The state right after the page script has run: the first slide is the
      current one, the marks are those of the document, and nothing runs. */
  function Initial(slideMarks: seq<bool>, dotMarks: seq<bool>): (s: State)
    requires |slideMarks| >= 1 && |dotMarks| == |slideMarks|
    ensures Inv(s) && s.current == 0 && ScheduledLoops(s) == 0 && s.sparks == []
  {
    State(0, slideMarks, dotMarks, false, [], 0, false, false, 0.0, 0.0)
  }

  /** animateSparks: one frame now, then a new frame request whose id
      overwrites the stored one. */
  function Animate(s: State, env: Env): State {
    s.(sparks := Frame(s.sparks, env.spawnRoll, env.decayRoll),
       orphans := if s.handleLive then s.orphans + 1 else s.orphans,
       handleLive := true)
  }

  /** cancelAnimationFrame on the stored id: only that request is withdrawn. */
  function Cancel(s: State): State {
    s.(handleLive := false)
  }

  function ShowSlide(s: State, i: nat, env: Env): State
    requires i < |s.slides| && i < |s.dots|
  {
    var marked := s.(slides := OnlyAt(|s.slides|, i), dots := OnlyAt(|s.dots|, i), current := i);
    if i == |s.slides| - 1 then Animate(marked.(canvasActive := true), env)
    else Cancel(marked.(canvasActive := false)).(sparks := [])
  }

  function NextSlide(s: State, env: Env): State
    requires WellFormed(s)
  {
    if s.current < |s.slides| - 1 then ShowSlide(s, s.current + 1, env) else s
  }

  function PrevSlide(s: State, env: Env): State
    requires WellFormed(s)
  {
    if s.current > 0 then ShowSlide(s, s.current - 1, env) else s
  }

  /** toggleFullscreen: a request that may be refused, or an exit. */
  function ToggleFullscreen(s: State, env: Env): State {
    if !s.fullscreen then (if env.fullscreenGranted then s.(fullscreen := true) else s)
    else s.(fullscreen := false)
  }

  /** The browser leaves fullscreen by itself. */
  function BrowserExitsFullscreen(s: State): State {
    s.(fullscreen := false)
  }

  function Perform(s: State, a: Action, env: Env): State
    requires WellFormed(s)
  {
    match a
    case GoNext => NextSlide(s, env)
    case GoPrev => PrevSlide(s, env)
    case ToggleFullscreen => ToggleFullscreen(s, env)
    case ExitFullscreen => s.(fullscreen := false)
    case NoAction => s
  }

  function KeyDown(s: State, key: string, env: Env): State
    requires WellFormed(s)
  {
    Perform(s, KeyAction(key, s.fullscreen), env)
  }

  function TouchStart(s: State, x: real): State {
    s.(touchStartX := x)
  }

  /** touchend: record the end point, then the two tests in turn. */
  function TouchEnd(s: State, x: real, env: Env): State
    requires WellFormed(s)
  {
    var s1 := s.(touchEndX := x);
    var s2 := if s1.touchStartX - s1.touchEndX > SwipeThreshold then NextSlide(s1, env) else s1;
    if s2.touchEndX - s2.touchStartX > SwipeThreshold then PrevSlide(s2, env) else s2
  }

  /** The host runs one pending spark frame. Whichever pending request fires,
      the loop it belongs to makes the next request, whose id is then stored. */
  function FrameFires(s: State, env: Env): State
    requires ScheduledLoops(s) > 0
  {
    var consumed := if s.handleLive then s.(handleLive := false) else s.(orphans := s.orphans - 1);
    Animate(consumed, env)
  }

  /** One event and its handler; a frame is due only while one is scheduled. */
  function Handle(s: State, e: Event, env: Env): (r: State)
    requires WellFormed(s)
    requires e.DotClick? ==> e.index < |s.dots|
    ensures WellFormed(r) && |r.slides| == |s.slides|
  {
    match e
    case KeyPress(key) => KeyDown(s, key, env)
    case DotClick(j) => ShowSlide(s, j, env)
    case TouchStartAt(x) => TouchStart(s, x)
    case TouchEndAt(x) => TouchEnd(s, x, env)
    case FrameDue => if ScheduledLoops(s) > 0 then FrameFires(s, env) else s
    case FullscreenLeft => BrowserExitsFullscreen(s)
  }

  predicate DotsInRange(events: seq<(Event, Env)>, n: nat) {
    forall k :: 0 <= k < |events| ==> (events[k].0.DotClick? ==> events[k].0.index < n)
  }

  /** A run of events from a state; the current index stays a slide index
      and the deck keeps its size. */
  function Run(s: State, events: seq<(Event, Env)>): (r: State)
    requires WellFormed(s)
    requires DotsInRange(events, |s.slides|)
    ensures WellFormed(r) && |r.slides| == |s.slides|
    decreases |events|
  {
    if events == [] then s
    else
      var next := Handle(s, events[0].0, events[0].1);
      assert DotsInRange(events[1..], |next.slides|) by {
        forall k | 0 <= k < |events| - 1
          ensures events[1..][k].0.DotClick? ==> events[1..][k].0.index < |next.slides|
        {
          assert events[1..][k] == events[k + 1];
        }
      }
      Run(next, events[1..])
  }

  // ---- Properties ----

  lemma {:induction false} CountUnmarked(flags: seq<bool>)
    requires forall k :: 0 <= k < |flags| ==> !flags[k]
    ensures CountMarked(flags) == 0
  {
    if flags != [] {
      CountUnmarked(flags[1..]);
    }
  }

  /** A flag list marked only at one index has exactly one mark. */
  lemma {:induction false} MarkedOnlyAtCountsOne(flags: seq<bool>, i: nat)
    requires MarkedOnlyAt(flags, i)
    ensures CountMarked(flags) == 1
  {
    if i == 0 {
      CountUnmarked(flags[1..]);
    } else {
      assert MarkedOnlyAt(flags[1..], i - 1);
      MarkedOnlyAtCountsOne(flags[1..], i - 1);
    }
  }

  /** After showSlide(i) slide i and dot i are the only ones marked active,
      one of each, and i is the current slide. */
  lemma ShowSlideMarksOnlyTarget(s: State, i: nat, env: Env)
    requires i < |s.slides| && i < |s.dots|
    ensures var r := ShowSlide(s, i, env);
            r.current == i && MarkedOnlyAt(r.slides, i) && MarkedOnlyAt(r.dots, i) &&
            CountMarked(r.slides) == 1 && CountMarked(r.dots) == 1 &&
            |r.slides| == |s.slides| && |r.dots| == |s.dots|
  {
    var r := ShowSlide(s, i, env);
    assert MarkedOnlyAt(r.slides, i);
    assert MarkedOnlyAt(r.dots, i);
    MarkedOnlyAtCountsOne(r.slides, i);
    MarkedOnlyAtCountsOne(r.dots, i);
  }

  /** showSlide(last) marks the spark canvas, runs one frame and schedules
      one more loop; any other index unmarks it, withdraws the stored request
      and leaves no sparks. Fullscreen and touch state are untouched. */
  lemma ShowSlideSparkLifecycle(s: State, i: nat, env: Env)
    requires i < |s.slides| && i < |s.dots|
    ensures var r := ShowSlide(s, i, env);
            r.fullscreen == s.fullscreen && r.touchStartX == s.touchStartX && r.touchEndX == s.touchEndX
    ensures var r := ShowSlide(s, i, env);
            i == |s.slides| - 1 ==>
              r.canvasActive && r.handleLive && ScheduledLoops(r) == ScheduledLoops(s) + 1 &&
              r.sparks == Frame(s.sparks, env.spawnRoll, env.decayRoll)
    ensures var r := ShowSlide(s, i, env);
            i != |s.slides| - 1 ==>
              !r.canvasActive && !r.handleLive && r.sparks == [] && r.orphans == s.orphans &&
              ScheduledLoops(r) == ScheduledLoops(s) - (if s.handleLive then 1 else 0)
  {
  }

  /** nextSlide moves forward by exactly one below the last slide and is a
      no-op on it. */
  lemma NextSlideStep(s: State, env: Env)
    requires WellFormed(s)
    ensures var r := NextSlide(s, env);
            WellFormed(r) &&
            (s.current < |s.slides| - 1 ==> r.current == s.current + 1 && MarkedOnlyAt(r.slides, r.current)) &&
            (s.current == |s.slides| - 1 ==> r == s)
  {
  }

  /** prevSlide moves back by exactly one above the first slide and is a
      no-op on it. */
  lemma PrevSlideStep(s: State, env: Env)
    requires WellFormed(s)
    ensures var r := PrevSlide(s, env);
            WellFormed(r) &&
            (s.current > 0 ==> r.current == s.current - 1 && MarkedOnlyAt(r.slides, r.current)) &&
            (s.current == 0 ==> r == s)
  {
  }

  /** Starting the loop is not idempotent: showing the last slide twice and
      then leaving it leaves one loop scheduled while the canvas is unmarked. */
  lemma RestartLeavesStrayLoop(s: State, e1: Env, e2: Env, e3: Env)
    requires WellFormed(s) && |s.slides| >= 2 && ScheduledLoops(s) == 0
    ensures var last := |s.slides| - 1;
            var twice := ShowSlide(ShowSlide(s, last, e1), last, e2);
            var left := ShowSlide(twice, 0, e3);
            ScheduledLoops(twice) == 2 && !left.canvasActive && left.sparks == [] &&
            ScheduledLoops(left) == 1 && left.orphans == 1
  {
  }

  /** The stray loop is unreachable only until it fires: its next request is
      stored again, so a later showSlide of a non-last slide cancels it. */
  lemma StrayLoopCancelledAfterFiring(s: State, e1: Env, e2: Env, e3: Env, e4: Env, e5: Env)
    requires WellFormed(s) && |s.slides| >= 3 && ScheduledLoops(s) == 0
    ensures var last := |s.slides| - 1;
            var left := ShowSlide(ShowSlide(ShowSlide(s, last, e1), last, e2), 0, e3);
            var fired := FrameFires(left, e4);
            fired.handleLive && fired.orphans == 0 && !fired.canvasActive &&
            ScheduledLoops(ShowSlide(fired, 1, e5)) == 0
  {
    RestartLeavesStrayLoop(s, e1, e2, e3);
  }

  /** The browser leaving fullscreen by itself makes the next toggle request
      fullscreen again; only the script's own calls and this event change
      the flag. */
  lemma ToggleAfterBrowserExit(s: State, env: Env)
    requires env.fullscreenGranted
    ensures ToggleFullscreen(BrowserExitsFullscreen(ToggleFullscreen(s.(fullscreen := false), env)), env).fullscreen
  {
  }

  /** A refused request changes nothing; a granted one enters fullscreen; in
      fullscreen the toggle exits. */
  lemma ToggleFullscreenRule(s: State, env: Env)
    ensures !s.fullscreen && !env.fullscreenGranted ==> ToggleFullscreen(s, env) == s
    ensures !s.fullscreen && env.fullscreenGranted ==> ToggleFullscreen(s, env) == s.(fullscreen := true)
    ensures s.fullscreen ==> ToggleFullscreen(s, env) == s.(fullscreen := false)
  {
  }

  /** Escape leaves fullscreen when in it and is a no-op otherwise; keys the
      handler does not test change nothing. */
  lemma KeyDownOthersNoop(s: State, key: string, env: Env)
    requires WellFormed(s)
    ensures key == "Escape" ==> KeyDown(s, key, env) == s.(fullscreen := false)
    ensures key !in {"ArrowRight", "c", "C", "ArrowLeft", "f", "F", "Escape"} ==> KeyDown(s, key, env) == s
  {
    KeyDispatch(key, s.fullscreen);
  }

  /** The two sequential tests of touchend amount to performing the single
      action the swipe rule picks. */
  lemma TouchEndFollowsSwipe(s: State, x: real, env: Env)
    requires WellFormed(s)
    ensures TouchEnd(s, x, env) == Perform(s.(touchEndX := x), SwipeAction(s.touchStartX, x), env)
  {
    var s1 := s.(touchEndX := x);
    if s1.touchStartX - s1.touchEndX > SwipeThreshold {
      var s2 := NextSlide(s1, env);
      assert s2.touchStartX == s1.touchStartX && s2.touchEndX == x;
    }
  }

  /** A running spark frame keeps the number of scheduled loops. */
  lemma FrameFiresKeepsLoops(s: State, env: Env)
    requires ScheduledLoops(s) > 0
    ensures var r := FrameFires(s, env);
            ScheduledLoops(r) == ScheduledLoops(s) && r.handleLive &&
            r.sparks == Frame(s.sparks, env.spawnRoll, env.decayRoll) &&
            r.current == s.current && r.slides == s.slides && r.dots == s.dots
  {
  }

  lemma AnimateKeepsInv(s: State, env: Env)
    requires Inv(s)
    ensures Inv(Animate(s, env))
  {
    FramePreservesLive(s.sparks, env.spawnRoll, env.decayRoll);
  }

  lemma ShowSlideKeepsInv(s: State, i: nat, env: Env)
    requires Inv(s) && i < |s.slides|
    ensures Inv(ShowSlide(s, i, env))
  {
    var marked := s.(slides := OnlyAt(|s.slides|, i), dots := OnlyAt(|s.dots|, i), current := i);
    if i == |s.slides| - 1 {
      AnimateKeepsInv(marked.(canvasActive := true), env);
    }
  }

  /** Every handler keeps the invariant: a current index naming a slide, one
      dot per slide, and Live sparks. */
  lemma HandleKeepsInv(s: State, e: Event, env: Env)
    requires Inv(s)
    requires e.DotClick? ==> e.index < |s.dots|
    ensures Inv(Handle(s, e, env))
  {
    match e
    case KeyPress(key) =>
      if s.current < |s.slides| - 1 { ShowSlideKeepsInv(s, s.current + 1, env); }
      if s.current > 0 { ShowSlideKeepsInv(s, s.current - 1, env); }
    case DotClick(j) => ShowSlideKeepsInv(s, j, env);
    case TouchStartAt(x) =>
    case FullscreenLeft =>
    case TouchEndAt(x) =>
      var s1 := s.(touchEndX := x);
      if s1.current < |s1.slides| - 1 { ShowSlideKeepsInv(s1, s1.current + 1, env); }
      var s2 := if s1.touchStartX - s1.touchEndX > SwipeThreshold then NextSlide(s1, env) else s1;
      assert Inv(s2);
      if s2.current > 0 { ShowSlideKeepsInv(s2, s2.current - 1, env); }
    case FrameDue =>
      if ScheduledLoops(s) > 0 {
        var consumed := if s.handleLive then s.(handleLive := false) else s.(orphans := s.orphans - 1);
        AnimateKeepsInv(consumed, env);
      }
  }

  lemma {:induction false} RunKeepsInv(s: State, events: seq<(Event, Env)>)
    requires Inv(s)
    requires DotsInRange(events, |s.slides|)
    ensures Inv(Run(s, events))
    decreases |events|
  {
    if events != [] {
      var next := Handle(s, events[0].0, events[0].1);
      HandleKeepsInv(s, events[0].0, events[0].1);
      assert DotsInRange(events[1..], |next.slides|) by {
        forall k | 0 <= k < |events| - 1
          ensures events[1..][k].0.DotClick? ==> events[1..][k].0.index < |next.slides|
        {
          assert events[1..][k] == events[k + 1];
        }
      }
      RunKeepsInv(next, events[1..]);
    }
  }

  /** From the initial state, any sequence of key presses, dot clicks, swipes
      and spark frames keeps the current index in [0, totalSlides - 1] and
      every spark Live. */
  lemma ReachableInRange(slideMarks: seq<bool>, dotMarks: seq<bool>, events: seq<(Event, Env)>)
    requires |slideMarks| >= 1 && |dotMarks| == |slideMarks|
    requires DotsInRange(events, |slideMarks|)
    ensures var r := Run(Initial(slideMarks, dotMarks), events);
            r.current < |slideMarks| && |r.slides| == |slideMarks| && AllLive(r.sparks)
  {
    RunKeepsInv(Initial(slideMarks, dotMarks), events);
  }
}
