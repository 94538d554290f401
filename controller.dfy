/** The slide-deck controller as the page script runs it: module-level
    variables become fields, the slide and dot elements become arrays of
    "active" marks that the handlers change in place. Each method is proved
    to move the object from Model() to the state the matching function of
    module Deck gives. */
module Controller {
  import opened Sparks
  import opened Input
  import opened Deck

  class Presentation {
    const slides: array<bool>
    const dots: array<bool>
    var current: nat
    var canvasActive: bool
    var sparks: seq<Spark>
    var orphans: nat
    var handleLive: bool
    var fullscreen: bool
    var touchStartX: real
    var touchEndX: real

    function Model(): State
      reads this, slides, dots
    {
      State(current, slides[..], dots[..], canvasActive, sparks, orphans, handleLive,
            fullscreen, touchStartX, touchEndX)
    }

    ghost predicate Valid()
      reads this, slides, dots
    {
      slides != dots && Inv(Model())
    }

    /** The state once the script has loaded; the marks are those the
        document was written with. */
    constructor (slideMarks: seq<bool>, dotMarks: seq<bool>)
      requires |slideMarks| >= 1 && |dotMarks| == |slideMarks|
      ensures Valid() && fresh(slides) && fresh(dots)
      ensures Model() == Initial(slideMarks, dotMarks)
    {
      slides := new bool[|slideMarks|](k requires 0 <= k < |slideMarks| => slideMarks[k]);
      dots := new bool[|dotMarks|](k requires 0 <= k < |dotMarks| => dotMarks[k]);
      current := 0;
      canvasActive := false;
      sparks := [];
      orphans := 0;
      handleLive := false;
      fullscreen := false;
      touchStartX := 0.0;
      touchEndX := 0.0;
      new;
      assert slides[..] == slideMarks;
      assert dots[..] == dotMarks;
    }

    /** animateSparks: spawn, filter, update each survivor in place, then
        request the next frame, overwriting the stored id. */
    method AnimateSparks(env: Env)
      requires Valid()
      modifies this
      ensures Valid()
      ensures Model() == Animate(old(Model()), env)
    {
      ghost var before := Model();
      if Spawns(env.spawnRoll) {
        sparks := sparks + [NewSpark(env.decayRoll)];
      }
      sparks := Alive(sparks);
      ghost var survivors := sparks;
      var live := sparks;
      var k := 0;
      while k < |live|
        invariant 0 <= k <= |live| == |survivors|
        invariant forall j :: 0 <= j < k ==> live[j] == Update(survivors[j])
        invariant forall j :: k <= j < |live| ==> live[j] == survivors[j]
      {
        live := live[k := Update(live[k])];
        k := k + 1;
      }
      sparks := live;
      if handleLive {
        orphans := orphans + 1;
      }
      handleLive := true;
      assert sparks == Frame(before.sparks, env.spawnRoll, env.decayRoll);
      AnimateKeepsInv(before, env);
    }

    /** showSlide: clear every mark, mark slide and dot i, record i, and
        start or stop the spark loop. */
    method ShowSlide(i: nat, env: Env)
      requires Valid() && i < slides.Length
      modifies this, slides, dots
      ensures Valid()
      ensures Model() == Deck.ShowSlide(old(Model()), i, env)
    {
      ghost var before := Model();
      ShowSlideKeepsInv(before, i, env);
      ClearMarks(slides);
      ClearMarks(dots);
      slides[i] := true;
      dots[i] := true;
      current := i;
      assert slides[..] == OnlyAt(slides.Length, i);
      assert dots[..] == OnlyAt(dots.Length, i);
      ghost var marked := before.(slides := OnlyAt(|before.slides|, i), dots := OnlyAt(|before.dots|, i), current := i);
      assert Model() == marked;
      if i == slides.Length - 1 {
        canvasActive := true;
        AnimateSparks(env);
      } else {
        canvasActive := false;
        // cancelAnimationFrame on the stored id: withdraws it if still pending
        handleLive := false;
        sparks := [];
      }
    }

    method NextSlide(env: Env)
      requires Valid()
      modifies this, slides, dots
      ensures Valid()
      ensures Model() == Deck.NextSlide(old(Model()), env)
    {
      if current < slides.Length - 1 {
        ShowSlide(current + 1, env);
      }
    }

    method PrevSlide(env: Env)
      requires Valid()
      modifies this, slides, dots
      ensures Valid()
      ensures Model() == Deck.PrevSlide(old(Model()), env)
    {
      if current > 0 {
        ShowSlide(current - 1, env);
      }
    }

    /** The click handler of the dot at `index`. */
    method ClickDot(index: nat, env: Env)
      requires Valid() && index < dots.Length
      modifies this, slides, dots
      ensures Valid()
      ensures Model() == Handle(old(Model()), DotClick(index), env)
    {
      ShowSlide(index, env);
    }

    method ToggleFullscreen(env: Env)
      requires Valid()
      modifies this
      ensures Valid()
      ensures Model() == Deck.ToggleFullscreen(old(Model()), env)
    {
      if !fullscreen {
        if env.fullscreenGranted {
          fullscreen := true;
        }
      } else {
        fullscreen := false;
      }
    }

    /** The keydown handler. */
    method KeyDown(key: string, env: Env)
      requires Valid()
      modifies this, slides, dots
      ensures Valid()
      ensures Model() == Deck.KeyDown(old(Model()), key, env)
    {
      if key == "ArrowRight" || ToLower(key) == "c" {
        NextSlide(env);
      } else if key == "ArrowLeft" {
        PrevSlide(env);
      } else if ToLower(key) == "f" {
        ToggleFullscreen(env);
      } else if key == "Escape" {
        if fullscreen {
          fullscreen := false;
        }
      }
    }

    method TouchStart(x: real)
      requires Valid()
      modifies this
      ensures Valid()
      ensures Model() == Deck.TouchStart(old(Model()), x)
    {
      touchStartX := x;
    }

    method TouchEnd(x: real, env: Env)
      requires Valid()
      modifies this, slides, dots
      ensures Valid()
      ensures Model() == Deck.TouchEnd(old(Model()), x, env)
    {
      touchEndX := x;
      if touchStartX - touchEndX > SwipeThreshold {
        NextSlide(env);
      }
      if touchEndX - touchStartX > SwipeThreshold {
        PrevSlide(env);
      }
    }

    /** The browser leaves fullscreen on its own. */
    method FullscreenLeft()
      requires Valid()
      modifies this
      ensures Valid()
      ensures Model() == Handle(old(Model()), Event.FullscreenLeft, Env(0.0, 0.0, false))
    {
      fullscreen := false;
    }

    /** The host runs one of the scheduled spark frames. */
    method SparkFrameDue(env: Env)
      requires Valid() && ScheduledLoops(Model()) > 0
      modifies this
      ensures Valid()
      ensures Model() == FrameFires(old(Model()), env)
    {
      if handleLive {
        handleLive := false;
      } else {
        orphans := orphans - 1;
      }
      AnimateSparks(env);
    }
  }

  /** The forEach that removes the "active" class from every element. */
  method ClearMarks(marks: array<bool>)
    modifies marks
    ensures forall m :: 0 <= m < marks.Length ==> !marks[m]
  {
    var k := 0;
    while k < marks.Length
      invariant 0 <= k <= marks.Length
      invariant forall m :: 0 <= m < k ==> !marks[m]
    {
      marks[k] := false;
      k := k + 1;
    }
  }
}
