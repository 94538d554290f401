# Slide-deck controller of the Himatic presentation page, in Dafny

`script.js` drives a slide presentation in the browser. It keeps a current
slide index and marks one slide element and one navigation dot as
"active". Keyboard keys, dot clicks and horizontal touch swipes move
between slides, and a key toggles fullscreen. While the closing slide is
shown, a "spark" particle loop runs on its own canvas. This project models
that controller and the discrete life cycle of the sparks, and proves
properties of the model.

Modules:

- `Sparks` (`sparks.dfy`): a spark reduced to its `life` and `decay`. This
  module holds the spark constructor, the update step, the filter on
  remaining life, and one frame of the spark loop (spawn, then filter, then
  update). `Draw` stands for a value of the host's `Math.random()`, a real in
  [0, 1): a frame spawns a spark when its draw is below 0.3, and a new spark
  gets `decay = draw * 0.01 + 0.005`.
- `Input` (`input.dfy`): the keydown chain of tests and the touchend swipe
  rule, as functions from event values to the action they choose.
- `Deck` (`deck.dfy`): the controller's whole state as a value (`State`),
  every handler as a function from state to state, and the lemmas about
  them. The spark loop is counted by its pending frame requests. `handleLive`
  says the request whose id is stored in `sparkAnimationId` is still pending.
  `orphans` counts pending requests whose id was overwritten by a later
  start. No cancel reaches such a request until it fires and its loop's
  next request is stored again.
- `Controller` (`controller.dfy`): class `Presentation`. The script's module
  variables are its fields, and the slide and dot elements are two
  `array<bool>` of "active" marks. `ShowSlide` clears and sets those marks in
  place with loops. `AnimateSparks` updates every survivor in place. Every
  method states `Model() == Deck.<handler>(old(Model()), ...)`, and keeps
  `Valid()`.

Behaviour of the code that the model keeps as written:

- A spark's life is not kept in [0, 1]. The update runs after the filter, so
  a survivor can end a frame with life zero or below. It is removed only by
  the next frame's filter (`Sparks.ExpiredSurvivorLeavesNextFrame`). What
  does hold at the end of every frame is `Sparks.Live`: the life before the
  last update was in (0, 1].
- Starting the spark loop is not idempotent. Clicking the dot of the closing
  slide while it is shown calls `animateSparks()` again, and a second loop is
  scheduled. Leaving the slide cancels only the stored request, so one loop
  keeps running with the canvas unmarked (`Deck.RestartLeavesStrayLoop`).
  It runs until it has fired once, which stores its next request's id, and
  a later showSlide of a non-last slide then cancels it
  (`Deck.StrayLoopCancelledAfterFiring`).
- The keys `C` and `F` act like `c` and `f`, because the handler
  lower-cases the key before comparing it.

## Model

| member | source | states |
|---|---|---|
| Sparks.NewSpark | script.js:89-96 | a new spark has life exactly 1 and a decay in [0.005, 0.015) for every random draw in [0, 1) |
| Sparks.Alive | script.js:122 | the filtered list is no longer than the input and every spark in it has positive life |
| Sparks.AliveKeepsExactly | script.js:122 | a spark is in the filtered list if and only if it was in the list and its life is positive |
| Sparks.AliveAppend | script.js:122 | filtering a concatenation is concatenating the filtered parts, so survivors keep their original order |
| Sparks.AliveIdentityIff | script.js:122 | the filter leaves a list unchanged if and only if every spark in it has positive life |
| Sparks.AliveIdempotent | script.js:122 | filtering twice is filtering once |
| Sparks.UpdateLowersLife | script.js:98-102 | an update keeps the decay and lowers life by exactly the decay, so strictly |
| Sparks.LiveLifeBounds | script.js:94-101 | a spark of the list at the end of a frame has life strictly between -0.015 and 1, and may be negative |
| Sparks.FrameDecomposes | script.js:115-127 | a frame's list is the updated survivors of the old list followed, when the draw spawns, by the updated new spark; sparks with no life left contribute nothing |
| Sparks.FrameLowersLife | script.js:122-127 | each spark after a frame is the update of a spark that passed the filter with positive life: same decay, life lower by exactly that decay |
| Sparks.FramePreservesLive | script.js:115-127 | if every spark is Live before a frame, every spark is Live after it |
| Sparks.ExpiredSurvivorLeavesNextFrame | script.js:122-127 | a spark with life 0.01 and decay 0.01 survives one frame with life 0, and the next frame removes it |
| Input.ToLower | script.js:186 | lower-casing keeps the key's length |
| Input.LowerIsLetter | script.js:186-190 | under the ASCII lower-casing of the model, a key lower-cases to a single lower-case letter if and only if it is that letter in lower or upper case |
| Input.KeyDispatch | script.js:185-197 | ArrowRight, c and C go forward; ArrowLeft goes back; f and F toggle fullscreen; Escape exits only in fullscreen; every other key does nothing, each as an if-and-only-if |
| Input.SwipeRule | script.js:212-216 | start minus end over 50 goes forward, end minus start over 50 goes back, at most one fires, and a shift of at most 50 does nothing |
| Deck.Initial | script.js:133 | the starting state has current slide 0, no sparks, no loop scheduled, and satisfies the invariant |
| Deck.MarkedOnlyAtCountsOne | script.js:139-143 | a mark list set only at one index has exactly one mark |
| Deck.ShowSlideMarksOnlyTarget | script.js:138-144 | after showSlide(i), slide i and dot i are the only marked elements, one of each, the sizes are unchanged and current is i |
| Deck.ShowSlideSparkLifecycle | script.js:146-156 | showSlide of the last index marks the canvas, runs one frame and adds one scheduled loop; any other index unmarks it, withdraws only the stored request and empties the spark list; fullscreen and touch state are untouched |
| Deck.NextSlideStep | script.js:159-163 | nextSlide increments current by exactly 1 below the last slide and leaves the whole state unchanged on it |
| Deck.PrevSlideStep | script.js:165-169 | prevSlide decrements current by exactly 1 above slide 0 and leaves the whole state unchanged on it |
| Deck.RestartLeavesStrayLoop | script.js:129-155 | showing the last slide twice schedules two loops, and leaving it then still leaves one loop scheduled with the canvas unmarked, a request no cancel reaches until it fires |
| Deck.StrayLoopCancelledAfterFiring | script.js:129-155 | once the stray loop has fired, its new request is the stored one, and showing another non-last slide leaves no loop scheduled |
| Deck.ToggleFullscreenRule | script.js:172-182 | outside fullscreen a refused request changes nothing and a granted one enters fullscreen; in fullscreen the toggle exits |
| Deck.ToggleAfterBrowserExit | script.js:172-176 | after fullscreen was entered and the browser left it by itself, the next toggle requests fullscreen again and, when granted, enters it |
| Deck.KeyDownOthersNoop | script.js:185-197 | Escape exits fullscreen when in it and changes nothing otherwise; any key outside the tested ones leaves the state unchanged |
| Deck.TouchEndFollowsSwipe | script.js:212-216 | the two sequential tests of touchend give the same state as performing the one action the swipe rule picks |
| Deck.FrameFiresKeepsLoops | script.js:115-130 | a scheduled frame that runs keeps the number of scheduled loops, stores the new request and advances the sparks by one frame, leaving the slide state alone |
| Deck.AnimateKeepsInv | script.js:115-130 | one animateSparks call keeps the invariant |
| Deck.ShowSlideKeepsInv | script.js:138-157 | showSlide keeps the invariant for every slide index |
| Deck.Handle | script.js:185-216 | every handler, dot clicks included, leaves a current index that names a slide and keeps the number of slides |
| Deck.HandleKeepsInv | script.js:185-216 | every handler keeps the invariant: one dot per slide, current index in range, every spark Live |
| Deck.Run | script.js:159-169 | after any sequence of events the current index still names a slide |
| Deck.RunKeepsInv | script.js:159-169 | any sequence of events keeps the invariant |
| Deck.ReachableInRange | script.js:200-202 | from the initial state, any sequence of keys, dot clicks, swipes and frames keeps current in [0, totalSlides - 1] and every spark Live |
| Controller.Presentation.constructor | script.js:112-136 | the new object is valid and its state is the initial state, with the marks the document was written with |
| Controller.Presentation.AnimateSparks | script.js:115-130 | spawn, filter and in-place update of every survivor give exactly one Frame of the old list, and the new request's id replaces the stored one |
| Controller.ClearMarks | script.js:139-140 | after the loop every element of the array is unmarked |
| Controller.Presentation.ShowSlide | script.js:138-157 | clearing and setting the marks in place, recording i and starting or stopping the loop give exactly Deck.ShowSlide of the old state |
| Controller.Presentation.NextSlide | script.js:159-163 | the new state is Deck.NextSlide of the old one |
| Controller.Presentation.PrevSlide | script.js:165-169 | the new state is Deck.PrevSlide of the old one |
| Controller.Presentation.ClickDot | script.js:199-202 | a click on dot index shows slide index |
| Controller.Presentation.ToggleFullscreen | script.js:172-182 | the new state is Deck.ToggleFullscreen of the old one |
| Controller.Presentation.KeyDown | script.js:185-197 | the handler's chain of tests gives Deck.KeyDown, which performs the action Input.KeyAction chooses |
| Controller.Presentation.TouchStart | script.js:208-210 | the start point is recorded and nothing else changes |
| Controller.Presentation.TouchEnd | script.js:212-216 | recording the end point and the two tests give Deck.TouchEnd of the old state |
| Controller.Presentation.FullscreenLeft | script.js:173 | the browser leaving fullscreen clears the flag the next toggle and Escape read, and nothing else changes |
| Controller.Presentation.SparkFrameDue | script.js:115-130 | a scheduled frame that runs gives Deck.FrameFires of the old state |

## Left out

- The node-field animation (`Node`, `drawConnections`, `animate`, script.js:19-85) is purely visual floating-point geometry driven by `Math.random`, so it is not modelled.
- All canvas drawing (`Node.draw`, `Spark.draw`, `clearRect`, `fillRect`) is left out because it goes to a 2D drawing API with no state the controller reads.
- Spark positions and velocities (`x += vx`, `y += vy`) are left out because no decision depends on them; a spark is its `life` and `decay`.
- Sparks are values updated inside the list, not objects. Each spark is referenced only from the list, so nothing can observe aliasing.
- `Math.random()` is a parameter (`Draw`, inside `Deck.Env`). `Spawns` and `NewSpark` model what the code does with the draw.
- The `requestAnimationFrame` scheduler and frame timing are host behaviour. The model counts pending requests, and the host running one of them is the `FrameDue` event (`Controller.Presentation.SparkFrameDue`).
- Canvas resizing (script.js:7-17), the DOM lookups and the `classList` strings are browser I/O. A slide's or dot's class list is modelled as one "active" flag.
- The initial "active" marks come from the HTML document, which is not part of this model. The constructor takes them as given and assumes the spark canvas starts unmarked.
- The Fullscreen API is modelled as a boolean. Whether a request is granted is a parameter, and the change applies at once, not when the promise settles.
- The `console.log` on a refused request is diagnostic output only, so it is left out.
- The `document.exitFullscreen` existence test at script.js:178 is always true when `document.fullscreenElement` is set, so the model drops it.
- Input.ToLower: lower-cases only the ASCII letters, not all of Unicode. No other character lower-cases to `c` or `f`, so key dispatch is unaffected.
- Sparks.UpdateLowersLife, Sparks.Update, Sparks.NewSpark, Input.SwipeAction: `life`, `decay`, the random draws and `screenX` are exact reals, while the code computes in IEEE doubles. Rounding can move a spark's removal by one frame (a decay that rounds slightly above 1/80 leaves a tiny positive life after 80 updates, so the spark gets an 81st), the identity `life - Update(life) == decay` holds only up to rounding, and the 50-pixel swipe test can differ at its boundary.
- The fullscreen flag changes only through the script's calls and the `FullscreenLeft` host event. The model does not cover the browser entering fullscreen without the script, or a granted request that the browser later refuses.
- Touch events are reduced to the `screenX` of their first changed touch, given as a real.
