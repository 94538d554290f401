/** The decisions the input handlers make on event values: which
    controller call a key press or a finished swipe leads to. */
module Input {

  datatype Action = GoNext | GoPrev | ToggleFullscreen | ExitFullscreen | NoAction

  /** A horizontal swipe must travel more than this many pixels to count. */
  const SwipeThreshold: real := 50.0

  /** Lower-casing of one character, for the ASCII letters. */
  function LowerChar(c: char): char {
    if 'A' <= c <= 'Z' then (c as int - 'A' as int + 'a' as int) as char else c
  }

  /** Lower-casing of a key name, character by character. */
  function ToLower(key: string): (r: string)
    ensures |r| == |key|
  {
    seq(|key|, k requires 0 <= k < |key| => LowerChar(key[k]))
  }

  /** The keydown handler's chain of tests. */
  function KeyAction(key: string, fullscreen: bool): Action {
    if key == "ArrowRight" || ToLower(key) == "c" then GoNext
    else if key == "ArrowLeft" then GoPrev
    else if ToLower(key) == "f" then ToggleFullscreen
    else if key == "Escape" then (if fullscreen then ExitFullscreen else NoAction)
    else NoAction
  }

  /** The touchend handler's two tests on the horizontal displacement. */
  function SwipeAction(startX: real, endX: real): Action {
    if startX - endX > SwipeThreshold then GoNext
    else if endX - startX > SwipeThreshold then GoPrev
    else NoAction
  }

  /** Under the ASCII lower-casing of this model, a key lowers to one given
      lower-case letter exactly when it is that letter in either case. For
      'c' and 'f' this also holds of full Unicode lower-casing; for 'k' it
      would not (U+212A KELVIN SIGN lowers to "k"). */
  lemma LowerIsLetter(key: string, c: char)
    requires 'a' <= c <= 'z'
    ensures ToLower(key) == [c] <==> key == [c] || key == [(c as int - 'a' as int + 'A' as int) as char]
  {
    if ToLower(key) == [c] {
      assert |key| == 1;
      assert ToLower(key)[0] == LowerChar(key[0]);
      assert key == [key[0]];
    }
    if key == [c] {
      assert ToLower(key)[0] == c;
    }
  }

  /** What each key leads to, and that every other key does nothing. */
  lemma KeyDispatch(key: string, fullscreen: bool)
    ensures KeyAction(key, fullscreen) == GoNext <==> key == "ArrowRight" || key == "c" || key == "C"
    ensures KeyAction(key, fullscreen) == GoPrev <==> key == "ArrowLeft"
    ensures KeyAction(key, fullscreen) == ToggleFullscreen <==> key == "f" || key == "F"
    ensures KeyAction(key, fullscreen) == ExitFullscreen <==> key == "Escape" && fullscreen
    ensures KeyAction(key, fullscreen) == NoAction <==>
              key !in {"ArrowRight", "c", "C", "ArrowLeft", "f", "F"} &&
              (key == "Escape" ==> !fullscreen)
  {
    LowerIsLetter(key, 'c');
    LowerIsLetter(key, 'f');
    assert ['c'] == "c" && ['C'] == "C" && ['f'] == "f" && ['F'] == "F";
  }

  /** A shift of more than 50 pixels to the left goes forward, one of more than
      50 to the right goes back, never both, and anything shorter does nothing. */
  lemma SwipeRule(startX: real, endX: real)
    ensures SwipeAction(startX, endX) == GoNext <==> startX - endX > SwipeThreshold
    ensures SwipeAction(startX, endX) == GoPrev <==> endX - startX > SwipeThreshold
    ensures SwipeAction(startX, endX) in {GoNext, GoPrev, NoAction}
    ensures -SwipeThreshold <= endX - startX <= SwipeThreshold ==> SwipeAction(startX, endX) == NoAction
  {
  }
}
