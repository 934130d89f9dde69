/**
 * The input decisions of the controller: which game command a key press, an on-screen
 * button, a swipe or a double tap issues. The event objects are reduced to the strings and
 * numbers the handlers read from them.
 */
module Controllers {
  import opened Wrappers

  /** The game commands the handlers call. `Hold` stands for the call `game.holdTetromino()`,
      which fails in the source because the field of that name shadows the method on every
      game object (see Games.Game.holdTetromino); the model names the command the handler
      means to issue. */
  datatype Command = MoveLeft | MoveRight | MoveDown | Rotate | HardDrop | Hold | TogglePause

  /** Pixels a swipe must exceed to count as a move rather than a tap. */
  const SwipeThreshold: int := 30

  /** Two touches closer than this many milliseconds are a double tap. */
  const DoubleTapDelay: int := 300

  /** The switch of the keydown handler, reached while the game is neither paused nor over. */
  function PlayKey(key: string): (c: Option<Command>)
    ensures c == None <==> key !in ["ArrowLeft", "ArrowRight", "ArrowDown", "ArrowUp", " ", "c", "C", "p", "P"]
    ensures c != Some(TogglePause) || key == "p" || key == "P"
  {
    if key == "ArrowLeft" then Some(MoveLeft)
    else if key == "ArrowRight" then Some(MoveRight)
    else if key == "ArrowDown" then Some(MoveDown)
    else if key == "ArrowUp" then Some(Rotate)
    else if key == " " then Some(HardDrop)
    else if key == "c" || key == "C" then Some(Hold)
    else if key == "p" || key == "P" then Some(TogglePause)
    else None
  }

  /** The keydown handler: while the game is paused or over only a lower-case "p" can act, and
      only to resume a paused game that is not over; otherwise the key goes through the switch. */
  function KeyCommand(key: string, paused: bool, over: bool): (c: Option<Command>)
    ensures (paused || over) && c.Some? ==> c == Some(TogglePause) && key == "p" && paused && !over
    ensures !paused && !over ==> c == PlayKey(key)
  {
    if paused || over then
      if key == "p" && paused && !over then Some(TogglePause) else None
    else PlayKey(key)
  }

  /** The gate in both directions: while paused or over, a key issues a command exactly when it
      is "p" on a paused game that is not over, and that command is the pause toggle. */
  lemma KeyGate(key: string, paused: bool, over: bool)
    requires paused || over
    ensures KeyCommand(key, paused, over).Some? <==> key == "p" && paused && !over
    ensures KeyCommand(key, paused, over) != None ==> KeyCommand(key, paused, over) == Some(TogglePause)
  {
  }

  /** An upper-case "P" pauses a running game but does not resume a paused one; once the game is
      over no key acts at all. */
  lemma PauseKeys()
    ensures KeyCommand("P", false, false) == Some(TogglePause) && KeyCommand("P", true, false) == None
    ensures KeyCommand("p", true, false) == Some(TogglePause)
    ensures forall key, paused: bool :: KeyCommand(key, paused, true) == None
  {
  }

  /** The key table while playing, each command with exactly the keys that issue it. */
  lemma KeyTable(key: string)
    ensures KeyCommand(key, false, false) == Some(MoveLeft) <==> key == "ArrowLeft"
    ensures KeyCommand(key, false, false) == Some(MoveRight) <==> key == "ArrowRight"
    ensures KeyCommand(key, false, false) == Some(MoveDown) <==> key == "ArrowDown"
    ensures KeyCommand(key, false, false) == Some(Rotate) <==> key == "ArrowUp"
    ensures KeyCommand(key, false, false) == Some(HardDrop) <==> key == " "
    ensures KeyCommand(key, false, false) == Some(Hold) <==> key == "c" || key == "C"
    ensures KeyCommand(key, false, false) == Some(TogglePause) <==> key == "p" || key == "P"
    ensures KeyCommand(key, false, false) == None <==>
      key !in ["ArrowLeft", "ArrowRight", "ArrowDown", "ArrowUp", " ", "c", "C", "p", "P"]
  {
  }

  /** The on-screen buttons: the six play buttons act only while the game is neither paused nor
      over, the pause button always calls the toggle (which itself ignores a finished game). */
  function ButtonCommand(id: string, paused: bool, over: bool): (c: Option<Command>)
    ensures c.Some? && c != Some(TogglePause) ==> !paused && !over
    ensures id == "pause-btn" <==> c == Some(TogglePause)
  {
    if id == "pause-btn" then Some(TogglePause)
    else if paused || over then None
    else if id == "left-btn" then Some(MoveLeft)
    else if id == "right-btn" then Some(MoveRight)
    else if id == "down-btn" then Some(MoveDown)
    else if id == "rotate-btn" then Some(Rotate)
    else if id == "drop-btn" then Some(HardDrop)
    else if id == "hold-btn" then Some(Hold)
    else None
  }

  function Abs(a: int): nat
  {
    if a < 0 then -a else a
  }

  /** The touchend classification of a movement (dx, dy): mostly horizontal and longer than the
      threshold is a move in its direction, mostly horizontal and short is a tap that rotates,
      and otherwise only a downward swipe longer than the threshold acts. */
  function SwipeCommand(dx: int, dy: int): (c: Option<Command>)
    ensures c == Some(Rotate) <==> Abs(dx) > Abs(dy) && Abs(dx) <= SwipeThreshold
  {
    if Abs(dx) > Abs(dy) then
      if Abs(dx) > SwipeThreshold then
        if dx > 0 then Some(MoveRight) else Some(MoveLeft)
      else Some(Rotate)
    else if dy > SwipeThreshold then Some(MoveDown)
    else None
  }

  /** Each outcome of the classification, with exactly the movements that produce it. */
  lemma SwipeTable(dx: int, dy: int)
    ensures SwipeCommand(dx, dy) == Some(MoveRight) <==> dx > Abs(dy) && dx > SwipeThreshold
    ensures SwipeCommand(dx, dy) == Some(MoveLeft) <==> -dx > Abs(dy) && -dx > SwipeThreshold
    ensures SwipeCommand(dx, dy) == Some(MoveDown) <==> Abs(dx) <= Abs(dy) && dy > SwipeThreshold
    ensures SwipeCommand(dx, dy) == None <==> Abs(dx) <= Abs(dy) && dy <= SwipeThreshold
    ensures SwipeCommand(dx, dy) != Some(HardDrop) && SwipeCommand(dx, dy) != Some(Hold)
  {
  }

  /** Upward swipes and a touch that does not move do nothing; a swipe exactly at the threshold
      still counts as a tap, because the test is strict. */
  lemma SwipeEdges(d: int)
    requires d >= 0
    ensures SwipeCommand(0, 0) == None
    ensures SwipeCommand(0, -d) == None && SwipeCommand(d, -d) == None
    ensures SwipeCommand(SwipeThreshold, 0) == Some(Rotate) && SwipeCommand(SwipeThreshold + 1, 0) == Some(MoveRight)
  {
  }

  /** The pause button toggles in every state: the handler has no gate of its own. */
  lemma PauseButtonToggles(paused: bool, over: bool)
    ensures ButtonCommand("pause-btn", paused, over) == Some(TogglePause)
    ensures ButtonCommand("hold-btn", paused, over).Some? <==> !paused && !over
  {
  }

  /** The double-tap test of touchstart on the time since the last recorded tap: a touch at the
      same instant is not a double tap, and once the tap time is cleared to 0 no touch at a clock
      reading of at least the delay is one. */
  function DoubleTap(now: int, lastTap: int): (b: bool)
    ensures b ==> now != lastTap
    ensures lastTap == 0 && now >= DoubleTapDelay ==> !b
  {
    0 < now - lastTap < DoubleTapDelay
  }

  /** The tap time touchstart leaves behind: cleared after a double tap, the touch's own time
      otherwise. */
  function NextTap(now: int, lastTap: int): (t: int)
    ensures t == 0 || t == now
    ensures now != 0 ==> (DoubleTap(now, lastTap) <==> t == 0)
  {
    if DoubleTap(now, lastTap) then 0 else now
  }

  /** Which of a run of touches, at clock readings times, hard-drop when the tap time starts at
      lastTap and every touch goes through touchstart while the game is playing. */
  function Drops(times: seq<int>, lastTap: int): (d: seq<bool>)
    ensures |d| == |times|
  {
    if times == [] then []
    else [DoubleTap(times[0], lastTap)] + Drops(times[1..], NextTap(times[0], lastTap))
  }

  /** With a real clock (every reading at least the delay), no two touches in a row both drop:
      the tap time a drop clears makes the next touch a single tap. */
  lemma {:induction false} NoTwoDropsInARow(times: seq<int>, lastTap: int)
    requires forall i :: 0 <= i < |times| ==> times[i] >= DoubleTapDelay
    ensures forall i :: 0 <= i < |times| - 1 ==> !(Drops(times, lastTap)[i] && Drops(times, lastTap)[i + 1])
  {
    if |times| >= 2 {
      var d := Drops(times, lastTap);
      var next := NextTap(times[0], lastTap);
      var rest := Drops(times[1..], next);
      assert d == [d[0]] + rest;
      NoTwoDropsInARow(times[1..], next);
      assert times[1..][0] == times[1];
      assert d[0] ==> next == 0 && !rest[0];
      forall i | 0 <= i < |times| - 1
        ensures !(d[i] && d[i + 1])
      {
        if i > 0 {
          assert d[i] == rest[i - 1] && d[i + 1] == rest[i];
        }
      }
    }
  }

  /** The touch state of the controller: where the current touch started and ended, and when
      the last single tap was recorded. */
  class Controller {
    var touchStartX: int
    var touchStartY: int
    var touchEndX: int
    var touchEndY: int
    var lastTap: int

    constructor ()
      ensures touchStartX == 0 && touchStartY == 0 && touchEndX == 0 && touchEndY == 0
      ensures lastTap == 0
    {
      touchStartX := 0;
      touchStartY := 0;
      touchEndX := 0;
      touchEndY := 0;
      lastTap := 0;
    }

    /** touchstart at (x, y) at time now: ignored while paused or over; otherwise the start is
        recorded, and a second touch inside the delay hard-drops and clears the tap time, which
        any other touch records. */
    method TouchStart(x: int, y: int, now: int, paused: bool, over: bool) returns (c: Option<Command>)
      modifies this`touchStartX, this`touchStartY, this`lastTap
      ensures paused || over ==> c == None && unchanged(this)
      ensures !(paused || over) ==> touchStartX == x && touchStartY == y
      ensures !(paused || over) && DoubleTap(now, old(lastTap)) ==> c == Some(HardDrop) && lastTap == 0
      ensures !(paused || over) && !DoubleTap(now, old(lastTap)) ==> c == None && lastTap == now
      ensures !(paused || over) ==> lastTap == NextTap(now, old(lastTap))
    {
      if paused || over {
        return None;
      }
      touchStartX := x;
      touchStartY := y;
      var timeDiff := now - lastTap;
      if timeDiff < DoubleTapDelay && timeDiff > 0 {
        c := Some(HardDrop);
        lastTap := 0;
      } else {
        c := None;
        lastTap := now;
      }
    }

    /** touchend at (x, y): ignored while paused or over; otherwise the end is recorded and the
        movement since the start is classified. */
    method TouchEnd(x: int, y: int, paused: bool, over: bool) returns (c: Option<Command>)
      modifies this`touchEndX, this`touchEndY
      ensures paused || over ==> c == None && unchanged(this)
      ensures !(paused || over) ==> touchEndX == x && touchEndY == y
      ensures !(paused || over) ==> c == SwipeCommand(x - touchStartX, y - touchStartY)
    {
      if paused || over {
        return None;
      }
      touchEndX := x;
      touchEndY := y;
      var deltaX := touchEndX - touchStartX;
      var deltaY := touchEndY - touchStartY;
      c := SwipeCommand(deltaX, deltaY);
    }
  }
}
