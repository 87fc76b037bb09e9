/** The per-frame sprite movement rule of the main loop (Program.cs): arrow keys move the
    sprite by a fixed speed, left beats right and up beats down, and each move is clamped
    to the window on the side it moves towards. */
module Movement {

  const WindowWidth: int := 1280
  const WindowHeight: int := 720
  const MovementSpeed: int := 10
  const StartX: int := 100
  const StartY: int := 100

  /** Which arrow keys are held this frame. */
  datatype Keys = Keys(left: bool, right: bool, up: bool, down: bool)

  const NoKeys: Keys := Keys(false, false, false, false)

  /** The sprite's top-left corner in window coordinates. */
  datatype Position = Position(x: int, y: int)

  const Start: Position := Position(StartX, StartY)

  function Max(a: int, b: int): int { if a >= b then a else b }

  function Min(a: int, b: int): int { if a <= b then a else b }

  /** One axis of the rule: `back` moves towards 0 and is clamped at 0; otherwise `forward`
      moves away from 0 and is clamped at `limit`. */
  function MoveAxis(v: int, back: bool, forward: bool, limit: int): (v': int)
    ensures back ==> v' == Max(0, v - MovementSpeed)
    ensures !back && forward ==> v' == Min(limit, v + MovementSpeed)
    ensures !back && !forward ==> v' == v
    ensures 0 <= v <= limit ==> 0 <= v' <= limit
  {
    if back then
      var n := v - MovementSpeed;
      if n < 0 then 0 else n
    else if forward then
      var n := v + MovementSpeed;
      if n > limit then limit else n
    else
      v
  }

  /** The sprite's position after one frame of input, for a sprite of the given size. */
  function Step(p: Position, keys: Keys, imgWidth: int, imgHeight: int): (p': Position)
    ensures InBounds(p, imgWidth, imgHeight) ==> InBounds(p', imgWidth, imgHeight)
    ensures keys == NoKeys ==> p' == p
  {
    Position(MoveAxis(p.x, keys.left, keys.right, WindowWidth - imgWidth),
             MoveAxis(p.y, keys.up, keys.down, WindowHeight - imgHeight))
  }

  /** The horizontal rule: left moves left, clamped at 0; right moves right only when left
      is not held, clamped at windowWidth - imgWidth; otherwise x stays. */
  lemma StepHorizontal(p: Position, keys: Keys, imgWidth: int, imgHeight: int)
    ensures keys.left ==> Step(p, keys, imgWidth, imgHeight).x == Max(0, p.x - MovementSpeed)
    ensures !keys.left && keys.right ==>
      Step(p, keys, imgWidth, imgHeight).x == Min(WindowWidth - imgWidth, p.x + MovementSpeed)
    ensures !keys.left && !keys.right ==> Step(p, keys, imgWidth, imgHeight).x == p.x
  {
  }

  /** The vertical rule mirrors the horizontal one with up, down and windowHeight - imgHeight. */
  lemma StepVertical(p: Position, keys: Keys, imgWidth: int, imgHeight: int)
    ensures keys.up ==> Step(p, keys, imgWidth, imgHeight).y == Max(0, p.y - MovementSpeed)
    ensures !keys.up && keys.down ==>
      Step(p, keys, imgWidth, imgHeight).y == Min(WindowHeight - imgHeight, p.y + MovementSpeed)
    ensures !keys.up && !keys.down ==> Step(p, keys, imgWidth, imgHeight).y == p.y
  {
  }

  /** The new x depends only on the horizontal keys and the new y only on the vertical ones. */
  lemma StepAxesIndependent(p: Position, k1: Keys, k2: Keys, imgWidth: int, imgHeight: int)
    ensures k1.left == k2.left && k1.right == k2.right ==>
      Step(p, k1, imgWidth, imgHeight).x == Step(p, k2, imgWidth, imgHeight).x
    ensures k1.up == k2.up && k1.down == k2.down ==>
      Step(p, k1, imgWidth, imgHeight).y == Step(p, k2, imgWidth, imgHeight).y
  {
  }

  /** With no arrow key held the sprite does not move. */
  lemma StepNoKeys(p: Position, imgWidth: int, imgHeight: int)
    ensures Step(p, NoKeys, imgWidth, imgHeight) == p
  {
  }

  /** The sprite lies entirely inside the window. */
  predicate InBounds(p: Position, imgWidth: int, imgHeight: int)
  {
    0 <= p.x <= WindowWidth - imgWidth && 0 <= p.y <= WindowHeight - imgHeight
  }

  /** The start position (100, 100) is in bounds exactly when the sprite fits beside it. */
  lemma StartInBounds(imgWidth: int, imgHeight: int)
    ensures InBounds(Start, imgWidth, imgHeight) <==>
      imgWidth <= WindowWidth - StartX && imgHeight <= WindowHeight - StartY
  {
  }

  /** A step keeps an in-bounds sprite in bounds and moves it by at most the speed on
      each axis. */
  lemma StepInBounds(p: Position, keys: Keys, imgWidth: int, imgHeight: int)
    requires InBounds(p, imgWidth, imgHeight)
    ensures InBounds(Step(p, keys, imgWidth, imgHeight), imgWidth, imgHeight)
    ensures -MovementSpeed <= Step(p, keys, imgWidth, imgHeight).x - p.x <= MovementSpeed
    ensures -MovementSpeed <= Step(p, keys, imgWidth, imgHeight).y - p.y <= MovementSpeed
  {
  }

  /** The position after one step per frame of input, the first frame first. */
  function RunFrames(p: Position, frames: seq<Keys>, imgWidth: int, imgHeight: int): Position
    decreases |frames|
  {
    if frames == [] then p else RunFrames(Step(p, frames[0], imgWidth, imgHeight), frames[1..], imgWidth, imgHeight)
  }

  /** Invariant of the main loop: a sprite that starts in bounds stays in bounds for any
      sequence of key states. */
  lemma {:induction false} RunInBounds(p: Position, frames: seq<Keys>, imgWidth: int, imgHeight: int)
    requires InBounds(p, imgWidth, imgHeight)
    ensures InBounds(RunFrames(p, frames, imgWidth, imgHeight), imgWidth, imgHeight)
    decreases |frames|
  {
    if frames != [] {
      StepInBounds(p, frames[0], imgWidth, imgHeight);
      RunInBounds(Step(p, frames[0], imgWidth, imgHeight), frames[1..], imgWidth, imgHeight);
    }
  }
}
