/** The score counter and the goal latch of the main loop (Program.cs): a timer adds 10
    to the score, and once a frame sees a score of at least 100 the latch closes and the
    window is asked to close on that frame and every later one. */
module Score {

  const ScoreGoal: int := 100
  const ScoreIncrement: int := 10

  /** The score and the goal flag (0 until the goal is reached, then 1). */
  datatype GameState = GameState(score: int, ifGoalReach: int)

  const Initial: GameState := GameState(0, 0)

  /** The timer callback: one tick adds the increment to the score. */
  function OnTimedEvent(s: GameState): (s': GameState)
    ensures s'.score == s.score + ScoreIncrement && s'.ifGoalReach == s.ifGoalReach
  {
    s.(score := s.score + ScoreIncrement)
  }

  /** The per-frame goal check: a score at or above the goal sets the flag; nothing else
      changes. */
  function CheckGoal(s: GameState): (s': GameState)
    ensures s'.score == s.score
    ensures s.score >= ScoreGoal ==> s'.ifGoalReach == 1
    ensures s.ifGoalReach == 1 ==> s'.ifGoalReach == 1
    ensures s.score < ScoreGoal ==> s' == s
  {
    if s.score >= ScoreGoal then s.(ifGoalReach := 1) else s
  }

  /** Whether the frame posts WM_CLOSE to the window. */
  predicate CloseRequested(s: GameState)
  {
    s.ifGoalReach == 1
  }

  /** What can happen to the game state: a timer tick, or a frame's goal check. */
  datatype Event = TimerElapsed | FrameChecked

  function ApplyEvent(s: GameState, e: Event): GameState
  {
    match e
    case TimerElapsed => OnTimedEvent(s)
    case FrameChecked => CheckGoal(s)
  }

  /** The state after a history of events, the last event applied last. */
  function RunEvents(s: GameState, es: seq<Event>): GameState
    decreases |es|
  {
    if es == [] then s else ApplyEvent(RunEvents(s, es[..|es| - 1]), es[|es| - 1])
  }

  /** Number of timer ticks in a history. */
  function Ticks(es: seq<Event>): nat
    decreases |es|
  {
    if es == [] then 0 else Ticks(es[..|es| - 1]) + (if es[|es| - 1] == TimerElapsed then 1 else 0)
  }

  /** The score only grows, by the increment per tick and by nothing else. */
  lemma {:induction false} RunScore(s: GameState, es: seq<Event>)
    ensures RunEvents(s, es).score == s.score + ScoreIncrement * Ticks(es)
    decreases |es|
  {
    if es != [] {
      RunScore(s, es[..|es| - 1]);
    }
  }

  /** The score of an earlier moment is never above the score of a later one. */
  lemma {:induction false} RunScoreMonotone(s: GameState, es: seq<Event>, i: nat)
    requires i <= |es|
    ensures RunEvents(s, es[..i]).score <= RunEvents(s, es).score
    decreases |es|
  {
    if i < |es| {
      assert es[..i] == es[..|es| - 1][..i];
      RunScoreMonotone(s, es[..|es| - 1], i);
      assert RunEvents(s, es) == ApplyEvent(RunEvents(s, es[..|es| - 1]), es[|es| - 1]);
    } else {
      assert es[..i] == es;
    }
  }

  /** The latch is sticky: once the flag is 1 at some moment it is 1 at every later one. */
  lemma {:induction false} LatchSticky(s: GameState, es: seq<Event>, i: nat)
    requires i <= |es|
    requires RunEvents(s, es[..i]).ifGoalReach == 1
    ensures RunEvents(s, es).ifGoalReach == 1
    decreases |es|
  {
    if i < |es| {
      assert es[..i] == es[..|es| - 1][..i];
      LatchSticky(s, es[..|es| - 1], i);
    } else {
      assert es[..i] == es;
    }
  }

  /** The flag is 1 after a history exactly when it was 1 to begin with or some frame's
      goal check saw a score of at least the goal. */
  lemma {:induction false} LatchReached(s: GameState, es: seq<Event>)
    ensures RunEvents(s, es).ifGoalReach == 1 <==>
      s.ifGoalReach == 1 ||
      exists i :: 0 <= i < |es| && es[i] == FrameChecked && s.score + ScoreIncrement * Ticks(es[..i]) >= ScoreGoal
    decreases |es|
  {
    if es != [] {
      var init := es[..|es| - 1];
      var last := |es| - 1;
      LatchReached(s, init);
      RunScore(s, init);
      assert es[..last] == init;
      forall i | 0 <= i < last
        ensures es[i] == init[i] && es[..i] == init[..i]
      {
      }
    }
  }
}
