/**
 The game's global state (`falling_objects`, `current_target`, `score`,
 `current_level`, `game_over`, `castle_art`, `last_generate_time`) as one
 value, and the invariant every reachable state keeps.
 */
module Session {
  import opened Optional
  import opened Falling
  import opened Difficulty
  import opened Castle

  /** `target` is the index in `objects` of the current target, if any. */
  datatype Session = Session(
    objects: seq<FallingObject>,
    target: Option<nat>,
    score: nat,
    level: nat,
    gameOver: bool,
    castle: seq<string>,
    lastSpawn: int)

  /** Only the current target can hold typed progress. */
  predicate OnlyTargetTyped(objects: seq<FallingObject>, target: Option<nat>) {
    forall i :: 0 <= i < |objects| && objects[i].active && objects[i].progress > 0 ==> target == Some(i)
  }

  /** The target, if any, names an object still in play. */
  predicate TargetInPlay(objects: seq<FallingObject>, target: Option<nat>) {
    target.Some? ==> target.value < |objects| && objects[target.value].active
  }

  /**
   The session invariant: every counter within its word, only the target
   typed into, the target in play, the level within the table, and a game
   that is over has no castle left.
   */
  predicate Valid(s: Session) {
    && (forall i :: 0 <= i < |s.objects| ==> WellTyped(s.objects[i]))
    && OnlyTargetTyped(s.objects, s.target)
    && TargetInPlay(s.objects, s.target)
    && 1 <= s.level <= MaxLevel
    && (s.gameOver ==> |s.castle| == 0)
  }

  /** The state `run_game` starts from, with the clock reading `start` as the last spawn time. */
  function Initial(start: int): (r: Session)
    ensures Valid(r)
    ensures |r.objects| == 0 && r.target == None && r.score == 0 && r.level == 1 && !r.gameOver
    ensures r.castle == InitialCastle && r.lastSpawn == start
  {
    Session([], None, 0, 1, false, InitialCastle, start)
  }
}
