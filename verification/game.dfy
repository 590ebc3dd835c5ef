/**
 The main loop of `run_game` with rendering and pacing removed: each frame
 resolves that frame's keystrokes in order, then runs the simulation step.
 */
module Game {
  import opened Falling
  import opened Difficulty
  import opened Castle
  import opened Spawner
  import opened Session
  import opened Input
  import opened Simulation

  /** The keystrokes of one frame, resolved in order; a finished game ignores them. */
  function ResolveKeys(s: Session, keys: seq<string>): (r: Session)
    ensures s.gameOver ==> r == s
    ensures s.score <= r.score
    ensures r.level == s.level && r.gameOver == s.gameOver && r.castle == s.castle && r.lastSpawn == s.lastSpawn
    decreases |keys|
  {
    if |keys| == 0 || s.gameOver then s else ResolveKeys(ResolveKey(s, keys[0]), keys[1..])
  }

  /** What one frame receives from outside: the keys typed, the clock reading, and the random draws. */
  datatype FrameInput = FrameInput(keys: seq<string>, now: int, draw: Draw)

  /** The state after a frame, and whether the loop goes on (a key on the game-over screen stops it). */
  datatype FrameResult = FrameResult(session: Session, running: bool)

  function Frame(s: Session, f: FrameInput): (r: FrameResult)
    ensures r.running <==> !(s.gameOver && |f.keys| > 0)
    ensures s.gameOver ==> r.session == s
    ensures s.score <= r.session.score
    ensures s.level <= r.session.level
    ensures EndsWith(r.session.castle, s.castle)
    ensures s.gameOver ==> r.session.gameOver
    ensures !s.gameOver ==> r.session.level == CheckForLevelUp(s.level, ResolveKeys(s, f.keys).score)
  {
    FrameResult(Tick(ResolveKeys(s, f.keys), f.now, f.draw), !(s.gameOver && |f.keys| > 0))
  }

  /** A run of frames, stopping when the loop stops; a finished game stays as it is. */
  function Play(s: Session, frames: seq<FrameInput>): (r: Session)
    ensures |frames| == 0 ==> r == s
    ensures s.gameOver ==> r == s
    ensures s.score <= r.score
    decreases |frames|
  {
    if |frames| == 0 then s
    else
      var r := Frame(s, frames[0]);
      if !r.running then r.session else Play(r.session, frames[1..])
  }

  /** A single frame is played as `Frame` plays it, keys included. */
  lemma PlayOneFrame(s: Session, f: FrameInput)
    ensures Play(s, [f]) == Frame(s, f).session
  {
    assert [f][1..] == [];
  }

  /** A frame's keys keep the session invariant. */
  lemma {:induction false} ResolveKeysKeepsValid(s: Session, keys: seq<string>)
    requires Valid(s)
    ensures Valid(ResolveKeys(s, keys))
    decreases |keys|
  {
    if |keys| > 0 && !s.gameOver {
      ResolveKeyKeepsValid(s, keys[0]);
      ResolveKeysKeepsValid(ResolveKey(s, keys[0]), keys[1..]);
    }
  }

  /** A whole frame keeps the session invariant. */
  lemma FrameKeepsValid(s: Session, f: FrameInput)
    requires Valid(s)
    ensures Valid(Frame(s, f).session)
  {
    ResolveKeysKeepsValid(s, f.keys);
    TickKeepsValid(ResolveKeys(s, f.keys), f.now, f.draw);
  }

  /** Any run of frames keeps the session invariant. */
  lemma {:induction false} PlayKeepsValid(s: Session, frames: seq<FrameInput>)
    requires Valid(s)
    ensures Valid(Play(s, frames))
    decreases |frames|
  {
    if |frames| > 0 {
      FrameKeepsValid(s, frames[0]);
      var r := Frame(s, frames[0]);
      if r.running {
        PlayKeepsValid(r.session, frames[1..]);
      }
    }
  }

  /**
   Over any run of frames the score and the level never fall, the level stays
   within the table, the castle only loses rows from the top, and a finished
   game stays finished and unchanged.
   */
  lemma {:induction false} PlayMonotone(s: Session, frames: seq<FrameInput>)
    requires s.level <= MaxLevel
    ensures var r := Play(s, frames);
            && s.score <= r.score
            && s.level <= r.level <= MaxLevel
            && EndsWith(r.castle, s.castle)
            && (s.gameOver ==> r == s)
    decreases |frames|
  {
    if |frames| > 0 {
      var r := Frame(s, frames[0]);
      if r.running {
        PlayMonotone(r.session, frames[1..]);
        EndsWithTransitive(Play(r.session, frames[1..]).castle, r.session.castle, s.castle);
      }
    }
  }

  /** Both together, over any run of frames from a valid state. */
  lemma PlayKeepsInvariants(s: Session, frames: seq<FrameInput>)
    requires Valid(s)
    ensures var r := Play(s, frames);
            && Valid(r)
            && s.score <= r.score
            && s.level <= r.level <= MaxLevel
            && EndsWith(r.castle, s.castle)
            && (s.gameOver ==> r == s)
  {
    PlayKeepsValid(s, frames);
    PlayMonotone(s, frames);
  }

  /** From the first frame on, every state the game reaches keeps the invariant. */
  lemma ReachableStatesValid(start: int, frames: seq<FrameInput>)
    ensures Valid(Play(Initial(start), frames))
    ensures Play(Initial(start), frames).level <= MaxLevel
  {
    PlayKeepsInvariants(Initial(start), frames);
  }

  /**
   A castle torn down by damage that exactly matched its rows never ends the
   game: whatever is typed and whatever falls, the game keeps running.
   */
  lemma {:induction false} ExactDestructionNeverEnds(s: Session, frames: seq<FrameInput>)
    requires |s.castle| == 0 && !s.gameOver
    ensures |Play(s, frames).castle| == 0 && !Play(s, frames).gameOver
    decreases |frames|
  {
    if |frames| > 0 {
      var f := frames[0];
      var mid := ResolveKeys(s, f.keys);
      EmptyCastleNeverEnds(mid, f.now, f.draw);
      ExactDestructionNeverEnds(Frame(s, f).session, frames[1..]);
    }
  }

  /** Frames in which no key is pressed. */
  predicate Quiet(frames: seq<FrameInput>) {
    forall i :: 0 <= i < |frames| ==> |frames[i].keys| == 0
  }

  /**
   With no keys pressed, every frame of a game still running runs one level-up
   check at the unchanged score.
   */
  lemma {:induction false} QuietFramesLevel(s: Session, frames: seq<FrameInput>)
    requires Quiet(frames)
    ensures var r := Play(s, frames);
            !r.gameOver ==> r.score == s.score && r.level == LevelAfter(s.level, s.score, |frames|)
    decreases |frames|
  {
    if |frames| > 0 {
      var m := Frame(s, frames[0]).session;
      QuietFrame(s, frames[0]);
      assert Play(s, frames) == Play(m, frames[1..]);
      assert Quiet(frames[1..]) by {
        forall i | 0 <= i < |frames[1..]|
          ensures |frames[1..][i].keys| == 0
        {
          assert frames[1..][i] == frames[i + 1];
        }
      }
      QuietFramesLevel(m, frames[1..]);
      if !s.gameOver {
        LevelAfterShift(s.level, s.score, |frames| - 1);
      }
    }
  }

  /** A frame without keys keeps the loop going, keeps the score and runs one level-up check. */
  lemma QuietFrame(s: Session, f: FrameInput)
    requires |f.keys| == 0
    ensures var r := Frame(s, f);
            && r.running
            && (s.gameOver ==> r.session == s)
            && (!s.gameOver ==> r.session.score == s.score && r.session.level == CheckForLevelUp(s.level, s.score))
  {
    assert ResolveKeys(s, f.keys) == s;
  }

  /**
   Left alone, a running game climbs one level per frame until it reaches the
   level its score is worth, and then stays there.
   */
  lemma QuietFramesClimb(s: Session, frames: seq<FrameInput>)
    requires Quiet(frames)
    requires 1 <= s.level <= LevelFor(s.score)
    ensures var r := Play(s, frames);
            !r.gameOver ==>
              r.level == if s.level + |frames| < LevelFor(s.score) then s.level + |frames| else LevelFor(s.score)
  {
    QuietFramesLevel(s, frames);
    LevelUpConverges(s.level, s.score, |frames|);
  }

  /** The keys of a frame are resolved one by one in the order they arrived. */
  lemma {:induction false} ResolveKeysInOrder(s: Session, keys: seq<string>, k: string)
    ensures ResolveKeys(s, keys + [k]) == if s.gameOver then s else ResolveKey(ResolveKeys(s, keys), k)
    decreases |keys|
  {
    if |keys| == 0 {
      assert keys + [k] == [k];
      assert [k][1..] == [];
    } else if !s.gameOver {
      assert (keys + [k])[0] == keys[0];
      assert (keys + [k])[1..] == keys[1..] + [k];
      ResolveKeysInOrder(ResolveKey(s, keys[0]), keys[1..], k);
    }
  }

  /**
   In a running game the tick works on the state the frame's keys left: it
   advances and filters those objects, keeps the score the keys reached,
   takes the rows of every collision off the castle, and records the spawn
   time exactly when the gate opens at the level the keys' score earns.
   */
  lemma FrameTicksAfterKeys(s: Session, f: FrameInput)
    requires !s.gameOver
    ensures var m := ResolveKeys(s, f.keys);
            var r := Frame(s, f).session;
            var objects := Spawned(m, f.now, f.draw);
            var total := TotalDamage(objects, |s.castle|);
            && r.objects == ActiveOnly(AdvanceAll(objects, |s.castle|))
            && r.score == m.score
            && r.castle == s.castle[Min(total, |s.castle|)..]
            && (r.gameOver <==> total > |s.castle|)
    ensures var m := ResolveKeys(s, f.keys);
            var r := Frame(s, f).session;
            var due := SpawnDue(CheckForLevelUp(m.level, m.score), s.lastSpawn, f.now);
            && (due ==> r.lastSpawn == f.now)
            && (!due ==> r.lastSpawn == s.lastSpawn)
  {
    TickPass(ResolveKeys(s, f.keys), f.now, f.draw);
    TickSpawn(ResolveKeys(s, f.keys), f.now, f.draw);
  }

  /**
   The target the frame's keys left survives the tick iff its object does not
   hit the castle, and then still names that object, moved.
   */
  lemma FrameTargetAfterKeys(s: Session, f: FrameInput)
    requires Valid(s) && !s.gameOver
    ensures Valid(ResolveKeys(s, f.keys))
    ensures var m := ResolveKeys(s, f.keys);
            var r := Frame(s, f).session;
            && (m.target.None? ==> r.target.None?)
            && (m.target.Some? ==>
                  var o := m.objects[m.target.value];
                  && (r.target.None? <==> Collides(Move(o), |s.castle|))
                  && (r.target.Some? ==> r.target.value < |r.objects| && r.objects[r.target.value] == Move(o)))
  {
    ResolveKeysKeepsValid(s, f.keys);
    TickTarget(ResolveKeys(s, f.keys), f.now, f.draw);
  }

  /** Frames run in time order: a run of frames is the first part followed by the rest. */
  lemma {:induction false} PlayInOrder(s: Session, a: seq<FrameInput>, b: seq<FrameInput>)
    ensures Play(s, a + b) == Play(Play(s, a), b)
    decreases |a|
  {
    if |a| == 0 {
      assert a + b == b;
    } else {
      assert (a + b)[0] == a[0];
      assert (a + b)[1..] == a[1..] + b;
      var r := Frame(s, a[0]);
      if r.running {
        PlayInOrder(r.session, a[1..], b);
      }
    }
  }

  /** The level has not outrun the score: it is at most the level the score is worth. */
  predicate EarnedLevel(s: Session) {
    1 <= s.level <= LevelFor(s.score)
  }

  /** A frame keeps the level earned: keys only raise the score, and a level-up needs the threshold. */
  lemma FrameKeepsEarnedLevel(s: Session, f: FrameInput)
    requires EarnedLevel(s)
    ensures EarnedLevel(Frame(s, f).session)
  {
    if !s.gameOver {
      var m := ResolveKeys(s, f.keys);
      LevelForMonotone(s.score, m.score);
      LevelUpStep(m.level, m.score);
    }
  }

  /** Any run of frames keeps the level earned. */
  lemma {:induction false} PlayKeepsEarnedLevel(s: Session, frames: seq<FrameInput>)
    requires EarnedLevel(s)
    ensures EarnedLevel(Play(s, frames))
    decreases |frames|
  {
    if |frames| > 0 {
      FrameKeepsEarnedLevel(s, frames[0]);
      var r := Frame(s, frames[0]);
      if r.running {
        PlayKeepsEarnedLevel(r.session, frames[1..]);
      }
    }
  }

  /**
   Every state a game reaches has earned its level, so from any of them a
   stretch of frames without keys climbs as `QuietFramesClimb` states.
   */
  lemma ReachableLevelsEarned(start: int, frames: seq<FrameInput>)
    ensures EarnedLevel(Play(Initial(start), frames))
  {
    PlayKeepsEarnedLevel(Initial(start), frames);
  }
}
