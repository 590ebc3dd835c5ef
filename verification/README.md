# Typing game engine — a Dafny model

This project models the gameplay engine of the single-file typing game
`src/typing_game.py`. Words fall down a 60-by-25 character grid towards a
castle of three rows of art. The player types a word's characters to destroy
it before it lands. Each landing removes rows from the top of the castle.
Rendering, pygame, fonts and the asyncio loop are left out. The clock and the
random draws become parameters.

Modules, in dependency order:

- `Config`: the grid size, the sub-row unit, and the bonus and points constants.
- `Text`: ASCII `isalnum` and `upper`, and the keystroke filter.
- `Falling`: the `FallingObject` record and its methods (`__init__`, `move`,
  `handle_input`, `reset_progress`, `get_bottom_pixel_y`).
- `Difficulty`: the `difficulty_levels` table, `get_level_settings` and
  `check_for_level_up`.
- `Castle`: the initial castle art and `damage_castle`.
- `Spawner`: `generate_falling_object`.
- `Session`: the global game variables as one `Session` value, plus the
  invariant every reachable state keeps (`Valid`).
- `Input`: the KEYDOWN branch of `run_game`. It filters the key, feeds it to
  the target, scores a completed word, and handles switching and acquisition.
- `Simulation`: the per-frame part of `run_game`. It runs level-up, the spawn
  gate, then the move/collide/filter pass.
- `Game`: frames (that frame's keys, then the tick) and runs of frames.
- `Scenarios`: concrete plays.

Units. A vertical position `y` is measured in sub-row units; one grid row is
6000 units. Table speeds are in hundredths of a row per second. The source
moves an object by `speed * CHAR_HEIGHT / 60` pixels per frame. In these units
that is exactly `speed` units per frame, whatever pixel height the font gives
a row. So the collision test `pixel_y + CHAR_HEIGHT >= (GRID_HEIGHT - h) * CHAR_HEIGHT`
becomes `y + 6000 >= (25 - h) * 6000`. Times are integer milliseconds, so the
intervals 2.0 s, 1.8 s, … are 2000, 1800, ….

The current target is an index into the object list. This stands in for the
source's object reference: object identity there is list position here. The
pass over the objects carries the target along and re-indexes it when it
builds the new list (`Simulation.TargetRef`).

Behaviours of the code worth knowing, all modelled as written:

- A key that acquires a target is not applied to it. A one-letter word
  therefore takes two presses (`Scenarios.SingleLetterNeedsTwoPresses`).
- A wrong key resets the target's progress but keeps the lock. The lock moves
  only if another word in play starts with that key (`Input.MistypeRestarts`,
  `Scenarios.MistypeKeepsLock`).
- The search for another target runs after every key that does not finish the
  word, correct keys included. So a correct key can cost the progress made so
  far (`Scenarios.CorrectKeyCanSwitch`).
- Among several matching words the first in list order wins.
- Damage that exactly uses up the castle's rows empties it without ending the
  game. With no castle nothing collides any more, so the game never ends
  (`Castle.ExactDamageLeavesGameRunning`, `Simulation.EmptyCastleNeverEnds`,
  `Game.ExactDestructionNeverEnds`, `Scenarios.LastRowLeavesGameRunning`).
- The castle is a list of whole rows. Each hit removes one row, or two for a
  bonus word.

## Model

| member | source | states |
|---|---|---|
| Text.Accepted | src/typing_game.py:263 | only non-empty keys pass the filter; a one-character key passes iff it is an ASCII letter or digit or the semicolon |
| Falling.NewFallingObject | src/typing_game.py:81-90 | a new object holds the upper-cased word, starts at the top in play with nothing typed, and its column leaves room for the whole word on the grid |
| Falling.SpawnColumn | src/typing_game.py:86 | the drawn column leaves room for the whole word: column plus word width never exceeds the grid width |
| Falling.Move | src/typing_game.py:104-106 | an object in play moves down by exactly its speed; an object out of play does not move; nothing but the position changes |
| Falling.HandleInput | src/typing_game.py:108-121 | an object out of play or fully typed is unchanged and reports no completion; the expected character advances progress by one and completes (leaving play) exactly when the word is finished; any other key sets progress to 0, stays in play and does not complete; only progress and the in-play flag ever change, and the counter stays within the word |
| Falling.ResetProgress | src/typing_game.py:123-124 | the word's progress becomes 0 and nothing else about the object changes; a well-typed object stays well typed |
| Falling.BottomY | src/typing_game.py:126-127 | an object's bottom edge lies exactly one row below its top edge |
| Falling.HandleInputIgnoresCase | src/typing_game.py:111-113 | a key and its upper-cased form have the same effect |
| Falling.TypingTheRestCompletes | src/typing_game.py:108-121 | typing the untyped rest of a word key by key finishes it, and only the last key reports completion |
| Difficulty.TableWellFormed | src/typing_game.py:137-146 | the table has eight rows numbered 1 to 8; every row has words, each non-empty, upper-case and no wider than the grid |
| Difficulty.ThresholdsIncrease | src/typing_game.py:137-146 | score thresholds strictly increase from level to level |
| Difficulty.GetLevelSettings | src/typing_game.py:148-150 | every integer level maps to a table row: levels 1 to 8 to their own row, lower levels to the first and higher ones to the last |
| Difficulty.CheckForLevelUp | src/typing_game.py:219-224 | the level rises by exactly one iff it is below 8 and the score has reached its threshold, and otherwise stays the same; it never falls and never passes 8 |
| Difficulty.ThresholdsMetIsPrefix | src/typing_game.py:137-146 | because thresholds increase, the thresholds a score reaches are exactly the first ones of the table |
| Difficulty.LevelUpStep | src/typing_game.py:219-224 | below the level its score is worth, one check raises the level by exactly one; at that level it stays |
| Difficulty.LevelUpConverges | src/typing_game.py:219-224 | at a fixed score the level climbs one step per level-up check up to the level that score is worth (one plus the thresholds it reaches), then stays there |
| Difficulty.LevelAfterShift | src/typing_game.py:219-224 | one check followed by k more gives the level that k + 1 checks give |
| Difficulty.LevelForMonotone | src/typing_game.py:137-146 | a higher score is worth at least the level a lower score is worth |
| Castle.InitialCastleFitsGrid | src/typing_game.py:153-159 | the castle starts with three rows, each exactly as wide as the grid |
| Castle.DamageCastle | src/typing_game.py:206-216 | exactly min(amount, rows) rows go from the top, the rest stays as it was, that number is returned, and the game ends iff the damage exceeds the rows (it is never un-ended) |
| Castle.DamageAdds | src/typing_game.py:206-216 | two blows leave the castle and game state that one blow of the combined amount leaves |
| Castle.SecondBlow | src/typing_game.py:206-216 | a blow on a castle already reduced by earlier damage leaves the rows and game-over flag that one blow of the summed damage leaves |
| Castle.ExactDamageLeavesGameRunning | src/typing_game.py:209-215 | damage equal to the rows left empties the castle and does not end the game |
| Spawner.SpawnSpeed | src/typing_game.py:184-190 | a plain object falls at the level's speed; a bonus object falls at least one and a half times as fast, and faster whenever the base speed is positive |
| Spawner.SpawnDue | src/typing_game.py:182 | for a level in the table, the spawn gate is open iff strictly more than that level's interval has passed since the last spawn; an open gate means time has moved on |
| Spawner.Generate | src/typing_game.py:177-193 | when the level has words and more than the interval has passed, exactly one object is appended and the time recorded; the new object is one of the level's words, in play at the top, untyped, fitting the grid, with the drawn bonus flag and its speed; otherwise nothing changes |
| Session.Initial | src/typing_game.py:163-168 | a game starts with no objects, no target, score 0, level 1, the full castle, not over, and satisfies the session invariant |
| Input.FirstMatch | src/typing_game.py:276-279 | the search result is an object in play, not the excluded one, whose word starts with the key, and no earlier object qualifies; no result means no object qualifies |
| Input.Points | src/typing_game.py:269-271 | the points for finishing a word are ten per character, doubled for a bonus word |
| Input.ResolveKey | src/typing_game.py:262-290 | a filtered-out key changes nothing; among the objects only the old target's progress and in-play flag change, and besides them only the target and the score change; the score never falls; level, castle, game-over flag and spawn time are untouched |
| Input.ScoreOnlyOnCompletion | src/typing_game.py:266-274 | the score changes iff the key finishes the target's word, and then rises by len(text)*10, doubled for bonus; the word leaves play fully typed and the target is cleared |
| Input.SwitchToFirstOtherMatch | src/typing_game.py:275-283 | a key that does not finish the word moves the target to the first other word in play that starts with it, resetting the old target's progress while the old word stays in play and is otherwise unchanged, and leaving the new one's as it was; with no such word the target stays and takes the key |
| Input.AcquireFirstMatch | src/typing_game.py:284-288 | with no target, the target becomes exactly the first word in play that starts with the key, and no word's progress changes |
| Input.MistypeRestarts | src/typing_game.py:119-121 | a wrong key on the target resets its progress to 0, keeps it in play, scores nothing and leaves some target locked |
| Input.ResolveKeyKeepsValid | src/typing_game.py:262-290 | a keystroke keeps the session invariant: counters within their words, only the target typed into, the target in play |
| Input.TypingKeepsValid | src/typing_game.py:266-283 | a key typed at the live target keeps the session invariant, whether it finishes the word, advances it, resets it or moves the lock |
| Input.AcquiringKeepsValid | src/typing_game.py:284-288 | a key that may lock on to a word, with no lock held, keeps the session invariant |
| Input.DropFinished | src/typing_game.py:289-290 | the clean-up clears the target iff it names an object in play whose word is fully typed, keeps it otherwise, and changes nothing else |
| Input.DropFinishedIdle | src/typing_game.py:289-290 | while every counter is within its word the clean-up changes nothing: an object in play is never fully typed |
| Simulation.Advance | src/typing_game.py:298-308 | per object, a frame moves an object in play and takes it out of play iff it then reaches the top of a standing castle; an object out of play is untouched |
| Simulation.CastleTop | src/typing_game.py:297 | a castle of h rows occupies the bottom h rows of the grid, so its top edge plus its height is the grid's bottom; a gone castle puts the top at the grid's bottom |
| Simulation.CollidesOnRow | src/typing_game.py:301 | an object hits the castle iff a castle stands and the object's top edge is in the row just above the castle or lower |
| Simulation.DamageOf | src/typing_game.py:303-305 | a hit deals at least one row and at most the bonus multiplier, more than one exactly for a bonus object |
| Simulation.StepObject | src/typing_game.py:298-310 | one object's turn in the pass appends it, advanced, to the kept list iff it is still in play afterwards; a target other than this object is untouched; a finished game stays finished |
| Simulation.Sweep | src/typing_game.py:298-311 | a game over before the pass stays over; the full outcome of the pass is stated by SweepShape and SweepTarget |
| Simulation.ActiveOnly | src/typing_game.py:309-311 | the list kept for the next frame holds only objects in play, and no more objects than before |
| Simulation.ActiveOnlyRank | src/typing_game.py:309-311 | an object in play is kept, at the position right after the objects in play before it |
| Simulation.ActiveOnlyOrigin | src/typing_game.py:309-311 | every kept object is an object in play from the old list, at the matching rank |
| Simulation.SweepKept | src/typing_game.py:295-311 | the pass keeps exactly the advanced objects still in play, in their original order |
| Simulation.SweepCastle | src/typing_game.py:296-306 | the pass damages the castle as one blow of the summed collision damage (one per plain hit, two per bonus hit) would |
| Simulation.SweepTarget | src/typing_game.py:307-308 | the target is cleared exactly when its object hits the castle; otherwise it names that object at its new position |
| Simulation.NoCastleNoDamage | src/typing_game.py:297-301 | with no castle standing no object collides, so a pass deals no damage |
| Simulation.SweepShape | src/typing_game.py:295-311 | the pass's kept list, castle and game-over flag are those of the filtered advanced list and of one blow of the summed damage |
| Simulation.PassKeepsWellTyped | src/typing_game.py:298-311 | every object the pass keeps has its typed counter within its word |
| Simulation.PassKeepsTarget | src/typing_game.py:298-311 | after the pass only the target has typed progress, and the target, if kept, is in play |
| Simulation.Tick | src/typing_game.py:292-311 | a frame leaves a finished game alone; otherwise the level becomes the result of one level-up check at the frame's score, the score is unchanged, the level stays within the table, the castle only loses rows from the top, and every object kept is in play |
| Simulation.TickPass | src/typing_game.py:295-311 | after a running frame the list is exactly the objects still in play, in order; the castle lost min(total damage, rows) rows from the top; the game ended iff the damage exceeded the rows |
| Simulation.TickSpawn | src/typing_game.py:182-193 | a running frame adds exactly one object, after the existing ones, and records the time iff the spawn gate is open; otherwise the list and the spawn time are unchanged |
| Simulation.TickTarget | src/typing_game.py:298-308 | the target survives a frame iff its object does not hit the castle, and then names that object, moved |
| Simulation.TickKeepsValid | src/typing_game.py:292-311 | a frame keeps the session invariant |
| Simulation.EmptyCastleNeverEnds | src/typing_game.py:296-301 | with no castle and a running game, a frame leaves the castle empty and the game running |
| Game.ResolveKeys | src/typing_game.py:255-290 | a frame's keys never lower the score and never touch level, castle, game-over flag or spawn time; a finished game ignores them |
| Game.Frame | src/typing_game.py:254-311 | the loop stops iff a key arrives on the game-over screen; a finished game is unchanged; in a running game the level after the frame is one level-up check at the score the frame's keys reached; score and level never fall; the castle only loses rows from the top |
| Game.Play | src/typing_game.py:254-311 | the loop over frames leaves a finished game as it is, changes nothing without frames, and never lowers the score; `PlayOneFrame` and `PlayInOrder` pin every frame, keys included, to `Frame` |
| Game.PlayOneFrame | src/typing_game.py:254-311 | playing one frame is exactly `Frame` on it: its keys are resolved before its tick, none dropped |
| Game.ResolveKeysInOrder | src/typing_game.py:255-290 | a frame's keys are resolved one at a time in arrival order: one more key is resolved on the state the earlier keys left, and not at all once the game is over |
| Game.FrameTicksAfterKeys | src/typing_game.py:292-311 | in a running game the tick works on the state the keys left: its objects, advanced and filtered, are the new list, the keys' score is kept, the castle loses the rows of every collision, and the spawn time becomes the frame's clock reading iff the spawn gate is open at the level the keys' score earns, else stays |
| Game.FrameTargetAfterKeys | src/typing_game.py:298-308 | the target the keys left survives the tick iff its object does not hit the castle, and then names that object, moved |
| Game.PlayInOrder | src/typing_game.py:254-311 | frames run in time order: playing a run of frames equals playing its first part and then the rest |
| Game.ResolveKeysKeepsValid | src/typing_game.py:255-290 | a frame's keys keep the session invariant |
| Game.FrameKeepsValid | src/typing_game.py:254-311 | a frame keeps the session invariant |
| Game.PlayKeepsValid | src/typing_game.py:254-311 | every run of frames from a valid state ends in a valid state |
| Game.PlayMonotone | src/typing_game.py:254-311 | over any run of frames the score and the level never fall, the level stays at most 8, the castle only loses rows from the top, and a finished game is unchanged |
| Game.PlayKeepsInvariants | src/typing_game.py:254-311 | over any run of frames from a valid state: the invariant holds, score and level never fall, the level stays at most 8, the castle only shrinks from the top, and a finished game stays unchanged |
| Game.ReachableStatesValid | src/typing_game.py:247-311 | every state reached from the start of a game satisfies the session invariant |
| Game.ExactDestructionNeverEnds | src/typing_game.py:206-216 | once the castle is gone and the game was not ended, no run of frames ever ends it |
| Game.QuietFrame | src/typing_game.py:254-311 | a frame without keys keeps the loop running, keeps the score, and runs one level-up check when the game is running |
| Game.QuietFramesLevel | src/typing_game.py:292-293 | over frames without keys, a game still running at the end has its score unchanged and its level after one level-up check per frame |
| Game.QuietFramesClimb | src/typing_game.py:292-293 | left alone, a running game climbs one level per frame until the level its score is worth, then stays there |
| Game.FrameKeepsEarnedLevel | src/typing_game.py:219-224 | a frame never lifts the level above the level the score is worth, since keys only raise the score and a level-up needs the threshold |
| Game.PlayKeepsEarnedLevel | src/typing_game.py:219-224 | over any run of frames the level stays at most the level the score is worth |
| Game.ReachableLevelsEarned | src/typing_game.py:163-168 | every state reached from the start of a game has a level no higher than its score is worth, so the climb of frames without keys applies from it |
| Scenarios.SingleLetterNeedsTwoPresses | src/typing_game.py:266-290 | a one-letter word is locked on by the first press and finished, for 10 points, by the second |
| Scenarios.CorrectKeyCanSwitch | src/typing_game.py:275-283 | with "THE" locked and "THIS" in play, a correct "T" moves the lock to "THIS" and resets "THE" |
| Scenarios.MistypeKeepsLock | src/typing_game.py:113-121 | "C", "X", "C" on a locked "CAT" gives progress 1, then 0, then 1, with the lock kept throughout |
| Scenarios.LastRowLeavesGameRunning | src/typing_game.py:296-311 | a plain word landing on a one-row castle removes it, leaves the game running and leaves no objects |

## Left out

- Simulation.Sweep: its own contract only keeps a finished game finished. What the pass keeps, the damage it deals and where the target lands are stated about it by SweepKept, SweepCastle and SweepTarget, which keeps the proofs that unfold the pass small.
- Window, font loading and fallback (src/typing_game.py:9-68): platform set-up. The font's cell height does not matter in sub-row units.
- All drawing: `draw`, `draw_castle`, `draw_game_over`, the targeting line, the score line, and the objects' colours. These are rendering only.
- `get_center_position`: pixel arithmetic used only for drawing.
- The event loop, `QUIT` events, `clock.tick`, the asyncio sleep and the Emscripten entry. Only the effect of a KEYDOWN on the game-over screen (the loop stops) is kept, in `Game.Frame`.
- `time.time()` and the `random` calls are parameters: the clock reading `now`, and a `Draw` holding the word choice, the bonus roll's outcome and the column choice. Each choice is reduced modulo the number of options. The 10% bonus probability is not modelled.
- Floating point: positions are whole sub-row units. The source's float speeds and times are modelled exactly at the table's values, but float rounding is not modelled.
- Spawner.SpawnSpeed: does not compute `max(speed * 2.0, base * 1.5)` literally, because that maximum is always the doubled speed. The contract states that the result is at least 1.5 times the base.
- Falling.NewFallingObject: requires the word to fit the grid. For a wider word, `random.randint` would raise an unhandled error; every table word fits.
- Text: `str.isalnum` and `str.upper` are modelled for ASCII only. Non-ASCII letters and digits are filtered out instead of accepted, and no multi-character case mappings are modelled.
- The level-up message printed to the console.
- A target reference naming an object out of play is dropped by the tick rather than kept dangling. No reachable state has one (`Session.Valid`).
