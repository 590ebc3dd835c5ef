/** Concrete plays that show how keystrokes and collisions resolve. */
module Scenarios {
  import opened Optional
  import opened Config
  import opened Text
  import opened Falling
  import opened Difficulty
  import opened Castle
  import opened Spawner
  import opened Session
  import opened Input
  import opened Simulation
  import opened Game

  /** A fresh word in play at column 0, at the top, falling at the level-1 speed. */
  function Word(text: string): FallingObject {
    FallingObject(text, false, 30, 0, 0, true, 0)
  }

  function WithObjects(objects: seq<FallingObject>, target: Option<nat>): Session {
    Session(objects, target, 0, 1, false, InitialCastle, 0)
  }

  /**
   A one-letter word takes two presses: the first only locks on to it, the
   second finishes it for ten points.
   */
  lemma SingleLetterNeedsTwoPresses()
    ensures var s := WithObjects([Word("F")], None);
            var once := ResolveKeys(s, ["F"]);
            var twice := ResolveKeys(s, ["F", "F"]);
            && once.target == Some(0) && once.objects[0].progress == 0 && once.score == 0
            && twice.target == None && !twice.objects[0].active && twice.score == 10
  {
    var s := WithObjects([Word("F")], None);
    assert Upper("F") == "F";
    assert IsCandidate(s.objects, 0, "F", None);
    var once := ResolveKey(s, "F");
    assert once.target == Some(0);
    assert once.objects[0] == Word("F");
    assert ["F", "F"][1..] == ["F"];
    assert Expects(once.objects[0], "F");
  }

  /**
   A correct key can cost the progress: with "THE" locked and "THIS" also in
   play, typing "T" advances "THE", then switches to "THIS" and starts "THE"
   over.
   */
  lemma CorrectKeyCanSwitch()
    ensures var s := WithObjects([Word("THE"), Word("THIS")], Some(0));
            var r := ResolveKey(s, "T");
            r.target == Some(1) && r.objects[0].progress == 0 && r.objects[1].progress == 0
  {
    var s := WithObjects([Word("THE"), Word("THIS")], Some(0));
    assert Upper("T") == "T";
    assert Expects(s.objects[0], "T");
    var objects := s.objects[0 := HandleInput(s.objects[0], "T").obj];
    assert IsCandidate(objects, 1, "T", Some(0));
  }

  /**
   A wrong key on a locked word resets it but keeps the lock when no other
   word starts with that key; the next right key resumes from the start.
   */
  lemma MistypeKeepsLock()
    ensures var s := WithObjects([Word("CAT")], Some(0));
            var afterC := ResolveKey(s, "C");
            var afterX := ResolveKey(afterC, "X");
            var afterC2 := ResolveKey(afterX, "C");
            && afterC.objects[0].progress == 1 && afterC.target == Some(0)
            && afterX.objects[0].progress == 0 && afterX.target == Some(0)
            && afterC2.objects[0].progress == 1 && afterC2.target == Some(0)
  {
    var s := WithObjects([Word("CAT")], Some(0));
    assert Upper("C") == "C";
    assert Upper("X") == "X";
    assert Expects(s.objects[0], "C");
    var afterC := ResolveKey(s, "C");
    assert !Expects(afterC.objects[0], "X");
    var afterX := ResolveKey(afterC, "X");
    assert Expects(afterX.objects[0], "C");
  }

  /**
   The last castle row taken by a plain word's single point of damage leaves
   no castle and a game that is not over.
   */
  lemma LastRowLeavesGameRunning()
    ensures var o := FallingObject("F", false, 30, 0, (GridHeight - 2) * RowUnits, true, 0);
            var s := Session([o], None, 0, 1, false, ["#"], 0);
            var r := Tick(s, 0, Draw(0, false, 0));
            |r.castle| == 0 && !r.gameOver && |r.objects| == 0
  {
    var o := FallingObject("F", false, 30, 0, (GridHeight - 2) * RowUnits, true, 0);
    var s := Session([o], None, 0, 1, false, ["#"], 0);
    var d := Draw(0, false, 0);
    assert CheckForLevelUp(1, 0) == 1;
    assert !SpawnDue(1, 0, 0);
    TickSpawn(s, 0, d);
    TickPass(s, 0, d);
    var m := Move(o);
    assert m.y == 138030;
    assert Collides(m, 1);
    assert [o][..0] == [];
    assert TotalDamage([o], 1) == 1;
    var xs := AdvanceAll([o], 1);
    assert xs == [m.(active := false)];
    assert xs[..0] == [];
    assert ActiveOnly(xs) == [];
  }
}
