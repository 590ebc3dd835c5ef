/**
 The per-frame update of `run_game`: level-up, the spawn gate, then one pass
 over the objects that moves them, lets those that reach the castle damage it,
 and keeps only the objects still in play.
 */
module Simulation {
  import opened Optional
  import opened Config
  import opened Falling
  import opened Difficulty
  import opened Castle
  import opened Spawner
  import opened Session

  /** The top edge of a castle `h` rows high; the bottom of the grid when it is gone. */
  function CastleTop(h: nat): (top: int)
    ensures h == 0 ==> top == GridHeight * RowUnits
    ensures h > 0 ==> top + h * RowUnits == GridHeight * RowUnits
  {
    if h > 0 then (GridHeight - h) * RowUnits else GridHeight * RowUnits
  }

  /** An object hits a standing castle of height `h` once its bottom edge reaches the castle's top. */
  predicate Collides(o: FallingObject, h: nat) {
    h > 0 && BottomY(o) >= CastleTop(h)
  }

  /**
   An object collides exactly when a castle stands and the object's top edge
   lies in the row just above the castle or lower.
   */
  lemma CollidesOnRow(o: FallingObject, h: nat)
    ensures Collides(o, h) <==> h > 0 && o.y / RowUnits + 1 >= GridHeight - h
  {
  }

  /** Rows an object knocks off when it hits: one, two for a bonus object. */
  function DamageOf(o: FallingObject): (n: nat)
    ensures 1 <= n <= BonusDamageMultiplier
    ensures n > 1 <==> o.isBonus
  {
    if o.isBonus then 1 * BonusDamageMultiplier else 1
  }

  /**
   What one frame does to one object: an object in play moves, and leaves play
   if it then hits the castle (whose height `h` is read once, before the pass).
   */
  function Advance(o: FallingObject, h: nat): (r: FallingObject)
    ensures !o.active ==> r == o
    ensures o.active ==> r == Move(o).(active := !Collides(Move(o), h))
    ensures r.active ==> o.active
    ensures WellTyped(o) ==> WellTyped(r)
  {
    if !o.active then o
    else
      var m := Move(o);
      if Collides(m, h) then m.(active := false) else m
  }

  function AdvanceAll(objects: seq<FallingObject>, h: nat): (r: seq<FallingObject>)
    ensures |r| == |objects|
    ensures forall i :: 0 <= i < |objects| ==> r[i] == Advance(objects[i], h)
  {
    seq(|objects|, i requires 0 <= i < |objects| => Advance(objects[i], h))
  }

  lemma AdvanceAllPrefix(objects: seq<FallingObject>, h: nat, n: nat)
    requires n <= |objects|
    ensures AdvanceAll(objects, h)[..n] == AdvanceAll(objects[..n], h)
  {
  }

  /** The objects in play, in their original order. */
  function ActiveOnly(xs: seq<FallingObject>): (r: seq<FallingObject>)
    ensures |r| <= |xs|
    ensures forall j :: 0 <= j < |r| ==> r[j].active
    decreases |xs|
  {
    if |xs| == 0 then []
    else ActiveOnly(xs[..|xs| - 1]) + (if xs[|xs| - 1].active then [xs[|xs| - 1]] else [])
  }

  /** An object in play lands in the filtered list right after the ones in play before it. */
  lemma {:induction false} ActiveOnlyRank(xs: seq<FallingObject>, i: nat)
    requires i < |xs| && xs[i].active
    ensures |ActiveOnly(xs[..i])| < |ActiveOnly(xs)|
    ensures ActiveOnly(xs)[|ActiveOnly(xs[..i])|] == xs[i]
    decreases |xs|
  {
    var pre := xs[..|xs| - 1];
    if i == |xs| - 1 {
      assert xs[..i] == pre;
    } else {
      assert pre[..i] == xs[..i];
      ActiveOnlyRank(pre, i);
    }
  }

  /** Every filtered object comes from an object in play at the matching rank. */
  lemma {:induction false} ActiveOnlyOrigin(xs: seq<FallingObject>, j: nat) returns (i: nat)
    requires j < |ActiveOnly(xs)|
    ensures i < |xs| && xs[i].active && ActiveOnly(xs)[j] == xs[i]
    ensures |ActiveOnly(xs[..i])| == j
    decreases |xs|
  {
    var pre := xs[..|xs| - 1];
    if j < |ActiveOnly(pre)| {
      i := ActiveOnlyOrigin(pre, j);
      assert pre[..i] == xs[..i];
    } else {
      i := |xs| - 1;
      assert xs[..i] == pre;
    }
  }

  /** The damage all collisions of a pass deal in total. */
  function TotalDamage(objects: seq<FallingObject>, h: nat): nat
    decreases |objects|
  {
    if |objects| == 0 then 0
    else
      var o := objects[|objects| - 1];
      TotalDamage(objects[..|objects| - 1], h) + (if o.active && Collides(Move(o), h) then DamageOf(o) else 0)
  }

  /**
   Where the current target stands during the pass: not yet reached (its index
   in the list being walked), already kept (its index in the new list), or
   cleared.
   */
  datatype TargetRef = Pending(index: nat) | Placed(index: nat) | NoTarget

  /** The state the pass carries from one object to the next. */
  datatype Pass = Pass(castle: seq<string>, gameOver: bool, target: TargetRef, kept: seq<FallingObject>)

  /** One iteration of the pass over the object at index `i`. */
  function StepObject(p: Pass, o: FallingObject, i: nat, h: nat): (q: Pass)
    ensures q.kept == p.kept + (if Advance(o, h).active then [Advance(o, h)] else [])
    ensures p.target != Pending(i) ==> q.target == p.target
    ensures p.gameOver ==> q.gameOver
  {
    if !o.active then p
    else
      var m := Move(o);
      if Collides(m, h) then
        var d := DamageCastle(p.castle, p.gameOver, DamageOf(m));
        Pass(d.rows, d.gameOver, if p.target == Pending(i) then NoTarget else p.target, p.kept)
      else
        Pass(p.castle, p.gameOver, if p.target == Pending(i) then Placed(|p.kept|) else p.target, p.kept + [m])
  }

  /** The pass over the whole list, in list order. */
  function Sweep(objects: seq<FallingObject>, h: nat, start: Pass): (r: Pass)
    ensures start.gameOver ==> r.gameOver
    decreases |objects|
  {
    if |objects| == 0 then start
    else StepObject(Sweep(objects[..|objects| - 1], h, start), objects[|objects| - 1], |objects| - 1, h)
  }

  /** The pass keeps exactly the objects still in play after advancing, in their order. */
  lemma {:induction false} SweepKept(objects: seq<FallingObject>, h: nat, start: Pass)
    requires start.kept == []
    ensures Sweep(objects, h, start).kept == ActiveOnly(AdvanceAll(objects, h))
    decreases |objects|
  {
    if |objects| > 0 {
      var n := |objects|;
      var pre := objects[..n - 1];
      var o := objects[n - 1];
      SweepKept(pre, h, start);
      assert Sweep(objects, h, start) == StepObject(Sweep(pre, h, start), o, n - 1, h);
      var ys := AdvanceAll(objects, h);
      AdvanceAllPrefix(objects, h, n - 1);
      assert ys[..|ys| - 1] == AdvanceAll(pre, h);
      assert ys[|ys| - 1] == Advance(o, h);
      assert ActiveOnly(ys) == ActiveOnly(AdvanceAll(pre, h)) + (if Advance(o, h).active then [Advance(o, h)] else []);
    }
  }

  /**
   The pass damages the castle as one blow of the total damage would: the
   rows it covers go from the top, and the game ends iff it exceeds them.
   */
  lemma {:induction false} SweepCastle(objects: seq<FallingObject>, h: nat, start: Pass)
    ensures var p := Sweep(objects, h, start);
            var total := TotalDamage(objects, h);
            && p.castle == start.castle[Min(total, |start.castle|)..]
            && (p.gameOver <==> start.gameOver || total > |start.castle|)
    decreases |objects|
  {
    if |objects| > 0 {
      var n := |objects|;
      var pre := objects[..n - 1];
      var o := objects[n - 1];
      SweepCastle(pre, h, start);
      var p0 := Sweep(pre, h, start);
      assert Sweep(objects, h, start) == StepObject(p0, o, n - 1, h);
      StepCastle(p0, o, n - 1, h, start.castle, start.gameOver, TotalDamage(pre, h), TotalDamage(objects, h));
    }
  }

  /** One iteration of the pass extends the castle damage by the object's own blow. */
  lemma StepCastle(p: Pass, o: FallingObject, i: nat, h: nat, castle: seq<string>, gameOver: bool, dealt: nat, total: nat)
    requires p.castle == castle[Min(dealt, |castle|)..]
    requires p.gameOver <==> gameOver || dealt > |castle|
    requires total == dealt + (if o.active && Collides(Move(o), h) then DamageOf(o) else 0)
    ensures var q := StepObject(p, o, i, h);
            && q.castle == castle[Min(total, |castle|)..]
            && (q.gameOver <==> gameOver || total > |castle|)
  {
    var q := StepObject(p, o, i, h);
    if o.active && Collides(Move(o), h) {
      var b := DamageOf(o);
      assert DamageOf(Move(o)) == b;
      SecondBlow(castle, gameOver, dealt, b, p.castle, p.gameOver);
    } else {
      assert q.castle == p.castle && q.gameOver == p.gameOver;
    }
  }

  lemma SweepShape(objects: seq<FallingObject>, h: nat, castle: seq<string>, gameOver: bool, target: TargetRef)
    ensures var p := Sweep(objects, h, Pass(castle, gameOver, target, []));
            var total := TotalDamage(objects, h);
            && p.kept == ActiveOnly(AdvanceAll(objects, h))
            && p.castle == castle[Min(total, |castle|)..]
            && (p.gameOver <==> gameOver || total > |castle|)
  {
    SweepKept(objects, h, Pass(castle, gameOver, target, []));
    SweepCastle(objects, h, Pass(castle, gameOver, target, []));
  }

  /**
   The target is cleared exactly when its object hits the castle; otherwise it
   ends up at its rank among the kept objects.
   */
  lemma {:induction false} SweepTarget(objects: seq<FallingObject>, h: nat, castle: seq<string>, gameOver: bool, t: nat)
    ensures var p := Sweep(objects, h, Pass(castle, gameOver, Pending(t), []));
            p.target ==
              if t >= |objects| || !objects[t].active then Pending(t)
              else if Collides(Move(objects[t]), h) then NoTarget
              else Placed(|ActiveOnly(AdvanceAll(objects[..t], h))|)
    decreases |objects|
  {
    if |objects| > 0 {
      var n := |objects|;
      var pre := objects[..n - 1];
      SweepTarget(pre, h, castle, gameOver, t);
      if t == n - 1 {
        SweepKept(pre, h, Pass(castle, gameOver, Pending(t), []));
        assert objects[..t] == pre;
      } else if t < n - 1 {
        assert pre[..t] == objects[..t];
      }
    }
  }

  /** With no target, the pass makes none. */
  lemma {:induction false} SweepNoTarget(objects: seq<FallingObject>, h: nat, castle: seq<string>, gameOver: bool)
    ensures Sweep(objects, h, Pass(castle, gameOver, NoTarget, [])).target == NoTarget
    decreases |objects|
  {
    if |objects| > 0 {
      SweepNoTarget(objects[..|objects| - 1], h, castle, gameOver);
    }
  }

  /** Without a castle nothing collides, so a pass deals no damage. */
  lemma {:induction false} NoCastleNoDamage(objects: seq<FallingObject>)
    ensures TotalDamage(objects, 0) == 0
    decreases |objects|
  {
    if |objects| > 0 {
      NoCastleNoDamage(objects[..|objects| - 1]);
    }
  }

  function StartTarget(target: Option<nat>): TargetRef {
    match target
    case Some(t) => Pending(t)
    case None => NoTarget
  }

  function EndTarget(target: TargetRef): Option<nat> {
    match target
    case Placed(k) => Some(k)
    case _ => None
  }

  /**
   One frame of simulation: unless the game is over, level up, maybe spawn,
   then run the pass. The score never changes here; the level is the outcome
   of exactly one level-up check; the castle only loses rows from the top; a
   finished game stays finished; every object left is in play.
   */
  function Tick(s: Session, now: int, d: Draw): (r: Session)
    ensures s.gameOver ==> r == s
    ensures r.score == s.score
    ensures s.level <= r.level <= s.level + 1
    ensures s.level <= MaxLevel ==> r.level <= MaxLevel
    ensures EndsWith(r.castle, s.castle)
    ensures s.gameOver ==> r.gameOver
    ensures !s.gameOver ==> forall j :: 0 <= j < |r.objects| ==> r.objects[j].active
    ensures !s.gameOver ==> r.level == CheckForLevelUp(s.level, s.score)
  {
    if s.gameOver then s
    else
      var level := CheckForLevelUp(s.level, s.score);
      var sp := Generate(s.objects, s.lastSpawn, level, now, d);
      var h := |s.castle|;
      var p := Sweep(sp.objects, h, Pass(s.castle, s.gameOver, StartTarget(s.target), []));
      SweepShape(sp.objects, h, s.castle, s.gameOver, StartTarget(s.target));
      Session(p.kept, EndTarget(p.target), s.score, level, p.gameOver, p.castle, sp.lastSpawn)
  }

  /** The objects a running frame sees: the old list plus any spawn. */
  function Spawned(s: Session, now: int, d: Draw): seq<FallingObject> {
    Generate(s.objects, s.lastSpawn, CheckForLevelUp(s.level, s.score), now, d).objects
  }

  /**
   After a running frame the list holds exactly the objects still in play, in
   their original order, and the castle has lost the rows of every collision,
   the game ending only if the damage ran out of rows.
   */
  lemma TickPass(s: Session, now: int, d: Draw)
    requires !s.gameOver
    ensures var r := Tick(s, now, d);
            var objects := Spawned(s, now, d);
            var total := TotalDamage(objects, |s.castle|);
            var k := Min(total, |s.castle|);
            && r.objects == ActiveOnly(AdvanceAll(objects, |s.castle|))
            && r.castle == s.castle[k..]
            && (r.gameOver <==> total > |s.castle|)
  {
    var objects := Spawned(s, now, d);
    SweepShape(objects, |s.castle|, s.castle, s.gameOver, StartTarget(s.target));
  }

  /**
   The spawn gate: a running frame adds exactly one object, at the end, and
   records the time only when the level has words and the interval has passed.
   */
  lemma TickSpawn(s: Session, now: int, d: Draw)
    requires !s.gameOver
    ensures var level := CheckForLevelUp(s.level, s.score);
            var r := Tick(s, now, d);
            var objects := Spawned(s, now, d);
            && (SpawnDue(level, s.lastSpawn, now) ==> |objects| == |s.objects| + 1 && r.lastSpawn == now)
            && (!SpawnDue(level, s.lastSpawn, now) ==> objects == s.objects && r.lastSpawn == s.lastSpawn)
            && objects[..|s.objects|] == s.objects
  {
  }

  /**
   The target survives a frame exactly when its object does not hit the
   castle, and then still names that object, moved.
   */
  lemma TickTarget(s: Session, now: int, d: Draw)
    requires Valid(s) && !s.gameOver
    ensures var r := Tick(s, now, d);
            && (s.target.None? ==> r.target.None?)
            && (s.target.Some? ==>
                  var o := s.objects[s.target.value];
                  && (r.target.None? <==> Collides(Move(o), |s.castle|))
                  && (r.target.Some? ==> r.target.value < |r.objects| && r.objects[r.target.value] == Move(o)))
  {
    var objects := Spawned(s, now, d);
    var h := |s.castle|;
    SweepShape(objects, h, s.castle, s.gameOver, StartTarget(s.target));
    match s.target
    case None =>
      SweepNoTarget(objects, h, s.castle, s.gameOver);
    case Some(t) =>
      assert objects[t] == s.objects[t];
      PendingOutcome(objects, h, s.castle, s.gameOver, t);
  }

  /** A target the pass meets is dropped if it hits the castle, and otherwise names its moved object among the kept. */
  lemma PendingOutcome(objects: seq<FallingObject>, h: nat, castle: seq<string>, gameOver: bool, t: nat)
    requires t < |objects| && objects[t].active
    ensures var p := Sweep(objects, h, Pass(castle, gameOver, Pending(t), []));
            var kept := ActiveOnly(AdvanceAll(objects, h));
            && (EndTarget(p.target).None? <==> Collides(Move(objects[t]), h))
            && (EndTarget(p.target).Some? ==>
                  EndTarget(p.target).value < |kept| && kept[EndTarget(p.target).value] == Move(objects[t]))
  {
    SweepTarget(objects, h, castle, gameOver, t);
    if !Collides(Move(objects[t]), h) {
      PassKeepsTargetInPlay(objects, h, castle, gameOver, t);
      SweepKept(objects, h, Pass(castle, gameOver, Pending(t), []));
    }
  }

  /** The pass keeps every counter within its word. */
  lemma PassKeepsWellTyped(objects: seq<FallingObject>, h: nat)
    requires forall i :: 0 <= i < |objects| ==> WellTyped(objects[i])
    ensures var kept := ActiveOnly(AdvanceAll(objects, h));
            forall j :: 0 <= j < |kept| ==> WellTyped(kept[j])
  {
    var xs := AdvanceAll(objects, h);
    forall j | 0 <= j < |ActiveOnly(xs)|
      ensures WellTyped(ActiveOnly(xs)[j])
    {
      var i := ActiveOnlyOrigin(xs, j);
      assert WellTyped(objects[i]);
    }
  }

  /** The rank a kept target receives: the number of objects kept before it. */
  function Rank(objects: seq<FallingObject>, h: nat, t: nat): nat
    requires t <= |objects|
  {
    |ActiveOnly(AdvanceAll(objects[..t], h))|
  }

  /** A target the pass keeps lands at its rank, in play. */
  lemma PassKeepsTargetInPlay(objects: seq<FallingObject>, h: nat, castle: seq<string>, gameOver: bool, t: nat)
    requires t < |objects| && objects[t].active && !Collides(Move(objects[t]), h)
    ensures var p := Sweep(objects, h, Pass(castle, gameOver, Pending(t), []));
            && p.target == Placed(Rank(objects, h, t))
            && Rank(objects, h, t) < |p.kept|
            && p.kept[Rank(objects, h, t)] == Advance(objects[t], h)
  {
    var xs := AdvanceAll(objects, h);
    SweepTarget(objects, h, castle, gameOver, t);
    SweepKept(objects, h, Pass(castle, gameOver, Pending(t), []));
    AdvanceAllPrefix(objects, h, t);
    ActiveOnlyRank(xs, t);
  }

  /** A kept object with typed progress came from the target. */
  lemma KeptTypedIsTarget(objects: seq<FallingObject>, h: nat, t: nat, j: nat)
    requires OnlyTargetTyped(objects, Some(t))
    requires j < |ActiveOnly(AdvanceAll(objects, h))|
    requires ActiveOnly(AdvanceAll(objects, h))[j].progress > 0
    ensures t < |objects| && objects[t].active && !Collides(Move(objects[t]), h)
    ensures j == Rank(objects, h, t)
  {
    var xs := AdvanceAll(objects, h);
    var i := ActiveOnlyOrigin(xs, j);
    assert xs[i] == Advance(objects[i], h);
    assert objects[i].active && objects[i].progress > 0;
    assert i == t;
    AdvanceAllPrefix(objects, h, t);
  }

  /** The pass keeps the target in play and the only object typed into. */
  lemma PassKeepsTarget(objects: seq<FallingObject>, h: nat, castle: seq<string>, gameOver: bool, target: Option<nat>)
    requires OnlyTargetTyped(objects, target) && TargetInPlay(objects, target)
    ensures var p := Sweep(objects, h, Pass(castle, gameOver, StartTarget(target), []));
            OnlyTargetTyped(p.kept, EndTarget(p.target)) && TargetInPlay(p.kept, EndTarget(p.target))
  {
    match target
    case None =>
      PassKeepsNone(objects, h, castle, gameOver);
    case Some(t) =>
      PassKeepsPending(objects, h, castle, gameOver, t);
  }

  /** Without a target nothing was typed into, and nothing kept is. */
  lemma PassKeepsNone(objects: seq<FallingObject>, h: nat, castle: seq<string>, gameOver: bool)
    requires OnlyTargetTyped(objects, None)
    ensures var p := Sweep(objects, h, Pass(castle, gameOver, NoTarget, []));
            OnlyTargetTyped(p.kept, None) && EndTarget(p.target) == None
  {
    var xs := AdvanceAll(objects, h);
    SweepKept(objects, h, Pass(castle, gameOver, NoTarget, []));
    SweepNoTarget(objects, h, castle, gameOver);
    forall j | 0 <= j < |ActiveOnly(xs)|
      ensures ActiveOnly(xs)[j].progress == 0
    {
      var i := ActiveOnlyOrigin(xs, j);
      assert xs[i] == Advance(objects[i], h);
    }
  }

  /** With a target: it stays the only object typed into, and stays in play unless it hit the castle. */
  lemma PassKeepsPending(objects: seq<FallingObject>, h: nat, castle: seq<string>, gameOver: bool, t: nat)
    requires OnlyTargetTyped(objects, Some(t)) && t < |objects| && objects[t].active
    ensures var p := Sweep(objects, h, Pass(castle, gameOver, Pending(t), []));
            OnlyTargetTyped(p.kept, EndTarget(p.target)) && TargetInPlay(p.kept, EndTarget(p.target))
  {
    var p := Sweep(objects, h, Pass(castle, gameOver, Pending(t), []));
    var kept := ActiveOnly(AdvanceAll(objects, h));
    SweepKept(objects, h, Pass(castle, gameOver, Pending(t), []));
    assert p.kept == kept;
    if Collides(Move(objects[t]), h) {
      SweepTarget(objects, h, castle, gameOver, t);
      assert EndTarget(p.target) == None;
      forall j | 0 <= j < |kept|
        ensures kept[j].progress == 0
      {
        if kept[j].progress > 0 {
          KeptTypedIsTarget(objects, h, t, j);
          assert false;
        }
      }
    } else {
      PassKeepsTargetInPlay(objects, h, castle, gameOver, t);
      assert EndTarget(p.target) == Some(Rank(objects, h, t));
      forall j | 0 <= j < |kept| && kept[j].active && kept[j].progress > 0
        ensures j == Rank(objects, h, t)
      {
        KeptTypedIsTarget(objects, h, t, j);
      }
    }
  }

  /** A frame keeps the session invariant. */
  lemma TickKeepsValid(s: Session, now: int, d: Draw)
    requires Valid(s)
    ensures Valid(Tick(s, now, d))
  {
    if !s.gameOver {
      var objects := Spawned(s, now, d);
      var h := |s.castle|;
      assert objects[..|s.objects|] == s.objects;
      forall i | 0 <= i < |objects|
        ensures WellTyped(objects[i])
        ensures objects[i].active && objects[i].progress > 0 ==> s.target == Some(i)
      {
        if i < |s.objects| {
          assert objects[i] == s.objects[i];
        }
      }
      SweepShape(objects, h, s.castle, s.gameOver, StartTarget(s.target));
      PassKeepsWellTyped(objects, h);
      PassKeepsTarget(objects, h, s.castle, s.gameOver, s.target);
    }
  }

  /**
   Once the castle is gone without the game having ended, nothing can collide
   any more: a frame leaves the castle empty and the game running.
   */
  lemma EmptyCastleNeverEnds(s: Session, now: int, d: Draw)
    requires |s.castle| == 0 && !s.gameOver
    ensures var r := Tick(s, now, d);
            |r.castle| == 0 && !r.gameOver
  {
    TickPass(s, now, d);
    NoCastleNoDamage(Spawned(s, now, d));
  }
}
