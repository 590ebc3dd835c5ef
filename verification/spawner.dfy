/**
 The time-gated spawner (`generate_falling_object`). The clock reading and the
 random draws are parameters.
 */
module Spawner {
  import opened Config
  import opened Text
  import opened Falling
  import opened Difficulty

  /**
   The random draws of one spawn: which word (`random.choice`), whether it is a
   bonus (`random.random() < BONUS_CHANCE`) and which column (`random.randint`).
   */
  datatype Draw = Draw(itemPick: nat, bonus: bool, columnPick: nat)

  /**
   The fall speed of a new object. A bonus object doubles the base speed; the
   source then takes the larger of that and one and a half times the base,
   which the doubled speed always is.
   */
  function SpawnSpeed(base: nat, bonus: bool): (r: nat)
    ensures !bonus ==> r == base
    ensures bonus ==> 2 * r >= 3 * base && r >= base
    ensures bonus && base > 0 ==> r > base
  {
    if bonus then base * BonusSpeedMultiplier else base
  }

  /** The spawn gate: the level has words and more than one interval has passed since the last spawn. */
  predicate SpawnDue(level: int, lastSpawn: int, now: int): (due: bool)
    ensures due ==> now > lastSpawn
    ensures 1 <= level <= MaxLevel ==> (due <==> now - lastSpawn > Table[level - 1].interval)
  {
    var settings := GetLevelSettings(level);
    TableWellFormed();
    |settings.items| > 0 && now - lastSpawn > settings.interval
  }

  datatype Spawn = Spawn(objects: seq<FallingObject>, lastSpawn: int)

  /**
   When the gate is open, append exactly one new object and record the time;
   otherwise change nothing.
   */
  function Generate(objects: seq<FallingObject>, lastSpawn: int, level: int, now: int, d: Draw): (r: Spawn)
    ensures !SpawnDue(level, lastSpawn, now) ==> r == Spawn(objects, lastSpawn)
    ensures SpawnDue(level, lastSpawn, now) ==>
              && |r.objects| == |objects| + 1
              && r.objects[..|objects|] == objects
              && r.lastSpawn == now
    ensures SpawnDue(level, lastSpawn, now) ==>
              var o := r.objects[|objects|];
              var settings := GetLevelSettings(level);
              && o.text in settings.items
              && o.active && o.progress == 0 && o.y == 0
              && o.column + |o.text| <= GridWidth
              && o.isBonus == d.bonus
              && o.speed == SpawnSpeed(settings.speed, d.bonus)
              && WellTyped(o)
  {
    var settings := GetLevelSettings(level);
    if |settings.items| > 0 && now - lastSpawn > settings.interval then
      TableWellFormed();
      var item := settings.items[d.itemPick % |settings.items|];
      UpperOfUpper(item);
      var o := NewFallingObject(item, SpawnSpeed(settings.speed, d.bonus), d.bonus, d.columnPick);
      assert o.text == item;
      assert (objects + [o])[..|objects|] == objects;
      Spawn(objects + [o], now)
    else Spawn(objects, lastSpawn)
  }
}
