/**
 The difficulty table (`difficulty_levels`), its clamped lookup and the
 one-step level-up rule.
 */
module Difficulty {
  import opened Config
  import opened Text

  /**
   One table row: the words that may fall, the base fall speed in hundredths
   of a row per second, the spawn interval in milliseconds, and the score that
   lifts the player past this level.
   */
  datatype LevelSettings = LevelSettings(
    level: nat,
    items: seq<string>,
    speed: nat,
    interval: nat,
    threshold: nat)

  const Table: seq<LevelSettings> := [
    LevelSettings(1, ["F", "J", "G", "H"], 30, 2000, 50),
    LevelSettings(2, ["D", "K", "S", "L"], 35, 1800, 150),
    LevelSettings(3, ["A", ";"], 40, 1600, 300),
    LevelSettings(4, ["Q", "W", "E", "R", "T", "Y", "U", "I", "O", "P", "A", "S", "D",
                      "F", "G", "H", "J", "K", "L", "Z", "X", "C", "V", "B", "N", "M"], 45, 1400, 500),
    LevelSettings(5, ["THE", "AND", "FOR", "ARE", "BUT"], 50, 2500, 800),
    LevelSettings(6, ["THIS", "THAT", "WITH", "FROM", "HAVE"], 55, 2200, 1200),
    LevelSettings(7, ["LEARN", "PYTHON", "GAME", "TYPING", "KEYBOARD"], 60, 2000, 1800),
    LevelSettings(8, ["PROGRAMMING", "DEVELOPMENT", "COMPUTER", "SCIENCE", "INTELLIGENCE"], 65, 1800, 2500)
  ]

  /** The highest level. */
  const MaxLevel: nat := |Table|

  /** A row whose words can all be spawned: some words, each non-empty, upper-case and narrower than the grid. */
  predicate SpawnableRow(row: LevelSettings) {
    && |row.items| > 0
    && forall k :: 0 <= k < |row.items| ==> 0 < |row.items[k]| <= GridWidth && IsUpper(row.items[k])
  }

  /** The table is numbered 1, 2, ... in order and every row can spawn. */
  lemma TableWellFormed()
    ensures MaxLevel == 8
    ensures forall i :: 0 <= i < |Table| ==> Table[i].level == i + 1
    ensures forall i :: 0 <= i < |Table| ==> SpawnableRow(Table[i])
  {
    forall i | 0 <= i < |Table|
      ensures SpawnableRow(Table[i])
    {
      RowSpawnable(i);
    }
  }

  lemma RowSpawnable(i: nat)
    requires i < |Table|
    ensures SpawnableRow(Table[i])
  {
    var items := Table[i].items;
    forall k | 0 <= k < |items|
      ensures 0 < |items[k]| <= GridWidth && IsUpper(items[k])
    {
      WordSpawnable(items[k]);
    }
  }

  /** Every character of a table word is a capital letter or the semicolon. */
  lemma WordSpawnable(w: string)
    requires 0 < |w| <= GridWidth
    requires forall j :: 0 <= j < |w| ==> 'A' <= w[j] <= 'Z' || w[j] == ';'
    ensures IsUpper(w)
  {
  }

  /** Score thresholds strictly increase down the table. */
  lemma ThresholdsIncrease()
    ensures forall i, j :: 0 <= i < j < |Table| ==> Table[i].threshold < Table[j].threshold
  {
  }

  /** `get_level_settings`: the row of `level`, with out-of-range levels clamped to the first or last row. */
  function GetLevelSettings(level: int): (r: LevelSettings)
    ensures 1 <= level <= MaxLevel ==> r == Table[level - 1] && r.level == level
    ensures level < 1 ==> r == Table[0]
    ensures level > MaxLevel ==> r == Table[MaxLevel - 1]
  {
    TableWellFormed();
    var i := if level - 1 < |Table| - 1 then level - 1 else |Table| - 1;
    Table[if i < 0 then 0 else i]
  }

  /** Level `l` reads its own row of the table. */
  lemma ThresholdOfLevel(l: nat)
    requires 1 <= l <= MaxLevel
    ensures Threshold(l) == Table[l - 1].threshold
  {
  }

  /** The score needed to leave `level`. */
  function Threshold(level: int): nat {
    GetLevelSettings(level).threshold
  }

  /** `check_for_level_up`: one step up when the score reaches the current level's threshold, never past the top. */
  function CheckForLevelUp(level: nat, score: nat): (r: nat)
    ensures level <= r <= level + 1
    ensures r == level + 1 <==> level < MaxLevel && score >= Threshold(level)
    ensures level <= MaxLevel ==> r <= MaxLevel
  {
    if level < |Table| && score >= Threshold(level) then level + 1 else level
  }

  /** How many of the first `n` thresholds `score` has reached. */
  function ThresholdsMet(score: nat, n: nat): (c: nat)
    requires n <= |Table|
    ensures c <= n
  {
    if n == 0 then 0
    else ThresholdsMet(score, n - 1) + (if Table[n - 1].threshold <= score then 1 else 0)
  }

  /** The level a score is worth: one plus the thresholds it has reached below the top level. */
  function LevelFor(score: nat): (l: nat)
    ensures 1 <= l <= MaxLevel
  {
    1 + ThresholdsMet(score, |Table| - 1)
  }

  /** Because thresholds increase, the thresholds a score reaches form a prefix of the table. */
  lemma {:induction false} ThresholdsMetIsPrefix(score: nat, n: nat)
    requires n <= |Table|
    ensures forall i :: 0 <= i < n ==> (Table[i].threshold <= score <==> i < ThresholdsMet(score, n))
  {
    if n > 0 {
      ThresholdsMetIsPrefix(score, n - 1);
      ThresholdsIncrease();
      if Table[n - 1].threshold <= score {
        if n >= 2 {
          assert Table[n - 2].threshold < Table[n - 1].threshold;
        }
      }
    }
  }

  /** A higher score reaches at least the thresholds a lower one does. */
  lemma {:induction false} ThresholdsMetMonotone(a: nat, b: nat, n: nat)
    requires a <= b && n <= |Table|
    ensures ThresholdsMet(a, n) <= ThresholdsMet(b, n)
  {
    if n > 0 {
      ThresholdsMetMonotone(a, b, n - 1);
    }
  }

  /** A higher score is worth at least the level a lower one is. */
  lemma LevelForMonotone(a: nat, b: nat)
    requires a <= b
    ensures LevelFor(a) <= LevelFor(b)
  {
    ThresholdsMetMonotone(a, b, |Table| - 1);
  }

  /** The level after `k` level-up checks at a fixed score. */
  function LevelAfter(level: nat, score: nat, k: nat): nat {
    if k == 0 then level else CheckForLevelUp(LevelAfter(level, score, k - 1), score)
  }

  /** One check followed by `k` more is the same as `k + 1` checks. */
  lemma {:induction false} LevelAfterShift(level: nat, score: nat, k: nat)
    ensures LevelAfter(CheckForLevelUp(level, score), score, k) == LevelAfter(level, score, k + 1)
  {
    if k > 0 {
      LevelAfterShift(level, score, k - 1);
    }
  }

  /**
   At a fixed score the level climbs one step per check until it reaches the
   level the score is worth, and then stays there.
   */
  lemma {:induction false} LevelUpConverges(level: nat, score: nat, k: nat)
    requires 1 <= level <= LevelFor(score)
    ensures LevelAfter(level, score, k) == if level + k < LevelFor(score) then level + k else LevelFor(score)
  {
    if k > 0 {
      LevelUpConverges(level, score, k - 1);
      var l := LevelAfter(level, score, k - 1);
      LevelUpStep(l, score);
      ClimbOneMore(level, k, LevelFor(score), l, CheckForLevelUp(l, score));
    }
  }

  /** Climbing one more step toward `top`, capped there, extends a capped climb by one frame. */
  lemma ClimbOneMore(level: nat, k: nat, top: nat, prev: nat, next: nat)
    requires k > 0 && level <= top
    requires prev == if level + k - 1 < top then level + k - 1 else top
    requires next == if prev < top then prev + 1 else prev
    ensures next == if level + k < top then level + k else top
  {
  }

  /** Below the level a score is worth, one check climbs one step; at it, the level stays. */
  lemma LevelUpStep(l: nat, score: nat)
    requires 1 <= l <= LevelFor(score)
    ensures CheckForLevelUp(l, score) == if l < LevelFor(score) then l + 1 else l
  {
    var c := ThresholdsMet(score, |Table| - 1);
    ThresholdsMetIsPrefix(score, |Table| - 1);
    if l < MaxLevel {
      ThresholdOfLevel(l);
      assert Table[l - 1].threshold <= score <==> l - 1 < c;
    }
  }
}
