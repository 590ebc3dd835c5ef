/**
 Grid geometry and gameplay constants of the typing game (src/typing_game.py).

 Vertical positions are measured in sub-row units: one grid row is `RowUnits`
 units tall. The game moves an object by `speed * CHAR_HEIGHT / 60` pixels per
 frame, where `speed` is in rows per second; with `speed` written in hundredths
 of a row per second, that is exactly `speed` units per frame, whatever pixel
 height the font gives a row.
 */
module Config {

  /** Columns of the play grid; castle rows are exactly this wide. */
  const GridWidth: nat := 60

  /** Rows of the play grid; the castle stands on its bottom rows. */
  const GridHeight: nat := 25

  /** Rows of castle art a new game starts with. */
  const CastleInitialHeight: nat := 3

  /** Sub-row units in one grid row (100 hundredths per row times 60 frames per second). */
  const RowUnits: nat := 6000

  const BonusSpeedMultiplier: nat := 2
  const BonusScoreMultiplier: nat := 2
  const BonusDamageMultiplier: nat := 2

  /** Points awarded per character of a completed word. */
  const PointsPerChar: nat := 10
}
