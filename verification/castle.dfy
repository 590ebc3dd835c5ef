/** The castle: rows of art removed from the top as it takes damage (`damage_castle`). */
module Castle {
  import opened Config

  function Min(a: int, b: int): int {
    if a < b then a else b
  }

  /** `b` ends with `a`: what is left of a castle that lost rows from the top. */
  predicate EndsWith(a: seq<string>, b: seq<string>) {
    |a| <= |b| && a == b[|b| - |a|..]
  }

  lemma EndsWithTransitive(a: seq<string>, b: seq<string>, c: seq<string>)
    requires EndsWith(a, b) && EndsWith(b, c)
    ensures EndsWith(a, c)
  {
  }

  const InitialCastle: seq<string> := [
    "############################################################",
    "============================================================",
    "||||||||||||||||||||||||||||||||||||||||||||||||||||||||||||"
  ]

  /** The start-up check that every row of castle art spans the grid. */
  lemma InitialCastleFitsGrid()
    ensures |InitialCastle| == CastleInitialHeight
    ensures forall i :: 0 <= i < |InitialCastle| ==> |InitialCastle[i]| == GridWidth
  {
  }

  /** The castle and game-over flag after damage, and how many rows the damage removed. */
  datatype Damage = Damage(rows: seq<string>, gameOver: bool, done: nat)

  /**
   `damage_castle`: remove up to `amount` rows from the top, one at a time;
   running out of rows before the damage is spent ends the game.
   */
  function DamageCastle(rows: seq<string>, gameOver: bool, amount: nat): (r: Damage)
    ensures r.done == Min(amount, |rows|)
    ensures r.rows == rows[r.done..]
    ensures r.gameOver <==> gameOver || amount > |rows|
    decreases amount
  {
    if amount == 0 then Damage(rows, gameOver, 0)
    else if |rows| > 0 then
      var rest := DamageCastle(rows[1..], gameOver, amount - 1);
      Damage(rest.rows, rest.gameOver, rest.done + 1)
    else Damage(rows, true, 0)
  }

  /** Dropping `a` rows and then `b` more drops `a + b`, capped at the castle's height. */
  lemma DropTwice(rows: seq<string>, a: nat, b: nat)
    ensures var k := Min(a, |rows|);
            rows[k..][Min(b, |rows| - k)..] == rows[Min(a + b, |rows|)..]
  {
  }

  /** A second blow of `b` on a castle already reduced by `dealt` leaves it as one blow of `dealt + b` would. */
  lemma SecondBlow(castle: seq<string>, gameOver: bool, dealt: nat, b: nat, rows: seq<string>, over: bool)
    requires rows == castle[Min(dealt, |castle|)..]
    requires over <==> gameOver || dealt > |castle|
    ensures var d := DamageCastle(rows, over, b);
            && d.rows == castle[Min(dealt + b, |castle|)..]
            && (d.gameOver <==> gameOver || dealt + b > |castle|)
  {
    assert |rows| == |castle| - Min(dealt, |castle|);
    DropTwice(castle, dealt, b);
  }

  /** Damage dealt in two blows leaves the castle as one blow of the combined amount does. */
  lemma DamageAdds(rows: seq<string>, gameOver: bool, a: nat, b: nat)
    ensures var d1 := DamageCastle(rows, gameOver, a);
            var d2 := DamageCastle(d1.rows, d1.gameOver, b);
            var d := DamageCastle(rows, gameOver, a + b);
            d2.rows == d.rows && d2.gameOver == d.gameOver && d1.done + d2.done == d.done
  {
    var d1 := DamageCastle(rows, gameOver, a);
    assert |d1.rows| == |rows| - Min(a, |rows|);
    DropTwice(rows, a, b);
  }

  /**
   Damage that exactly matches the rows left tears the castle down without
   ending the game.
   */
  lemma ExactDamageLeavesGameRunning(rows: seq<string>)
    ensures DamageCastle(rows, false, |rows|) == Damage([], false, |rows|)
  {
  }
}
