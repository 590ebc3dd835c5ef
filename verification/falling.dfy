/**
 One falling word (class `FallingObject`): its text, how much of it has been
 typed, where it is, and whether it is still in play.
 */
module Falling {
  import opened Config
  import opened Text

  /**
   `column` is the grid column of the first character; `y` the top edge in
   sub-row units; `speed` the fall in units per frame; `progress` the number of
   leading characters typed so far.
   */
  datatype FallingObject = FallingObject(
    text: string,
    isBonus: bool,
    speed: nat,
    column: nat,
    y: nat,
    active: bool,
    progress: nat)

  /** The counter invariant every object keeps: progress within the word, and short of it while active. */
  predicate WellTyped(o: FallingObject) {
    o.progress <= |o.text| && (o.active ==> o.progress < |o.text|)
  }

  /** The column the uniform draw `randint(0, GridWidth - width)` yields for the choice `pick`. */
  function SpawnColumn(pick: nat, width: nat): (c: nat)
    requires width <= GridWidth
    ensures c <= GridWidth - width
  {
    pick % (GridWidth - width + 1)
  }

  /**
   A new object at the top of the grid. The column draw fails for a word wider
   than the grid, so the word must fit.
   */
  function NewFallingObject(text: string, speed: nat, isBonus: bool, columnPick: nat): (r: FallingObject)
    requires |text| <= GridWidth
    ensures |r.text| == |text| && IsUpper(r.text)
    ensures forall i :: 0 <= i < |text| ==> r.text[i] == UpperChar(text[i])
    ensures r.progress == 0 && r.active && r.y == 0
    ensures r.column + |r.text| <= GridWidth
    ensures r.speed == speed && r.isBonus == isBonus
    ensures |text| > 0 ==> WellTyped(r)
  {
    var t := Upper(text);
    UpperIsUpper(text);
    FallingObject(t, isBonus, speed, SpawnColumn(columnPick, |t|), 0, true, 0)
  }

  /** One frame of falling: an active object moves down by its speed; nothing else about it changes. */
  function Move(o: FallingObject): (r: FallingObject)
    ensures r.text == o.text && r.isBonus == o.isBonus && r.speed == o.speed && r.column == o.column
    ensures r.active == o.active && r.progress == o.progress
    ensures o.y <= r.y
    ensures o.active ==> r.y - o.y == o.speed
    ensures !o.active ==> r == o
  {
    if o.active then o.(y := o.y + o.speed) else o
  }

  /** `reset_progress`: the word starts over; nothing else about the object changes. */
  function ResetProgress(o: FallingObject): (r: FallingObject)
    ensures r.progress == 0
    ensures r.(progress := o.progress) == o
    ensures WellTyped(o) ==> WellTyped(r)
  {
    o.(progress := 0)
  }

  /** `get_bottom_pixel_y`: the bottom edge of the object, one row below its top edge. */
  function BottomY(o: FallingObject): (b: int)
    ensures b - o.y == RowUnits
    ensures b > o.y
  {
    o.y + RowUnits
  }

  /** Whether `key`, upper-cased, is exactly the next character of the word. */
  predicate Expects(o: FallingObject, key: string)
    requires o.progress < |o.text|
  {
    Upper(key) == [UpperChar(o.text[o.progress])]
  }

  /** The outcome of one keystroke on one object: the object after it, and whether it finished the word. */
  datatype Typed = Typed(obj: FallingObject, completed: bool)

  /** `handle_input`: advance on the expected character, start over on any other. */
  function HandleInput(o: FallingObject, key: string): (r: Typed)
    ensures !o.active || o.progress >= |o.text| ==> r == Typed(o, false)
    ensures o.active && o.progress < |o.text| && Expects(o, key) ==>
              && r.obj.progress == o.progress + 1
              && (r.completed <==> r.obj.progress == |o.text|)
              && r.obj.active == !r.completed
    ensures o.active && o.progress < |o.text| && !Expects(o, key) ==>
              r.obj.progress == 0 && !r.completed && r.obj.active
    ensures r.obj == o.(progress := r.obj.progress, active := r.obj.active)
    ensures WellTyped(o) ==> WellTyped(r.obj)
  {
    if !o.active || o.progress >= |o.text| then Typed(o, false)
    else if Upper(key) == [UpperChar(o.text[o.progress])] then
      var p := o.progress + 1;
      if p == |o.text| then Typed(o.(progress := p, active := false), true)
      else Typed(o.(progress := p), false)
    else Typed(o.(progress := 0), false)
  }

  /** Typing is case-insensitive: a key and its upper-cased form act alike. */
  lemma HandleInputIgnoresCase(o: FallingObject, key: string)
    ensures HandleInput(o, key) == HandleInput(o, Upper(key))
  {
    assert Upper(Upper(key)) == Upper(key);
  }

  /** The one-character keystrokes that spell `w`. */
  function Keystrokes(w: string): (r: seq<string>)
    ensures |r| == |w|
    ensures forall i :: 0 <= i < |w| ==> r[i] == [w[i]]
  {
    seq(|w|, i requires 0 <= i < |w| => [w[i]])
  }

  /** The outcome of a run of keystrokes on one object: the object, and per keystroke whether it completed the word. */
  datatype Typing = Typing(obj: FallingObject, completions: seq<bool>)

  function TypeKeys(o: FallingObject, keys: seq<string>): (r: Typing)
    ensures |r.completions| == |keys|
    decreases |keys|
  {
    if |keys| == 0 then Typing(o, [])
    else
      var t := HandleInput(o, keys[0]);
      var rest := TypeKeys(t.obj, keys[1..]);
      Typing(rest.obj, [t.completed] + rest.completions)
  }

  /**
   Typing the untyped rest of an upper-case word, one character at a time,
   finishes it: the object ends inactive with the whole word typed, and only
   the last keystroke reports completion.
   */
  lemma {:induction false} TypingTheRestCompletes(o: FallingObject)
    requires o.active && o.progress < |o.text| && IsUpper(o.text)
    ensures var r := TypeKeys(o, Keystrokes(o.text[o.progress..]));
            && r.obj.progress == |o.text|
            && !r.obj.active
            && r.obj.text == o.text
            && (forall i :: 0 <= i < |r.completions| ==> (r.completions[i] <==> i == |r.completions| - 1))
    decreases |o.text| - o.progress
  {
    var keys := Keystrokes(o.text[o.progress..]);
    var t := HandleInput(o, keys[0]);
    assert keys[0] == [o.text[o.progress]];
    assert Upper(keys[0]) == [UpperChar(o.text[o.progress])];
    assert Expects(o, keys[0]);
    if o.progress + 1 == |o.text| {
      assert keys[1..] == [];
    } else {
      assert t.obj.progress == o.progress + 1 && t.obj.active && !t.completed;
      assert keys[1..] == Keystrokes(t.obj.text[t.obj.progress..]);
      TypingTheRestCompletes(t.obj);
    }
  }
}
