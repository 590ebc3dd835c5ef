/**
 Keystroke resolution (the KEYDOWN branch of `run_game`): filter the key,
 feed it to the current target, score a completed word, switch to another
 word, or acquire a target.
 */
module Input {
  import opened Optional
  import opened Config
  import opened Text
  import opened Falling
  import opened Session

  /** Points for finishing a word: ten per character, doubled for a bonus word. */
  function Points(o: FallingObject): (n: nat)
    ensures !o.isBonus ==> n == |o.text| * PointsPerChar
    ensures o.isBonus ==> n == BonusScoreMultiplier * (|o.text| * PointsPerChar)
  {
    |o.text| * PointsPerChar * (if o.isBonus then BonusScoreMultiplier else 1)
  }

  /** Object `i` is in play, is not `skip`, and its word starts with `up`. */
  predicate IsCandidate(objects: seq<FallingObject>, i: nat, up: string, skip: Option<nat>)
    requires i < |objects|
  {
    objects[i].active && skip != Some(i) && up <= objects[i].text
  }

  /** `i` is the first candidate in list order. */
  predicate IsFirstCandidate(objects: seq<FallingObject>, i: nat, up: string, skip: Option<nat>) {
    && i < |objects|
    && IsCandidate(objects, i, up, skip)
    && forall j :: 0 <= j < i ==> !IsCandidate(objects, j, up, skip)
  }

  /** There is at most one first candidate. */
  lemma FirstCandidateUnique(objects: seq<FallingObject>, i: nat, j: nat, up: string, skip: Option<nat>)
    requires IsFirstCandidate(objects, i, up, skip) && IsFirstCandidate(objects, j, up, skip)
    ensures i == j
  {
  }

  function FirstMatchFrom(objects: seq<FallingObject>, up: string, skip: Option<nat>, from: nat): (r: Option<nat>)
    requires from <= |objects|
    ensures r.Some? ==> from <= r.value < |objects| && IsCandidate(objects, r.value, up, skip)
    ensures r.Some? ==> forall j :: from <= j < r.value ==> !IsCandidate(objects, j, up, skip)
    ensures r.None? ==> forall j :: from <= j < |objects| ==> !IsCandidate(objects, j, up, skip)
    decreases |objects| - from
  {
    if from == |objects| then None
    else if IsCandidate(objects, from, up, skip) then Some(from)
    else FirstMatchFrom(objects, up, skip, from + 1)
  }

  /** The search loops over `falling_objects`: the first object in play, other than `skip`, whose word starts with `up`. */
  function FirstMatch(objects: seq<FallingObject>, up: string, skip: Option<nat>): (r: Option<nat>)
    ensures r.Some? ==> IsFirstCandidate(objects, r.value, up, skip)
    ensures r.None? ==> forall j :: 0 <= j < |objects| ==> !IsCandidate(objects, j, up, skip)
  {
    FirstMatchFrom(objects, up, skip, 0)
  }

  /** The last check of the branch: a target in play whose word is fully typed is let go. */
  function DropFinished(s: Session): (r: Session)
    ensures r == s.(target := r.target)
    ensures r.target == None <==>
              || s.target == None
              || (&& s.target.value < |s.objects|
                  && s.objects[s.target.value].active
                  && s.objects[s.target.value].progress == |s.objects[s.target.value].text|)
    ensures r.target != None ==> r.target == s.target
  {
    match s.target
    case Some(t) =>
      if t < |s.objects| && s.objects[t].active && s.objects[t].progress == |s.objects[t].text|
      then s.(target := None) else s
    case None => s
  }

  /**
   The clean-up never fires while every counter is within its word: an object
   in play is then never fully typed.
   */
  lemma DropFinishedIdle(s: Session)
    requires forall i :: 0 <= i < |s.objects| ==> WellTyped(s.objects[i])
    ensures DropFinished(s) == s
  {
    if s.target.Some? && s.target.value < |s.objects| {
      assert WellTyped(s.objects[s.target.value]);
    }
  }

  /** Whether the session has a target index naming an object in play. */
  predicate HasLiveTarget(s: Session) {
    s.target.Some? && s.target.value < |s.objects| && s.objects[s.target.value].active
  }

  /**
   One accepted or ignored keystroke while the game runs. Only the old
   target's progress and in-play flag and the score can change; the score
   never falls; everything outside the words and the target stays as it was.
   */
  function ResolveKey(s: Session, key: string): (r: Session)
    ensures !Accepted(key) ==> r == s
    ensures |r.objects| == |s.objects|
    ensures forall i :: 0 <= i < |s.objects| && s.target != Some(i) ==> r.objects[i] == s.objects[i]
    ensures forall i :: 0 <= i < |s.objects| ==>
              r.objects[i] == s.objects[i].(progress := r.objects[i].progress, active := r.objects[i].active)
    ensures s.score <= r.score
    ensures r.level == s.level && r.gameOver == s.gameOver && r.castle == s.castle && r.lastSpawn == s.lastSpawn
  {
    if !Accepted(key) then s
    else
      var up := Upper(key);
      if HasLiveTarget(s) then
        var t := s.target.value;
        var typed := HandleInput(s.objects[t], key);
        var objects := s.objects[t := typed.obj];
        if typed.completed then
          s.(objects := objects, score := s.score + Points(typed.obj), target := None)
        else
          match FirstMatch(objects, up, Some(t))
          case Some(j) => DropFinished(s.(objects := objects[t := ResetProgress(objects[t])], target := Some(j)))
          case None => DropFinished(s.(objects := objects))
      else if s.target.None? then
        DropFinished(s.(target := FirstMatch(s.objects, up, None)))
      else s
  }

  /** A key finishes the current target's word. */
  predicate Completes(s: Session, key: string) {
    && Accepted(key)
    && HasLiveTarget(s)
    && var o := s.objects[s.target.value];
       o.progress < |o.text| && Expects(o, key) && o.progress + 1 == |o.text|
  }

  /**
   The score rises exactly when a key finishes the target's word, by ten
   points per character (doubled for a bonus word); that word leaves play
   fully typed and the target is cleared.
   */
  lemma ScoreOnlyOnCompletion(s: Session, key: string)
    requires Valid(s)
    ensures var r := ResolveKey(s, key);
            && (r.score != s.score <==> Completes(s, key))
            && (Completes(s, key) ==>
                  var t := s.target.value;
                  && r.score == s.score + |s.objects[t].text| * 10 * (if s.objects[t].isBonus then 2 else 1)
                  && r.target == None
                  && !r.objects[t].active
                  && r.objects[t].progress == |r.objects[t].text|)
  {
    if Accepted(key) && HasLiveTarget(s) {
      var t := s.target.value;
      assert WellTyped(s.objects[t]);
    }
  }

  /**
   A key that does not finish the target's word, right or wrong, moves the
   target to the first other word in play that starts with the key, if there
   is one: the old target starts over and the new target's progress is left
   as it was (the key is not applied to it). Without such a word the target
   stays and takes the key.
   */
  lemma SwitchToFirstOtherMatch(s: Session, key: string)
    requires Valid(s) && Accepted(key) && HasLiveTarget(s) && !Completes(s, key)
    ensures var t := s.target.value;
            var r := ResolveKey(s, key);
            var up := Upper(key);
            && (forall j: nat :: IsFirstCandidate(s.objects, j, up, Some(t)) ==>
                  r.target == Some(j) && r.objects[t] == s.objects[t].(progress := 0) && r.objects[j] == s.objects[j])
            && ((forall j :: 0 <= j < |s.objects| ==> !IsCandidate(s.objects, j, up, Some(t))) ==>
                  r.target == Some(t) && r.objects[t] == HandleInput(s.objects[t], key).obj)
            && r.score == s.score
  {
    var t := s.target.value;
    var up := Upper(key);
    assert WellTyped(s.objects[t]);
    var typed := HandleInput(s.objects[t], key);
    var objects := s.objects[t := typed.obj];
    assert forall j :: 0 <= j < |s.objects| ==> (IsCandidate(objects, j, up, Some(t)) <==> IsCandidate(s.objects, j, up, Some(t)));
    match FirstMatch(objects, up, Some(t))
    case Some(j) =>
      assert WellTyped(s.objects[j]);
      assert typed.obj.active;
      assert ResetProgress(typed.obj) == s.objects[t].(progress := 0);
      assert IsFirstCandidate(s.objects, j, up, Some(t));
      forall j': nat | IsFirstCandidate(s.objects, j', up, Some(t))
        ensures j' == j
      {
        FirstCandidateUnique(s.objects, j, j', up, Some(t));
      }
    case None =>
  }

  /**
   With no target, a key picks the first word in play that starts with it,
   and is not applied: no word's progress changes.
   */
  lemma AcquireFirstMatch(s: Session, key: string)
    requires Valid(s) && Accepted(key) && s.target.None?
    ensures var r := ResolveKey(s, key);
            var up := Upper(key);
            && r.objects == s.objects && r.score == s.score
            && (forall j: nat :: r.target == Some(j) <==> IsFirstCandidate(s.objects, j, up, None))
  {
    var up := Upper(key);
    var m := FirstMatch(s.objects, up, None);
    if m.Some? {
      assert WellTyped(s.objects[m.value]);
      forall j: nat | IsFirstCandidate(s.objects, j, up, None)
        ensures j == m.value
      {
        FirstCandidateUnique(s.objects, j, m.value, up, None);
      }
    }
  }

  /**
   A wrong key on the target sends its progress back to zero, keeps the word
   in play, scores nothing, and keeps a target (the old one or a switch).
   */
  lemma MistypeRestarts(s: Session, key: string)
    requires Valid(s) && Accepted(key) && HasLiveTarget(s)
    requires var o := s.objects[s.target.value]; o.progress < |o.text| && !Expects(o, key)
    ensures var t := s.target.value;
            var r := ResolveKey(s, key);
            r.objects[t].progress == 0 && r.objects[t].active && r.score == s.score && r.target.Some?
  {
    var t := s.target.value;
    var typed := HandleInput(s.objects[t], key);
    assert typed.obj.progress == 0 && typed.obj.active && !typed.completed;
    var objects := s.objects[t := typed.obj];
    var m := FirstMatch(objects, Upper(key), Some(t));
    if m.Some? {
      assert WellTyped(s.objects[m.value]);
    }
  }

  /** Keystrokes keep the session invariant. */
  lemma ResolveKeyKeepsValid(s: Session, key: string)
    requires Valid(s)
    ensures Valid(ResolveKey(s, key))
  {
    if Accepted(key) {
      if HasLiveTarget(s) {
        TypingKeepsValid(s, key);
      } else if s.target.None? {
        AcquiringKeepsValid(s, key);
      }
    }
  }

  /** A key typed at a live target keeps the session invariant. */
  lemma TypingKeepsValid(s: Session, key: string)
    requires Valid(s) && Accepted(key) && HasLiveTarget(s)
    ensures Valid(ResolveKey(s, key))
  {
    var r := ResolveKey(s, key);
    var t := s.target.value;
    var typed := HandleInput(s.objects[t], key);
    var objects := s.objects[t := typed.obj];
    assert WellTyped(s.objects[t]);
    if !typed.completed {
      var m := FirstMatch(objects, Upper(key), Some(t));
      if m.Some? {
        assert WellTyped(s.objects[m.value]);
        assert r.target == Some(m.value);
      } else {
        assert r.target == Some(t);
      }
    }
    assert forall i :: 0 <= i < |r.objects| ==> WellTyped(r.objects[i]);
  }

  /** A key that may lock on to a word, with none locked, keeps the session invariant. */
  lemma AcquiringKeepsValid(s: Session, key: string)
    requires Valid(s) && Accepted(key) && s.target.None?
    ensures Valid(ResolveKey(s, key))
  {
    var r := ResolveKey(s, key);
    var m := FirstMatch(s.objects, Upper(key), None);
    if m.Some? {
      assert WellTyped(s.objects[m.value]);
      assert r.target == m;
    }
    assert forall i :: 0 <= i < |r.objects| ==> WellTyped(r.objects[i]);
  }
}
