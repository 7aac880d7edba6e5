/** Concrete situations the game's behaviour is expected to handle, stated against the model. */
module Scenarios {
  import opened Config
  import opened Scoring
  import opened Targets
  import opened Game

  /** A click at the exact centre of a radius-20 target hits it and is worth 50 points. */
  lemma CentreClickScoresFifty()
    ensures var t := TargetState(20, 300.0, 200.0, 140.0, 0.0, true);
      Select([t], 300, 200) == Some(0) && ScoreDelta(SqDist(t, 300, 200)) == 50
  {
  }

  /** A click 60 pixels from the centre of a radius-20 target, with nothing else nearby, misses. */
  lemma FarClickMisses()
    ensures var t := TargetState(20, 300.0, 200.0, 140.0, 0.0, true);
      Select([t], 360, 200) == None
  {
  }

  /** Of two overlapping targets the one with the nearer centre wins, even if it spawned later;
      at equal distance the one that spawned first wins. */
  lemma OverlapResolution()
    ensures var a := TargetState(30, 100.0, 100.0, 0.0, 0.0, true);
            var b := TargetState(30, 110.0, 100.0, 0.0, 0.0, true);
      && Select([a, b], 108, 100) == Some(1)
      && Select([a, b], 105, 100) == Some(0)
  {
    var a := TargetState(30, 100.0, 100.0, 0.0, 0.0, true);
    var b := TargetState(30, 110.0, 100.0, 0.0, 0.0, true);
    assert [a, b][..1] == [a];
  }

  /** A dead target is never chosen, even under the cursor. */
  lemma DeadTargetIgnored()
    ensures Select([TargetState(20, 300.0, 200.0, 0.0, 0.0, false)], 300, 200) == None
  {
  }

  /** A session that spawns one target and then clicks its centre scores 50 for one hit in one shot. */
  method CentreClickSession()
  {
    var s := new Session();
    s.SpawnTick(0.9, 20, 300, 200, 140.0, 0.0);
    assert s.states == [Spawned(20, 300, 200, 140.0, 0.0)];
    s.Click(300, 200);
    assert s.hits == 1 && s.shots == 1 && s.score == 50;
    assert !s.states[0].alive;
  }
}
