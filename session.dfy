/** The state of one game session and the per-frame steps that change it. */
module Game {
  import opened Config
  import opened Scoring
  import opened Targets

  /** The counters and target list of a running session. */
  class Session {
    /** Every target ever spawned, in spawn order; dead ones stay in the list. */
    var targets: seq<Target>
    var score: int
    /** Left clicks so far (total_shots). */
    var shots: int
    var hits: int
    /** Seconds since the last spawn (last_spawn). */
    var lastSpawn: real
    /** The states of the targets, in list order. */
    ghost var states: seq<TargetState>

    /** What holds between any two frames. */
    ghost predicate Valid()
      reads this, targets
    {
      && |states| == |targets|
      && (forall i :: 0 <= i < |targets| ==> targets[i].State() == states[i])
      && (forall i, j :: 0 <= i < j < |targets| ==> targets[i] != targets[j])
      && (forall i :: 0 <= i < |states| ==> WellFormed(states[i]))
      && 0 <= hits <= shots
      && 40 * hits <= score <= 50 * hits
      && DeadCount(states) == hits
      && 0.0 <= lastSpawn < SpawnInterval
    }

    /** The start of main: no targets, all counters zero. */
    constructor ()
      ensures Valid()
      ensures targets == [] && states == [] && score == 0 && shots == 0 && hits == 0 && lastSpawn == 0.0
    {
      targets := [];
      score := 0;
      shots := 0;
      hits := 0;
      lastSpawn := 0.0;
      states := [];
    }

    /** The scan of the click resolver: walk the list in order, keeping the alive target that
        contains the point with the smallest squared distance so far, replaced only on a strictly
        smaller one, starting from the sentinel distance. */
    method NearestHit(mx: int, my: int) returns (hitAny: Option<nat>, bestD: real)
      requires Valid()
      ensures hitAny == Select(states, mx, my)
      ensures hitAny.Some? ==>
        && hitAny.value < |states|
        && Candidate(states[hitAny.value], mx, my)
        && bestD == SqDist(states[hitAny.value], mx, my) <= 1024.0
      ensures hitAny.None? ==> bestD == NoHitDistance
    {
      ghost var snap := states;
      hitAny := None;
      bestD := NoHitDistance;
      var i := 0;
      while i < |targets|
        invariant 0 <= i <= |targets|
        invariant hitAny == Select(snap[..i], mx, my)
        invariant hitAny.Some? ==> hitAny.value < i && Candidate(snap[hitAny.value], mx, my)
        invariant bestD == if hitAny.None? then NoHitDistance else SqDist(snap[hitAny.value], mx, my)
        invariant hitAny.Some? ==> bestD <= 1024.0
      {
        var tg := targets[i];
        assert snap[..i + 1][..i] == snap[..i];
        if tg.alive && Hit(tg.State(), mx, my) {
          var d := SqDist(tg.State(), mx, my);
          HitWithinMaxRadius(tg.State(), mx, my);
          if d < bestD {
            bestD := d;
            hitAny := Some(i);
          }
        }
        i := i + 1;
      }
      assert snap[..|targets|] == snap;
    }

    /** The effect of a hit on target k at squared distance d: one more hit, the score for d,
        and target k marked dead. */
    method Award(k: nat, d: real)
      requires Valid()
      requires hits < shots
      requires k < |states| && states[k].alive && 0.0 <= d <= 1024.0
      modifies this, targets[k]
      ensures Valid()
      ensures targets == old(targets) && shots == old(shots) && lastSpawn == old(lastSpawn)
      ensures hits == old(hits) + 1 && score == old(score) + ScoreDelta(d)
      ensures states == Kill(old(states), k)
    {
      DeadCountKill(states, k);
      hits := hits + 1;
      score := score + ScoreDelta(d);
      targets[k].alive := false;
      states := Kill(states, k);
    }

    /** One left click at (mx, my): count the shot, then kill the nearest alive target
        containing the point, if any, and score it. */
    method Click(mx: int, my: int)
      requires Valid()
      modifies this, targets
      ensures Valid()
      ensures targets == old(targets) && lastSpawn == old(lastSpawn)
      ensures shots == old(shots) + 1
      ensures match Select(old(states), mx, my)
        case None =>
          hits == old(hits) && score == old(score) && states == old(states)
        case Some(k) =>
          && hits == old(hits) + 1
          && score == old(score) + ScoreDelta(SqDist(old(states)[k], mx, my))
          && states == Kill(old(states), k)
    {
      shots := shots + 1;
      var hitAny, bestD := NearestHit(mx, my);
      if hitAny.Some? {
        Award(hitAny.value, bestD);
      }
    }

    /** targets.append(Target()) with the given draws: exactly one fresh target at the end. */
    method AddTarget(r: int, x: int, y: int, vx: real, vy: real)
      requires Valid()
      requires SpawnDraw(r, x, y)
      modifies this`targets, this`states
      ensures Valid()
      ensures |targets| == |old(targets)| + 1
      ensures targets[..|old(targets)|] == old(targets) && fresh(targets[|old(targets)|])
      ensures states == old(states) + [Spawned(r, x, y, vx, vy)]
    {
      var t := new Target(r, x, y, vx, vy);
      DeadCountAppendAlive(states, t.State());
      targets := targets + [t];
      states := states + [t.State()];
    }

    /** The spawner: accumulate dt and, once the interval is reached, reset the
        accumulator and append one target built from the given draws. */
    method SpawnTick(dt: real, r: int, x: int, y: int, vx: real, vy: real)
      requires Valid()
      requires dt >= 0.0 && SpawnDraw(r, x, y)
      modifies this
      ensures Valid()
      ensures score == old(score) && shots == old(shots) && hits == old(hits)
      ensures |old(targets)| <= |targets| <= |old(targets)| + 1
      ensures targets[..|old(targets)|] == old(targets)
      ensures states[..|old(targets)|] == old(states)
      ensures old(lastSpawn) + dt >= SpawnInterval ==>
        && lastSpawn == 0.0
        && |targets| == |old(targets)| + 1
        && fresh(targets[|old(targets)|])
        && states == old(states) + [Spawned(r, x, y, vx, vy)]
      ensures old(lastSpawn) + dt < SpawnInterval ==>
        lastSpawn == old(lastSpawn) + dt && targets == old(targets) && states == old(states)
    {
      lastSpawn := lastSpawn + dt;
      if lastSpawn >= SpawnInterval {
        lastSpawn := 0.0;
        AddTarget(r, x, y, vx, vy);
        assert states[..|old(states)|] == old(states);
      }
    }

    /** One iteration of the update pass: target i takes one step if it is alive. */
    method UpdateOne(i: nat, dt: real)
      requires i < |targets| == |states|
      requires forall j :: 0 <= j < |targets| ==> targets[j].State() == states[j]
      requires forall j, k :: 0 <= j < k < |targets| ==> targets[j] != targets[k]
      requires RadiusInRange(states[i].r)
      modifies this`states, targets[i]
      ensures states == old(states)[i := if old(states)[i].alive then Step(old(states)[i], dt) else old(states)[i]]
      ensures forall j :: 0 <= j < |targets| ==> targets[j].State() == states[j]
    {
      var tg := targets[i];
      if tg.alive {
        tg.Update(dt);
        states := states[i := tg.State()];
      }
    }

    /** The update pass: every alive target takes one step; dead ones are left alone. */
    method UpdateAll(dt: real)
      requires Valid()
      modifies this`states, targets
      ensures Valid()
      ensures |states| == |old(states)|
      ensures forall i :: 0 <= i < |states| ==>
        states[i] == if old(states)[i].alive then Step(old(states)[i], dt) else old(states)[i]
    {
      var i := 0;
      while i < |targets|
        invariant 0 <= i <= |targets|
        invariant |states| == |targets|
        invariant forall j :: 0 <= j < |targets| ==> targets[j].State() == states[j]
        invariant forall j :: 0 <= j < i ==>
          states[j] == if old(states)[j].alive then Step(old(states)[j], dt) else old(states)[j]
        invariant forall j :: i <= j < |targets| ==> states[j] == old(states)[j]
        invariant forall j :: 0 <= j < |states| ==> WellFormed(states[j]) && states[j].alive == old(states)[j].alive
      {
        UpdateOne(i, dt);
        i := i + 1;
      }
      DeadCountSameFlags(old(states), states);
    }

    /** One pass of the main loop: the time check, the clicks of this frame, the spawner
        and the update pass. The frame in which the session time runs out still does all
        three; only the next loop test stops. */
    method Frame(dt: real, elapsed: real, clicks: seq<(int, int)>,
                 r: int, x: int, y: int, vx: real, vy: real) returns (running: bool)
      requires Valid()
      requires dt >= 0.0 && SpawnDraw(r, x, y)
      modifies this, targets
      ensures Valid()
      ensures running <==> elapsed < SessionTime
      ensures shots == old(shots) + |clicks|
      ensures |old(targets)| <= |targets| <= |old(targets)| + 1
      ensures targets[..|old(targets)|] == old(targets)
    {
      running := !(elapsed >= SessionTime);
      var i := 0;
      while i < |clicks|
        invariant 0 <= i <= |clicks|
        invariant Valid()
        invariant targets == old(targets)
        invariant shots == old(shots) + i
      {
        Click(clicks[i].0, clicks[i].1);
        i := i + 1;
      }
      SpawnTick(dt, r, x, y, vx, vy);
      UpdateAll(dt);
    }
  }
}
