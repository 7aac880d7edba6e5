/** A moving circular target: its state as a value, the operations on it, and the object the game mutates. */
module Targets {
  import opened Config

  datatype Option<T> = None | Some(value: T)

  /** The fields of one target: radius, centre, velocity and whether it can still be hit. */
  datatype TargetState = TargetState(r: int, x: real, y: real, vx: real, vy: real, alive: bool)

  predicate RadiusInRange(r: int)
  {
    MinRadius <= r <= MaxRadius
  }

  /** The draws a new target accepts: a radius in range and a centre at least r away from every wall. */
  predicate SpawnDraw(r: int, x: int, y: int)
  {
    RadiusInRange(r) && r <= x <= Width - r && r <= y <= Height - r
  }

  /** Past a wall a target never moves further out along that axis. */
  predicate Heading(t: TargetState)
  {
    && (t.x < t.r as real ==> t.vx >= 0.0)
    && (t.x > (Width - t.r) as real ==> t.vx <= 0.0)
    && (t.y < t.r as real ==> t.vy >= 0.0)
    && (t.y > (Height - t.r) as real ==> t.vy <= 0.0)
  }

  predicate WellFormed(t: TargetState)
  {
    RadiusInRange(t.r) && Heading(t)
  }

  /** A freshly spawned target, given the radius, position and velocity drawn for it. */
  function Spawned(r: int, x: int, y: int, vx: real, vy: real): (t: TargetState)
    requires SpawnDraw(r, x, y)
    ensures WellFormed(t) && t.alive
    ensures t.r as real <= t.x <= (Width - t.r) as real && t.r as real <= t.y <= (Height - t.r) as real
    ensures t.vx == vx && t.vy == vy
  {
    TargetState(r, x as real, y as real, vx, vy, true)
  }

  /** The two wall checks on one axis, lower wall first; the upper check sees the velocity
      the lower one may already have negated. */
  function Bounce(p: real, v: real, r: int, dim: int): (w: real)
    ensures w == v || w == -v
    ensures 2 * r < dim ==> (p < r as real ==> w >= 0.0) && (p > (dim - r) as real ==> w <= 0.0)
    ensures 2 * r < dim ==>
      w == (if (p < r as real && v < 0.0) || (p > (dim - r) as real && v > 0.0) then -v else v)
  {
    var v1 := if p < r as real && v < 0.0 then -v else v;
    if p > (dim - r) as real && v1 > 0.0 then -v1 else v1
  }

  /** Coordinate p after dt seconds at velocity v. */
  function Advance(p: real, v: real, dt: real): (q: real)
    ensures v == 0.0 || dt == 0.0 ==> q == p
    ensures dt >= 0.0 && v >= 0.0 ==> q >= p
    ensures dt >= 0.0 && v <= 0.0 ==> q <= p
  {
    p + v * dt
  }

  /** One update of a target by dt seconds: move, then bounce on each axis. */
  function Step(t: TargetState, dt: real): (u: TargetState)
    ensures u.r == t.r && u.alive == t.alive
    ensures u.x == Advance(t.x, t.vx, dt) && u.y == Advance(t.y, t.vy, dt)
    ensures (u.vx == t.vx || u.vx == -t.vx) && (u.vy == t.vy || u.vy == -t.vy)
    ensures RadiusInRange(t.r) ==> WellFormed(u)
  {
    var x := Advance(t.x, t.vx, dt);
    var y := Advance(t.y, t.vy, dt);
    t.(x := x, y := y, vx := Bounce(x, t.vx, t.r, Width), vy := Bounce(y, t.vy, t.r, Height))
  }

  /** A bounce only negates velocity components, so the speed of a target never changes. */
  lemma StepKeepsSpeed(t: TargetState, dt: real)
    ensures var u := Step(t, dt); u.vx * u.vx + u.vy * u.vy == t.vx * t.vx + t.vy * t.vy
  {
  }

  /** A velocity of magnitude at most s over at most dmax seconds moves a coordinate by at most s·dmax. */
  lemma TravelBound(p: real, v: real, dt: real, s: real, dmax: real)
    requires -s <= v <= s && 0.0 <= dt <= dmax
    ensures p - s * dmax <= Advance(p, v, dt) <= p + s * dmax
  {
  }

  /** One axis of the overshoot bound: a coordinate in the band [r - s·dmax, dim - r + s·dmax] that is
      heading back whenever it is past a wall stays in the band after one step. */
  lemma AxisWithinBand(p: real, v: real, dt: real, r: int, dim: int, s: real, dmax: real)
    requires 2 * r <= dim
    requires -s <= v <= s && 0.0 <= dt <= dmax
    requires p < r as real ==> v >= 0.0
    requires p > (dim - r) as real ==> v <= 0.0
    requires r as real - s * dmax <= p <= (dim - r) as real + s * dmax
    ensures r as real - s * dmax <= Advance(p, v, dt) <= (dim - r) as real + s * dmax
  {
    TravelBound(p, v, dt, s, dmax);
  }

  /** The update only corrects the heading after a move, so a target may end up past a wall, but by
      no more than one frame's worst-case travel s·dmax. The band and the speed bound are preserved,
      so they hold for every later step as well. */
  lemma StepOvershootBounded(t: TargetState, dt: real, s: real, dmax: real)
    requires WellFormed(t)
    requires -s <= t.vx <= s && -s <= t.vy <= s && 0.0 <= dt <= dmax
    requires t.r as real - s * dmax <= t.x <= (Width - t.r) as real + s * dmax
    requires t.r as real - s * dmax <= t.y <= (Height - t.r) as real + s * dmax
    ensures var u := Step(t, dt);
      && u.r as real - s * dmax <= u.x <= (Width - u.r) as real + s * dmax
      && u.r as real - s * dmax <= u.y <= (Height - u.r) as real + s * dmax
      && -s <= u.vx <= s && -s <= u.vy <= s
  {
    AxisWithinBand(t.x, t.vx, dt, t.r, Width, s, dmax);
    AxisWithinBand(t.y, t.vy, dt, t.r, Height, s, dmax);
  }

  /** Squared distance from the centre of t to the click point. */
  function SqDist(t: TargetState, mx: int, my: int): (d: real)
    ensures d >= 0.0
  {
    (t.x - mx as real) * (t.x - mx as real) + (t.y - my as real) * (t.y - my as real)
  }

  lemma ProductPositive(x: real, y: real)
    requires x > 0.0 && y > 0.0
    ensures x * y > 0.0
  {
  }

  /** A square at most b² with a non-negative addend leaves its root within [-b, b]. */
  lemma SquareWithin(a: real, c: real, b: real)
    requires b >= 0.0 && c >= 0.0 && a * a + c <= b * b
    ensures -b <= a <= b
  {
    if a > b {
      ProductPositive(a - b, a + b);
      assert false;
    } else if a < -b {
      ProductPositive(b - a, -b - a);
      assert false;
    }
  }

  /** The hit test: the click lies in the closed disc of radius r, so within r of the centre on each axis. */
  predicate Hit(t: TargetState, mx: int, my: int)
    ensures Hit(t, mx, my) && t.r >= 0 ==>
      && -(t.r as real) <= t.x - mx as real <= t.r as real
      && -(t.r as real) <= t.y - my as real <= t.r as real
  {
    var inDisc := SqDist(t, mx, my) <= (t.r * t.r) as real;
    var dx, dy := t.x - mx as real, t.y - my as real;
    if inDisc && t.r >= 0 then
      SquareWithin(dx, dy * dy, t.r as real);
      SquareWithin(dy, dx * dx, t.r as real);
      inDisc
    else
      inDisc
  }

  /** The boundary counts: a click exactly r away along an axis hits, one pixel further out does not. */
  lemma HitInclusive(t: TargetState, mx: int, my: int)
    requires t.r >= 0 && t.y == my as real
    ensures t.x == (mx + t.r) as real ==> Hit(t, mx, my)
    ensures t.x == (mx + t.r + 1) as real ==> !Hit(t, mx, my)
  {
  }

  /** A hit on a target of admissible radius is at squared distance at most 32² = 1024. */
  lemma HitWithinMaxRadius(t: TargetState, mx: int, my: int)
    requires RadiusInRange(t.r) && Hit(t, mx, my)
    ensures SqDist(t, mx, my) <= 1024.0
  {
    assert t.r * t.r <= MaxRadius * MaxRadius;
  }

  /** A target the click resolver may choose. */
  predicate Candidate(t: TargetState, mx: int, my: int)
  {
    t.alive && Hit(t, mx, my)
  }

  /** Index k is the resolver's choice: nearest alive hit target, and no earlier one is as near. */
  predicate IsClosest(ts: seq<TargetState>, mx: int, my: int, k: nat)
  {
    && k < |ts|
    && Candidate(ts[k], mx, my)
    && (forall j :: 0 <= j < |ts| && Candidate(ts[j], mx, my) ==> SqDist(ts[k], mx, my) <= SqDist(ts[j], mx, my))
    && (forall j :: 0 <= j < k && Candidate(ts[j], mx, my) ==> SqDist(ts[k], mx, my) < SqDist(ts[j], mx, my))
  }

  /** The target a click at (mx, my) selects: the list is scanned in order, and the choice
      so far is replaced only by a candidate at a strictly smaller squared distance. */
  function Select(ts: seq<TargetState>, mx: int, my: int): (sel: Option<nat>)
    ensures sel.Some? ==> sel.value < |ts|
    decreases |ts|
  {
    if |ts| == 0 then None
    else
      var prev := Select(ts[..|ts| - 1], mx, my);
      var last := ts[|ts| - 1];
      if Candidate(last, mx, my) && (prev.None? || SqDist(last, mx, my) < SqDist(ts[prev.value], mx, my))
      then Some(|ts| - 1)
      else prev
  }

  /** The scan finds the nearest alive target containing the click, the earliest one among
      equally near ones, and finds nothing exactly when no alive target contains the click. */
  lemma {:induction false} SelectIsClosest(ts: seq<TargetState>, mx: int, my: int)
    ensures Select(ts, mx, my).Some? ==> IsClosest(ts, mx, my, Select(ts, mx, my).value)
    ensures Select(ts, mx, my).None? <==> forall j :: 0 <= j < |ts| ==> !Candidate(ts[j], mx, my)
    decreases |ts|
  {
    if |ts| > 0 {
      var init := ts[..|ts| - 1];
      SelectIsClosest(init, mx, my);
      assert forall j :: 0 <= j < |init| ==> init[j] == ts[j];
    }
  }

  /** Two indices that both satisfy IsClosest are the same, so the choice is determined. */
  lemma ClosestUnique(ts: seq<TargetState>, mx: int, my: int, k1: nat, k2: nat)
    requires IsClosest(ts, mx, my, k1) && IsClosest(ts, mx, my, k2)
    ensures k1 == k2
  {
  }

  /** Of two hit targets at different distances, the nearer one wins. */
  lemma SelectPrefersNearer(ts: seq<TargetState>, mx: int, my: int, i: nat, j: nat)
    requires i < |ts| && j < |ts|
    requires Candidate(ts[i], mx, my) && Candidate(ts[j], mx, my)
    requires SqDist(ts[i], mx, my) < SqDist(ts[j], mx, my)
    ensures Select(ts, mx, my) != Some(j)
  {
    SelectIsClosest(ts, mx, my);
  }

  /** The list with target k marked dead and nothing else changed. */
  function Kill(ts: seq<TargetState>, k: nat): (us: seq<TargetState>)
    requires k < |ts|
    ensures |us| == |ts| && !us[k].alive && us[k].(alive := ts[k].alive) == ts[k]
    ensures forall i :: 0 <= i < |ts| && i != k ==> us[i] == ts[i]
  {
    ts[k := ts[k].(alive := false)]
  }

  /** The number of dead targets in the list. */
  function DeadCount(ts: seq<TargetState>): (n: nat)
    ensures n <= |ts|
  {
    if |ts| == 0 then 0
    else DeadCount(ts[..|ts| - 1]) + (if ts[|ts| - 1].alive then 0 else 1)
  }

  /** Killing an alive target adds exactly one dead target. */
  lemma {:induction false} DeadCountKill(ts: seq<TargetState>, k: nat)
    requires k < |ts| && ts[k].alive
    ensures DeadCount(Kill(ts, k)) == DeadCount(ts) + 1
  {
    var n := |ts|;
    if k < n - 1 {
      assert Kill(ts, k)[..n - 1] == Kill(ts[..n - 1], k);
      DeadCountKill(ts[..n - 1], k);
    } else {
      assert Kill(ts, k)[..n - 1] == ts[..n - 1];
    }
  }

  /** Appending an alive target leaves the count unchanged. */
  lemma DeadCountAppendAlive(ts: seq<TargetState>, t: TargetState)
    requires t.alive
    ensures DeadCount(ts + [t]) == DeadCount(ts)
  {
    assert (ts + [t])[..|ts|] == ts;
  }

  /** Lists that agree on every alive flag have the same dead count. */
  lemma {:induction false} DeadCountSameFlags(a: seq<TargetState>, b: seq<TargetState>)
    requires |a| == |b|
    requires forall i :: 0 <= i < |a| ==> a[i].alive == b[i].alive
    ensures DeadCount(a) == DeadCount(b)
  {
    if |a| > 0 {
      DeadCountSameFlags(a[..|a| - 1], b[..|b| - 1]);
    }
  }

  /** The object the game keeps per target; update and the click resolver change its fields in place. */
  class Target {
    const r: int
    var x: real
    var y: real
    var vx: real
    var vy: real
    var alive: bool

    function State(): TargetState
      reads this
    {
      TargetState(r, x, y, vx, vy, alive)
    }

    /** Target.__init__ with the random radius, position and velocity passed in. */
    constructor (r0: int, x0: int, y0: int, vx0: real, vy0: real)
      requires SpawnDraw(r0, x0, y0)
      ensures State() == Spawned(r0, x0, y0, vx0, vy0)
    {
      r := r0;
      x := x0 as real;
      y := y0 as real;
      vx := vx0;
      vy := vy0;
      alive := true;
    }

    /** Target.update: integrate the position, then the four wall checks in source order. */
    method Update(dt: real)
      requires RadiusInRange(r)
      modifies this
      ensures State() == Step(old(State()), dt)
    {
      x := Advance(x, vx, dt);
      y := Advance(y, vy, dt);
      if x < r as real && vx < 0.0 { vx := vx * -1.0; }
      if x > (Width - r) as real && vx > 0.0 { vx := vx * -1.0; }
      if y < r as real && vy < 0.0 { vy := vy * -1.0; }
      if y > (Height - r) as real && vy > 0.0 { vy := vy * -1.0; }
    }
  }
}
