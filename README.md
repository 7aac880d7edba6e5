# Mini Aim Trainer — verified model of the game core

The aim trainer shows moving circular targets in a 900×600 play area. A new
target spawns every 0.9 s. Each one has a radius from 16 to 32, starts fully
inside the area and moves in a straight line, bouncing off the walls. Every
left click is a shot. It hits the nearest alive target whose disc contains the
click point, kills that target and scores `max(10, 50 - int(sqrt(d)/3))`,
where `d` is the squared distance from the target's centre. The HUD shows the
score, hits/shots and the accuracy.

This project models that core in Dafny and proves its properties:

- `config.dfy` (module `Config`): the play area and the constants.
- `scoring.dfy` (module `Scoring`): the score term without `sqrt`. The value
  `floor(sqrt(d)/3)` is defined as the `k` with `9·k² <= d < 9·(k+1)²`, and
  the lemmas show it is unique. Also the accuracy expression.
- `targets.dfy` (module `Targets`):
  - `TargetState`, the value of one target;
  - the step and bounce rule, the hit test and the click selection rule
    `Select`, all as functions;
  - the class `Target`, whose `Update` changes its fields in place and is
    proved to match `Step`.
- `session.dfy` (module `Game`): the class `Session`, which holds the target
  list and the counters `score`, `shots` (`total_shots`), `hits` and
  `lastSpawn`.
  - Its methods are the click resolver, the spawner tick, the update pass and
    one whole frame of the main loop.
  - The ghost field `states` holds the targets' values in list order.
    `Valid()` ties it to the objects and carries the session invariants:
    - the targets are distinct objects, and each has an admissible radius and
      never moves further out past a wall;
    - `0 <= hits <= shots` and `40·hits <= score <= 50·hits`;
    - `hits` equals the number of dead targets;
    - `0 <= lastSpawn < 0.9`.
- `scenarios.dfy` (module `Scenarios`): concrete cases.
  - A click at the exact centre scores 50.
  - A click 60 px away misses.
  - Of overlapping targets, the nearer one wins, and at equal distance the
    earlier one wins.
  - A dead target is ignored.
  - A session that spawns one target and clicks its centre ends with one hit,
    one shot and 50 points.

Modelling choices:

- Positions and velocities are exact `real`s. Radius and mouse coordinates are
  `int`s, as the source has them (`randint`, `mouse.get_pos`).
- The random radius, position and velocity become parameters. The spawn
  ranges are preconditions (`SpawnDraw`).
- `dt` and the elapsed session time become parameters.
- `update` lets a target end a frame past a wall, because it moves first and
  only then turns the velocity round. `Targets.StepOvershootBounded` bounds
  that overshoot by one frame's worst-case travel, and the model keeps it
  rather than clamping the position.
- `hit_any` is an `Option<nat>` index. `if hit_any:` tests an object with no
  `__bool__`, so it means "a target was found". The sentinel `best_d = 1e9` is
  kept (`Config.NoHitDistance`). The proof of `NearestHit` shows it never
  rejects a containing target, because such a target has `d <= r² <= 1024`.
- Ties: on equal squared distances the strict `<` (line 71) keeps the target
  earliest in the list, so spawn order decides ties.
- The last frame: the frame in which the elapsed time reaches 60 s sets
  `running = False` (lines 56-57) but still processes its clicks, the spawner
  and the update pass (lines 59-86); only the next loop test stops.
  `Game.Session.Frame` models this.
- Spawn centres are integers (`randint`, lines 20-21).

## Model

| member | source | states |
|---|---|---|
| `Scoring.ThirdRootFrom` | testing-1.0.py:75 | The upward search returns the largest `q` with `9·q² <= n`, so `9·q² <= n < 9·(q+1)²` |
| `Scoring.FloorSqrtThird` | testing-1.0.py:75 | `int(sqrt(d)/3)` for `d >= 0` is the `k` with `9·k² <= d < 9·(k+1)²` |
| `Scoring.FloorSqrtThirdUnique` | testing-1.0.py:75 | Only one `k` satisfies that characterisation, so it is `floor(sqrt(d)/3)` |
| `Scoring.FloorSqrtThirdSmall` | testing-1.0.py:75 | `d < 9` gives 0; `d <= 1024 = 32²` gives at most 10 |
| `Scoring.ScoreDelta` | testing-1.0.py:75 | The points `max(10, 50 - floor(sqrt(d)/3))` lie in [10, 50]. They are 50 for a click within 3 px of the centre (so 50 at the exact centre) and at least 40 when `d <= 32²` |
| `Scoring.ScoreMonotone` | testing-1.0.py:75 | A hit nearer the centre never scores less than a farther one |
| `Scoring.Accuracy` | testing-1.0.py:93 | `hits / total_shots * 100` with the zero guard: 0.0 when no shots (also line 101), within [0, 100] when `hits <= shots`, 100 when all shots hit, 0 when none did |
| `Targets.Spawned` | testing-1.0.py:19-25 | A new target is alive and has radius in [16, 32]. Its centre lies in `[r, W-r] × [r, H-r]` and keeps the drawn velocity; it satisfies the heading invariant |
| `Targets.Target.constructor` | testing-1.0.py:18-25 | Constructing a `Target` from admissible draws yields exactly `Spawned(...)`, hence an alive, admissible target heading inward |
| `Targets.Bounce` | testing-1.0.py:31-34 | The two wall checks only negate a velocity component or keep it. With `2r < dim`, a coordinate below `r` leaves a velocity `>= 0` and one above `dim - r` leaves one `<= 0`. The result equals the one-shot rule "negate iff past a wall and still moving outward" |
| `Targets.Step` | testing-1.0.py:27-34 | `update` keeps `r` and `alive`, moves the centre by `v·dt`, and only negates velocity components. For an admissible radius the result satisfies the heading invariant |
| `Targets.StepKeepsSpeed` | testing-1.0.py:27-34 | `update` preserves `vx² + vy²`, so bounces never change the speed |
| `Targets.Advance` | testing-1.0.py:28-29 | The move `p + v·dt`: no motion when `v` or `dt` is 0, and for `dt >= 0` the coordinate moves in the direction of the sign of `v` |
| `Targets.TravelBound` | testing-1.0.py:28-29 | With `-s <= v <= s` and `0 <= dt <= dmax` a coordinate moves by at most `s·dmax` in one frame |
| `Targets.AxisWithinBand` | testing-1.0.py:28-34 | On one axis, a coordinate within `s·dmax` past the walls that is heading back whenever it is past a wall stays within `s·dmax` past the walls after the move |
| `Targets.StepOvershootBounded` | testing-1.0.py:27-34 | The tolerated overshoot: after `update`, a target is past a wall by at most one frame's worst-case travel `s·dmax`. The velocity bound is kept, so with the heading invariant the band holds after every later frame too. A spawn starts inside it (lines 20-21) |
| `Targets.Target.Update` | testing-1.0.py:27-34 | The in-place field updates of `Target.update`, in source order, yield exactly `Step(old state, dt)` |
| `Targets.SqDist` | testing-1.0.py:42 | The squared distance from the centre to the click is never negative |
| `Targets.Hit` | testing-1.0.py:41-42 | `Target.hit`: the click lies in the closed disc of radius `r`. A hit is then within `r` of the centre on each axis |
| `Targets.HitInclusive` | testing-1.0.py:41-42 | The hit test is inclusive: a click exactly `r` away along an axis hits, one pixel farther does not |
| `Targets.HitWithinMaxRadius` | testing-1.0.py:41-42 | A hit on an admissible target has squared distance at most 32² = 1024 |
| `Targets.Select` | testing-1.0.py:66-72 | The scan in list order, replacing the choice only on a strictly smaller squared distance, returns an index inside the list |
| `Targets.SelectIsClosest` | testing-1.0.py:66-72 | The choice is alive and contains the click. Its squared distance is `<=` that of every alive containing target and `<` that of every earlier one. Nothing is chosen iff no alive target contains the click |
| `Targets.ClosestUnique` | testing-1.0.py:66-72 | That characterisation picks out a single index |
| `Targets.SelectPrefersNearer` | testing-1.0.py:71 | Of two alive containing targets at different distances, the farther one is never chosen |
| `Targets.Kill` | testing-1.0.py:76 | `hit_any.alive = False` on the list: only target `k` changes, and only its `alive` flag, which becomes false; the length is kept |
| `Targets.DeadCount` | testing-1.0.py:76 | Counts dead targets; the count is at most the list length |
| `Targets.DeadCountKill` | testing-1.0.py:76 | Killing an alive target raises the dead count by exactly one |
| `Targets.DeadCountAppendAlive` | testing-1.0.py:82 | Appending a freshly spawned (alive) target leaves the dead count unchanged |
| `Targets.DeadCountSameFlags` | testing-1.0.py:85-86 | Lists that agree on every `alive` flag have equal dead counts; the update pass never changes the count |
| `Game.Session.constructor` | testing-1.0.py:45-51 | A session starts with no targets and all counters (`score`, `total_shots`, `hits`, `last_spawn`) zero, satisfying the session invariant |
| `Game.Session.NearestHit` | testing-1.0.py:66-72 | The loop with `hit_any`, `best_d = 1e9` and strict `<` computes exactly `Select`. A found target is alive and contains the click, and `best_d` is its squared distance, at most 1024. With no target found, `best_d` stays 1e9 |
| `Game.Session.Award` | testing-1.0.py:73-76 | A hit adds one to `hits` and `ScoreDelta(d)` to the score, and marks exactly target `k` dead. The list, `total_shots` and `last_spawn` are unchanged and the session invariant is kept |
| `Game.Session.Click` | testing-1.0.py:62-76 | Each left click adds exactly 1 to `total_shots`. With no alive target under the click, nothing else changes. Otherwise the `Select`ed target alone becomes dead, `hits` increases by 1, the score increases by `ScoreDelta` of its squared distance, and the list is unchanged. It keeps `hits <= total_shots` |
| `Game.Session.AddTarget` | testing-1.0.py:82 | `targets.append(Target())` appends exactly one fresh object whose state is `Spawned(...)`. The earlier targets are unchanged and the invariant is kept |
| `Game.Session.SpawnTick` | testing-1.0.py:79-82 | Adds `dt` to `last_spawn`. On reaching 0.9 it resets to 0 and appends exactly one fresh target with state `Spawned(...)`; otherwise the list and the states are unchanged. Existing targets and the counters are untouched, and afterwards `0 <= last_spawn < 0.9` |
| `Game.Session.UpdateOne` | testing-1.0.py:86 | One iteration of the update pass: target `i` becomes `Step(old, dt)` if alive and is left alone otherwise. No other state changes, and every object still matches its recorded state |
| `Game.Session.UpdateAll` | testing-1.0.py:85-86 | Every alive target becomes `Step(old, dt)`; every dead target is left exactly as it was; the invariant is kept |
| `Game.Session.Frame` | testing-1.0.py:53-86 | One loop pass: `running` is false iff the elapsed time is `>= 60`. The frame still fires every click (`total_shots` grows by their number), then ticks the spawner and runs the update pass. The list only grows |

## Left out

- Window, drawing, HUD composition and the end-of-session screen (lines 4-9, 36-39, 88-97, 99-120) are calls into the graphics library with no logic of their own.
- Event polling, the QUIT early return and `pygame.mouse.get_pos` (lines 59-64): `Frame` and `Click` take the left clicks' coordinates as parameters.
- `clock.tick` and `time.time()` (lines 54-55, 94) are the environment's clocks. `dt` and the elapsed time are parameters, and `dt >= 0` is assumed of the frame limiter (`SpawnTick`, `Frame`).
- `random.randint`, `random.uniform`, `cos` and `sin` (lines 19-24) are replaced by parameters. The radius and centre ranges are preconditions. The speed constant 140 (line 14) is not modelled, because the drawn velocity is arbitrary; `StepKeepsSpeed` shows that the speed a target has never changes.
- IEEE floating point: all arithmetic is exact. `int()` of the non-negative `sqrt(d)/3` is modelled as the floor, and double-precision rounding of `sqrt`, of `v·dt` and of the 0.9 s interval is not modelled.
- String formatting (`:.1f`, f-strings at lines 95 and 105) and the integer pixel conversions `int(self.x)` used only for drawing.
- Game.Session.Frame: its contract states the running flag, the shot count and list growth only. The per-click, spawn and per-target effects are the contracts of `Click`, `SpawnTick` and `UpdateAll`, which it calls in source order.
