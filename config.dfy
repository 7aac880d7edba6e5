/** Fixed settings of the aim trainer: the play area and the target parameters. */
module Config {
  /** Width and height of the play area, in pixels. */
  const Width: int := 900
  const Height: int := 600

  /** Range of the radius drawn for a new target. */
  const MinRadius: int := 16
  const MaxRadius: int := 32

  /** Seconds between two spawns. */
  const SpawnInterval: real := 0.9

  /** Length of a session, in seconds. */
  const SessionTime: real := 60.0

  /** Initial value of the best squared distance while resolving a click (1e9). */
  const NoHitDistance: real := 1000000000.0
}
