/** Process-wide tuning constants of the engine (src/utils/config.go). */
module Config {
  /** Probability that the random surfer follows a link rather than teleporting. */
  const DampingFactor: real := 0.85

  /** Convergence threshold on the L1 change between successive rank vectors (1e-9). */
  const Epsilon: real := 0.000000001

  /** Bound on the number of power-iteration steps. */
  const MaxIterations: nat := 100
}
