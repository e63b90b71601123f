/** Game tuning constants (rats/src/config.rs): update intervals in milliseconds and kill scores. */
module Config {
  const PLAYER_UPDATE_MS: nat := 50
  const RAT_UPDATE_MS: nat := 100
  const BRAT_UPDATE_MS: nat := 75
  const FACTORY_UPDATE_MS: nat := 250
  const BULLET_UPDATE_MS: nat := 10

  /** One eighth of a second, in nanoseconds. */
  const PLAYER_FIRE_RATE_NS: nat := 1_000_000_000 / 8

  const RAT_KILL: nat := 50
  const BRAT_KILL: nat := 25
  const FACTORY_KILL: nat := 250
}
