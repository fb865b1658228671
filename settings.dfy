/** Screen and game settings of Quantum Dash (all sizes in pixels, times in milliseconds). */
module Settings {
  const WIDTH := 800
  const HEIGHT := 600

  const PLAYER_SIZE := 20
  const ENEMY_SIZE := 25
  const CORE_SIZE := 15
  const PLAYER_SPEED := 5
  const TELEPORT_DISTANCE := 100
  const TELEPORT_COOLDOWN := 500

  /** Spawner settings: at most this many cores are live at once; a core is worth CORE_SCORE points,
      and a new core is placed at least CORE_MARGIN pixels away from every screen edge. */
  const MAX_CORES := 3
  const CORE_SCORE := 10
  const CORE_MARGIN := 50
}
