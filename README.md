# Quantum Dash — a verified model of the game logic

Quantum Dash is a small arcade game: the player steers a dot with the arrow keys, can teleport a short
distance by left-clicking (at most once every 500 ms), picks up "cores" for 10 points each and loses when
an enemy touches it. This project models the game's state logic over integer pixel coordinates and
millisecond times, and proves what the game promises about it:

- `Settings` — the screen size, entity sizes, speeds, teleport range and cooldown, core cap and score.
- `Rects` — the rendering library's rectangle overlap test (half-open ranges; touching edges do not collide).
- `Players` — the player as a class with fields `x`, `y`, `lastTeleport`; `Move` and `Teleport` update them
  in place and are specified by the functions `Moved` and `Teleported` on a `PlayerState` value, about which
  the lemmas are proved.
- `Games` — enemies and cores as position values; the game session as a class holding the player, the enemy
  and core lists and the score, with an invariant (`Game.Valid`: at most 3 live cores, all inside the core
  spawn area, score a non-negative multiple of 10); the spawner and the collision pass.
- `MainLoop` — one iteration of the main loop (`Frame`): events, movement, spawning, enemy movement,
  collisions and the `running` flag.

Inputs the game takes from its environment become parameters: the pending events (with the clock reading
at which each click is handled), the held keys, the outcome of the two spawn draws (`enemyDraw`,
`coreDraw`: "the random number fell below the spawn rate"), the positions of newly spawned entities
(constrained to the inclusive ranges of the random integer draws) and the enemy positions after they moved.

Three behaviours of the code that the model reproduces as written:

- `Player.move` tests the current coordinate against `PLAYER_SIZE` (20) before each step; the left and
  right steps (and the up and down steps) run in sequence, so the second test sees the first step's result.
- `last_teleport` starts at 0, so every click before time 500 fails, including one at time 0
  (`Players.NoTeleportBeforeCooldownElapsed`, `Players.TeleportScenario`).
- A quit event only sets `running` to false: the rest of the frame (other events, movement, spawning,
  collisions) still runs (`MainLoop.Frame`, `MainLoop.QuitDoesNotSkipEvents`).

The specification functions and predicates that carry no contract of their own — `Rects.CollideRect` (the
model of `colliderect`), `Players.Moved`, `Players.Teleported`, `Games.SpawnedEnemies`,
`Games.SpawnedCores`, `Games.AnyHit`, `Games.Game.Valid`, `MainLoop.HandleEvent` and `MainLoop.AfterEvents` —
are covered by the rows of the methods whose contracts use them and of the lemmas stated about them.

`list.remove(core)` removes the object itself; the model removes the first core with the same position and
proves (`Games.RemoveFirstAt`, used by `Games.ScanCollects`) that during the collision pass this is exactly
the scanned core, because no kept core before it overlaps the player while it does.

## Model

| member | source | states |
|---|---|---|
| Players.Player.constructor | quantum_dash.py:34-37 | a new player stands at the given position with its teleport timer at 0 |
| Players.Player.Move | quantum_dash.py:39-47 | the new state is `Moved` of the old one: the four guarded steps, timer untouched |
| Players.MoveStepSize | quantum_dash.py:39-47 | a move changes each coordinate by exactly -5, 0 or +5 and leaves the teleport timer alone |
| Players.MoveGuards | quantum_dash.py:40-47 | a coordinate decreases only if its key is held and it was above 20, increases only if its key is held and it was below 780 (x) / 580 (y) |
| Players.MoveNoKeys | quantum_dash.py:39-47 | with no key held the player does not move |
| Players.MoveStaysOnScreen | quantum_dash.py:39-47 | a move keeps a player inside [0,800]x[0,600] there, and keeps its sprite (centre within [10,790]x[10,590]) on screen |
| Players.Player.Teleport | quantum_dash.py:49-57 | returns whether the teleport succeeded (not cooling down and in range) and sets the state to `Teleported` of the old one |
| Players.TeleportDuringCooldownFails | quantum_dash.py:50-51 | less than 500 ms after the last teleport, an attempt fails and changes nothing |
| Players.NoTeleportBeforeCooldownElapsed | quantum_dash.py:37-51 | a freshly created player cannot teleport at any time before 500 |
| Players.TeleportInRangeSucceeds | quantum_dash.py:52-56 | outside the cooldown and within distance 100, the teleport succeeds, lands exactly on the target and sets the timer to the current time |
| Players.TeleportOutOfRangeFails | quantum_dash.py:52-57 | farther than 100 away the teleport fails and changes nothing, the timer included |
| Players.TeleportRangeBoundary | quantum_dash.py:53 | distance exactly 100 succeeds; one pixel farther fails |
| Players.SecondTeleportWithinCooldownFails | quantum_dash.py:49-56 | after a successful teleport, a second attempt less than 500 ms later fails and the player stays on the first target |
| Players.InRangeIsEuclidean | quantum_dash.py:52-53 | the integer test dx*dx + dy*dy <= 100*100 agrees with "the Euclidean distance is at most 100" |
| Players.TeleportScenario | quantum_dash.py:49-57 | a fresh player at (100,100) clicking (150,120) fails at time 0 and lands at time 500; a click on (500,500) at time 600 is then refused |
| Rects.CollideSymmetric | quantum_dash.py:105 | rectangle collision is symmetric |
| Rects.CollideIffSharedPixel | quantum_dash.py:105 | two rectangles collide exactly when some pixel lies in both |
| Rects.TouchingEdgesDoNotCollide | quantum_dash.py:105-110 | rectangles whose edges only touch, along a vertical or a horizontal edge, do not collide |
| Games.CollectsIffNear | quantum_dash.py:102-105 | the player picks up a core exactly when the core's centre is 17 before to 16 after the player's on both axes |
| Games.HitsIffNear | quantum_dash.py:108-110 | an enemy touches the player exactly when its centre is 22 before to 21 after the player's on both axes |
| Games.SpawnAppendsAtMostOne | quantum_dash.py:95-99 | the spawner appends at most one enemy (exactly when the enemy draw came up) and at most one core, and keeps the existing ones |
| Games.SpawnKeepsCoreCap | quantum_dash.py:98-99 | a core is added exactly when its draw came up and fewer than 3 were live, so at most 3 cores are ever live |
| Games.Game.constructor | quantum_dash.py:85-89 | a new session: player at (400,300) with timer 0, no enemies, no cores, score 0, invariant holds |
| Games.Game.SpawnEntities | quantum_dash.py:95-99 | appends as `SpawnedEnemies`/`SpawnedCores` say, with new entities in the inclusive random ranges; invariant kept |
| Games.Game.CheckCollisions | quantum_dash.py:101-112 | removes exactly the overlapped cores (`Kept`), adds 10 per removed core, leaves enemies alone, returns false iff some enemy overlaps; invariant kept |
| Games.CollectCores | quantum_dash.py:102-107 | the scan of the core snapshot leaves `Kept` of the cores live and adds 10 per `Collected` core to the score |
| Games.NoEnemyHits | quantum_dash.py:108-112 | the scan of the enemies returns true exactly when no enemy overlaps the player |
| Games.Kept | quantum_dash.py:103-106 | the cores left live are among the old ones and are not overlapped by the player |
| Games.Collected | quantum_dash.py:103-107 | the cores picked up are among the old ones and are overlapped by the player |
| Games.KeptMembers | quantum_dash.py:103-106 | a core stays live if and only if it was live and the player does not overlap it |
| Games.KeptCollectedPartition | quantum_dash.py:103-107 | kept and collected cores together are exactly the old cores (count and multiset) |
| Games.KeptAppend | quantum_dash.py:103-106 | the pass works core by core, so kept cores keep their relative order |
| Games.KeptAllWhenNoneCollected | quantum_dash.py:103-106 | when the player overlaps no core, all cores stay and nothing is collected |
| Games.KeptStep | quantum_dash.py:103-106 | scanning one more core extends exactly one of the kept and collected lists with it |
| Games.ScanCollects | quantum_dash.py:103-107 | an overlapped core is still live when reached, and removing it advances the scan invariant |
| Games.ScanKeeps | quantum_dash.py:103-105 | a missed core stays where it is and the scan invariant advances |
| Games.RemoveFirst | quantum_dash.py:106 | removing a present core shortens the list by one |
| Games.RemoveFirstMultiset | quantum_dash.py:106 | removal takes away exactly one occurrence of the core and nothing else |
| Games.RemoveFirstAt | quantum_dash.py:103-106 | when no earlier core equals it, removal takes away exactly the scanned core and keeps the rest in order |
| Games.ScoreStaysMultiple | quantum_dash.py:107 | adding 10 per core keeps the score a multiple of 10 |
| Games.EnemyOnPlayerHits | quantum_dash.py:108-111 | an enemy at the player's position (400,300) ends the game |
| Games.CoreNearPlayerCollected | quantum_dash.py:103-107 | a core at (410,305) is collected by a player at (400,300) |
| MainLoop.Frame | quantum_dash.py:131-144 | one frame: player state is `Moved` of `AfterEvents`, enemies are the moved ones, cores and score follow the spawn and the collision pass, `running` is false iff a quit came or an enemy overlaps |
| MainLoop.AfterEventsSnoc | quantum_dash.py:132-136 | handling one more event is handling it after the earlier ones |
| MainLoop.QuitDoesNotSkipEvents | quantum_dash.py:132-136 | a quit event does not change how the frame's other events are handled |
| MainLoop.NoClickNoChange | quantum_dash.py:135-136 | without a left click, event handling leaves the player unchanged |
| MainLoop.TimerNeverGoesBack | quantum_dash.py:132-136 | after event handling the teleport timer is unchanged or at least 500 later than before |
| MainLoop.NoEarlyTeleport | quantum_dash.py:132-136 | clicks before time 500 never move a freshly created player |
| MainLoop.EventsKeepPlayerOnScreen | quantum_dash.py:132-136 | with all left clicks on screen, event handling keeps the player on screen |
| MainLoop.FrameKeepsPlayerOnScreen | quantum_dash.py:132-139 | with all left clicks on screen, the events and the move keep the player on screen |

## Left out

- Drawing (`Player.draw`, `Enemy.draw`, `Core.draw`, `Game.draw`, fonts, the screen, display flips) and the cooldown countdown text: rendering through a foreign library, floating point formatting only.
- `Enemy.move_towards`: it moves by `cos`/`sin` of an `atan2` bearing in floating point; `Frame` takes the enemy positions after movement as an input, and the float-to-int conversion of enemy positions in their rectangles is not modelled. The unused `Enemy.angle` is dropped.
- Randomness (`random.random`, `randint`, `uniform`): the draws are inputs; spawn probabilities (0.03, 0.02) are not modelled, only the outcome of each comparison.
- Event polling, held-key polling and the millisecond clock: supplied as inputs. The mouse position of a click is an arbitrary integer; `MainLoop.EventsKeepPlayerOnScreen` assumes on-screen clicks explicitly.
- The `while running` loop over many frames, `pygame.quit`, frame pacing (`clock.tick`, `asyncio.sleep`), `asyncio.run` and the Emscripten start-up: scheduling and platform code. Only one loop iteration (`MainLoop.Frame`) is modelled.
- Rectangles with negative width or height (which the library normalises): every rectangle of the game has a positive constant size.
- In-place removal from the core list: the list is scanned as a sequence value and the field reassigned (`Games.CollectCores`), rather than updated by in-place list removal; the object identity `list.remove` uses is replaced by position equality, proved to remove the same core.
