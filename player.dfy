/** The player avatar: a position moved by the arrow keys and a cooldown-gated short-range teleport. */
module Players {
  import opened Settings

  /** Which of the four arrow keys are held this frame. */
  datatype Keys = Keys(left: bool, right: bool, up: bool, down: bool)

  /** The player's state: its centre and the time of its last successful teleport. */
  datatype PlayerState = PlayerState(x: int, y: int, lastTeleport: int)

  /** The state of a newly created player at (x, y): the teleport timer starts at time 0. */
  function Spawned(x: int, y: int): PlayerState { PlayerState(x, y, 0) }

  /** One axis of a move: first the decreasing key, then (seeing the result) the increasing key.
      Each step is taken only when the current coordinate is farther than PLAYER_SIZE from that edge. */
  function AxisStep(v: int, dec: bool, inc: bool, extent: int): int {
    var v1 := if dec && v > PLAYER_SIZE then v - PLAYER_SPEED else v;
    if inc && v1 < extent - PLAYER_SIZE then v1 + PLAYER_SPEED else v1
  }

  /** The state after a move with the given held keys. */
  function Moved(s: PlayerState, k: Keys): PlayerState {
    PlayerState(AxisStep(s.x, k.left, k.right, WIDTH), AxisStep(s.y, k.up, k.down, HEIGHT), s.lastTeleport)
  }

  /** The teleport is still cooling down at time t. */
  predicate CoolingDown(s: PlayerState, t: int) {
    t - s.lastTeleport < TELEPORT_COOLDOWN
  }

  /** The Euclidean distance from (x, y) to (tx, ty) is at most TELEPORT_DISTANCE. */
  predicate InRange(s: PlayerState, tx: int, ty: int) {
    (tx - s.x) * (tx - s.x) + (ty - s.y) * (ty - s.y) <= TELEPORT_DISTANCE * TELEPORT_DISTANCE
  }

  /** A teleport to (tx, ty) at time t succeeds. */
  predicate TeleportSucceeds(s: PlayerState, tx: int, ty: int, t: int) {
    !CoolingDown(s, t) && InRange(s, tx, ty)
  }

  /** The state after a teleport attempt to (tx, ty) at time t. */
  function Teleported(s: PlayerState, tx: int, ty: int, t: int): PlayerState {
    if TeleportSucceeds(s, tx, ty, t) then PlayerState(tx, ty, t) else s
  }

  /** The player object; its fields are updated in place by Move and Teleport. */
  class Player {
    var x: int
    var y: int
    var lastTeleport: int

    function State(): PlayerState
      reads this
    {
      PlayerState(x, y, lastTeleport)
    }

    constructor (x0: int, y0: int)
      ensures State() == Spawned(x0, y0)
    {
      x, y := x0, y0;
      lastTeleport := 0;
    }

    /** Four independent guarded steps, in the order left, right, up, down. */
    method Move(keys: Keys)
      modifies this
      ensures State() == Moved(old(State()), keys)
    {
      if keys.left && x > PLAYER_SIZE {
        x := x - PLAYER_SPEED;
      }
      if keys.right && x < WIDTH - PLAYER_SIZE {
        x := x + PLAYER_SPEED;
      }
      if keys.up && y > PLAYER_SIZE {
        y := y - PLAYER_SPEED;
      }
      if keys.down && y < HEIGHT - PLAYER_SIZE {
        y := y + PLAYER_SPEED;
      }
    }

    /** Teleport to the mouse position (mx, my) at time currentTime; reports whether it happened. */
    method Teleport(mx: int, my: int, currentTime: int) returns (ok: bool)
      modifies this
      ensures ok == TeleportSucceeds(old(State()), mx, my, currentTime)
      ensures State() == Teleported(old(State()), mx, my, currentTime)
    {
      if currentTime - lastTeleport < TELEPORT_COOLDOWN {
        return false;
      }
      var dx, dy := mx - x, my - y;
      if dx * dx + dy * dy <= TELEPORT_DISTANCE * TELEPORT_DISTANCE {
        x, y := mx, my;
        lastTeleport := currentTime;
        return true;
      }
      return false;
    }
  }

  // ---------------------------------------------------------------------------------------------
  // Properties of a move

  /** A move changes each coordinate by -PLAYER_SPEED, 0 or +PLAYER_SPEED and never touches the timer. */
  lemma MoveStepSize(s: PlayerState, k: Keys)
    ensures var m := Moved(s, k);
      (m.x == s.x - PLAYER_SPEED || m.x == s.x || m.x == s.x + PLAYER_SPEED) &&
      (m.y == s.y - PLAYER_SPEED || m.y == s.y || m.y == s.y + PLAYER_SPEED) &&
      m.lastTeleport == s.lastTeleport
  {
  }

  /** A coordinate only decreases when its key is held and it was above PLAYER_SIZE, and only increases
      when its key is held and it was below the screen extent minus PLAYER_SIZE. */
  lemma MoveGuards(s: PlayerState, k: Keys)
    ensures var m := Moved(s, k);
      (m.x < s.x ==> k.left && s.x > PLAYER_SIZE) &&
      (m.x > s.x ==> k.right && s.x < WIDTH - PLAYER_SIZE) &&
      (m.y < s.y ==> k.up && s.y > PLAYER_SIZE) &&
      (m.y > s.y ==> k.down && s.y < HEIGHT - PLAYER_SIZE)
  {
  }

  /** With no key held the player stays where it is. */
  lemma MoveNoKeys(s: PlayerState)
    ensures Moved(s, Keys(false, false, false, false)) == s
  {
  }

  /** The player is on screen: inside [0, WIDTH] x [0, HEIGHT]. */
  predicate OnScreen(s: PlayerState) {
    0 <= s.x <= WIDTH && 0 <= s.y <= HEIGHT
  }

  /** The player's whole sprite is on screen: its centre is at least half a sprite from every edge. */
  predicate SpriteOnScreen(s: PlayerState) {
    PLAYER_SIZE / 2 <= s.x <= WIDTH - PLAYER_SIZE / 2 && PLAYER_SIZE / 2 <= s.y <= HEIGHT - PLAYER_SIZE / 2
  }

  /** A move never takes the player off screen, nor its sprite. */
  lemma MoveStaysOnScreen(s: PlayerState, k: Keys)
    ensures OnScreen(s) ==> OnScreen(Moved(s, k))
    ensures SpriteOnScreen(s) ==> SpriteOnScreen(Moved(s, k))
  {
  }

  // ---------------------------------------------------------------------------------------------
  // Properties of a teleport

  /** During the cooldown a teleport fails and changes nothing. */
  lemma TeleportDuringCooldownFails(s: PlayerState, tx: int, ty: int, t: int)
    requires t - s.lastTeleport < TELEPORT_COOLDOWN
    ensures !TeleportSucceeds(s, tx, ty, t) && Teleported(s, tx, ty, t) == s
  {
  }

  /** A fresh player cannot teleport before time TELEPORT_COOLDOWN. */
  lemma NoTeleportBeforeCooldownElapsed(x: int, y: int, tx: int, ty: int, t: int)
    requires t < TELEPORT_COOLDOWN
    ensures !TeleportSucceeds(Spawned(x, y), tx, ty, t) && Teleported(Spawned(x, y), tx, ty, t) == Spawned(x, y)
  {
  }

  /** Outside the cooldown and within range, a teleport lands exactly on the target and restarts the timer. */
  lemma TeleportInRangeSucceeds(s: PlayerState, tx: int, ty: int, t: int)
    requires t - s.lastTeleport >= TELEPORT_COOLDOWN
    requires (tx - s.x) * (tx - s.x) + (ty - s.y) * (ty - s.y) <= TELEPORT_DISTANCE * TELEPORT_DISTANCE
    ensures TeleportSucceeds(s, tx, ty, t) && Teleported(s, tx, ty, t) == PlayerState(tx, ty, t)
  {
  }

  /** Out of range a teleport fails and changes nothing; in particular the cooldown timer is kept. */
  lemma TeleportOutOfRangeFails(s: PlayerState, tx: int, ty: int, t: int)
    requires (tx - s.x) * (tx - s.x) + (ty - s.y) * (ty - s.y) > TELEPORT_DISTANCE * TELEPORT_DISTANCE
    ensures !TeleportSucceeds(s, tx, ty, t)
    ensures Teleported(s, tx, ty, t) == s && Teleported(s, tx, ty, t).lastTeleport == s.lastTeleport
  {
  }

  /** The range test is inclusive: exactly TELEPORT_DISTANCE away along an axis succeeds, one more pixel fails. */
  lemma TeleportRangeBoundary(s: PlayerState, t: int)
    requires t - s.lastTeleport >= TELEPORT_COOLDOWN
    ensures TeleportSucceeds(s, s.x + TELEPORT_DISTANCE, s.y, t)
    ensures !TeleportSucceeds(s, s.x + TELEPORT_DISTANCE, s.y + 1, t)
    ensures !TeleportSucceeds(s, s.x + TELEPORT_DISTANCE + 1, s.y, t)
  {
  }

  /** Once a teleport at t1 succeeded, any attempt at t2 with t2 - t1 under the cooldown fails and leaves the player there. */
  lemma SecondTeleportWithinCooldownFails(s: PlayerState, tx1: int, ty1: int, t1: int, tx2: int, ty2: int, t2: int)
    requires TeleportSucceeds(s, tx1, ty1, t1)
    requires t2 - t1 < TELEPORT_COOLDOWN
    ensures var s1 := Teleported(s, tx1, ty1, t1);
      !TeleportSucceeds(s1, tx2, ty2, t2) && Teleported(s1, tx2, ty2, t2) == s1 && s1.x == tx1 && s1.y == ty1
  {
  }

  /** The integer range test agrees with the Euclidean distance: for the non-negative root r of
      dx*dx + dy*dy, r <= TELEPORT_DISTANCE exactly when InRange holds. */
  lemma InRangeIsEuclidean(s: PlayerState, tx: int, ty: int, r: real)
    requires r >= 0.0
    requires r * r == ((tx - s.x) * (tx - s.x) + (ty - s.y) * (ty - s.y)) as real
    ensures r <= TELEPORT_DISTANCE as real <==> InRange(s, tx, ty)
  {
    var d := TELEPORT_DISTANCE as real;
    if r <= d {
      assert r * r <= d * r <= d * d;
    } else {
      assert r * r > d * r > d * d;
    }
  }

  /** An example. A player created at (100, 100) has its timer at 0, so a click on (150, 120) at time 0
      is refused although the target is only about 53.9 pixels away; the same click at time 500 lands, and
      a click on (500, 500) at time 600 is then refused by the cooldown and leaves the player at (150, 120). */
  lemma TeleportScenario()
    ensures !TeleportSucceeds(Spawned(100, 100), 150, 120, 0)
    ensures Teleported(Spawned(100, 100), 150, 120, 500) == PlayerState(150, 120, 500)
    ensures Teleported(PlayerState(150, 120, 500), 500, 500, 600) == PlayerState(150, 120, 500)
  {
  }
}
