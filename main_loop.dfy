/** One iteration of the game's main loop: handle the pending events, move the player, spawn, move
    the enemies, run the collision pass, and decide whether the loop keeps running. */
module MainLoop {
  import opened Settings
  import opened Players
  import opened Games

  /** An input event: the window's quit request, a mouse button press at (x, y) handled at time
      `time`, or anything else (ignored). */
  datatype Event =
    | Quit
    | MouseButtonDown(button: int, x: int, y: int, time: int)
    | OtherEvent

  /** The primary (left) mouse button. */
  const LEFT_BUTTON := 1

  /** The player state after handling one event: a left click attempts a teleport to the cursor. */
  function HandleEvent(s: PlayerState, e: Event): PlayerState {
    match e
    case MouseButtonDown(button, x, y, time) => if button == LEFT_BUTTON then Teleported(s, x, y, time) else s
    case _ => s
  }

  /** The player state after handling the events in order. */
  function AfterEvents(s: PlayerState, events: seq<Event>): PlayerState {
    if events == [] then s else HandleEvent(AfterEvents(s, events[..|events| - 1]), events[|events| - 1])
  }

  /** Some event of the frame is a quit request. */
  predicate QuitRequested(events: seq<Event>) {
    exists i :: 0 <= i < |events| && events[i].Quit?
  }

  /** The event is a left click whose cursor position is on screen (from 0 up to the screen size). */
  predicate ClickOnScreen(e: Event) {
    e.MouseButtonDown? && e.button == LEFT_BUTTON ==> 0 <= e.x <= WIDTH && 0 <= e.y <= HEIGHT
  }

  /** One frame. `events` are the pending events; `keys` the held arrow keys; `enemyDraw`, `coreDraw`,
      `newEnemy` and `newCore` are the spawner's random outcomes; `movedEnemies` are the enemy positions
      after each enemy stepped towards the player. */
  method Frame(game: Game, events: seq<Event>, keys: Keys, enemyDraw: bool, coreDraw: bool,
               newEnemy: Enemy, newCore: Core, movedEnemies: seq<Enemy>) returns (running: bool)
    requires game.Valid()
    requires InEnemySpawnArea(newEnemy) && InCoreSpawnArea(newCore)
    requires |movedEnemies| == |game.enemies| + (if enemyDraw then 1 else 0)
    modifies game, game.player
    ensures game.Valid() && game.player == old(game.player)
    ensures game.player.State() == Moved(AfterEvents(old(game.player.State()), events), keys)
    ensures game.enemies == movedEnemies
    ensures var spawned := SpawnedCores(old(game.cores), coreDraw, newCore);
      game.cores == Kept(spawned, game.player.State()) &&
      game.score == old(game.score) + CORE_SCORE * |Collected(spawned, game.player.State())|
    ensures running <==> !QuitRequested(events) && !AnyHit(movedEnemies, game.player.State())
  {
    running := true;
    var player := game.player;
    for i := 0 to |events|
      invariant player.State() == AfterEvents(old(player.State()), events[..i])
      invariant running <==> !QuitRequested(events[..i])
      invariant unchanged(game)
    {
      assert events[..i + 1][..i] == events[..i];
      match events[i] {
        case Quit =>
          running := false;
          assert events[..i + 1][i].Quit?;
        case MouseButtonDown(button, x, y, time) =>
          if button == LEFT_BUTTON {
            var teleported := player.Teleport(x, y, time);
          }
        case OtherEvent =>
      }
      assert QuitRequested(events[..i + 1]) <==> QuitRequested(events[..i]) || events[i].Quit?;
    }
    assert events[..|events|] == events;
    player.Move(keys);
    game.SpawnEntities(enemyDraw, coreDraw, newEnemy, newCore);
    game.enemies := movedEnemies;
    var alive := game.CheckCollisions();
    if !alive {
      running := false;
    }
  }

  // ---------------------------------------------------------------------------------------------
  // Properties of event handling

  /** Handling one more event is handling it after the earlier ones. */
  lemma AfterEventsSnoc(s: PlayerState, events: seq<Event>, e: Event)
    ensures AfterEvents(s, events + [e]) == HandleEvent(AfterEvents(s, events), e)
  {
    assert (events + [e])[..|events|] == events;
  }

  /** A quit request only stops the loop after the frame: it does not change how the other events of
      the frame are handled. */
  lemma {:induction false} QuitDoesNotSkipEvents(s: PlayerState, before: seq<Event>, after: seq<Event>)
    ensures AfterEvents(s, before + [Quit] + after) == AfterEvents(s, before + after)
  {
    if after == [] {
      assert before + [Quit] + after == before + [Quit];
      assert (before + [Quit])[..|before|] == before;
      assert before + after == before;
    } else {
      var init, last := after[..|after| - 1], after[|after| - 1];
      QuitDoesNotSkipEvents(s, before, init);
      assert before + [Quit] + after == (before + [Quit] + init) + [last];
      assert before + after == (before + init) + [last];
      AfterEventsSnoc(s, before + [Quit] + init, last);
      AfterEventsSnoc(s, before + init, last);
    }
  }

  /** Without a left click the events leave the player as it was. */
  lemma {:induction false} NoClickNoChange(s: PlayerState, events: seq<Event>)
    requires forall i :: 0 <= i < |events| ==> !(events[i].MouseButtonDown? && events[i].button == LEFT_BUTTON)
    ensures AfterEvents(s, events) == s
  {
    if events != [] {
      var init := events[..|events| - 1];
      assert forall i :: 0 <= i < |init| ==> init[i] == events[i];
      NoClickNoChange(s, init);
    }
  }

  /** The teleport timer never goes back: every successful teleport happens at least
      TELEPORT_COOLDOWN after the previous one, so the timer either stays or moves that far forward. */
  lemma {:induction false} TimerNeverGoesBack(s: PlayerState, events: seq<Event>)
    ensures var t := AfterEvents(s, events).lastTeleport;
      t == s.lastTeleport || t >= s.lastTeleport + TELEPORT_COOLDOWN
  {
    if events != [] {
      TimerNeverGoesBack(s, events[..|events| - 1]);
    }
  }

  /** Clicks before time TELEPORT_COOLDOWN never move a freshly created player. */
  lemma {:induction false} NoEarlyTeleport(x: int, y: int, events: seq<Event>)
    requires forall i :: 0 <= i < |events| ==> events[i].MouseButtonDown? ==> events[i].time < TELEPORT_COOLDOWN
    ensures AfterEvents(Spawned(x, y), events) == Spawned(x, y)
  {
    if events != [] {
      var init := events[..|events| - 1];
      assert forall i :: 0 <= i < |init| ==> init[i] == events[i];
      NoEarlyTeleport(x, y, init);
    }
  }

  /** With every left click on screen, event handling keeps the player on screen. */
  lemma {:induction false} EventsKeepPlayerOnScreen(s: PlayerState, events: seq<Event>)
    requires OnScreen(s)
    requires forall i :: 0 <= i < |events| ==> ClickOnScreen(events[i])
    ensures OnScreen(AfterEvents(s, events))
  {
    if events != [] {
      var init := events[..|events| - 1];
      assert forall i :: 0 <= i < |init| ==> init[i] == events[i];
      EventsKeepPlayerOnScreen(s, init);
      assert ClickOnScreen(events[|events| - 1]);
    }
  }

  /** A whole frame keeps the player on screen when every left click is on screen. */
  lemma FrameKeepsPlayerOnScreen(s: PlayerState, events: seq<Event>, keys: Keys)
    requires OnScreen(s)
    requires forall i :: 0 <= i < |events| ==> ClickOnScreen(events[i])
    ensures OnScreen(Moved(AfterEvents(s, events), keys))
  {
    EventsKeepPlayerOnScreen(s, events);
    MoveStaysOnScreen(AfterEvents(s, events), keys);
  }
}
