/** The game session: the player, the live enemies and cores, the score, the spawner and the collision pass. */
module Games {
  import opened Settings
  import opened Rects
  import opened Players

  /** An enemy's centre (enemy movement is not part of this model; see Frame in MainLoop). */
  datatype Enemy = Enemy(x: int, y: int)

  /** A collectible core's centre; cores never move. */
  datatype Core = Core(x: int, y: int)

  /** Collision footprints: squares of the entity's size whose top-left corner is half the size
      (rounded down) above and left of the centre. */
  function PlayerRect(p: PlayerState): Rect {
    Rect(p.x - PLAYER_SIZE / 2, p.y - PLAYER_SIZE / 2, PLAYER_SIZE, PLAYER_SIZE)
  }

  function CoreRect(c: Core): Rect {
    Rect(c.x - CORE_SIZE / 2, c.y - CORE_SIZE / 2, CORE_SIZE, CORE_SIZE)
  }

  function EnemyRect(e: Enemy): Rect {
    Rect(e.x - ENEMY_SIZE / 2, e.y - ENEMY_SIZE / 2, ENEMY_SIZE, ENEMY_SIZE)
  }

  /** The player picks up core c. */
  predicate Collects(p: PlayerState, c: Core) {
    CollideRect(PlayerRect(p), CoreRect(c))
  }

  /** Enemy e touches the player. */
  predicate Hits(p: PlayerState, e: Enemy) {
    CollideRect(PlayerRect(p), EnemyRect(e))
  }

  /** Some enemy of es touches the player. */
  predicate AnyHit(es: seq<Enemy>, p: PlayerState) {
    exists i :: 0 <= i < |es| && Hits(p, es[i])
  }

  /** The player rect covers [x-10, x+10) and a core rect [cx-7, cx+8) on each axis, so a core is
      picked up exactly when its centre is between 17 before and 16 after the player's on both axes. */
  lemma CollectsIffNear(p: PlayerState, c: Core)
    ensures Collects(p, c) <==> -17 <= c.x - p.x <= 16 && -17 <= c.y - p.y <= 16
  {
  }

  /** An enemy rect covers [ex-12, ex+13), so an enemy touches the player exactly when its centre is
      between 22 before and 21 after the player's on both axes. */
  lemma HitsIffNear(p: PlayerState, e: Enemy)
    ensures Hits(p, e) <==> -22 <= e.x - p.x <= 21 && -22 <= e.y - p.y <= 21
  {
  }

  // ---------------------------------------------------------------------------------------------
  // Spawner

  /** Where a new enemy may appear: anywhere on screen, edges included. */
  predicate InEnemySpawnArea(e: Enemy) {
    0 <= e.x <= WIDTH && 0 <= e.y <= HEIGHT
  }

  /** Where a new core may appear: CORE_MARGIN pixels in from every edge, edges of that area included. */
  predicate InCoreSpawnArea(c: Core) {
    CORE_MARGIN <= c.x <= WIDTH - CORE_MARGIN && CORE_MARGIN <= c.y <= HEIGHT - CORE_MARGIN
  }

  /** The enemies after the spawner ran, when the enemy draw came up (enemyDraw) with enemy e. */
  function SpawnedEnemies(es: seq<Enemy>, enemyDraw: bool, e: Enemy): seq<Enemy> {
    if enemyDraw then es + [e] else es
  }

  /** The cores after the spawner ran: the core draw must come up and fewer than MAX_CORES be live. */
  function SpawnedCores(cs: seq<Core>, coreDraw: bool, c: Core): seq<Core> {
    if coreDraw && |cs| < MAX_CORES then cs + [c] else cs
  }

  /** The spawner appends at most one entity of each kind and leaves the existing ones as they were. */
  lemma SpawnAppendsAtMostOne(es: seq<Enemy>, enemyDraw: bool, e: Enemy, cs: seq<Core>, coreDraw: bool, c: Core)
    ensures var es' := SpawnedEnemies(es, enemyDraw, e);
      |es| <= |es'| <= |es| + 1 && es'[..|es|] == es && (|es'| > |es| <==> enemyDraw)
    ensures var cs' := SpawnedCores(cs, coreDraw, c);
      |cs| <= |cs'| <= |cs| + 1 && cs'[..|cs|] == cs
  {
  }

  /** A core is added exactly when its draw came up and fewer than MAX_CORES were live, so the cap is kept. */
  lemma SpawnKeepsCoreCap(cs: seq<Core>, coreDraw: bool, c: Core)
    ensures |SpawnedCores(cs, coreDraw, c)| > |cs| <==> coreDraw && |cs| < MAX_CORES
    ensures |cs| <= MAX_CORES ==> |SpawnedCores(cs, coreDraw, c)| <= MAX_CORES
  {
  }

  // ---------------------------------------------------------------------------------------------
  // Collision pass over the cores

  /** The cores a collision pass leaves live, in their original order. */
  function Kept(cs: seq<Core>, p: PlayerState): (r: seq<Core>)
    ensures |r| <= |cs|
    ensures forall c :: c in r ==> c in cs && !Collects(p, c)
  {
    if cs == [] then []
    else Kept(cs[..|cs| - 1], p) + (if Collects(p, cs[|cs| - 1]) then [] else [cs[|cs| - 1]])
  }

  /** The cores a collision pass picks up, in their original order. */
  function Collected(cs: seq<Core>, p: PlayerState): (r: seq<Core>)
    ensures |r| <= |cs|
    ensures forall c :: c in r ==> c in cs && Collects(p, c)
  {
    if cs == [] then []
    else Collected(cs[..|cs| - 1], p) + (if Collects(p, cs[|cs| - 1]) then [cs[|cs| - 1]] else [])
  }

  /** A core stays live exactly when it was live and the player does not overlap it. */
  lemma {:induction false} KeptMembers(cs: seq<Core>, p: PlayerState)
    ensures forall c :: c in Kept(cs, p) <==> c in cs && !Collects(p, c)
  {
    if cs != [] {
      var init := cs[..|cs| - 1];
      KeptMembers(init, p);
      assert cs == init + [cs[|cs| - 1]];
    }
  }

  /** The kept and the collected cores split the live cores between them: nothing is lost or duplicated. */
  lemma {:induction false} KeptCollectedPartition(cs: seq<Core>, p: PlayerState)
    ensures |Kept(cs, p)| + |Collected(cs, p)| == |cs|
    ensures multiset(Kept(cs, p)) + multiset(Collected(cs, p)) == multiset(cs)
  {
    if cs != [] {
      var init, last := cs[..|cs| - 1], cs[|cs| - 1];
      KeptCollectedPartition(init, p);
      assert cs == init + [last];
      if Collects(p, last) {
        assert Kept(cs, p) == Kept(init, p);
        assert Collected(cs, p) == Collected(init, p) + [last];
      } else {
        assert Kept(cs, p) == Kept(init, p) + [last];
        assert Collected(cs, p) == Collected(init, p);
      }
    }
  }

  /** The pass works element by element, so it keeps the relative order of the cores it keeps. */
  lemma {:induction false} KeptAppend(a: seq<Core>, b: seq<Core>, p: PlayerState)
    ensures Kept(a + b, p) == Kept(a, p) + Kept(b, p)
  {
    if b != [] {
      var init := b[..|b| - 1];
      KeptAppend(a, init, p);
      assert (a + b)[..|a + b| - 1] == a + init;
      assert (a + b)[|a + b| - 1] == b[|b| - 1];
    } else {
      assert a + b == a;
    }
  }

  /** A pass that overlaps none of the cores keeps them all. */
  lemma {:induction false} KeptAllWhenNoneCollected(cs: seq<Core>, p: PlayerState)
    requires forall i :: 0 <= i < |cs| ==> !Collects(p, cs[i])
    ensures Kept(cs, p) == cs && Collected(cs, p) == []
  {
    if cs != [] {
      var init, last := cs[..|cs| - 1], cs[|cs| - 1];
      assert forall i :: 0 <= i < |init| ==> init[i] == cs[i];
      KeptAllWhenNoneCollected(init, p);
      assert !Collects(p, last);
      assert Kept(cs, p) == init + [last];
      assert cs == init + [last];
    }
  }

  /** Extending the scanned prefix by one core extends exactly one of Kept and Collected by it. */
  lemma KeptStep(s: seq<Core>, i: int, p: PlayerState)
    requires 0 <= i < |s|
    ensures Kept(s[..i + 1], p) == Kept(s[..i], p) + (if Collects(p, s[i]) then [] else [s[i]])
    ensures Collected(s[..i + 1], p) == Collected(s[..i], p) + (if Collects(p, s[i]) then [s[i]] else [])
  {
    assert s[..i + 1][..i] == s[..i];
  }

  /** One step of the scan, on a core the player overlaps: with the first i cores of the snapshot done,
      the core is still live, and removing it leaves the first i + 1 done. */
  lemma ScanCollects(snapshot: seq<Core>, i: int, p: PlayerState, cores: seq<Core>)
    requires 0 <= i < |snapshot| && Collects(p, snapshot[i])
    requires cores == Kept(snapshot[..i], p) + snapshot[i..]
    ensures snapshot[i] in cores
    ensures RemoveFirst(cores, snapshot[i]) == Kept(snapshot[..i + 1], p) + snapshot[i + 1..]
  {
    var done := Kept(snapshot[..i], p);
    KeptStep(snapshot, i, p);
    RemoveFirstAt(done, snapshot[i..], snapshot[i]);
    assert snapshot[i..][1..] == snapshot[i + 1..];
    assert Kept(snapshot[..i + 1], p) == done + [];
  }

  /** One step of the scan, on a core the player misses: the live list already has the first i + 1 done. */
  lemma ScanKeeps(snapshot: seq<Core>, i: int, p: PlayerState, cores: seq<Core>)
    requires 0 <= i < |snapshot| && !Collects(p, snapshot[i])
    requires cores == Kept(snapshot[..i], p) + snapshot[i..]
    ensures cores == Kept(snapshot[..i + 1], p) + snapshot[i + 1..]
  {
    var done := Kept(snapshot[..i], p);
    KeptStep(snapshot, i, p);
    assert snapshot[i..] == [snapshot[i]] + snapshot[i + 1..];
    assert done + snapshot[i..] == done + [snapshot[i]] + snapshot[i + 1..];
  }

  /** list.remove: drop the first element equal to c (the caller guarantees one exists). */
  function RemoveFirst(s: seq<Core>, c: Core): (r: seq<Core>)
    requires c in s
    ensures |r| == |s| - 1
  {
    if s[0] == c then s[1..] else [s[0]] + RemoveFirst(s[1..], c)
  }

  /** list.remove takes away exactly one occurrence of c and nothing else. */
  lemma {:induction false} RemoveFirstMultiset(s: seq<Core>, c: Core)
    requires c in s
    ensures multiset(RemoveFirst(s, c)) == multiset(s) - multiset{c}
  {
    assert s == [s[0]] + s[1..];
    if s[0] != c {
      RemoveFirstMultiset(s[1..], c);
    }
  }

  /** Removing the first core equal to c, when none of pre equals c, removes exactly the head of post. */
  lemma {:induction false} RemoveFirstAt(pre: seq<Core>, post: seq<Core>, c: Core)
    requires c !in pre
    requires post != [] && post[0] == c
    ensures RemoveFirst(pre + post, c) == pre + post[1..]
  {
    if pre != [] {
      var s := pre + post;
      assert s[0] == pre[0] && s[0] != c;
      assert s[1..] == pre[1..] + post;
      RemoveFirstAt(pre[1..], post, c);
      assert RemoveFirst(s, c) == [s[0]] + RemoveFirst(s[1..], c);
      assert [pre[0]] + pre[1..] == pre;
    } else {
      assert pre + post == post;
    }
  }

  /** Adding whole cores' worth of points to a score made of whole cores gives a score made of whole cores. */
  lemma ScoreStaysMultiple(score: int, n: nat)
    requires score % CORE_SCORE == 0
    ensures (score + CORE_SCORE * n) % CORE_SCORE == 0
  {
  }

  // ---------------------------------------------------------------------------------------------
  // The game object

  class Game {
    var player: Player
    var enemies: seq<Enemy>
    var cores: seq<Core>
    var score: int

    /** The session invariant: at most MAX_CORES live cores, each placed by the spawner, and a
        non-negative score made of whole cores. */
    ghost predicate Valid()
      reads this
    {
      |cores| <= MAX_CORES &&
      (forall c :: c in cores ==> InCoreSpawnArea(c)) &&
      score >= 0 && score % CORE_SCORE == 0
    }

    /** A new session: the player in the middle of the screen, no enemies, no cores, score 0. */
    constructor ()
      ensures Valid() && fresh(player)
      ensures player.State() == Spawned(WIDTH / 2, HEIGHT / 2)
      ensures enemies == [] && cores == [] && score == 0
    {
      player := new Player(WIDTH / 2, HEIGHT / 2);
      enemies := [];
      cores := [];
      score := 0;
    }

    /** One spawner step. enemyDraw and coreDraw say whether this frame's two random draws fell below
        the enemy and core spawn rates; newEnemy and newCore are the positions the new entities would get. */
    method SpawnEntities(enemyDraw: bool, coreDraw: bool, newEnemy: Enemy, newCore: Core)
      requires Valid()
      requires InEnemySpawnArea(newEnemy) && InCoreSpawnArea(newCore)
      modifies this
      ensures Valid() && player == old(player) && score == old(score)
      ensures enemies == SpawnedEnemies(old(enemies), enemyDraw, newEnemy)
      ensures cores == SpawnedCores(old(cores), coreDraw, newCore)
    {
      if enemyDraw {
        enemies := enemies + [newEnemy];
      }
      if coreDraw && |cores| < MAX_CORES {
        cores := cores + [newCore];
      }
    }

    /** Collect every core the player overlaps, then report whether the player is clear of all enemies. */
    method CheckCollisions() returns (alive: bool)
      requires Valid()
      modifies this
      ensures Valid() && player == old(player) && enemies == old(enemies)
      ensures cores == Kept(old(cores), player.State())
      ensures score == old(score) + CORE_SCORE * |Collected(old(cores), player.State())|
      ensures score == old(score) + CORE_SCORE * (|old(cores)| - |cores|)
      ensures alive <==> !AnyHit(enemies, player.State())
    {
      var p := player.State();
      ghost var before := cores;
      cores, score := CollectCores(cores, score, p);
      KeptCollectedPartition(before, p);
      ScoreStaysMultiple(old(score), |Collected(before, p)|);
      alive := NoEnemyHits(enemies, p);
    }
  }

  /** The core half of the collision pass: scan a snapshot of the live cores in order and, for each one
      the player overlaps, remove it from the live list and add CORE_SCORE to the score. */
  method CollectCores(live: seq<Core>, score: int, p: PlayerState) returns (cores: seq<Core>, newScore: int)
    ensures cores == Kept(live, p)
    ensures newScore == score + CORE_SCORE * |Collected(live, p)|
  {
    cores, newScore := live, score;
    var playerRect := Rect(p.x - PLAYER_SIZE / 2, p.y - PLAYER_SIZE / 2, PLAYER_SIZE, PLAYER_SIZE);
    var snapshot := cores;
    var i := 0;
    while i < |snapshot|
      invariant 0 <= i <= |snapshot|
      invariant cores == Kept(snapshot[..i], p) + snapshot[i..]
      invariant newScore == score + CORE_SCORE * |Collected(snapshot[..i], p)|
    {
      var core := snapshot[i];
      var coreRect := Rect(core.x - CORE_SIZE / 2, core.y - CORE_SIZE / 2, CORE_SIZE, CORE_SIZE);
      var collides := CollideRect(playerRect, coreRect);
      assert collides == Collects(p, core);
      KeptStep(snapshot, i, p);
      if collides {
        ScanCollects(snapshot, i, p, cores);
        cores := RemoveFirst(cores, core);
        newScore := newScore + CORE_SCORE;
      } else {
        ScanKeeps(snapshot, i, p, cores);
      }
      i := i + 1;
    }
    assert snapshot[..i] == live;
  }

  /** The enemy half of the collision pass: false as soon as one enemy overlaps the player. */
  method NoEnemyHits(enemies: seq<Enemy>, p: PlayerState) returns (alive: bool)
    ensures alive <==> !AnyHit(enemies, p)
  {
    var playerRect := Rect(p.x - PLAYER_SIZE / 2, p.y - PLAYER_SIZE / 2, PLAYER_SIZE, PLAYER_SIZE);
    for j := 0 to |enemies|
      invariant forall k :: 0 <= k < j ==> !Hits(p, enemies[k])
    {
      var enemy := enemies[j];
      var enemyRect := Rect(enemy.x - ENEMY_SIZE / 2, enemy.y - ENEMY_SIZE / 2, ENEMY_SIZE, ENEMY_SIZE);
      if CollideRect(playerRect, enemyRect) {
        assert Hits(p, enemies[j]);
        return false;
      }
    }
    return true;
  }

  // ---------------------------------------------------------------------------------------------
  // Concrete situations

  /** A player at (400, 300) and an enemy spawned on the same spot collide. */
  lemma EnemyOnPlayerHits(t: int)
    ensures AnyHit([Enemy(400, 300)], PlayerState(400, 300, t))
  {
    assert Hits(PlayerState(400, 300, t), [Enemy(400, 300)][0]);
  }

  /** A player at (400, 300) picks up a core at (410, 305): the pass keeps nothing and collects that core. */
  lemma CoreNearPlayerCollected(t: int)
    ensures Kept([Core(410, 305)], PlayerState(400, 300, t)) == []
    ensures Collected([Core(410, 305)], PlayerState(400, 300, t)) == [Core(410, 305)]
  {
    assert [Core(410, 305)][..0] == [];
  }
}
