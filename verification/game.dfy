/** The symbol-example test program (roms/symbol_example/main.c): a small
    game whose globals live in work RAM. C's integer widths are kept: the
    score, positions, frame count, level and sentinels are 16-bit, the
    lives, state and flags 8-bit, and increments wrap. */
module GameLoop {
  import opened Machine

  const StateInit: U8 := 0
  const StatePlaying: U8 := 1
  const StatePaused: U8 := 2
  const StateGameOver: U8 := 3

  const InitSentinel: U16 := 0xBEEF
  const DoneSentinel: U16 := 0xDEAD

  const ScorePerFrame := 10
  const ScoreForLevel := 1000
  const MaxLevel := 5
  const WinScore := 5000
  const MaxFrames := 1000
  const SpriteSize := 32

  /** The game's globals. */
  datatype Game = Game(
    score: U16, lives: U8, playerX: U16, playerY: U16,
    state: U8, gameOver: U8, frameCount: U16, level: U16,
    enemyX: U16, enemyY: U16, enemyActive: U8,
    initComplete: U16, doneFlag: U16)

  /** game_init: every global reset, the init sentinel set, and the state
      moved on to playing. */
  function GameInit(): (g: Game)
    ensures g.score == 0 && g.lives == 3 && g.level == 1 && g.frameCount == 0
    ensures g.state == StatePlaying && g.gameOver == 0 && g.doneFlag == 0
    ensures g.initComplete == InitSentinel && g.enemyActive == 1
  {
    Game(0, 3, 160, 200, StatePlaying, 0, 0, 1, 50, 50, 1, InitSentinel, 0)
  }

  /** The level a score earns: one per 1000 points from 1, at most 5. */
  function LevelFor(score: nat): (l: nat)
    ensures 1 <= l <= MaxLevel
    ensures l == MaxLevel || l == score / ScoreForLevel + 1
    ensures score / ScoreForLevel + 1 <= MaxLevel ==> l == score / ScoreForLevel + 1
    ensures l == MaxLevel <==> score >= (MaxLevel - 1) * ScoreForLevel
  {
    var expected := score / ScoreForLevel + 1;
    if expected > MaxLevel then MaxLevel else expected
  }

  lemma LevelForMonotone(a: nat, b: nat)
    requires a <= b
    ensures LevelFor(a) <= LevelFor(b)
  {
  }

  /** update_score: ten points (16-bit wrap-around) and the level raised
      to what the score earns, never lowered. */
  function UpdateScore(g: Game): (r: Game)
    ensures r.score == (g.score + ScorePerFrame) % 0x1_0000
    ensures r.level >= g.level
    ensures r.level == if LevelFor(r.score) > g.level then LevelFor(r.score) else g.level
    ensures r.(score := g.score, level := g.level) == g
  {
    var score := (g.score + ScorePerFrame) % 0x1_0000;
    var expected := LevelFor(score);
    g.(score := score, level := if expected > g.level then expected else g.level)
  }

  /** update_enemy: an inactive enemy stays put; an active one follows the
      frame count. */
  function UpdateEnemy(g: Game): (r: Game)
    ensures g.enemyActive == 0 ==> r == g
    ensures g.enemyActive != 0 ==>
              r.enemyX == 50 + g.frameCount % 200 && r.enemyY == 50 + (g.frameCount / 2) % 150
    ensures r.(enemyX := g.enemyX, enemyY := g.enemyY) == g
  {
    if g.enemyActive == 0 then g
    else g.(enemyX := 50 + g.frameCount % 200, enemyY := 50 + (g.frameCount / 2) % 150)
  }

  function Abs(x: int): nat {
    if x < 0 then -x else x
  }

  /** check_collision: the 32x32 boxes overlap and the enemy is active. */
  function CheckCollision(g: Game): (hit: bool)
    ensures g.enemyActive == 0 ==> !hit
    ensures hit <==> g.enemyActive != 0 && -SpriteSize < g.playerX - g.enemyX < SpriteSize
                                        && -SpriteSize < g.playerY - g.enemyY < SpriteSize
  {
    if g.enemyActive == 0 then false
    else
      var dx := Abs(g.playerX as int - g.enemyX as int);
      var dy := Abs(g.playerY as int - g.enemyY as int);
      dx < SpriteSize && dy < SpriteSize
  }

  /** Moving the player onto an active enemy is a collision. */
  lemma SamePlaceCollides(g: Game)
    requires g.enemyActive != 0 && g.playerX == g.enemyX && g.playerY == g.enemyY
    ensures CheckCollision(g)
  {
  }

  /** Whether the collision test is the same seen from either sprite. */
  lemma CollisionSymmetric(g: Game)
    ensures CheckCollision(g) == CheckCollision(g.(playerX := g.enemyX, enemyX := g.playerX,
                                                   playerY := g.enemyY, enemyY := g.playerY))
  {
  }

  /** player_hit: one life lost (not below zero), the game over when none
      are left, and the enemy switched off. */
  function PlayerHit(g: Game): (r: Game)
    ensures r.lives == if g.lives > 0 then g.lives - 1 else 0
    ensures r.enemyActive == 0
    ensures r.lives == 0 ==> r.gameOver == 1 && r.state == StateGameOver && r.doneFlag == DoneSentinel
    ensures r.lives > 0 ==> r.gameOver == g.gameOver && r.state == g.state && r.doneFlag == g.doneFlag
    ensures r.score == g.score && r.level == g.level && r.frameCount == g.frameCount
    ensures r.initComplete == g.initComplete
  {
    var lives := if g.lives > 0 then g.lives - 1 else 0;
    var h := g.(lives := lives);
    var h := if lives == 0 then h.(gameOver := 1, state := StateGameOver, doneFlag := DoneSentinel) else h;
    h.(enemyActive := 0)
  }

  /** Winning: top level and at least 5000 points. */
  predicate Won(g: Game) {
    g.level >= MaxLevel && g.score >= WinScore
  }

  function EndGame(g: Game): (r: Game)
    ensures r.gameOver == 1 && r.state == StateGameOver && r.doneFlag == DoneSentinel
  {
    g.(gameOver := 1, state := StateGameOver, doneFlag := DoneSentinel)
  }

  /** The part of game_update after the frame count and score: enemy
      movement, reactivation every 60 frames, the win check, and the
      collision. */
  function AfterScore(g: Game): (r: Game)
    ensures r.score == g.score && r.level == g.level && r.frameCount == g.frameCount
    ensures r.initComplete == g.initComplete
    ensures Won(g) ==> r.gameOver == 1 && r.doneFlag == DoneSentinel
  {
    var m := UpdateEnemy(g);
    var a := if m.enemyActive == 0 && m.frameCount % 60 == 0 then m.(enemyActive := 1) else m;
    var w := if Won(a) then EndGame(a) else a;
    if CheckCollision(w) then PlayerHit(w) else w
  }

  /** game_update: nothing unless playing; otherwise one more frame. */
  function GameUpdate(g: Game): (r: Game)
    ensures g.state != StatePlaying ==> r == g
    ensures g.state == StatePlaying ==>
              && r.frameCount == (g.frameCount + 1) % 0x1_0000
              && r.score == (g.score + ScorePerFrame) % 0x1_0000
              && r.level >= g.level
    ensures r.initComplete == g.initComplete
  {
    if g.state != StatePlaying then g
    else
      var f := g.(frameCount := (g.frameCount + 1) % 0x1_0000);
      AfterScore(UpdateScore(f))
  }

  /** The state is playing and the done flag clear until the game is
      over, and the game-over flag is never set without the done
      sentinel. */
  predicate Consistent(g: Game) {
    && (g.gameOver == 0 ==> g.state == StatePlaying && g.doneFlag == 0)
    && (g.gameOver != 0 ==> g.doneFlag == DoneSentinel)
  }

  lemma {:induction false} GameUpdateKeepsConsistent(g: Game)
    requires Consistent(g)
    ensures Consistent(GameUpdate(g))
  {
    if g.state == StatePlaying {
      var f := g.(frameCount := (g.frameCount + 1) % 0x1_0000);
      var s := UpdateScore(f);
      var m := UpdateEnemy(s);
      var a := if m.enemyActive == 0 && m.frameCount % 60 == 0 then m.(enemyActive := 1) else m;
      assert Consistent(a);
      var w := if Won(a) then EndGame(a) else a;
      assert Consistent(w);
      if CheckCollision(w) {
        assert Consistent(PlayerHit(w));
      }
    }
  }

  /** The level matches the score, as the level-progression test checks. */
  predicate LevelMatches(g: Game) {
    g.level == LevelFor(g.score)
  }

  /** Without wrap-around, a frame keeps the level in step with the score. */
  lemma GameUpdateKeepsLevel(g: Game)
    requires LevelMatches(g) && g.score + ScorePerFrame < 0x1_0000
    ensures LevelMatches(GameUpdate(g))
  {
    if g.state == StatePlaying {
      LevelForMonotone(g.score, g.score + ScorePerFrame);
    }
  }

  /** At the top level with 4990 points, the next frame wins. */
  lemma OneFrameToWin(g: Game)
    requires g.state == StatePlaying && g.level == MaxLevel && g.score == 4990
    ensures var r := GameUpdate(g); r.score == WinScore && r.gameOver == 1 && r.doneFlag == DoneSentinel
  {
    var f := g.(frameCount := (g.frameCount + 1) % 0x1_0000);
    assert Won(UpdateScore(f));
  }

  /** With no lives left, a collision ends the game. */
  lemma LastLifeEndsGame(g: Game)
    requires g.lives <= 1
    ensures var r := PlayerHit(g); r.gameOver == 1 && r.state == StateGameOver && r.doneFlag == DoneSentinel
  {
  }

  /** main: game_init, then game_update until the game is over or 1000
      frames have passed, then the done flag set if it was not. The loop
      ends because every round adds a frame while the game is on. */
  method RunGame() returns (g: Game)
    ensures g.doneFlag == DoneSentinel
    ensures g.gameOver != 0 || g.frameCount == MaxFrames
    ensures g.frameCount <= MaxFrames && g.score == ScorePerFrame * g.frameCount
    ensures LevelMatches(g) && g.initComplete == InitSentinel
  {
    g := GameInit();
    while g.gameOver == 0 && g.frameCount < MaxFrames
      invariant LoopInvariant(g)
      decreases MaxFrames - g.frameCount
    {
      LoopStep(g);
      g := GameUpdate(g);
    }
    if g.doneFlag == 0 {
      g := g.(doneFlag := DoneSentinel);
    }
  }

  /** What holds at every test of main's loop condition. */
  predicate LoopInvariant(g: Game) {
    && Consistent(g) && g.frameCount <= MaxFrames
    && g.score == ScorePerFrame * g.frameCount && LevelMatches(g)
    && g.initComplete == InitSentinel
  }

  /** One round of main's loop keeps the invariant and adds a frame. */
  lemma LoopStep(g: Game)
    requires LoopInvariant(g) && g.gameOver == 0 && g.frameCount < MaxFrames
    ensures LoopInvariant(GameUpdate(g)) && GameUpdate(g).frameCount == g.frameCount + 1
  {
    GameUpdateKeepsConsistent(g);
    GameUpdateKeepsLevel(g);
    var r := GameUpdate(g);
    assert r.frameCount == g.frameCount + 1;
    assert r.score == ScorePerFrame * r.frameCount;
  }
}
