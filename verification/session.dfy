/**
 The state machine of one game session: the score, the game-over flag, one
 spawn watermark per category and the two entity registries, with one pure
 step function per transition of the game: the per-frame update, the three
 spawners, the two contact handlers and the end of the game.
 */
module GameSession {
  import opened Entities
  import opened Registry

  const StartScore: int := 100
  /** Reaching this score ends the game (the upper threshold). */
  const WinScore: int := 1000
  /** Falling to this score or below ends the game (the lower threshold). */
  const LoseScore: int := 0

  const EnemyInterval: int := 2000
  const BonusInterval: int := 10000
  const SpecialInterval: int := 60000

  datatype Session = Session(
    score: int,
    gameOver: bool,
    nextEnemyTime: int,
    nextBonusTime: int,
    nextSpecialEnemyTime: int,
    enemies: seq<Entity>,
    bonuses: seq<Entity>)

  /** The session as the game starts it. */
  function Init(): (s: Session)
    ensures s.score == StartScore && !s.gameOver
    ensures forall c :: Watermark(s, c) == 0 && CountIn(s, c) == 0
    ensures WellFormed(s) && SpecialsPayScore(s)
  {
    Session(StartScore, false, 0, 0, 0, [], [])
  }

  /** Minimum spacing, in milliseconds, between two spawns of a category. */
  function Interval(c: Category): int {
    match c
    case EnemyCategory => EnemyInterval
    case BonusCategory => BonusInterval
    case SpecialCategory => SpecialInterval
  }

  /** The time after which category `c` is next eligible to spawn. */
  function Watermark(s: Session, c: Category): int {
    match c
    case EnemyCategory => s.nextEnemyTime
    case BonusCategory => s.nextBonusTime
    case SpecialCategory => s.nextSpecialEnemyTime
  }

  function SetWatermark(s: Session, c: Category, t: int): (r: Session)
    ensures Watermark(r, c) == t
    ensures forall c' :: c' != c ==> Watermark(r, c') == Watermark(s, c')
    ensures r.score == s.score && r.gameOver == s.gameOver
    ensures r.enemies == s.enemies && r.bonuses == s.bonuses
  {
    match c
    case EnemyCategory => s.(nextEnemyTime := t)
    case BonusCategory => s.(nextBonusTime := t)
    case SpecialCategory => s.(nextSpecialEnemyTime := t)
  }

  /** Number of live entities of category `c` in the session. */
  function CountIn(s: Session, c: Category): nat {
    CountOf(s.enemies, c) + CountOf(s.bonuses, c)
  }

  /** A frame at `time` spawns category `c` when the watermark has been passed. */
  predicate Due(s: Session, c: Category, time: int) {
    time > Watermark(s, c)
  }

  /** The end-of-game condition the per-frame update tests. */
  predicate Crossed(score: int) {
    score >= WinScore || score <= LoseScore
  }

  /** Every registered enemy is an enemy of the catalog or the special enemy,
      and every registered bonus is a bonus of the catalog. */
  predicate WellFormed(s: Session) {
    && (forall e :: e in s.enemies ==> WellFormedEntity(e) && e.kind == Enemy)
    && (forall e :: e in s.bonuses ==> WellFormedEntity(e) && e.kind == Bonus)
  }

  /** Every live special enemy is worth exactly the negated current score,
      as it was when spawned: the score has not changed since any of them
      appeared. */
  predicate SpecialsPayScore(s: Session) {
    SpecialsWorth(s.enemies, -s.score)
  }

  /** The die range the game draws from for a spawn of category `c`. */
  predicate ValidRoll(c: Category, roll: int) {
    match c
    case EnemyCategory => 1 <= roll <= 4
    case BonusCategory => 1 <= roll <= 3
    case SpecialCategory => true
  }

  /** Sets the game-over flag and changes nothing else; freezing the physics
      and showing the final score are left to the engine. */
  function EndGame(s: Session): (r: Session)
    ensures r.gameOver
    ensures r.(gameOver := s.gameOver) == s
    ensures forall c :: Watermark(r, c) == Watermark(s, c)
  {
    s.(gameOver := true)
  }

  /** Adds one entity of category `c` to its registry and leaves the score,
      the flag and the watermarks alone. A special enemy is worth the
      negated score at this moment. */
  function Spawn(s: Session, c: Category, roll: int): (r: Session)
    requires ValidRoll(c, roll)
    ensures forall c' :: CountIn(r, c') == CountIn(s, c') + (if c' == c then 1 else 0)
    ensures forall c' :: Watermark(r, c') == Watermark(s, c')
    ensures r.score == s.score && r.gameOver == s.gameOver
    ensures c == EnemyCategory ==> r.enemies == s.enemies + [NewEnemy(roll)] && r.bonuses == s.bonuses
    ensures c == BonusCategory ==> r.bonuses == s.bonuses + [NewBonus(roll)] && r.enemies == s.enemies
    ensures c == SpecialCategory ==> r.enemies == s.enemies + [NewSpecialEnemy(s.score)] && r.bonuses == s.bonuses
    ensures SpawnedOnto(s.enemies, r.enemies) && SpawnedOnto(s.bonuses, r.bonuses)
    ensures WellFormed(s) ==> WellFormed(r)
  {
    var e := match c
      case EnemyCategory => NewEnemy(roll)
      case BonusCategory => NewBonus(roll)
      case SpecialCategory => NewSpecialEnemy(s.score);
    assert CategoryOf(e) == c;
    var r := if c == BonusCategory then s.(bonuses := s.bonuses + [e])
             else s.(enemies := s.enemies + [e]);
    forall c' ensures CountIn(r, c') == CountIn(s, c') + (if c' == c then 1 else 0) {
      assert CountOf([e], c') == if c' == c then 1 else 0 by {
        assert [e][1..] == [];
      }
      if c == BonusCategory {
        CountOfConcat(s.bonuses, [e], c');
      } else {
        CountOfConcat(s.enemies, [e], c');
      }
    }
    r
  }

  /** The entities the spawn rule of `c` adds in a frame at `time`: none
      unless the category is due, else the one entity the spawner creates. */
  function SpawnedBy(s: Session, c: Category, time: int, roll: int): (added: seq<Entity>)
    requires ValidRoll(c, roll)
    ensures |added| == if Due(s, c, time) then 1 else 0
    ensures forall k :: 0 <= k < |added| ==> CategoryOf(added[k]) == c && added[k].x == SpawnX
  {
    if !Due(s, c, time) then []
    else match c
      case EnemyCategory => [NewEnemy(roll)]
      case BonusCategory => [NewBonus(roll)]
      case SpecialCategory => [NewSpecialEnemy(s.score)]
  }

  /** One spawn rule of the per-frame update: when the frame time has passed
      the watermark of `c`, the watermark moves to `time + Interval(c)` and
      exactly one entity of `c` is spawned; otherwise nothing happens. */
  function SpawnRule(s: Session, c: Category, time: int, roll: int): (r: Session)
    requires ValidRoll(c, roll)
    ensures Watermark(r, c) == if Due(s, c, time) then time + Interval(c) else Watermark(s, c)
    ensures time <= Watermark(r, c)
    ensures forall c' :: c' != c ==> Watermark(r, c') == Watermark(s, c')
    ensures forall c' :: CountIn(r, c') == CountIn(s, c') + (if c' == c && Due(s, c, time) then 1 else 0)
    ensures r.score == s.score && r.gameOver == s.gameOver
    ensures SpawnedOnto(s.enemies, r.enemies) && SpawnedOnto(s.bonuses, r.bonuses)
    ensures c == BonusCategory ==> r.bonuses == s.bonuses + SpawnedBy(s, c, time, roll) && r.enemies == s.enemies
    ensures c != BonusCategory ==> r.enemies == s.enemies + SpawnedBy(s, c, time, roll) && r.bonuses == s.bonuses
    ensures WellFormed(s) ==> WellFormed(r)
  {
    if Due(s, c, time) then Spawn(SetWatermark(s, c, time + Interval(c)), c, roll) else s
  }

  /** The pruning pass of a frame over both registries. */
  function PruneAll(s: Session): (r: Session)
    ensures forall e :: e in r.enemies <==> e in s.enemies && !OffScreen(e)
    ensures forall e :: e in r.bonuses <==> e in s.bonuses && !OffScreen(e)
    ensures forall e :: multiset(r.enemies)[e] == if OffScreen(e) then 0 else multiset(s.enemies)[e]
    ensures forall e :: multiset(r.bonuses)[e] == if OffScreen(e) then 0 else multiset(s.bonuses)[e]
    ensures r.(enemies := s.enemies, bonuses := s.bonuses) == s
    ensures forall c :: Watermark(r, c) == Watermark(s, c)
    ensures WellFormed(s) ==> WellFormed(r)
  {
    s.(enemies := Prune(s.enemies), bonuses := Prune(s.bonuses))
  }

  /** The per-frame update at frame time `time`, with the die rolls the game
      would draw for an ordinary enemy and for a bonus. After the game is over
      it does nothing; otherwise it runs the enemy, bonus and special-enemy
      spawn rules in that order, prunes both registries and ends the game
      when the score has crossed a threshold. A frame keeps every on-screen
      entity it finds and adds only what the due spawn rules create. */
  function Tick(s: Session, time: int, enemyRoll: int, bonusRoll: int): (r: Session)
    requires 1 <= enemyRoll <= 4 && 1 <= bonusRoll <= 3
    ensures s.gameOver ==> r == s
    ensures r.score == s.score
    ensures !s.gameOver ==> (r.gameOver <==> Crossed(s.score))
    ensures !s.gameOver ==> forall e :: e in r.enemies || e in r.bonuses ==> !OffScreen(e)
    ensures !s.gameOver ==> r.enemies == Prune(s.enemies) + (SpawnedBy(s, EnemyCategory, time, enemyRoll)
                                                          + SpawnedBy(s, SpecialCategory, time, 0))
    ensures !s.gameOver ==> r.bonuses == Prune(s.bonuses) + SpawnedBy(s, BonusCategory, time, bonusRoll)
    ensures WellFormed(s) ==> WellFormed(r)
  {
    if s.gameOver then s else RunningFrame(s, time, enemyRoll, bonusRoll)
  }

  /** A frame that finds the game running. */
  function RunningFrame(s: Session, time: int, enemyRoll: int, bonusRoll: int): (r: Session)
    requires 1 <= enemyRoll <= 4 && 1 <= bonusRoll <= 3
    requires !s.gameOver
    ensures r.score == s.score
    ensures r.gameOver <==> Crossed(s.score)
    ensures forall e :: e in r.enemies || e in r.bonuses ==> !OffScreen(e)
    ensures r.enemies == Prune(s.enemies) + (SpawnedBy(s, EnemyCategory, time, enemyRoll)
                                           + SpawnedBy(s, SpecialCategory, time, 0))
    ensures r.bonuses == Prune(s.bonuses) + SpawnedBy(s, BonusCategory, time, bonusRoll)
    ensures WellFormed(s) ==> WellFormed(r)
  {
    var s3 := SpawnPhase(s, time, enemyRoll, bonusRoll);
    var ae := SpawnedBy(s, EnemyCategory, time, enemyRoll) + SpawnedBy(s, SpecialCategory, time, 0);
    var ab := SpawnedBy(s, BonusCategory, time, bonusRoll);
    assert s3.enemies == s.enemies + ae;
    PruneSpawned(s.enemies, ae);
    PruneSpawned(s.bonuses, ab);
    var s4 := PruneAll(s3);
    if Crossed(s4.score) then EndGame(s4) else s4
  }

  /** The spawn phase of a frame that finds the game running: the three
      rules in the game's order. */
  function SpawnPhase(s: Session, time: int, enemyRoll: int, bonusRoll: int): (r: Session)
    requires 1 <= enemyRoll <= 4 && 1 <= bonusRoll <= 3
    ensures forall c :: Watermark(r, c) == if Due(s, c, time) then time + Interval(c) else Watermark(s, c)
    ensures forall c :: CountIn(r, c) == CountIn(s, c) + (if Due(s, c, time) then 1 else 0)
    ensures SpawnedOnto(s.enemies, r.enemies) && SpawnedOnto(s.bonuses, r.bonuses)
    ensures r.enemies == s.enemies + (SpawnedBy(s, EnemyCategory, time, enemyRoll) + SpawnedBy(s, SpecialCategory, time, 0))
    ensures r.bonuses == s.bonuses + SpawnedBy(s, BonusCategory, time, bonusRoll)
    ensures r.score == s.score && r.gameOver == s.gameOver
  {
    var s1 := SpawnRule(s, EnemyCategory, time, enemyRoll);
    var s2 := SpawnRule(s1, BonusCategory, time, bonusRoll);
    var s3 := SpawnRule(s2, SpecialCategory, time, 0);
    SpawnedOntoTrans(s.enemies, s1.enemies, s2.enemies);
    SpawnedOntoTrans(s.enemies, s2.enemies, s3.enemies);
    SpawnedOntoTrans(s.bonuses, s1.bonuses, s2.bonuses);
    SpawnedOntoTrans(s.bonuses, s2.bonuses, s3.bonuses);
    assert s1.enemies + SpawnedBy(s, SpecialCategory, time, 0)
        == s.enemies + (SpawnedBy(s, EnemyCategory, time, enemyRoll) + SpawnedBy(s, SpecialCategory, time, 0));
    assert SpawnedBy(s2, SpecialCategory, time, 0) == SpawnedBy(s, SpecialCategory, time, 0);
    s3
  }

  /** For every category, a frame at `time` that finds the game running
      moves the watermark to `time + Interval(c)` exactly when `time` is past
      it, and leaves it otherwise. */
  lemma TickWatermarks(s: Session, time: int, enemyRoll: int, bonusRoll: int)
    requires 1 <= enemyRoll <= 4 && 1 <= bonusRoll <= 3
    requires !s.gameOver
    ensures forall c :: Watermark(Tick(s, time, enemyRoll, bonusRoll), c)
                        == if Due(s, c, time) then time + Interval(c) else Watermark(s, c)
  {
    var s4 := PruneAll(SpawnPhase(s, time, enemyRoll, bonusRoll));
    assert Tick(s, time, enemyRoll, bonusRoll) == if Crossed(s4.score) then EndGame(s4) else s4;
  }

  /** For every category, a frame at `time` that finds the game running
      spawns exactly one entity of that category iff `time` is past its
      watermark; the registries otherwise only lose their off-screen
      entities. */
  lemma TickSpawnCounts(s: Session, time: int, enemyRoll: int, bonusRoll: int)
    requires 1 <= enemyRoll <= 4 && 1 <= bonusRoll <= 3
    requires !s.gameOver
    ensures forall c :: CountIn(Tick(s, time, enemyRoll, bonusRoll), c)
                        == CountIn(PruneAll(s), c) + (if Due(s, c, time) then 1 else 0)
  {
    var s3 := SpawnPhase(s, time, enemyRoll, bonusRoll);
    var r := Tick(s, time, enemyRoll, bonusRoll);
    assert r.enemies == Prune(s3.enemies) && r.bonuses == Prune(s3.bonuses);
    forall c ensures CountIn(r, c) == CountIn(PruneAll(s), c) + (if Due(s, c, time) then 1 else 0) {
      SpawnedOntoPruneCount(s.enemies, s3.enemies, c);
      SpawnedOntoPruneCount(s.bonuses, s3.bonuses, c);
    }
  }

  /** The collision handler for an enemy. Contacts are delivered only while
      the game runs (the engine pauses the physics when the game ends), so the
      handler itself does not look at the flag. It applies the enemy's points,
      destroys exactly that enemy and ends the game only for the special
      enemy, whatever the new score; the thresholds wait for the next frame. */
  function HitEnemy(s: Session, i: int): (r: Session)
    requires !s.gameOver
    requires 0 <= i < |s.enemies|
    ensures r.score == s.score + s.enemies[i].points
    ensures |r.enemies| == |s.enemies| - 1
    ensures multiset(r.enemies) + multiset{s.enemies[i]} == multiset(s.enemies)
    ensures r.gameOver <==> s.enemies[i].variant == Special
    ensures r.bonuses == s.bonuses
    ensures forall c :: Watermark(r, c) == Watermark(s, c)
    ensures WellFormed(s) ==> WellFormed(r)
  {
    var e := s.enemies[i];
    var r := s.(score := s.score + e.points, enemies := Remove(s.enemies, i));
    assert forall x :: x in r.enemies ==> x in s.enemies by {
      forall x | x in r.enemies ensures x in s.enemies {
        assert x in multiset(r.enemies);
      }
    }
    if e.variant == Special then EndGame(r) else r
  }

  /** The overlap handler for a bonus: it applies the bonus's points and
      destroys exactly that bonus; enemies and the flag stay as they are. */
  function CollectBonus(s: Session, i: int): (r: Session)
    requires !s.gameOver
    requires 0 <= i < |s.bonuses|
    ensures r.score == s.score + s.bonuses[i].points
    ensures |r.bonuses| == |s.bonuses| - 1
    ensures multiset(r.bonuses) + multiset{s.bonuses[i]} == multiset(s.bonuses)
    ensures r.gameOver == s.gameOver && r.enemies == s.enemies
    ensures forall c :: Watermark(r, c) == Watermark(s, c)
    ensures WellFormed(s) ==> WellFormed(r)
  {
    var r := s.(score := s.score + s.bonuses[i].points, bonuses := Remove(s.bonuses, i));
    assert forall x :: x in r.bonuses ==> x in s.bonuses by {
      forall x | x in r.bonuses ensures x in s.bonuses {
        assert x in multiset(r.bonuses);
      }
    }
    r
  }

  /** In a well-formed session an ordinary enemy always lowers the score and
      never ends the game by itself, even when the score drops to zero or
      below: that is left to the threshold test of the next frame. */
  lemma HitOrdinaryEnemy(s: Session, i: int, time: int, enemyRoll: int, bonusRoll: int)
    requires WellFormed(s) && !s.gameOver
    requires 0 <= i < |s.enemies| && s.enemies[i].variant != Special
    requires 1 <= enemyRoll <= 4 && 1 <= bonusRoll <= 3
    ensures HitEnemy(s, i).score < s.score
    ensures !HitEnemy(s, i).gameOver
    ensures Tick(HitEnemy(s, i), time, enemyRoll, bonusRoll).gameOver <==> Crossed(HitEnemy(s, i).score)
  {
    var e := s.enemies[i];
    assert e in s.enemies;
    CatalogSigns(e);
  }

  /** In a well-formed session a bonus always raises the score; reaching the
      upper threshold ends the game only at the next frame. */
  lemma CollectBonusRaises(s: Session, i: int, time: int, enemyRoll: int, bonusRoll: int)
    requires WellFormed(s) && !s.gameOver
    requires 0 <= i < |s.bonuses|
    requires 1 <= enemyRoll <= 4 && 1 <= bonusRoll <= 3
    ensures CollectBonus(s, i).score > s.score
    ensures !CollectBonus(s, i).gameOver
    ensures Tick(CollectBonus(s, i), time, enemyRoll, bonusRoll).gameOver <==> Crossed(CollectBonus(s, i).score)
  {
    var e := s.bonuses[i];
    assert e in s.bonuses;
    CatalogSigns(e);
  }

  /** Hitting a special enemy, wherever it has moved, while the score still
      equals its value at spawn time brings the score to exactly zero, and
      the game ends at once. */
  lemma HitSpecialZeroes(s: Session, i: int)
    requires !s.gameOver
    requires 0 <= i < |s.enemies|
    requires s.enemies[i].variant == Special && s.enemies[i].points == -s.score
    ensures HitEnemy(s, i).score == 0
    ensures HitEnemy(s, i).gameOver && Crossed(HitEnemy(s, i).score)
  {
  }

  /** A special enemy a spawn rule creates is worth the negated score. */
  lemma SpawnedByWorth(s: Session, c: Category, time: int, roll: int)
    requires ValidRoll(c, roll)
    ensures SpecialsWorth(SpawnedBy(s, c, time, roll), -s.score)
  {
  }

  /** A frame keeps every live special enemy worth the negated score: the
      score does not change, pruning only removes, and a special enemy it
      spawns is worth the negated score of this frame. */
  lemma TickKeepsSpecialsPayScore(s: Session, time: int, enemyRoll: int, bonusRoll: int)
    requires 1 <= enemyRoll <= 4 && 1 <= bonusRoll <= 3
    requires SpecialsPayScore(s)
    ensures SpecialsPayScore(Tick(s, time, enemyRoll, bonusRoll))
  {
    if !s.gameOver {
      var r := Tick(s, time, enemyRoll, bonusRoll);
      var a := SpawnedBy(s, EnemyCategory, time, enemyRoll);
      var b := SpawnedBy(s, SpecialCategory, time, 0);
      SpawnedByWorth(s, EnemyCategory, time, enemyRoll);
      SpawnedByWorth(s, SpecialCategory, time, 0);
      SpecialsWorthPrune(s.enemies, a, b, -s.score);
      assert r.score == s.score;
    }
  }

  /** All three watermarks start at zero, so the first frame after time zero
      spawns one entity of every category, the special enemy included. */
  lemma FirstFrameSpawnsAll(time: int, enemyRoll: int, bonusRoll: int)
    requires time > 0
    requires 1 <= enemyRoll <= 4 && 1 <= bonusRoll <= 3
    ensures forall c :: CountIn(Tick(Init(), time, enemyRoll, bonusRoll), c) == 1
    ensures !Tick(Init(), time, enemyRoll, bonusRoll).gameOver
  {
    var s := Init();
    TickSpawnCounts(s, time, enemyRoll, bonusRoll);
    assert s.enemies == [] && s.bonuses == [];
    assert PruneAll(s) == s;
    assert forall c :: Due(s, c, time);
    assert !s.gameOver && !Crossed(s.score);
  }
}
