/**
 The entities of a game session: enemies the player must avoid and bonuses the
 player collects. Every entity carries a variant tag from a fixed catalog, a
 signed point value and an abstract horizontal position. The special enemy
 (drawn as a black square in the game) is the one variant whose point value
 is not fixed: it is computed from the score when it is spawned.
 */
module Entities {

  /** Horizontal coordinate at which every entity enters the playfield. */
  const SpawnX: int := 800

  datatype Kind = Enemy | Bonus

  /** One tag per texture the game spawns entities with. */
  datatype Variant =
    | GreenSquare | BlueSquare | RedSquare | YellowSquare  // ordinary enemies
    | Special                                              // the black square
    | RedCircle | BlueCircle | BlackCircle                 // bonuses

  datatype Entity = Entity(kind: Kind, variant: Variant, points: int, x: int)

  /** The three spawn categories; each has its own watermark and interval. */
  datatype Category = EnemyCategory | BonusCategory | SpecialCategory

  function KindOf(v: Variant): Kind {
    match v
    case RedCircle | BlueCircle | BlackCircle => Bonus
    case _ => Enemy
  }

  function CategoryOf(e: Entity): Category {
    if e.kind == Bonus then BonusCategory
    else if e.variant == Special then SpecialCategory
    else EnemyCategory
  }

  /** The fixed point table of the catalog variants, as a reference for the spawners. */
  function CatalogPoints(v: Variant): int
    requires v != Special
  {
    match v
    case GreenSquare => -5
    case BlueSquare => -10
    case RedSquare => -10
    case YellowSquare => -50
    case RedCircle => 10
    case BlueCircle => 30
    case BlackCircle => 50
  }

  /** An entity is well formed when its kind agrees with its variant and a
      catalog variant carries exactly its catalog value. */
  predicate WellFormedEntity(e: Entity) {
    && e.kind == KindOf(e.variant)
    && (e.variant != Special ==> e.points == CatalogPoints(e.variant))
  }

  /** The enemy created for the die roll `roll`, which the game draws
      uniformly from 1..4. */
  function NewEnemy(roll: int): (e: Entity)
    requires 1 <= roll <= 4
    ensures WellFormedEntity(e)
    ensures CategoryOf(e) == EnemyCategory && e.x == SpawnX
    ensures e.points in {-5, -10, -50}
  {
    if roll == 1 then Entity(Enemy, GreenSquare, -5, SpawnX)
    else if roll == 2 then Entity(Enemy, BlueSquare, -10, SpawnX)
    else if roll == 3 then Entity(Enemy, RedSquare, -10, SpawnX)
    else Entity(Enemy, YellowSquare, -50, SpawnX)
  }

  /** The bonus created for the die roll `roll`, drawn uniformly from 1..3. */
  function NewBonus(roll: int): (e: Entity)
    requires 1 <= roll <= 3
    ensures WellFormedEntity(e)
    ensures CategoryOf(e) == BonusCategory && e.x == SpawnX
    ensures e.points in {10, 30, 50}
  {
    if roll == 1 then Entity(Bonus, RedCircle, 10, SpawnX)
    else if roll == 2 then Entity(Bonus, BlueCircle, 30, SpawnX)
    else Entity(Bonus, BlackCircle, 50, SpawnX)
  }

  /** The special enemy spawned while the score is `score`: hitting it takes
      away exactly that score. */
  function NewSpecialEnemy(score: int): (e: Entity)
    ensures WellFormedEntity(e)
    ensures CategoryOf(e) == SpecialCategory && e.x == SpawnX
    ensures score + e.points == 0
  {
    Entity(Enemy, Special, -score, SpawnX)
  }

  /** Ordinary enemies always cost points and bonuses always award them. */
  lemma CatalogSigns(e: Entity)
    requires WellFormedEntity(e)
    ensures CategoryOf(e) == EnemyCategory ==> e.points < 0
    ensures CategoryOf(e) == BonusCategory ==> e.points > 0
  {
  }

  /** Every point value of the enemy catalog is produced by some roll, and
      every roll yields one of them. */
  lemma EnemyCatalogCovered(p: int)
    ensures p in {-5, -10, -50} <==> exists roll :: 1 <= roll <= 4 && NewEnemy(roll).points == p
  {
    if p == -5 { assert NewEnemy(1).points == p; }
    else if p == -10 { assert NewEnemy(2).points == p; }
    else if p == -50 { assert NewEnemy(4).points == p; }
  }

  /** Every point value of the bonus catalog is produced by some roll, and
      every roll yields one of them. */
  lemma BonusCatalogCovered(p: int)
    ensures p in {10, 30, 50} <==> exists roll :: 1 <= roll <= 3 && NewBonus(roll).points == p
  {
    if p == 10 { assert NewBonus(1).points == p; }
    else if p == 30 { assert NewBonus(2).points == p; }
    else if p == 50 { assert NewBonus(3).points == p; }
  }
}
