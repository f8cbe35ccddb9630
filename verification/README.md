# labrun game-session engine, modelled in Dafny

labrun is a side-scrolling browser game: the player runs along the ground,
enemies (coloured squares) and bonuses (coloured circles) scroll in from the
right, touching a bonus adds points and touching an enemy takes points away.
The game ends when the score reaches 1000 or falls to 0, or at once when the
player touches the black-square "special" enemy, whose value is the negated
score at the moment it was spawned.

This project models the game-session engine of `main.js`: the session state
(score 100, the game-over flag, three spawn watermarks, the enemy and bonus
groups), the per-frame `update`, the three spawners, the two contact
handlers and `endGame`. Everything is a pure function over an immutable
`Session` record.

- `entities.dfy`, module `Entities`: the entity datatype (kind, variant tag,
  points, horizontal position), the fixed catalogs and the three spawners'
  entity constructors. The `Special` variant tag stands for the
  `texture.key === 'blackSquare'` test of the contact handler.
- `registry.dfy`, module `Registry`: an entity group as a sequence in spawn
  order — pruning of off-screen entities, removal of the touched entity,
  counting per spawn category, and the leftward movement of a physics step.
- `session.dfy`, module `GameSession`: the `Session` record, `Init`, the
  spawn rules, `Tick` (the per-frame `update`), `HitEnemy`, `CollectBonus`
  and `EndGame`, with the properties of one transition.
- `engine.dfy`, module `Engine`: sessions driven by a sequence of engine
  events (frames, physics steps, contacts), with the properties of whole
  runs: the frozen end state, the preserved well-formedness and the spacing
  of spawns.

Modelling choices:

- Frame time and watermarks are integers (milliseconds).
- The random picks `Phaser.Math.Between(1, 4)` and `Phaser.Math.Between(1, 3)`
  are parameters (`enemyRoll`, `bonusRoll`) required to lie in those ranges.
- Entity positions are abstract integers. The engine's movement of every
  entity at velocity -200 is an explicit `Scroll(dx)` event that moves every
  entity `dx` to the left; it happens only while the game runs, since
  `endGame` pauses the physics.
- The contact handlers do not look at the game-over flag. That contacts stop
  after the game ends comes from the engine pausing its physics, so
  `HitEnemy` and `CollectBonus` carry it as a precondition, and the engine
  model (`Engine.Step`) delivers a contact only while the game runs and only
  for a live entity.
- The spawn test is strict (`time > next`): a frame at exactly
  `time == next` does not spawn that category.
- The score thresholds are tested only in the per-frame update, never inside
  the contact handlers: a contact that takes the score to 0 or below, or to
  1000 or above, ends the game only at the next frame, unless it was the
  special enemy (`GameSession.HitOrdinaryEnemy`,
  `GameSession.CollectBonusRaises`).
- The special enemy takes the score to exactly 0 only while the score still
  equals its value at spawn time. `GameSession.SpecialsPayScore` states this
  for every live special enemy; frames and physics steps keep it, and a
  contact with an ordinary enemy or a bonus breaks it (the special enemy then
  still ends the game, by the variant rule alone).
- All three watermarks start at 0, so the first frame spawns an enemy, a
  bonus and a special enemy at once (`GameSession.FirstFrameSpawnsAll`).

## Model

| member | source | states |
|---|---|---|
| Entities.NewEnemy | main.js:115-138 | an ordinary enemy for roll 1..4 is a well-formed catalog enemy entering at x = 800 whose points are one of -5, -10, -50 |
| Entities.NewBonus | main.js:140-159 | a bonus for roll 1..3 is a well-formed catalog bonus entering at x = 800 whose points are one of 10, 30, 50 |
| Entities.NewSpecialEnemy | main.js:161-166 | the special enemy enters at x = 800 and its points added to the spawn-time score give exactly 0 |
| Entities.EnemyCatalogCovered | main.js:116-135 | a value is an ordinary-enemy value iff some roll in 1..4 produces it |
| Entities.BonusCatalogCovered | main.js:141-156 | a value is a bonus value iff some roll in 1..3 produces it |
| Entities.CatalogSigns | main.js:115-159 | well-formed ordinary enemies have negative points and well-formed bonuses positive points |
| Registry.Prune | main.js:96-106 | pruning keeps an entity iff it is not left of the edge, with its full multiplicity, and removes every off-screen one |
| Registry.PruneIdempotent | main.js:96-106 | pruning twice is the same as pruning once |
| Registry.PruneKeepsOrder | main.js:96-106 | pruning keeps the survivors in their order: what it keeps from before any position precedes what it keeps from after it |
| Registry.PruneConcat | main.js:96-106 | pruning decides entity by entity: pruning a concatenation is the concatenation of the pruned parts |
| Registry.Remove | main.js:170 | destroying the touched entity removes exactly one copy of it and keeps all others in order |
| Registry.Advance | main.js:136 | a physics step moves every entity left by the step and keeps its kind, variant and points |
| GameSession.Init | main.js:28-32 | a new session has score 100, is running, has all watermarks at 0, no entities, and is well formed |
| GameSession.EndGame | main.js:181-182 | ending the game sets the flag and changes nothing else (score, watermarks, groups) |
| GameSession.Spawn | main.js:115-166 | a spawn appends exactly the entity its spawner creates (for the special enemy, one worth the negated current score) to the right group, leaves the other group, score, flag and watermarks, adds one to that category's count and preserves well-formedness |
| GameSession.SpawnedBy | main.js:81-94 | the entities a spawn rule adds: one of its category at the spawn position iff the frame time is past the watermark, none otherwise |
| GameSession.SpawnRule | main.js:81-94 | a spawn rule moves its watermark to time + interval and spawns exactly one entity of its category iff time is past the watermark; other watermarks, score and flag are unchanged |
| GameSession.SpawnPhase | main.js:81-94 | the three rules together: every category's watermark and entity count advance iff that category is due |
| GameSession.PruneAll | main.js:96-106 | both groups keep exactly their on-screen entities, each with its full multiplicity, and lose every off-screen one; score, flag and watermarks are unchanged |
| GameSession.Tick | main.js:65-113 | after game over a frame changes nothing; otherwise it keeps the score, sets game over iff score >= 1000 or score <= 0, and leaves exactly the pruned old groups followed by the entities of the due spawn rules (enemy, then special enemy; bonus), so no off-screen entity remains and every on-screen one stays; preserves well-formedness |
| GameSession.RunningFrame | main.js:81-112 | a frame of a running game keeps the score, ends the game iff a threshold is crossed, and leaves the pruned old groups followed by the newly spawned entities |
| GameSession.TickWatermarks | main.js:81-94 | for each category a running frame sets the watermark to time + 2000/10000/60000 iff time is strictly past it, else leaves it |
| GameSession.TickSpawnCounts | main.js:81-106 | for each category a running frame adds exactly one entity iff time is past the watermark, on top of the pruned groups |
| GameSession.HitEnemy | main.js:168-174 | an enemy contact adds its points to the score, removes exactly that enemy, leaves bonuses and watermarks, and sets game over iff the enemy is the special one |
| GameSession.CollectBonus | main.js:176-179 | a bonus contact adds its points, removes exactly that bonus, and changes neither the flag, the enemies nor the watermarks |
| GameSession.HitOrdinaryEnemy | main.js:168-174 | an ordinary enemy lowers the score and does not end the game even below 0; the next frame ends it iff a threshold is crossed |
| GameSession.CollectBonusRaises | main.js:176-179 | a bonus raises the score and does not end the game even at 1000; the next frame ends it iff a threshold is crossed |
| GameSession.HitSpecialZeroes | main.js:161-172 | hitting a special enemy at any position while the score equals its spawn-time value (its points are the negated score) leaves exactly 0 and ends the game |
| GameSession.TickKeepsSpecialsPayScore | main.js:91-106 | a frame keeps every live special enemy worth the negated score, including one it spawns |
| GameSession.FirstFrameSpawnsAll | main.js:30-32 | the first frame after time 0 spawns one entity of each category and does not end the game |
| Engine.Step | main.js:61-62 | an engine event after game over changes nothing, frames and physics steps never change the score, watermarks never decrease, well-formedness is preserved |
| Engine.RunFrozen | main.js:65-68 | once the game is over, any sequence of events leaves the whole session unchanged |
| Engine.RunKeepsGameOver | main.js:181-182 | once set at some point of a run, the game-over flag holds at its end |
| Engine.RunWellFormed | main.js:115-166 | every run from a well-formed session ends in a well-formed one |
| Engine.SpawnMovesWatermark | main.js:81-94 | a spawning frame moves the category's watermark to the frame time plus its interval |
| Engine.EmissionsAfterWatermark | main.js:81-94 | every spawn of a category along a run happens strictly after that category's starting watermark |
| Engine.EmissionsSeparated | main.js:81-94 | any two spawns of a category along a run are more than its interval apart |
| Engine.FrameSpawnsOnce | main.js:81-94 | a running frame spawns a category once iff it is due, and the group count grows by exactly that |
| Engine.ScrolledOffIsPruned | main.js:96-106 | an enemy or bonus a physics step carries past the left edge is still registered in its group, and the next running frame removes it from that group |
| Engine.QuietRunKeepsSpecialsPayScore | main.js:65-166 | a run of frames and physics steps keeps the score and keeps every live special enemy worth the negated score |
| Engine.QuietRunThenHitSpecial | main.js:161-172 | after any run of frames (which may spawn special enemies) and physics steps from a session whose special enemies pay the score, hitting any special enemy leaves score 0 and ends the game, with the lower threshold also holding |

## Left out

- Phaser configuration, asset loading, sprite creation, textures and scaling: calls into the game engine with no effect on the session state; only the variant tag is kept.
- The player: jump input, gravity, the ground scroll and the player texture switch are input handling and physics simulation outside the session engine.
- Collision detection itself: the engine decides when sprites touch; the model takes contacts as events naming a live entity.
- Entity movement: the engine's floating-point physics at velocity -200 is abstracted to an integer displacement per `Scroll` event; the vertical spawn position (520) is not modelled.
- Random numbers: `Phaser.Math.Between` is replaced by roll parameters in its ranges; no distribution is modelled.
- Score text and the final message, and `physics.pause()`: output and an engine side effect; the pause is reflected only in which events the engine delivers after game over.
- Registry.Prune: models the pruning pass as a filter over all entities; whether the engine's group iteration can skip a neighbour when an entity is destroyed during iteration is engine behaviour that this model does not cover.
- Time is an integer number of milliseconds, while the engine passes a floating-point time.
