# Space Invaders game-state reducer

A model of the pure core of a browser Space Invaders game (`spaceinvaders.ts`).
The game is a fold of events over an immutable `State` snapshot:

- a `Step` moves the player sideways, wrapping round the canvas;
- a `Shoot` fires a player shot, at most two on screen;
- a timer tick (`gameTick`) expires and advances the shots, records the
  swarm's left/right boundary aliens and bottom aliens, moves the swarm (a
  sideways step, or a 2.5 drop that reverses direction), lets the swarm fire
  (at most one enemy shot on screen) and then resolves collisions
  (`handleCollisions`): aliens hit by player shots die and score 10 each,
  enemy shots on the player cost a life, shields record the exact positions of
  absorbed enemy shots, and a shield with an alien's corner inside it is
  meant to disappear (as written, one that absorbs a shot in the same tick
  stays; see Findings);
- around all three, the round reset: when the grid was empty before the event,
  a fresh 3 x 9 grid is placed and a one-event `resetAliens` flag is raised.

The files follow the program's structure:

- `options.dfy`, `lists.dfy`: `Option`, and the array methods the game uses
  (`filter`, `map`, `flat`, `reverse`, `cartesianProduct`) with their
  membership laws.
- `entities.dfy`: `Body`, `Shield`, `State`, the events, the sizes read from
  the page (`Dims`), the constants, alien-grid creation and counting, and the
  initial state.
- `geometry.dfy`: the collision test, wrap-around motion, `moveBody`, `moveShot`.
- `swarm.dfy`: boundary aliens, bottom aliens, the move decision, the swarm move.
- `projectiles.dfy`: player and enemy shot creation, the closest bottom alien,
  expiry.
- `shields.dfy`: the shield hit memory and de-duplication by `bodyId`.
- `collisions.dfy`: `handleCollisions`, with the shield snapshot as written
  and as corrected (see Findings).
- `reducer.dfy`: `gameTick`, `reduceState`, a run over a sequence of events,
  and the invariant every reachable snapshot keeps.

Modelling choices:

- Coordinates are `real`: the game only uses 2.5 and halvings beyond integers.
- The sizes read from the page's attributes are a `Dims` parameter.
- The random fire roll is the `alienFires` field of the `Tick` event.
- The `eval` comparison in `findBoundary` is a `Less`/`Greater` selector.
- JavaScript compares bodies and shields by object identity (`includes`); the
  model compares values. Every list so searched but one is built from the same
  objects it is compared with, and fresh aliens have distinct ids
  (`Entities.AlienIdsDistinct`), so the answers agree. The exception is
  `filteredShields` (spaceinvaders.ts:601), which compares fresh shield objects
  with the covered ones and so never matches; the model writes that test out
  as written (`Collisions.NextShieldsAsWritten`) and as intended
  (`Collisions.NextShields`, by `bodyId`).
- The grid is `seq<seq<Option<Body>>>`. `getBottomAlien` reads rows 0 to 2, so
  a tick requires at least three rows; a column past the end of a row reads
  as empty, as `undefined` does.

Where the code and its design notes differ, the model follows the code, with
one exception: the collision pass used by the tick and the reducer drops
covered shields by `bodyId` (the corrected `filteredShields` of the Findings
table), not by object identity. Elsewhere:

- After a drop tick the direction held in the state is already reversed, so
  the sideways step after a drop goes the new way.
- Two absorbed hits on one shield in the same tick are not merged: each makes
  its own copy and the de-duplication keeps one.
- The game is over when lives are exactly 0.
- The below-the-screen test also counts aliens destroyed in the same tick.
- The enemy shot aims from the bottom aliens recorded by the previous tick.
- Of two bottom aliens equally close to the player the enemy shot aims at the
  one later in the list (the right-hand column), because `detClosedAlien`
  keeps its current closest only when it is strictly closer; the design notes
  give the tie to the first alien scanned.

## Model

| member | source | states |
|---|---|---|
| `Lists.Map` | spaceinvaders.ts:295-296 | the `map` calls: the result is as long as the input and each element is the image of the one at the same index |
| `Lists.Reverse` | spaceinvaders.ts:597 | `.reverse()`, here and at line 638: the same length, element i being element n-1-i of the input |
| `Lists.Product` | spaceinvaders.ts:524-526 | the pairs `(x, o)` of the product are exactly those with `o` from the outer list and `x` from the inner one |
| `Lists.PairWith` | spaceinvaders.ts:524-526 | `cartesianProduct`: one pair per inner element, the pairs `(x, o')` being exactly those with `x` from the inner list and `o'` the given outer element |
| `Lists.Flatten` | spaceinvaders.ts:539 | `flat()` holds exactly the elements of the inner lists |
| `Lists.Filter` | spaceinvaders.ts:564 | `filter` keeps exactly the elements satisfying the test, never more than the input |
| `Lists.Firsts` | spaceinvaders.ts:547 | the first components are exactly those of some pair |
| `Lists.Seconds` | spaceinvaders.ts:548 | the second components are exactly those of some pair |
| `Lists.ReverseMembership` | spaceinvaders.ts:597 | reversal keeps exactly the same elements |
| `Entities.CreateShield` | spaceinvaders.ts:49-51 | a new shield wraps the body with no recorded hits |
| `Entities.IncrementId` | spaceinvaders.ts:253-255 | the id sequence goes up by one and nothing else changes |
| `Entities.CreateBody` | spaceinvaders.ts:53-66 | a body with the given position and size, taking the state's next id, or the caller's id before a state exists; no contract of its own, its uses are stated by `Projectiles.CreatePShotBody`, `Projectiles.CreateEShotBody` and `Entities.CreateAliens` |
| `Entities.NonNull` | spaceinvaders.ts:538 | the living aliens of a row are exactly its non-empty cells, and there are none exactly when every cell is empty |
| `Entities.GetAlienCount` | spaceinvaders.ts:645-647 | the count is the number of non-empty cells of the flattened grid (the count `nextRound` tests), never negative, and 0 exactly when every cell is empty |
| `Entities.CreateAlienCoords` | spaceinvaders.ts:156-158 | columns `xInc` to 8 are appended at `(40 + 60c, 40 + 60r)`, keeping the list built so far |
| `Entities.CreateAliens` | spaceinvaders.ts:141-143 | the fresh grid is 3 x 9 with the alien of column c, row r at `(40 + 60c, 40 + 60r)` |
| `Entities.AlienIdsDistinct` | spaceinvaders.ts:141-143 | the aliens of a fresh grid have pairwise distinct ids |
| `Entities.CreateAliensCount` | spaceinvaders.ts:141-143 | a fresh grid holds 27 aliens |
| `Entities.InitState` | spaceinvaders.ts:100-118 | the initial snapshot; no contract of its own, `Reducer.InitStateValid` states that it satisfies the invariant |
| `Entities.NonNullAppend` | spaceinvaders.ts:645-647 | counting the living aliens of two lists of cells together is counting them separately |
| `Geometry.CollisionCheckSymmetric` | spaceinvaders.ts:696-706 | the collision test does not depend on the order of the two bodies |
| `Geometry.SameCornerNoCollision` | spaceinvaders.ts:708-717 | two bodies with the same top-left point never collide, the bounds being strict |
| `Geometry.CollisionImpliesIntersection` | spaceinvaders.ts:696-717 | a detected collision means the two boxes overlap |
| `Geometry.CrossingBarsUndetected` | spaceinvaders.ts:696-717 | the converse fails: two crossing bars overlap with neither corner inside the other |
| `Geometry.CollisionFormula` | spaceinvaders.ts:708-717 | a point strictly inside a rectangle; no contract of its own, described by the lemmas on `Geometry.CollisionCheck` |
| `Geometry.CollisionCheck` | spaceinvaders.ts:696-706 | either body's corner strictly inside the other; no contract of its own, described by `Geometry.CollisionCheckSymmetric`, `Geometry.SameCornerNoCollision`, `Geometry.CollisionImpliesIntersection` and `Geometry.CrossingBarsUndetected` |
| `Geometry.LatChange` | spaceinvaders.ts:398-407 | the sideways move with wrap-around; no contract of its own, described by `Geometry.LatChangeStaysInBand` and `Geometry.LatChangeWraps` |
| `Geometry.LatChangeStaysInBand` | spaceinvaders.ts:398-407 | a step no wider than the band keeps a body within one player width of the canvas, and a step staying strictly inside is applied unchanged |
| `Geometry.LatChangeWraps` | spaceinvaders.ts:398-407 | leaving on the right translates by the band's width; leaving on the left reflects the old position into the canvas |
| `Geometry.MoveBody` | spaceinvaders.ts:172-189 | an empty cell stays empty; a step puts the body at `latChange` of its sideways part and moves it down by its vertical part, keeping id and size; any other event moves it one unit down |
| `Geometry.MoveShot` | spaceinvaders.ts:409-411 | only the vertical position changes, by exactly `yInc` upwards |
| `Swarm.FindBoundary` | spaceinvaders.ts:379-396 | the result is empty exactly when every candidate is; otherwise it is a candidate and no candidate lies beyond it |
| `Swarm.ResetAlienBoundaries` | spaceinvaders.ts:366-377 | the left-most alien has the least x and the right-most the greatest, both empty exactly when the grid is; nothing else changes |
| `Swarm.AlienDirection` | spaceinvaders.ts:341-352 | the move is a 2.5 drop or a sideways step in the current direction; which one is stated by `Reducer.TickMoveChoice` |
| `Swarm.GetBottomAlien` | spaceinvaders.ts:358-364 | the last non-empty cell of the scanned rows of the column, or the carried alien when they are all empty |
| `Swarm.ResetBottomAliens` | spaceinvaders.ts:354-356 | one entry per remaining column, each that column's bottom alien, after the list built so far |
| `Swarm.BottomAliensOfGrid` | spaceinvaders.ts:354-364 | nine entries; entry c is the alien of the greatest row in column c, empty when the column is |
| `Swarm.MoveAliens` | spaceinvaders.ts:314 | the grid keeps its shape and every cell takes the same step |
| `Swarm.MoveAliensUniform` | spaceinvaders.ts:314 | an alien that does not wrap moves by exactly the move vector |
| `Projectiles.CreatePShotBody` | spaceinvaders.ts:145-154 | the shot takes the next id, is 2 x 15, centred on the player and 5 above it |
| `Projectiles.DetClosedAlien` | spaceinvaders.ts:257-276 | empty exactly when every candidate is; otherwise a candidate at least as close to the player as every other, the later one on a tie |
| `Projectiles.CreateEShotBody` | spaceinvaders.ts:239-251 | a shot exists exactly when the roll fires and some bottom alien exists; it takes the next id, is 3 x 35, centred under a bottom alien closest to the player, and of several equally close the last in the list |
| `Projectiles.LastClosestUnique` | spaceinvaders.ts:262-264 | at most one bottom alien is both closest and strictly closer than every later one, so the aim is fixed, ties included |
| `Projectiles.PShotExpired` | spaceinvaders.ts:288 | the expiry test for player shots; no contract of its own, used by `Reducer.TickPlayerShots` |
| `Projectiles.EShotExpired` | spaceinvaders.ts:289 | the expiry test for enemy shots; no contract of its own, used by `Reducer.TickEnemyShots` and `Reducer.TickEnemyShotsExpiredAndIds` |
| `Shields.CheckPrevShieldHit` | spaceinvaders.ts:662-670 | true exactly when the shot's position is among the shield's recorded hits |
| `Shields.AddShotCoord` | spaceinvaders.ts:679-681 | the same body, one more hit, earlier hits kept, and the shot now counts as seen |
| `Shields.AddShotCoordKeepsHitsDistinct` | spaceinvaders.ts:557 | absorbing only unseen positions keeps every recorded position distinct |
| `Shields.FilterShieldList` | spaceinvaders.ts:672-677 | the result comes from the input, has unique ids, and keeps the first shield of every id |
| `Shields.FilterShieldListIdempotent` | spaceinvaders.ts:672-677 | filtering twice is filtering once |
| `Shields.KeepFirstByIdUnique` | spaceinvaders.ts:672-677 | a list with unique ids passes unchanged |
| `Collisions.CheckMembership` | spaceinvaders.ts:692-694 | `checkMembership`; no contract of its own, its effect on the grid is stated by `Collisions.AliveAliensCells` |
| `Collisions.LivingAliens` | spaceinvaders.ts:538-539 | the flattened living aliens are exactly the aliens of some row |
| `Collisions.ExceededScreen` | spaceinvaders.ts:617 | true exactly when some living alien is below the canvas |
| `Collisions.CollidedAliensMembership` | spaceinvaders.ts:545-547 | the hit aliens are exactly the living aliens overlapping a player shot |
| `Collisions.AliveAliensCells` | spaceinvaders.ts:563 | the grid keeps its shape and a cell becomes empty exactly when its alien overlaps a player shot |
| `Collisions.CountAfterRemoval` | spaceinvaders.ts:645-647 | emptying cells lowers the count by the number of cells emptied |
| `Collisions.HandleCollisionsScore` | spaceinvaders.ts:613 | the score rises by exactly 10 per alien destroyed, so never falls |
| `Collisions.RemainingPShotsMembership` | spaceinvaders.ts:564 | a player shot survives exactly when it hits neither an alien nor a shield |
| `Collisions.RemainingEShotsMembership` | spaceinvaders.ts:565 | an enemy shot survives exactly when it hits neither the player nor a shield that absorbs it |
| `Collisions.HandleCollisionsLives` | spaceinvaders.ts:640 | lives fall by exactly the number of enemy shots on the player, at most the number of enemy shots, and fall exactly when one hits |
| `Collisions.HandleCollisionsGameOver` | spaceinvaders.ts:615-641 | the game is over exactly when some alien is below the canvas or no life is left |
| `Collisions.FullyCoveredShieldsMembership` | spaceinvaders.ts:552 | the covered shields are exactly the shields with a living alien's corner strictly inside |
| `Collisions.ShieldSubmerge` | spaceinvaders.ts:537 | an alien's corner strictly inside a shield; no contract of its own, `Collisions.FullyCoveredShieldsMembership` states the covered shields through it |
| `Collisions.MarkedShieldsMembership` | spaceinvaders.ts:597 | the marked shields are exactly the absorbing shields with the absorbed shot's position recorded |
| `Collisions.NextShieldsSources` | spaceinvaders.ts:596-638 | the next shields have unique ids; each is an uncovered shield carried over or an absorbing shield, not covered, with the shot recorded |
| `Collisions.NextShieldsHitsDistinct` | spaceinvaders.ts:596-638 | the next shield list has unique ids and no shield ever records the same position twice |
| `Collisions.NextShields` | spaceinvaders.ts:596-638 | the next shield list with covered shields dropped by `bodyId`; no contract of its own, described by `Collisions.NextShieldsSources`, `Collisions.NextShieldsHitsDistinct`, `Collisions.CoveredShieldsDropped`, `Collisions.AbsorbedShotRecorded` and `Collisions.UntouchedShieldKept` |
| `Collisions.NextShieldsAsWritten` | spaceinvaders.ts:596-638 | the next shield list as written; no contract of its own, described by `Collisions.AsWrittenKeepsCoveredStruck` |
| `Collisions.HandleCollisions` | spaceinvaders.ts:528-643 | the collision pass; no contract of its own, described by `Collisions.HandleCollisionsScore`, `Collisions.HandleCollisionsLives`, `Collisions.HandleCollisionsGameOver`, `Collisions.RemainingPShotsMembership`, `Collisions.RemainingEShotsMembership`, `Collisions.AliveAliensCells` and the shield lemmas |
| `Collisions.CoveredShieldsDropped` | spaceinvaders.ts:599-605 | no shield with an alien deep inside it survives the tick |
| `Collisions.AbsorbedShotRecorded` | spaceinvaders.ts:596-638 | with one enemy shot, an uncovered shield that absorbs it survives with its position recorded |
| `Collisions.UntouchedShieldKept` | spaceinvaders.ts:605-638 | an uncovered shield that absorbs no shot is carried over unchanged |
| `Collisions.AsWrittenKeepsCoveredStruck` | spaceinvaders.ts:601 | as written, a covered shield that absorbs a shot in the same tick survives it |
| `Collisions.FilteredShieldsAsWrittenKeepsCovered` | spaceinvaders.ts:601 | a concrete snapshot where the shield is covered and struck: kept as written, dropped as corrected |
| `Reducer.Run` | spaceinvaders.ts:719-731 | folding events over a valid snapshot keeps it valid |
| `Reducer.NextRoundIff` | spaceinvaders.ts:203-204 | a new round starts exactly when every cell of the grid is empty |
| `Reducer.InitStateValid` | spaceinvaders.ts:100-118 | the initial snapshot satisfies the invariant |
| `Reducer.TickMove` | spaceinvaders.ts:310 | the swarm's move for the tick; no contract of its own, described by `Reducer.TickMoveChoice` |
| `Reducer.AdvanceTick` | spaceinvaders.ts:284-337 | the snapshot handed to the collision pass; no contract of its own, described by `Reducer.AdvanceTickShape` and the tick lemmas below |
| `Reducer.GameTick` | spaceinvaders.ts:278-339 | `gameTick`; no contract of its own, described by `Reducer.GameTickValid`, `Reducer.GameTickCounters`, `Reducer.TickPlayerShots`, `Reducer.TickEnemyShots`, `Reducer.TickMovesSwarm` and `Reducer.TickBottomAliens` |
| `Reducer.ApplyEvent` | spaceinvaders.ts:208-225 | the snapshot after the event itself; no contract of its own, described by `Reducer.StepMovesPlayer`, `Reducer.ShootEffect`, `Reducer.ApplyEventValid`, `Reducer.ApplyEventKeepsFlag` and `Reducer.ApplyEventCounters` |
| `Reducer.ReduceState` | spaceinvaders.ts:191-237 | `reduceState`; no contract of its own, described by `Reducer.ReducePreservesValid`, `Reducer.RoundReset` and `Reducer.Monotone` |
| `Reducer.AdvanceTickShape` | spaceinvaders.ts:284-338 | before collisions the grid stays 3 x 9, no player shot is added, at most one enemy shot is active, the direction stays a unit step, and bottom aliens have nine entries |
| `Reducer.HandleCollisionsValid` | spaceinvaders.ts:528-643 | resolving collisions keeps the invariant |
| `Reducer.GameTickValid` | spaceinvaders.ts:278-339 | a tick keeps the invariant |
| `Reducer.ApplyEventValid` | spaceinvaders.ts:208-225 | every event keeps the invariant |
| `Reducer.ReducePreservesValid` | spaceinvaders.ts:191-237 | the reducer keeps the invariant: 3 x 9 grid, at most 2 player and 1 enemy shots, unique shield ids, distinct hits, unit direction, non-negative score, nine bottom aliens |
| `Reducer.RunFromInitValid` | spaceinvaders.ts:719-731 | every snapshot reached from the initial one satisfies the invariant |
| `Reducer.StepMovesPlayer` | spaceinvaders.ts:209-211 | a step moves only the player: to `latChange` of its sideways part, which stays within the wrap-around band, and down by its vertical part |
| `Reducer.ShootEffect` | spaceinvaders.ts:215-223 | below the cap one 2 x 15 shot with the next id is appended above the player's centre and nothing else changes; at the cap nothing changes |
| `Reducer.AdvancePShotsMembership` | spaceinvaders.ts:288-295 | a player shot is advanced exactly when it has not left the top of the screen, and is then raised by 5; no shot is added |
| `Reducer.AdvanceEShotsMembership` | spaceinvaders.ts:289-296 | an enemy shot is advanced exactly when it has not gone below the canvas, and is then lowered by 5; no shot is added |
| `Reducer.TickPlayerShots` | spaceinvaders.ts:288-295 | a tick adds no player shot; survivors are unexpired shots raised by 5; expired ones are exactly those above the screen |
| `Reducer.TickEnemyShots` | spaceinvaders.ts:289-332 | with a shot active the others are its unexpired shots lowered by 5; otherwise at most the new shot, and none when none was generated |
| `Reducer.TickEnemyShotsExpiredAndIds` | spaceinvaders.ts:289-325 | expired enemy shots are exactly those below the canvas; the id sequence moves on exactly when a shot is generated, kept or not |
| `Reducer.AlienShotAim` | spaceinvaders.ts:318 | the swarm fires exactly when bottom aliens are recorded, one exists and the roll fires; the shot takes the current id, is 3 x 35 and sits under a bottom alien closest to the player, the last such on a tie |
| `Reducer.TickEnemyShotAim` | spaceinvaders.ts:318-332 | a shot added to an empty sky takes the old id, is 3 x 35 and sits under a previous-tick bottom alien closest to the player, the last such on a tie |
| `Reducer.TickMoveChoice` | spaceinvaders.ts:302-310 | the swarm drops by 2.5 exactly when it did not drop last tick and some alien is at x <= 0 or x >= 560; otherwise it steps sideways in the current direction |
| `Reducer.SwarmHandshake` | spaceinvaders.ts:310-337 | a drop negates the direction and raises the drop flag; the tick after a drop is a sideways step, so the swarm never drops twice in a row |
| `Reducer.TickMovesSwarm` | spaceinvaders.ts:314-334 | every alien moves by the tick's move, then only aliens hit by a player shot disappear |
| `Reducer.TickBottomAliens` | spaceinvaders.ts:306-335 | the recorded bottom aliens are the nine bottom aliens of the grid before the move |
| `Reducer.RoundReset` | spaceinvaders.ts:203-236 | the flag is raised exactly when the grid was empty, which places a fresh 27-alien grid; every other field comes from the processed event |
| `Reducer.RoundWrapValid` | spaceinvaders.ts:227-236 | the round bookkeeping keeps the invariant, a fresh grid included |
| `Reducer.RoundWrapReset` | spaceinvaders.ts:203-236 | given an event that left the flag alone, the flag is raised exactly when the previous grid was empty, which places a fresh 27-alien grid, and otherwise the event's grid is kept |
| `Reducer.RoundWrapFrame` | spaceinvaders.ts:227-236 | the round bookkeeping changes only the grid and the reset flag |
| `Reducer.ApplyEventKeepsFlag` | spaceinvaders.ts:208-225 | the events themselves never touch the reset flag |
| `Reducer.Monotone` | spaceinvaders.ts:191-237 | the score and id sequence never fall and lives never rise |
| `Reducer.ApplyEventCounters` | spaceinvaders.ts:208-225 | no event lowers the score or the id sequence or adds a life |
| `Reducer.GameTickCounters` | spaceinvaders.ts:284-338 | a tick never lowers the score or the id sequence and never adds a life |

## Left out

- DOM rendering and visual sync are left out: `updateScreen`, `createElement`,
  `removeElement`, `updateElement`, `altElementColour`, `displayText`,
  `setAliens`, `gameOverRoutine`, and the `forEach` calls inside
  `handleCollisions` and `reduceState`. They are output only and do not change
  the returned state.
- Player-shot against enemy-shot overlap only removes page elements. The state
  lists keep both shots, and so does the model.
- The partly-covered shield colouring (`pCollidedAliensAndShields`) is display
  only.
- RxJS plumbing (`observeKey`, `interval`, `merge`, `scan`, `subscribe`) is
  left out. A run is a fold over a sequence of events (`Reducer.Run`). Ending
  the game by unsubscribing is outside the reducer, so the model has no event
  rejection after game over.
- `Math.random` is left out; the fire roll is an input.
- The sizes read from the page are a parameter, not a reading of it.
- JavaScript number semantics are left out. Coordinates are exact reals, with
  no floating-point rounding, and the alien id built by string concatenation
  is written as decimal digit concatenation on non-negative integers.
- Collisions.HandleCollisions: filters covered marked shields by `bodyId`
  (`Collisions.NextShields`) rather than by object identity, so
  `Reducer.GameTick`, `Reducer.ReduceState` and `Reducer.Run` differ from the
  source exactly when a shield with an alien's corner inside it absorbs an
  enemy shot in the same tick: the model drops that shield and the source
  keeps it with the hit recorded (`Collisions.AsWrittenKeepsCoveredStruck`).
- Reducer.Run: states only that the invariant is kept, not the snapshots
  themselves, which are those of `ReduceState` applied in turn.
- Collisions.AbsorbedShotRecorded: states the outcome only when at most one
  enemy shot is active, as in every reachable snapshot. With several shots on
  one shield in a tick, the source keeps one copy and the model does the same,
  but no lemma describes which copy.

## Findings

| source | as written | input that shows it | evidently intended | confidence | as-written member | corrected member |
|---|---|---|---|---|---|---|
| spaceinvaders.ts:601 | `filteredShields` drops a marked shield only if the list of covered shields `includes` it. A marked shield is a new object made by `addShotCoord`, so it never matches and is never dropped. | A tick where an alien's corner is deep inside shield 1 at (50, 425) and the one enemy shot strikes that shield at (70, 440): the shield survives, carrying the hit. | A covered shield is removed even when it absorbs a shot in the same tick, as `availShields` does for untouched ones (filter by `bodyId`). | high, not executed | `Collisions.AsWrittenKeepsCoveredStruck` | `Collisions.CoveredShieldsDropped` |
