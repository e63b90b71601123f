# Rats: a verified model of the game logic and the character video layer

Rats is a grid-based arcade game. The player moves a 2×2 block through a
toroidal maze, fires bullets in eight directions, and fights rats, brats
("baby rats") and rat factories. Every entity is a small state machine.
Each is gated by a timer and runs through the life cycle Alive → Exploding1
→ Exploding2 → Exploding3 → Dead. The screen is a grid of characters. Each
character is drawn from a font texture that the `video` crate rasterises
from 1-bit glyph bitmaps.

This project models that core in Dafny:

- **The grid.** Wrap-around `inc`/`dec`; neighbour steps and multi-step
  moves; the bitmask `advance`; torus distance; nearest direction.
- **Directions and entities.** The direction bit masks with `stop_dir` and
  the cancelling of opposing pairs. The per-entity update functions of the
  player, bullet, brat and factory. Their `hit`/`explode` footprints.
- **The two game-context revisions.**
  - The frame-counting one: the two-pass update with swap-remove, firing
    and factory placement.
  - The older one: a bullet list with swap-remove inside the loop.
  - The firing code of the newest revision.
- **The video layer.** The character `Buffer`. The glyph rasterisers that
  turn bitmaps into RGB24 textures at scales 1 to 4, plus the
  green-phosphor surface variant. The `InitOptions` builder and `init`'s
  scale, row and column arithmetic.

The repository holds files from several revisions. Each is modelled in its
own terms:
- `OldEntities` (entities.rs) has a three-valued life cycle; `EntityTypes`
  (entities/*.rs) has the five-valued one.
- `OldGameContexts` models game_context.rs; `GameContexts` models
  game_context/mod.rs and update.rs.
- `GameContexts.GameContext` holds the `OldEntities` list that mod.rs and
  update.rs use. Its `GenerateFactories` (game_context/factories.rs)
  therefore appends `RatFactory` entities of that list. The source builds
  the `Factory` of entities/factory.rs at that point.
- The maze generator and the wall buffer are not among the modelled files.
  The three maze queries (`is_wall`, `is_wall_quad`, `empty1`) are therefore
  fields of a `Walls` value. That value also stands in for the
  thread-local `with_pristine_maze`.

On modelling choices:
- Random draws and clocks are parameters.
- Machine integers are natural numbers. The model writes out each place
  where width matters: the `u16` casts of `distance_squared_to` and of
  `init`'s rows and columns, and the `u32` truncation of the window size.
- Code that changes state step by step is written as methods with loops.
  The mutable objects (`Buffer`, the contexts, the old `Player`, the
  mutable `Position`) are classes. The pure computations are functions.

## Model

| member | source | states |
|---|---|---|
| SizeWrapping.Inc | video/src/lib.rs:114-120 | the result is below the size, and equals (x+1) mod size for an in-range x; a positive size is required because `size - 1` is evaluated on every call |
| SizeWrapping.Dec | video/src/lib.rs:122-128 | for in-range x the result is below the size and equals (x+size−1) mod size; 0 goes to size−1 |
| SizeWrapping.WrapEnds | video/src/lib.rs:114-128 | size−1 increments to 0 and 0 decrements to size−1 |
| SizeWrapping.IncDecInverse | video/src/lib.rs:114-128 | `dec(inc(x)) == x` and `inc(dec(x)) == x` for every x below the size |
| Directions.StopDir | rats/src/entities/mod.rs:47-54 | always exactly one cardinal bit; a cardinal maps to itself, a diagonal to its horizontal bit, anything else to UP |
| Directions.StopDirIdempotent | rats/src/entities/mod.rs:47-54 | applying `stop_dir` twice equals applying it once |
| Directions.EffectiveDir | rats/src/entities/player.rs:47-56 | the result is a subset of the mask; an opposing vertical or horizontal pair is cleared, and every other bit is kept |
| Directions.EffectiveDirNoOpposites | rats/src/entities/player.rs:47-56 | the result never holds UP with DOWN or LEFT with RIGHT |
| Directions.EffectiveDirIdempotent | rats/src/game_context/firing.rs:63-72 | stripping twice strips nothing more |
| Directions.CardinalBits | rats/src/entities/mod.rs:37-45 | the four cardinals are distinct single bits; the four named diagonals are exactly the masks with one vertical and one horizontal bit |
| Positions.Left | rats/src/entities/position.rs:12-22 | only the column changes: it becomes col−1, or cols−1 from column 0, and stays in range |
| Positions.Right | rats/src/entities/position.rs:34-44 | only the column changes: it becomes col+1, or 0 from the last column, and stays in range |
| Positions.Up | rats/src/entities/position.rs:56-66 | only the row changes: it becomes row−1, or rows−1 from row 0, and stays in range |
| Positions.Down | rats/src/entities/position.rs:78-88 | only the row changes: it becomes row+1, or 0 from the last row, and stays in range |
| Positions.NeighboursAreWrapping | rats/src/entities/position.rs:12-88 | each neighbour is the video crate's `inc`/`dec` applied to one coordinate |
| Positions.NeighboursInverse | rats/src/entities/position.rs:12-88 | `right(left(p)) == p`, `left(right(p)) == p`, `down(up(p)) == p` and `up(down(p)) == p` for in-range p |
| Positions.MoveLeft | rats/src/entities/position.rs:23-33 | the loop's result is `steps` applications of `left` |
| Positions.MoveRight | rats/src/entities/position.rs:45-55 | the loop's result is `steps` applications of `right` |
| Positions.MoveUp | rats/src/entities/position.rs:67-77 | the loop's result is `steps` applications of `up` |
| Positions.MoveDown | rats/src/entities/position.rs:89-99 | the loop's result is `steps` applications of `down` |
| Positions.HorizontalMoves | rats/src/entities/position.rs:23-55 | n steps left or right keep the row and move the column by ∓n modulo the width |
| Positions.VerticalMoves | rats/src/entities/position.rs:67-99 | n steps up or down keep the column and move the row by ∓n modulo the height |
| Positions.MovesRestore | rats/src/entities/position.rs:23-99 | moving n one way and n back returns to the start |
| Positions.Advance | rats/src/entities/position.rs:100-114 | the result is the UP, DOWN, LEFT and RIGHT steps of the set bits, in that order |
| Positions.AdvanceAxes | rats/src/entities/position.rs:100-114 | rows move only for vertical bits and columns only for horizontal bits; no bit or an opposing pair leaves that coordinate unchanged |
| Positions.AdvanceOpposite | rats/src/entities/position.rs:100-114 | advancing along the opposite bits returns to the start |
| Positions.DistanceSquaredTo | rats/src/entities/position.rs:134-145 | the sum of squared shorter-way-round gaps, reduced modulo 2^16 by the 32-bit arithmetic and the `u16` cast |
| Positions.DistanceSymmetric | rats/src/entities/position.rs:134-145 | the distance from p to q equals the distance from q to p |
| Positions.DistanceToSelf | rats/src/entities/position.rs:134-145 | a cell is at distance 0 from itself |
| Positions.AxisGapBounds | rats/src/entities/position.rs:137-142 | for in-range coordinates each axis term lies between 0 and half the size |
| Positions.DistanceExact | rats/src/entities/position.rs:134-145 | on grids of at most 362 cells a side nothing is lost to the cast, and the distance is 0 only between equal cells |
| Positions.DirectionTo | rats/src/entities/position.rs:116-131 | exactly one cardinal bit whose neighbour is no farther from the target than any other; among equally near neighbours the latest in UP, DOWN, LEFT, RIGHT wins |
| Mazes.NewMaze | rats/src/maze.rs:12-23 | fewer than two cells either way is refused, and every other size is built; the extent is 11·width by 6·height characters and the buffer holds one blank per cell |
| Mazes.BuiltMazeIsLarge | rats/src/maze.rs:12-23 | every maze that can be built is at least 22 characters wide and 12 high, with at least four cells |
| EntityTypes.QuadCells | rats/src/entities/player.rs:60-82 | the wrapped 2×2 block contains its corner and has at most four cells |
| EntityTypes.QuadCellsDistinct | rats/src/entities/factory.rs:23-46 | on a grid at least 2×2 the block has four distinct in-range cells |
| OldEntities.MutablePosition.MoveLeft | rats/src/entities.rs:73-83 | `steps` wrapping steps left; the row is unchanged |
| OldEntities.MutablePosition.MoveRight | rats/src/entities.rs:84-94 | `steps` wrapping steps right; the row is unchanged |
| OldEntities.MutablePosition.MoveUp | rats/src/entities.rs:95-105 | `steps` wrapping steps up; the column is unchanged |
| OldEntities.MutablePosition.MoveDown | rats/src/entities.rs:106-116 | `steps` wrapping steps down; the column is unchanged |
| OldPlayer.Player.constructor | rats/src/player.rs:23-33 | the player starts at (rows/2, cols/2) of the maze buffer |
| OldPlayer.Player.MoveLeft | rats/src/player.rs:72-82 | the column moves left by `steps` modulo the width; the row stays |
| OldPlayer.Player.MoveRight | rats/src/player.rs:83-89 | the column moves right by `steps` modulo the width, one `(x+1) % size` per step |
| OldPlayer.Player.MoveUp | rats/src/player.rs:90-100 | the row moves up by `steps` modulo the height; the column stays |
| OldPlayer.Player.MoveDown | rats/src/player.rs:101-106 | the row moves down by `steps` modulo the height, one `(x+1) % size` per step |
| OldPlayer.Player.Advance | rats/src/player.rs:43-56 | the row changes only for vertical bits and the column only for horizontal bits; UP with DOWN and NONE leave the row in place |
| PlayerEntity.Advance | rats/src/entities/player.rs:25-28 | the position is advanced along the direction and nothing else changes |
| PlayerEntity.CanAdvanceNone | rats/src/entities/player.rs:29-45 | standing still is always allowed |
| PlayerEntity.CanAdvance | rats/src/entities/player.rs:29-45 | a move holding no cardinal bit is always allowed, and a refused move holds one; from a free block `CanAdvanceIffDestinationFree` gives its full meaning |
| PlayerEntity.CanAdvanceIffDestinationFree | rats/src/entities/player.rs:29-45 | from a wall-free block a move is allowed exactly when the block it lands on is wall-free |
| PlayerEntity.EffectiveDir | rats/src/entities/player.rs:47-56 | the step-by-step clearing of opposing pairs computes `Directions.EffectiveDir` of the held direction |
| PlayerEntity.Hit | rats/src/entities/player.rs:60-82 | true exactly when the player is alive and the cell is one of the four cells of its wrapped block |
| PlayerEntity.Explode | rats/src/entities/player.rs:84-86 | the state becomes Exploding1 and nothing else changes |
| PlayerEntity.SlideStaysFree | rats/src/entities/player.rs:128-154 | sliding from a free in-range block ends on a free in-range block |
| PlayerEntity.SlideAlong | rats/src/entities/player.rs:128-154 | the whole direction if allowed, otherwise each held bit in the order UP, DOWN, LEFT, RIGHT, each tried from where the previous ones left it |
| PlayerEntity.UpdatePlayer | rats/src/entities/player.rs:122-175 | Nothing exactly when not yet due; an alive player slides, advances its cycle mod 4 and is due one interval later; explosion frames take half an interval, Dead→Alive takes two intervals; never Delete; never into a wall |
| BulletEntity.Hit | rats/src/entities/bullet.rs:23-25 | true exactly when the bullet is alive and on that cell |
| BulletEntity.Explode | rats/src/entities/bullet.rs:27-29 | the state becomes Exploding1 and nothing else changes |
| BulletEntity.Target | rats/src/entities/bullet.rs:62-74 | one wrapping step along each of the eight named directions; any other mask stays in place |
| BulletEntity.UpdateBullet | rats/src/entities/bullet.rs:54-102 | Nothing exactly when not yet due; an alive bullet is deleted at a wall and otherwise moves to its target; each explosion frame advances the stage by one after a full interval; a dead bullet is deleted |
| BulletEntity.ExplosionLasts | rats/src/entities/bullet.rs:85-100 | an exploding bullet shows its remaining frames and is deleted on the fourth due update |
| BulletEntity.WrapsAround | rats/src/entities/bullet.rs:62-74 | a bullet flying right off the last column reappears in column 0 |
| BratEntity.Advance | rats/src/entities/brat.rs:27-30 | the brat moves one step along the direction and nothing else changes |
| BratEntity.CanAdvance | rats/src/entities/brat.rs:31-38 | true exactly when the cell one step along the direction is not a wall |
| BratEntity.Hit | rats/src/entities/brat.rs:42-45 | true exactly when the brat is alive and on that cell |
| BratEntity.Explode | rats/src/entities/brat.rs:46-48 | the state becomes Exploding1 and nothing else changes |
| BratEntity.HitPlayer1 | rats/src/entities/brat.rs:122-141 | true exactly when the cell is one of the player's four block cells, whatever the player's state |
| BratEntity.Heading | rats/src/entities/brat.rs:87-89 | the direction `player_dir` returns when it gives one, otherwise the brat keeps its direction |
| BratEntity.UpdateBrat | rats/src/entities/brat.rs:72-119 | Nothing when not due; touching the player is an Attack; otherwise one step using up one unit of distance, or a stay with a new direction and distance when blocked or used up; explosion frames take half an interval; Dead is Delete; from an in-range cell the updated brat is in range and, if it moved, not on a wall |
| BratEntity.UpdateAvoidsWalls | rats/src/entities/brat.rs:90-96 | for a brat that either kept the position of `brat` or took an allowed step from it (the two outcomes of the move in `update_brat`), the position is in range and, if it moved, not a wall |
| FactoryEntity.Hit | rats/src/entities/factory.rs:23-46 | true exactly when the factory is alive and the cell is one of its four block cells |
| FactoryEntity.Explode | rats/src/entities/factory.rs:47-49 | the state becomes Exploding1 and nothing else changes |
| FactoryEntity.UpdateFactory | rats/src/entities/factory.rs:70-114 | Nothing exactly when not due; asked to, an alive factory releases an alive rat heading right on its corner without updating itself; otherwise it toggles its cycle; explosion frames take half an interval; Dead is Delete; it never moves |
| FactoryEntity.BlinkAlternates | rats/src/entities/factory.rs:90-96 | consecutive blinks alternate the two animation frames |
| FactoryEntity.ExplosionLasts | rats/src/entities/factory.rs:98-113 | an exploding factory shows its remaining frames and is deleted on the fourth due update |
| FrameUpdate.CanAdvance | rats/src/game_context/update.rs:60-74 | for the eight named directions, true exactly when the shifted block has no wall; any other mask is refused |
| FrameUpdate.StepIfAllowed | rats/src/game_context/update.rs:85-96 | the step is taken exactly when the bit is held and allowed |
| FrameUpdate.SlideAlong | rats/src/game_context/update.rs:82-97 | the whole direction if allowed, otherwise each held bit in the order UP, DOWN, LEFT, RIGHT |
| FrameUpdate.UpdatePlayer | rats/src/game_context/update.rs:77-103 | Nothing before the player is due; otherwise the slid player with its cycle stepped and due again PLAYER_FRAMES later |
| FrameUpdate.SlideAvoidsWalls | rats/src/game_context/update.rs:82-97 | from a free in-range block the player ends on a free in-range block |
| FrameUpdate.PlayerActionKeepsPlayer | rats/src/game_context/update.rs:77-103 | the update never deletes the player and keeps its direction, facing and state |
| FrameUpdate.PlayerAction | rats/src/game_context/update.rs:77-103 | Nothing exactly when the player is not yet due; otherwise an update of the player, due again `PLAYER_FRAMES` later |
| FrameUpdate.UpdateBullet | rats/src/game_context/update.rs:105-131 | Nothing before due; otherwise Delete when the next cell along the heading is a wall, else the bullet moved there |
| FrameUpdate.Heading | rats/src/game_context/update.rs:111-120 | a named direction is kept, and any other mask flies down |
| FrameUpdate.ActionsFor | rats/src/game_context/update.rs:24-38 | one action per entity, each computed from the list as it was |
| FrameUpdate.ApplyAt | rats/src/game_context/update.rs:40-50 | Delete swaps the entity with the last and shortens the list by one; Update replaces it in place |
| FrameUpdate.ApplyContents | rats/src/game_context/update.rs:39-51 | the descending pass keeps, as a multiset, the outcomes of the applied actions plus the entities not yet reached |
| FrameUpdate.ApplyDescending | rats/src/game_context/update.rs:39-51 | the descending pass over `k` actions removes at most `k` entities and adds none |
| FrameUpdate.ApplyLength | rats/src/game_context/update.rs:39-51 | the list shrinks by exactly the number of Deletes |
| FrameUpdate.PassKeepsPlayer | rats/src/game_context/update.rs:23-52 | a list that starts with a player still starts with one after the pass |
| GameContexts.GameContext.constructor | rats/src/game_context/mod.rs:57-67 | the list holds only the player: not moving, facing down, alive, in the middle of the first maze cell |
| GameContexts.GameContext.GetPlayer | rats/src/game_context/mod.rs:75-80 | the entity at index 0 when it is a player, and None where the source panics |
| GameContexts.GameContext.Start | rats/src/game_context/mod.rs:93-102 | the bits are added to the direction, and the facing becomes `stop_dir` of the bits just pressed |
| GameContexts.GameContext.Stop | rats/src/game_context/mod.rs:104-107 | exactly the given bits are cleared |
| GameContexts.GameContext.Fire | rats/src/game_context/mod.rs:109-140 | along the held direction, or the facing when none is held, one alive bullet due now is appended on the spawn cell unless it is a wall |
| GameContexts.GameContext.ComputeActions | rats/src/game_context/update.rs:24-38 | the actions are those of the list as it stands |
| GameContexts.GameContext.ApplyActions | rats/src/game_context/update.rs:39-51 | the list becomes the descending swap-remove pass over the actions |
| GameContexts.GameContext.Update | rats/src/game_context/update.rs:23-52 | the frame counter is unchanged (only rendering advances it); the list shrinks by the Deletes, keeps exactly the outcomes as a multiset, and keeps the player at the front |
| GameContexts.GameContext.GenerateFactories | rats/src/game_context/factories.rs:11-55 | the kept candidates become alive factories appended after the unchanged entities: at most `count`, each wall-free and well spread |
| Factories.DistanceSquared | rats/src/game_context/factories.rs:59-70 | equals `distance_squared_to` of the entities module |
| Factories.PlacementsWellSpread | rats/src/game_context/factories.rs:22-54 | placement keeps earlier positions, adds only candidates and at most `count`, and every placed block is clear, at least 250 from the player's start and at least 25 from every other |
| Factories.Placements | rats/src/game_context/factories.rs:22-54 | the placed list only grows, by at most the number of candidates, and never beyond `count` |
| Factories.ScanPlaced | rats/src/game_context/factories.rs:41-45 | true exactly when the candidate is at squared distance at least 25 from every placed position |
| Spawns.FireCellOutsideBlock | rats/src/game_context/mod.rs:119-131 | on a grid at least 3×3 the bullet appears in range and outside the player's block for every named direction, and on the corner otherwise |
| Spawns.FireCell | rats/src/game_context/mod.rs:119-131 | an in-range player gives an in-range cell, and an unnamed direction fires from the player's own cell |
| Spawns.FiringCellOutsideBlock | rats/src/game_context/firing.rs:19-29 | the same for firing.rs's table, which gives no cell for an unnamed direction |
| Spawns.FiringCell | rats/src/game_context/firing.rs:19-29 | a cell exactly for the eight named directions, in range when the player is |
| Spawns.TablesAgreeExceptRightDiagonals | rats/src/game_context/firing.rs:19-29 | the two tables agree except that firing.rs's DOWN_RIGHT is one row higher and its UP_RIGHT one column further right |
| Firing.ExplodeEntity | rats/src/game_context/firing.rs:38-41 | the entity's kind and everything but its state are kept; the state becomes Exploding1 |
| Firing.EntityHit | rats/src/game_context/firing.rs:37-41 | a player or factory is hit on any cell of its 2×2 block, a rat, brat or bullet on its own cell, and only while alive |
| Firing.FirstHit | rats/src/game_context/firing.rs:37-42 | the first index at or after `from` whose entity is hit, or None when none is |
| Firing.Aim | rats/src/game_context/firing.rs:11-32 | a shot exactly when the player is alive, the fire time is reached, the direction is named and the spawn cell is not a wall |
| Firing.AfterShot | rats/src/game_context/firing.rs:36-48 | when some entity after the player is hit, the list keeps its length and the first such entity, and only it, becomes `ExplodeEntity` of itself; otherwise one alive bullet at the cell is appended; the player is never touched |
| Firing.FiringContext.EffectiveFiringDir | rats/src/game_context/firing.rs:63-72 | the loop's result is `Directions.EffectiveDir` of the held firing bits |
| Firing.FiringContext.FindTarget | rats/src/game_context/firing.rs:37-42 | the scan finds `FirstHit` from index 1 |
| Firing.FiringContext.Fire | rats/src/game_context/firing.rs:10-50 | nothing changes without a shot; with one, the next fire time moves on and the list becomes `AfterShot` |
| Firing.FiringContext.StartFiring | rats/src/game_context/firing.rs:52-57 | a newly pressed bit is added and fires; an already held one changes nothing |
| Firing.FiringContext.StopFiring | rats/src/game_context/firing.rs:59-61 | exactly the given bits are released |
| Firing.ShotChangesAtMostOne | rats/src/game_context/firing.rs:37-48 | a shot never changes the player and changes at most one existing entity |
| Firing.OpposingPairDoesNotFire | rats/src/game_context/firing.rs:16-29 | firing along only an opposing pair is no shot |
| OldGameContexts.OldGameContext.constructor | rats/src/game_context.rs:51-72 | the player starts in the middle of the maze and then walks half a cell right and half a cell down; no key is held and the facing is down |
| OldGameContexts.OldGameContext.Start | rats/src/game_context.rs:128-136 | the key is added and the facing becomes `stop_dir` of the combined mask |
| OldGameContexts.OldGameContext.Stop | rats/src/game_context.rs:138-140 | exactly the given bits are released |
| OldGameContexts.OldGameContext.Fire | rats/src/game_context.rs:142-173 | a bullet is appended on the spawn cell when it is empty; otherwise nothing changes |
| OldGameContexts.Step | rats/src/game_context.rs:184-194 | one cell along a named direction, and one cell down for any other mask |
| OldGameContexts.SwapRemove | rats/src/game_context.rs:196-200 | the last element replaces slot i and the list shrinks by one |
| OldGameContexts.OldGameContext.AdvanceBullets | rats/src/game_context.rs:175-204 | the loop as written computes `AsWrittenFrom` of the bullets, never lengthens the list, and leaves every remaining bullet on an empty cell when all started on one |
| OldGameContexts.AsWrittenKeepsEmpty | rats/src/game_context.rs:195-202 | for every bullet list and start slot, if all bullets are on empty cells then every bullet the as-written pass leaves is on an empty cell, kept ones because they were checked and the skipped one because it never moved |
| OldGameContexts.AsWrittenSkipsSwappedBullet | rats/src/game_context.rs:195-202 | a concrete list on which the pass as written leaves the swapped-in bullet unmoved |
| OldGameContexts.OldGameContext.AdvanceBulletsCorrected | rats/src/game_context.rs:175-204 | with the index kept after a removal, exactly the moved bullets on empty cells remain, each once |
| OldGameContexts.CorrectedAdvancesEach | rats/src/game_context.rs:175-204 | the corrected pass leaves a permutation of every bullet moved once and kept when its new cell is empty |
| Buffers.CharAt | video/src/buffer.rs:48-54 | the cell's character inside the grid, and 0 outside |
| Buffers.AttrAt | video/src/buffer.rs:62-68 | the cell's attribute inside the grid, and 0 outside |
| Buffers.ChattrAt | video/src/buffer.rs:77-86 | both bytes of the cell inside the grid, and (0, 0) outside |
| Buffers.CharAtWithChar | video/src/buffer.rs:42-54 | after `set_char` the written cell reads back and every other cell is unchanged; outside the grid nothing changes |
| Buffers.AttrAtWithAttr | video/src/buffer.rs:56-68 | after `set_attr` the cell reads back the value masked with ATTR_MASK and every other cell is unchanged |
| Buffers.SetAttrMasks | video/src/buffer.rs:56-60 | whatever is passed, the stored attribute is at most 3 |
| Buffers.ChattrRoundTrip | video/src/buffer.rs:70-86 | after `set_chattr` both bytes read back, the attribute unmasked, and other cells are unchanged |
| Buffers.PrintWrites | video/src/buffer.rs:93-103 | character k lands with the masked attribute on column col+k of the row when that cell exists |
| Buffers.WithChar | video/src/buffer.rs:42-46 | the grid keeps its size and attributes, and a cell outside it changes nothing |
| Buffers.WithAttr | video/src/buffer.rs:56-60 | the grid keeps its size and characters, and a cell outside it changes nothing |
| Buffers.WithChattr | video/src/buffer.rs:70-75 | the grid keeps its size, and a cell outside it changes nothing |
| Buffers.Printed | video/src/buffer.rs:93-103 | the grid keeps its size; `PrintWrites` and `PrintKeeps` give the cells |
| Buffers.PrintKeeps | video/src/buffer.rs:93-103 | cells of other rows, left of col, or at or past col+len keep both bytes |
| Buffers.Buffer.constructor | video/src/buffer.rs:26-35 | a rows×cols grid of blanks with no attributes |
| Buffers.Buffer.Clear | video/src/buffer.rs:37-40 | every character is a blank and every attribute ATTR_NONE; the size is kept |
| Buffers.Buffer.SetChar | video/src/buffer.rs:42-46 | the grid becomes `WithChar` |
| Buffers.Buffer.SetAttr | video/src/buffer.rs:56-60 | the grid becomes `WithAttr` |
| Buffers.Buffer.SetChattr | video/src/buffer.rs:70-75 | the grid becomes `WithChattr` |
| Buffers.Buffer.Swap | video/src/buffer.rs:88-91 | the two buffers exchange their contents |
| Buffers.Buffer.Print | video/src/buffer.rs:93-103 | the grid becomes `Printed` |
| Buffers.Buffer.CopyRow | video/src/buffer.rs:113-118 | one destination row receives the source row from the start column on, wrapping at the destination width, attributes masked; other rows are unchanged |
| Buffers.Buffer.CopyBuffer | video/src/buffer.rs:105-121 | each destination row from `dstRow` on is read from (row, col) on, wrapping at the destination's height and width; cells outside the source read as 0, attributes are masked, and rows above `dstRow` are untouched |
| Buffers.Buffer.CopyTo | video/src/buffer.rs:123-132 | a same-size destination becomes a byte-for-byte copy |
| CharmapTextures.ChannelsRecompose | video/src/charmap_textures.rs:298-308 | the red, green and blue bytes give back the colour's low 24 bits |
| CharmapTextures.Dim | video/src/charmap_textures.rs:310-315 | each channel is halved, rounding down, and bits above 23 are cleared |
| CharmapTextures.Between | video/src/charmap_textures.rs:317-328 | the top byte of the result is clear (the channels are in `BetweenRed` and its partners) |
| CharmapTextures.BetweenRed | video/src/charmap_textures.rs:317-328 | the red channel is the mean of the two halved red channels (likewise `BetweenGreen`, `BetweenBlue`) |
| CharmapTextures.MaskIsShift | video/src/charmap_textures.rs:186-197 | the mask of bit k is `0x80 >> k` |
| CharmapTextures.RenderedPixel | video/src/charmap_textures.rs:202-296 | at scale s, the pixel of byte j, sub-row r, bit k and sub-pixel c is at byte 24·s²·j + 24·s·r + 3·s·k + 3·c, in the colour the bit and the edge rule choose |
| CharmapTextures.WriteRun | video/src/charmap_textures.rs:213-227 | the `s` sub-pixels of one bit land at the offset and nothing else changes |
| CharmapTextures.WriteLine | video/src/charmap_textures.rs:211-229 | one sub-row of a byte's block lands at the offset and nothing else changes |
| CharmapTextures.WriteBlock | video/src/charmap_textures.rs:210-230 | the `s` sub-rows of one byte land at the offset and nothing else changes |
| CharmapTextures.SetPixelsScaled | video/src/charmap_textures.rs:202-296 | after the 2×2, 3×3 and 4×4 loops the bytes from the offset are the rendered bitmap and the rest are as they were |
| CharmapTextures.SetPixels1x1 | video/src/charmap_textures.rs:178-200 | after the 1×1 loop the bytes from the offset are the rendered bitmap and the rest are as they were |
| CharmapTextures.WriteByte1x1 | video/src/charmap_textures.rs:186-198 | the eight pixels of one byte land at the offset |
| CharmapTextures.GlyphsFit | video/src/charmap_textures.rs:151-162 | glyphs `first` to `first+n−1` start at slot `first` and end inside the 256-slot texture |
| CharmapTextures.ReverseFlips | video/src/charmap_textures.rs:168 | under the reverse mask exactly the clear bits are lit |
| CharmapTextures.SetPixels | video/src/charmap_textures.rs:143-176 | at scales 1 to 4 the glyph slots from `first` hold the bitmap rendered with the attribute's foreground and mask, and all other bytes are kept; other scales change nothing |
| CharmapTextures.Pixel1x1 | video/src/charmap_textures.rs:185-199 | at 1×1 pixel k of byte j is at byte 24·j+3·k, in the lit colour exactly when bit k of the masked byte is set |
| CharmapTextures.Shade2x2 | video/src/charmap_textures.rs:214-222 | a set bit's bottom-right sub-pixel is halfway to the background, the others the foreground; a clear bit is background |
| CharmapTextures.Shade3x3 | video/src/charmap_textures.rs:234-264 | a set bit is the foreground on its first two rows and columns and halfway elsewhere |
| CharmapTextures.Shade4x4 | video/src/charmap_textures.rs:266-296 | a set bit is the foreground on its first three rows and columns and halfway elsewhere |
| CharmapTextures.HighLow | video/src/charmap_textures.rs:380-400 | the high and low bytes of a word give back the word |
| CharmapTextures.WideGlyphsAt | video/src/charmap_textures.rs:377-402 | row i of each of the four glyphs is the matching half of the matching word |
| CharmapTextures.SplitWide | video/src/charmap_textures.rs:377-402 | the four loops produce `WideGlyphs` of the first 24 words |
| CharmapTextures.WideBitmapLength | video/src/charmap_textures.rs:375-376 | every 24 words become 48 narrow bitmap bytes |
| CharmapTextures.SetPixelsWide | video/src/charmap_textures.rs:367-407 | each 24-word character fills four glyph slots, the next character four slots on; all other bytes are kept |
| CharmapTextures.RenderedRepeated | video/src/charmap_textures.rs:418-434 | rendering n copies of a glyph equals n copies of its rendering |
| CharmapTextures.FillSlots | video/src/charmap_textures.rs:417-434 | every one of the 256 glyph slots holds the rendered glyph |
| CharmapTextures.SetPixelsEmpty | video/src/charmap_textures.rs:409-435 | the whole texture is the empty glyph, lit bits dark red and the rest black, at any scale |
| CharmapTextures.EmptyPixel | video/src/charmap_textures.rs:424-427 | each pixel's red byte is 0x80 where the empty glyph's bit is set and 0 elsewhere; green and blue are 0 |
| CharmapSurface.Intensity | video/src/charmap_surface.rs:69 | full green 0xff without ATTR_DIM and half green 0x80 with it |
| CharmapSurface.LitUnderAttrs | video/src/charmap_surface.rs:74-88 | a bit is lit exactly when it is set xor ATTR_REVERSE is on |
| CharmapSurface.GreenByteIsLit | video/src/charmap_surface.rs:74-88 | the green byte the loop stores is the intensity exactly when the bit is lit, and 0 otherwise |
| CharmapSurface.SurfaceColours | video/src/charmap_surface.rs:74-88 | the lit colour is (0, intensity, 0) and the unlit colour black |
| CharmapSurface.PutByte | video/src/charmap_surface.rs:73-90 | the eight pixels of one bitmap byte land at the offset, as the 1×1 rendering in green |
| CharmapSurface.SetPixels | video/src/charmap_surface.rs:63-93 | from glyph `first` on, the bytes are the 1×1 rendering of the bitmap in green; nothing else changes |
| CharmapSurface.SurfacePixel | video/src/charmap_surface.rs:63-93 | the bytes for bit k of byte j: red and blue 0, green the intensity when lit under ATTR_REVERSE and 0 otherwise |
| Init.New | video/src/init.rs:24-28 | every option unset and sound on |
| Init.DisplayIndex | video/src/init.rs:30-35 | a given index replaces the old one and none keeps it; nothing else changes |
| Init.WindowWidth | video/src/init.rs:37-45 | a width of at least 640 is stored rounded down to a multiple of 8, within 8 of the request; a smaller width or none keeps the old value |
| Init.WindowHeight | video/src/init.rs:47-55 | a height of at least 480 is stored rounded down to a multiple of 12, within 12 of the request; otherwise the old value is kept |
| Init.Scale | video/src/init.rs:57-60 | the option is replaced, so none clears it; nothing else changes |
| Init.MazeHeight | video/src/init.rs:62-65 | the option is replaced; nothing else changes |
| Init.MazeWidth | video/src/init.rs:67-70 | the option is replaced; nothing else changes |
| Init.Density | video/src/init.rs:72-75 | the option is replaced; nothing else changes |
| Init.Factories | video/src/init.rs:77-80 | the option is replaced; nothing else changes |
| Init.Quiet | video/src/init.rs:82-85 | the flag is replaced; nothing else changes |
| Init.BuildersIndependent | video/src/init.rs:37-55 | setting the width and the height commute, and neither disturbs the other |
| Init.Clamp | video/src/init.rs:102 | the result lies in 1..4 and equals the input when it already does |
| Init.FirstFit | video/src/init.rs:104-109 | the first scale from s on at which the width is at most 80 columns, or 4 when none is |
| Init.ChooseScale | video/src/init.rs:100-110 | an explicit scale is clamped; otherwise the smallest scale at which the window is at most 80 columns wide, or 4 |
| Init.ScaleExamples | video/src/init.rs:100-110 | widths 640, 1280, 1920 and 2560 get scales 1, 2, 3 and 4, and 10000 gets 4 |
| Init.FirstFitMonotone | video/src/init.rs:104-109 | a wider window never gets a smaller automatic scale |
| Init.Extent | video/src/init.rs:97-98 | the option if given, else the display's size, truncated to 32 bits |
| Init.Layout | video/src/init.rs:94-112 | the window size, scale, rows and columns `init` derives, rows and columns truncated to 16 bits |
| Init.CellsFill | video/src/init.rs:111-112 | without truncation, n cells of cell·scale pixels fit the extent and n+1 do not |
| Init.GridFitsWindow | video/src/init.rs:94-112 | for windows under 8·65536 by 12·65536 pixels the character grid at the chosen scale fits the window |

## Left out

- SDL and the glue around it: `init_charmap_textures`, `clear_charmap_textures`, `charmap_textures` and `wide_charmap_textures` (they lock each texture and call the rasterisers once per attribute combination); `init_charmap`/`load_charmap` of the surface (video/src/charmap_surface.rs:12-60); rendering; `render_buffer`; sounds. These are calls into a library outside the model.
- `init`'s SDL, window, canvas, cursor and mixer calls (video/src/init.rs:89-96, 113-135), and the display query, whose result is a parameter. The sdl2 `Rect::new` clamping of the window size is not modelled.
- The glyph tables of charmaps/ and font.rs: the rasterisers take any bitmap, and the empty glyph's twelve bytes are written out.
- Clocks (`Instant`), the frame counter's source, and the random number generator: times are parameters, random draws are parameters (`chase`, `randomDir`, `randomDistance`, the factory `candidates`). The one-second time limit of `generate_factories` is modelled by the candidates simply running out.
- The maze generator and the wall buffer: the maze queries are fields of a `Walls` value.
- rat.rs, baby_rat.rs and rat_factory.rs: not part of this model; a rat is taken to occupy its single cell while alive.
- The game loop, key handling and `render_*` functions: I/O.
- CharmapTextures.SetPixelsWide: `first` is a natural number, so the `u8` overflow of `first += 4` past slot 255 is not modelled; the precondition keeps every glyph inside the texture, where the source would panic or wrap.
- CharmapTextures.SetPixels and CharmapSurface.SetPixels: the source's `assert_eq!` panics and out-of-bounds stores are turned into preconditions, not error results.
- CharmapSurface.SetPixels: the number of characters in a surface (CHARACTERS of the charmaps module) is a parameter.
- Buffers.Buffer.CopyTo: a destination of another size makes the source panic; this is a precondition.
- GameContexts.GameContext.GenerateFactories: builds `RatFactory` entities of the older entity list that the context holds, not the `Factory` of entities/factory.rs that factories.rs builds; the placement itself is modelled as written.
- Buffers.Buffer.Swap: buffers of different sizes make the source panic; the model requires equal sizes.
- OldPlayer.Player.constructor: requires at least one row and one column. The source accepts any size, but every maze it is given has at least two cells each way, and an empty grid has no position to stand on.
- GameContexts.GameContext.GetPlayer: the panics are modelled as `None`; the methods that call it require a player at index 0.
- Entity timestamps, counters and positions are natural numbers; `u32` overflow of `update + *_UPDATE_MS` is not modelled.

## Findings

| source | as written | input that shows it | evidently intended | confidence | as-written member | corrected member |
|---|---|---|---|---|---|---|
| rats/src/game_context.rs:195-202 | after swapping the last bullet into slot `i` and truncating, the loop still does `i += 1`, so the swapped-in bullet is neither moved nor checked on that pass | a 4×4 grid whose only non-empty cell is (1, 0), with bullets at (0, 0) flying down and at (2, 2) flying down: the first hits the wall and is removed, and the second stays at (2, 2) instead of moving to (3, 2) | keep `i` after a removal, so every bullet moves exactly once per pass | not executed | OldGameContexts.AsWrittenSkipsSwappedBullet | OldGameContexts.CorrectedAdvancesEach |
