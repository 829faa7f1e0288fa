# Voxel cellular-automaton engine — a verified Dafny model

This project models the rule core of a voxel cellular-automaton engine. The engine is built on Unity's entity-component-system framework.

The whole world is one shared map from integer coordinates (`int3`) to cell entities. Each occupied coordinate holds exactly one cell, and each placed cell sits at the coordinate that maps to it. The model states this invariant (`CellWorld.MapConsistent`) and proves it is kept by every system that moves, swaps or writes cells.

The systems modelled are:

- **The movement and collision resolver** (`FCA8_PhysicSystem`). The velocity update job integrates buffered impulses into velocity and a fractional movement debt, clamping both to the speed limit. The move job then tries, in a fixed order:
  1. the direct target;
  2. the primary axis;
  3. a settlement swap with a lighter liquid;
  4. a fluidity-limited candidate list sorted by how well each candidate follows the motion. The builder of that list is a parameter: the one the source calls, or the corrected one (see Findings);
  5. otherwise, collision impulses on both cells.

  The step loop repeats this at most `maxStep` times.
- **The map primitives of `CellUtility`:**
  - insert and move, both of which fail with no change when the target is occupied;
  - type setting;
  - the first-match configuration lookup;
  - the pool enqueue;
  - prototype instantiation;
  - filling the configuration buffer.
- **Heat transfer and moisture diffusion** (`SCA3`, `SCA4`). Each of the six axis neighbours receives a transfer in its buffer, and the cell receives the negated total.
- **Evaporation** (`SCA5`) and the shared apply jobs (`PublicJobs`). The heat buffer is summed and the burning and exploding flags are re-derived. Moisture deltas are clamped one by one.
- **The cell-type transition** (`SCA_CellTypeUpdateSystem`): a first-match band scan over the configuration array.
- **Explosions** (`SCA7`). An exploding cell strikes every occupied coordinate inside an integer Euclidean ball, with linear falloff.
- **The pool-recycling pass** (`S1_CellPoolQueueSystem`).
- **The spaceship impulse finalization** (`FCA9`).
- **The CSV configuration reader** (`CellConfigCreator`).
- **The static per-type table and constants** (`GlobalConfig`).

How the engine maps onto Dafny:

- The world's mutable state is the class `CellWorld.World`.
- Each cell's components form one `Cell` record.
- Systems that mutate the map directly are methods on `World`.
- Jobs that write through an entity command buffer are methods that return the recorded commands (the `CellUtility` helpers are an exception, see Left out). Each such method is proved equal to a specification function. The system then plays the commands back in order (`CellWorld.Playback`).
- Floats are `real`. Square root is a parameter `sqrt` constrained by `IsSqrt` (non-negative, and its square is the argument).

## Model

| member | source | states |
|---|---|---|
| CellWorld.World.constructor | Assets/_Scripts/Systems/S0_GlobalDataInitSystem.cs:17-21 | The world starts with an empty map, no cells and an empty pool queue, so the map invariant holds. |
| CellWorld.MapBijection | Assets/_Scripts/Utilities/CellUtility.cs:84-89 | Under the map invariant, `map[c] == e` holds exactly when `e` is placed and its position is `c`. |
| CellWorld.OneCoordinatePerCell | Assets/_Scripts/Utilities/CellUtility.cs:137-140 | Two coordinates that map to the same cell are equal: a cell is held by at most one coordinate. |
| CellWorld.UpdateInPlaceKeepsMap | Assets/_Scripts/Systems/FCA8_PhysicSystem.cs:183-188 | Changing a cell's components other than its position keeps the map invariant and every placed cell where it was. |
| CellWorld.MoveKeepsMap | Assets/_Scripts/Systems/FCA8_PhysicSystem.cs:141-147 | Removing a placed cell's coordinate, mapping a free target to it and moving it there keeps the invariant. Every other cell keeps its coordinate. |
| CellWorld.SwapKeepsMap | Assets/_Scripts/Systems/FCA8_PhysicSystem.cs:159-176 | Exchanging the map entries and positions of two placed cells keeps the invariant and the set of occupied coordinates. |
| CellWorld.KeepsPlacedTrans | Assets/_Scripts/Systems/FCA8_PhysicSystem.cs:96-134 | The "placed cells stay placed" relation composes across the steps of one move attempt. |
| CellWorld.Playback | Assets/_Scripts/Systems/SCA3_HeatTransferSystem.cs:42 | Playing back a command buffer changes no entity set: the same cells exist afterwards. |
| CellWorld.TargetsInAppend | Assets/_Scripts/Systems/SCA3_HeatTransferSystem.cs:97-102 | Two buffers whose commands all target existing cells still do so when concatenated. |
| CellWorld.PlaybackAppend | Assets/_Scripts/Systems/SCA3_HeatTransferSystem.cs:42 | Playing back `a + b` is playing back `a` and then `b`. |
| CellWorld.PlaybackKeepsPositions | Assets/_Scripts/Systems/SCA7_ExplosionSystem.cs:40 | Buffered appends and energy writes move no cell: every position is unchanged after playback. |
| CellWorld.PlaybackKeepsMap | Assets/_Scripts/Systems/SCA4_MoistureDiffusionSystem.cs:42 | Playback of a buffer keeps the map invariant. |
| Vectors.Round | Assets/_Scripts/Systems/FCA8_PhysicSystem.cs:92 | `math.round` gives an integer within 1/2 of its argument, and ties go to the even one. |
| Vectors.NormalizeIsUnit | Assets/_Scripts/Systems/FCA8_PhysicSystem.cs:91 | Normalizing a non-zero vector gives squared length 1. |
| Vectors.NormalizeDot | Assets/_Scripts/Systems/FCA8_PhysicSystem.cs:310-311 | The normalized vector's dot product with the original is the original's length: it points the same way. |
| GlobalConfig.LookupIndexOfTypes | Assets/_Scripts/Utilities/GlobalConfig.cs:47-49 | The table index `-(int)type - 1` is 0 for Cell1, 1 for Cell2 and -1 for None. A type has a table entry exactly when it is not None. |
| CellUtility.GetCellConfig | Assets/_Scripts/Utilities/CellUtility.cs:147-157 | The result is missing exactly when no entry has the type. Otherwise it has the type and is the first entry that does. |
| CellUtility.MeshIdsDistinct | Assets/_Scripts/Utilities/CellUtility.cs:125-129 | The `(uint)` mesh and material id fits 32 bits, differs for different types, and wraps Cell1 (-1) to 0xFFFFFFFF. |
| CellUtility.SetCellType | Assets/_Scripts/Utilities/CellUtility.cs:118-130 | `IsAlive` is enabled exactly when the type is not None, and the type and mesh id become the given type's. |
| CellUtility.TryAddCellToWorld | Assets/_Scripts/Utilities/CellUtility.cs:80-116 | An occupied target changes nothing. A missing config throws after the map entry was added, with the cell not yet written. On success: target maps to the cell; its transform is (target, identity, default scale); State and Mass come from the type's config; Energy is 100; Velocity and Temperature are the arguments; no other cell changes. |
| CellUtility.TryMoveCell | Assets/_Scripts/Utilities/CellUtility.cs:134-145 | Succeeds exactly when the target is free. Then the old coordinate is removed, the target maps to the cell, and only its transform changes. On failure nothing changes. |
| CellUtility.EnqueueCellIntoPool | Assets/_Scripts/Utilities/CellUtility.cs:70-74 | The cell is appended at the back of the pool queue and its `PendingDequeue` flag is disabled. Nothing else changes. |
| CellUtility.InstantiateFromPrototype | Assets/_Scripts/Utilities/CellUtility.cs:61-68 | A new entity copies the prototype, loses the prototype tag and has `PendingDequeue` enabled. Existing cells are untouched. |
| CellUtility.CreateCellConfigEntity | Assets/_Scripts/Utilities/CellUtility.cs:54-56 | The buffer holds the configurations in list order, one entry each. |
| PhysicCandidates.MaxAxis | Assets/_Scripts/Systems/FCA8_PhysicSystem.cs:209-212 | Picks an axis of maximal absolute component, preferring x over y over z on ties. |
| PhysicCandidates.GetPrimaryDirection | Assets/_Scripts/Systems/FCA8_PhysicSystem.cs:207-213 | The unit step along the maximal axis, signed like that component. |
| PhysicCandidates.PrimaryDirectionIsAxisStep | Assets/_Scripts/Systems/FCA8_PhysicSystem.cs:207-213 | The primary direction has components in {-1,0,1} with at most one non-zero. It is an axis step exactly when the input is non-zero. Its dot product with the input is the largest absolute component. |
| PhysicCandidates.PrimaryDirectionAgrees | Assets/_Scripts/Systems/FCA8_PhysicSystem.cs:207-213 | The primary direction's dot product with the input equals the maximal absolute component, so it never points against the motion. |
| PhysicCandidates.Ring | Assets/_Scripts/Systems/FCA8_PhysicSystem.cs:238-252 | The first `n` iterations of the 3x3 double loop write `n` blocks, or `n - 1` once the skipped centre is passed. |
| PhysicCandidates.RingCoordinate | Assets/_Scripts/Systems/FCA8_PhysicSystem.cs:243-249 | The block written at loop position (i, j) is the current coordinate plus the offset that places (i, j) across the two non-primary axes. |
| PhysicCandidates.WriteRow | Assets/_Scripts/Systems/FCA8_PhysicSystem.cs:239-252 | One row of the inner loop writes exactly the next part of the ring into the array and leaves the other slots alone. |
| PhysicCandidates.WriteRing | Assets/_Scripts/Systems/FCA8_PhysicSystem.cs:236-253 | The double loop advances the write index by 8 and writes the 8 ring blocks in loop order. |
| PhysicCandidates.AppendRing | Assets/_Scripts/Systems/FCA8_PhysicSystem.cs:256-273 | Writing one ring after the blocks already written keeps them and appends the 8 ring blocks. |
| PhysicCandidates.FillCandidates | Assets/_Scripts/Systems/FCA8_PhysicSystem.cs:226-273 | The freshly allocated array holds the enabled blocks in source order, followed by zero (origin) coordinates up to the slot count. |
| PhysicCandidates.GetAvailableCoordinates | Assets/_Scripts/Systems/FCA8_PhysicSystem.cs:215-277 | The builder as written, with its `>=` ordinal guards and with the write bound as a precondition: the array is the written blocks padded with origins, insertion-sorted by score. |
| PhysicCandidates.GetIntendedCoordinates | Assets/_Scripts/Systems/FCA8_PhysicSystem.cs:215-277 | The builder with each state's blocks matching its slot count (Solid 1, Powder 9, Liquid 17), sorted by score. |
| PhysicCandidates.WrittenLayoutSizes | Assets/_Scripts/Systems/FCA8_PhysicSystem.cs:229-259 | The ordinal guards write 0 blocks for None, 1 for Solid, 9 for Liquid and Gas, and 17 for Powder. |
| PhysicCandidates.WrittenBuilderOverflows | Assets/_Scripts/Systems/FCA8_PhysicSystem.cs:218-259 | Powder and Gas write more blocks than their array holds. Liquid leaves 8 of its 17 slots at the origin. Solid fits. |
| PhysicCandidates.IntendedFillsSlots | Assets/_Scripts/Systems/FCA8_PhysicSystem.cs:218-224 | With guards matched to the states, every state fills exactly its slot count. |
| PhysicCandidates.SolidHasSingleCandidate | Assets/_Scripts/Systems/FCA8_PhysicSystem.cs:218-233 | A solid's only candidate is `current + primary`, in both builders, and sorting leaves it alone. |
| PhysicCandidates.RingAreNeighbours | Assets/_Scripts/Systems/FCA8_PhysicSystem.cs:236-273 | Every ring block differs from the current coordinate by an offset in {-1,0,1}^3 other than zero. |
| PhysicCandidates.CandidatesAreNeighbours | Assets/_Scripts/Systems/FCA8_PhysicSystem.cs:226-273 | Every written candidate differs from the current coordinate by a non-zero offset in {-1,0,1}^3. |
| PositionSort.InsertRPermutes | Assets/_Scripts/Systems/FCA8_PhysicSystem.cs:285-297 | Inserting the key adds exactly that element to the multiset. |
| PositionSort.InsertionSortedPermutes | Assets/_Scripts/Systems/FCA8_PhysicSystem.cs:279-299 | The sorted sequence is a permutation of the input. |
| PositionSort.InsertRKeepsOrder | Assets/_Scripts/Systems/FCA8_PhysicSystem.cs:289-297 | Inserting a key into a sequence ordered non-increasing by score keeps it ordered. |
| PositionSort.InsertionSortedIsOrdered | Assets/_Scripts/Systems/FCA8_PhysicSystem.cs:279-299 | The result is ordered non-increasing by dot score. |
| PositionSort.InsertRWithScore | Assets/_Scripts/Systems/FCA8_PhysicSystem.cs:292 | Because the scan stops on `>=`, the key goes after every element with its own score. |
| PositionSort.InsertionSortedIsStable | Assets/_Scripts/Systems/FCA8_PhysicSystem.cs:292 | For every score, the elements with that score keep their input order (the sort is stable). |
| PositionSort.ShiftedIsInsert | Assets/_Scripts/Systems/FCA8_PhysicSystem.cs:289-297 | Shifting the larger-indexed block right by one and dropping the key into the gap is inserting the key at that index. |
| PositionSort.InsertKey | Assets/_Scripts/Systems/FCA8_PhysicSystem.cs:285-297 | One outer iteration turns the sorted prefix `a[..i]` plus `a[i]` into the spec insertion, leaving the rest of the array alone. |
| PositionSort.SortPositionsByDirection | Assets/_Scripts/Systems/FCA8_PhysicSystem.cs:279-299 | The in-place insertion sort leaves `a[..]` equal to the specification `InsertionSorted` of its old contents, which is an ordered, stable permutation. |
| PhysicSystem.TryMoveCell | Assets/_Scripts/Systems/FCA8_PhysicSystem.cs:139-152 | Succeeds exactly when the target is free. Then the old key is removed, the target maps to the cell, its position becomes the target, and its debt drops by exactly `target - old`. On failure, map and cells are unchanged. |
| PhysicSystem.SwapKeeps | Assets/_Scripts/Systems/FCA8_PhysicSystem.cs:154-181 | The swapped map and cells keep the invariant and the occupied coordinates, and the mover's old target now maps to the mover. |
| PhysicSystem.TrySwapCell | Assets/_Scripts/Systems/FCA8_PhysicSystem.cs:154-181 | The two cells exchange positions and map entries. Only the mover's debt is reduced, and the occupied coordinates stay the same. |
| PhysicSystem.TrySettlementSwap | Assets/_Scripts/Systems/FCA8_PhysicSystem.cs:190-205 | Swaps exactly when the target is occupied by a Liquid and the mover is strictly heavier. Otherwise nothing changes. |
| PhysicSystem.CollisionImpulsesCancelIffEqualMasses | Assets/_Scripts/Systems/FCA8_PhysicSystem.cs:312-317 | With a non-zero relative speed, the two collision impulses are negatives of each other exactly when the masses are equal. |
| PhysicSystem.CollisionPushesApart | Assets/_Scripts/Systems/FCA8_PhysicSystem.cs:310-317 | For cells approaching along the normal, the mover is pushed back and the target forward along it. |
| PhysicSystem.AppendImpulseKeeps | Assets/_Scripts/Systems/FCA8_PhysicSystem.cs:319-320 | Appending to an impulse buffer keeps the map invariant and moves no cell. |
| PhysicSystem.HandleCollision | Assets/_Scripts/Systems/FCA8_PhysicSystem.cs:301-321 | No-op when the target is empty. Otherwise it appends exactly one impulse to each cell: `-k*mT*n` to the mover and `+k*mS*n` to the occupant. |
| PhysicSystem.MaxTries | Assets/_Scripts/Systems/FCA8_PhysicSystem.cs:114-115 | `max(1, trunc(len * fluidity^2))` is at least 1 and, for fluidity in [-1,1], at most `max(1, len)`. |
| PhysicSystem.TryCandidate | Assets/_Scripts/Systems/FCA8_PhysicSystem.cs:119-129 | A candidate move succeeds exactly when the candidate is free. Then the cell moves there, its debt is reduced, and its velocity is scaled by `1 - Viscosity`. |
| PhysicSystem.TryCandidates | Assets/_Scripts/Systems/FCA8_PhysicSystem.cs:117-131 | The cell moves to the first free candidate among the first `maxTries`. Otherwise the world is unchanged and all tried candidates were occupied; running past the array end is reported separately. |
| PhysicSystem.TryOrCollide | Assets/_Scripts/Systems/FCA8_PhysicSystem.cs:117-134 | Either a candidate move as above, or, after `maxTries` occupied candidates, the collision impulses on the direct target. |
| PhysicSystem.FitsIffWithinSlots | Assets/_Scripts/Systems/FCA8_PhysicSystem.cs:218-259 | The as-written builder counts as fitting exactly when the blocks its guards enable fit in the state's slots. That holds for None, Solid and Liquid, and fails for Gas and Powder. |
| PhysicSystem.WrittenLiquidListsOrigin | Assets/_Scripts/Systems/FCA8_PhysicSystem.cs:112-113 | The sorted list the as-written builder hands a Liquid cell holds the world origin at least 8 times, wherever the cell is. |
| PhysicSystem.BuildCandidates | Assets/_Scripts/Systems/FCA8_PhysicSystem.cs:112-113 | With the chosen builder, no array is built exactly when the writes would run past the array end (the as-written builder for Gas and Powder). Otherwise the array is that builder's sorted list: for `AsWritten`, the ordinal-guarded blocks padded with origins. |
| PhysicSystem.ResolveBlocked | Assets/_Scripts/Systems/FCA8_PhysicSystem.cs:107-134 | After direct, primary and settlement fail: a missing config is an error outcome. A builder overflow is an error outcome exactly when the config exists and the writes do not fit. Otherwise the result is a move to the first free candidate of the chosen builder's list within `MaxTries`, or the collision, with its effect. |
| PhysicSystem.TryPrimaryOrSettle | Assets/_Scripts/Systems/FCA8_PhysicSystem.cs:103-105 | A move along the primary axis exactly when that coordinate is free, else a settlement swap exactly when it is allowed, else nothing changes. The swap exchanges the two map entries and positions, and only the mover's debt is reduced. |
| PhysicSystem.ResolveAfterDirect | Assets/_Scripts/Systems/FCA8_PhysicSystem.cs:99-134 | After the direct target fails: primary move, settlement swap (the swapped map and cells), config missing, builder overflow, candidate move or collision, each exactly under its condition and with its whole effect. |
| PhysicSystem.Execute | Assets/_Scripts/Systems/FCA8_PhysicSystem.cs:87-135 | Tries in order the direct target, the primary axis, the settlement swap, the first `maxTries` candidates of the chosen builder, then the collision. Each outcome holds exactly when the earlier steps failed and its own condition holds, with its full effect: a settlement swap leaves exactly the swapped map and cells. With `AsWritten` (the builder the source calls), a Gas or Powder cell that gets this far ends in a builder overflow, and a Liquid cell's candidates include the world origin. The map invariant is kept. |
| PhysicUpdate.MaxStep | Assets/_Scripts/Systems/FCA8_PhysicSystem.cs:41-42 | `max(1, floor(MaxSpeed * dt * scale))` is at least 1 and is the floor when that is at least 1. |
| PhysicUpdate.ClampLengthBound | Assets/_Scripts/Systems/FCA8_PhysicSystem.cs:343-345 | The clamped vector is no longer than the limit. It is unchanged when already within it, and exactly at the limit otherwise. |
| PhysicUpdate.ClampIdempotent | Assets/_Scripts/Systems/FCA8_PhysicSystem.cs:343-352 | Clamping twice is clamping once. |
| PhysicUpdate.ClampKeepsDirection | Assets/_Scripts/Systems/FCA8_PhysicSystem.cs:344-345 | Clamping never reverses the vector. |
| PhysicUpdate.IntegratedVelocityBound | Assets/_Scripts/Systems/FCA8_PhysicSystem.cs:342-345 | After integration, velocity is within `MaxSpeed`. |
| PhysicUpdate.IntegratedBounds | Assets/_Scripts/Systems/FCA8_PhysicSystem.cs:333-362 | The impulse buffer is empty, velocity and debt are within `MaxSpeed`, and the moving flag is set exactly when `|debt|^2 >= 1`. |
| PhysicUpdate.IntegratedFrame | Assets/_Scripts/Systems/FCA8_PhysicSystem.cs:355-361 | Integration changes only velocity, debt, the moving flag and the impulse buffer. |
| PhysicUpdate.IntegratedWithoutImpulses | Assets/_Scripts/Systems/FCA8_PhysicSystem.cs:339-345 | With no impulses and a velocity already within the limit, velocity is unchanged. |
| PhysicUpdate.VelocityUpdate | Assets/_Scripts/Systems/FCA8_PhysicSystem.cs:333-362 | The job (a loop summing the buffer, then two clamps) yields the specification `Integrated` cell. |
| PhysicUpdate.IntegratedAllKeeps | Assets/_Scripts/Systems/FCA8_PhysicSystem.cs:48-52 | Running the velocity job over all cells keeps the entity set, the map invariant, every position, every mass and every alive flag. |
| PhysicUpdate.IntegrateAll | Assets/_Scripts/Systems/FCA8_PhysicSystem.cs:48-52 | The loop over all cells leaves the world's cells equal to the specification `IntegratedAll`. |
| PhysicUpdate.AlivePlacedKept | Assets/_Scripts/Systems/FCA8_PhysicSystem.cs:58-68 | A move pass that keeps placed cells placed and cell kinds unchanged keeps every alive cell placed. |
| PhysicUpdate.MoveAll | Assets/_Scripts/Systems/FCA8_PhysicSystem.cs:58-68 | Running `Execute` for each moving cell keeps the physics invariant and every placed cell placed. A builder overflow ends the pass early; with the intended builder the pass always completes. |
| PhysicUpdate.PhysicsUpdate | Assets/_Scripts/Systems/FCA8_PhysicSystem.cs:40-72 | The step loop runs between 1 and `maxStep` passes. If it stops early, no cell is moving. The map invariant holds throughout. |
| PhysicUpdate.AlivePlacedAfterIntegration | Assets/_Scripts/Systems/FCA8_PhysicSystem.cs:48-55 | The velocity job keeps every alive cell placed. |
| PublicJobs.AddBuffer | Assets/_Scripts/Utilities/PublicJobs.cs:20-21 | The loop adds the whole heat buffer: the result is `start + Sum(buffer)`. |
| PublicJobs.TemperatureUpdate | Assets/_Scripts/Utilities/PublicJobs.cs:16-44 | The job yields the specification `TemperatureUpdated` for the cell's config. |
| PublicJobs.TemperatureFlags | Assets/_Scripts/Utilities/PublicJobs.cs:20-43 | The new temperature is the old plus the buffer sum, and the buffer is empty. `shouldExplode` holds exactly when the temperature is at least ExplosionPoint. `isBurning` holds exactly when it is at least IgnitionPoint and below ExplosionPoint. The two are never both set. |
| PublicJobs.TemperatureBelowIgnition | Assets/_Scripts/Utilities/PublicJobs.cs:38-43 | Below the ignition point, both flags are off. |
| PublicJobs.TemperatureFlagsNotLatched | Assets/_Scripts/Utilities/PublicJobs.cs:26-43 | The flags depend only on the new temperature, not on their previous values. |
| PublicJobs.TemperatureFrame | Assets/_Scripts/Utilities/PublicJobs.cs:16-44 | The job changes only the temperature, the heat buffer and the two flags. |
| PublicJobs.Clamp01 | Assets/_Scripts/Utilities/PublicJobs.cs:54 | `math.clamp(x, 0, 1)` lies in [0,1] and is `x` when `x` already does. |
| PublicJobs.ClampFoldInRange | Assets/_Scripts/Utilities/PublicJobs.cs:53-54 | After at least one delta, moisture lies in [0,1]. With an empty buffer, it is unchanged. |
| PublicJobs.ClampFoldIsNotClampedSum | Assets/_Scripts/Utilities/PublicJobs.cs:53-54 | Clamping per element differs from clamping the total: from 0 with deltas [-0.5, 0.5] the job gives 0.5, the clamped sum 0. |
| PublicJobs.ClampFoldWithoutClipping | Assets/_Scripts/Utilities/PublicJobs.cs:53-54 | When no running value leaves [0,1], the job adds the deltas' sum. |
| PublicJobs.MoistureUpdate | Assets/_Scripts/Utilities/PublicJobs.cs:51-56 | The job yields the specification `MoistureUpdated` (the clamp fold, with the buffer cleared). |
| PublicJobs.UpdateTemperatures | Assets/_Scripts/Utilities/PublicJobs.cs:16-44 | Running the job over the world applies `TemperatureUpdated` to every alive cell. |
| PublicJobs.UpdateMoistures | Assets/_Scripts/Utilities/PublicJobs.cs:51-56 | Running the job over the world applies `MoistureUpdated` to every alive cell. |
| PublicJobs.UpdatesKeepMap | Assets/_Scripts/Utilities/PublicJobs.cs:16-56 | Both apply jobs keep the entity set and the map invariant. |
| Diffusion.DirectionsAreAxisNeighbours | Assets/_Scripts/Systems/SCA3_HeatTransferSystem.cs:61-69 | The six directions are distinct, and an offset is among them exactly when its squared length is 1. |
| Diffusion.FlowAntisymmetric | Assets/_Scripts/Systems/SCA3_HeatTransferSystem.cs:89-91 | The transfer A computes toward B is the negation of the one B computes toward A. |
| Diffusion.FlowZeroWhenEqual | Assets/_Scripts/Systems/SCA3_HeatTransferSystem.cs:90-91 | Equal values give a zero transfer. |
| Diffusion.AppendTo | Assets/_Scripts/Systems/SCA3_HeatTransferSystem.cs:97 | The appended command targets the entity and carries the amount in the chosen buffer. |
| Diffusion.NeighbourLoop | Assets/_Scripts/Systems/SCA4_MoistureDiffusionSystem.cs:80-104 | The loop over the six directions yields the specification `NeighbourPart`, including a config lookup that fails. |
| Diffusion.DiffusionJob | Assets/_Scripts/Systems/SCA4_MoistureDiffusionSystem.cs:68-109 | One `Execute`, with its guards, yields the specification `Exchange`. |
| Diffusion.ThrowStays | Assets/_Scripts/Systems/SCA3_HeatTransferSystem.cs:88 | Once a config lookup fails, the remaining directions add nothing. |
| Diffusion.NeighbourPartTargets | Assets/_Scripts/Systems/SCA3_HeatTransferSystem.cs:80-97 | Every command of the neighbour loop goes to an occupied axis neighbour's buffer of the right quantity. |
| Diffusion.Conserved | Assets/_Scripts/Systems/SCA3_HeatTransferSystem.cs:94-102 | The amounts one `Execute` appends sum to zero. |
| Diffusion.ExchangeTargets | Assets/_Scripts/Systems/SCA3_HeatTransferSystem.cs:97-102 | All commands are of the chosen quantity and go to axis neighbours, except possibly a last one to the cell itself. |
| Diffusion.NeighbourPartComplete | Assets/_Scripts/Systems/SCA4_MoistureDiffusionSystem.cs:83-103 | Every occupied neighbour with the component and a non-zero transfer receives exactly that transfer. |
| Diffusion.EqualValuesAppendNothing | Assets/_Scripts/Systems/SCA3_HeatTransferSystem.cs:93-102 | When every neighbour's value equals the cell's, nothing is appended, not even the self entry. |
| Diffusion.NeighbourPartQuiet | Assets/_Scripts/Systems/SCA3_HeatTransferSystem.cs:93 | Neighbours with equal values make the loop append nothing. |
| Diffusion.RecordAll | Assets/_Scripts/Systems/SCA3_HeatTransferSystem.cs:33-41 | The whole job's buffer only targets existing cells. |
| Diffusion.RecordDiffusion | Assets/_Scripts/Systems/SCA3_HeatTransferSystem.cs:33-41 | The loop over all cells records exactly `RecordAll`. |
| Diffusion.RecordAllConserved | Assets/_Scripts/Systems/SCA3_HeatTransferSystem.cs:94-102 | When no lookup fails, the whole buffer's amounts sum to zero. |
| Diffusion.RecordAllQuantity | Assets/_Scripts/Systems/SCA4_MoistureDiffusionSystem.cs:103-108 | The moisture job writes only moisture buffers, and the heat job only heat buffers. |
| Diffusion.ExchangeInCells | Assets/_Scripts/Systems/SCA3_HeatTransferSystem.cs:97-102 | One `Execute` only targets existing cells. |
| HeatTransferSystem.HeatTransferUpdate | Assets/_Scripts/Systems/SCA3_HeatTransferSystem.cs:18-49 | `OnUpdate` plays back the recorded heat transfers, then applies the temperature job. The map invariant is kept. |
| MoistureDiffusionSystem.MoistureDiffusionUpdate | Assets/_Scripts/Systems/SCA4_MoistureDiffusionSystem.cs:18-46 | `OnUpdate` plays back the recorded moisture transfers, then applies the moisture job. The map invariant is kept. |
| EvaporationSystem.Min | Assets/_Scripts/Systems/SCA5_EvaporationSystem.cs:60 | `math.min` is at most both arguments and is one of them. |
| EvaporationSystem.HeatLoss | Assets/_Scripts/Systems/SCA5_EvaporationSystem.cs:66 | The heat lost is non-negative for a non-negative amount and latent heat. |
| EvaporationSystem.ComputeAmount | Assets/_Scripts/Systems/SCA5_EvaporationSystem.cs:58-60 | Computes `min((T - 100) * coef, moisture)`. |
| EvaporationSystem.EvaporationJob | Assets/_Scripts/Systems/SCA5_EvaporationSystem.cs:50-71 | One `Execute` records exactly `Evaporate`. |
| EvaporationSystem.EvaporateShape | Assets/_Scripts/Systems/SCA5_EvaporationSystem.cs:54-70 | Nothing is appended exactly when T <= 100, moisture <= 0 or the amount <= 0. Otherwise `-amount` goes to moisture and `-amount*latentHeat` to heat, with `0 < amount <= moisture`. |
| EvaporationSystem.HotMoistCellEvaporates | Assets/_Scripts/Systems/SCA5_EvaporationSystem.cs:54-70 | A cell above 100 degrees with moisture appends both entries when the coefficient is positive. |
| EvaporationSystem.RecordEvaporation | Assets/_Scripts/Systems/SCA5_EvaporationSystem.cs:24-30 | The whole job only targets existing cells. |
| EvaporationSystem.RecordEvaporationOnlyLowers | Assets/_Scripts/Systems/SCA5_EvaporationSystem.cs:69-70 | Every entry is a non-positive moisture or heat change to a cell of the pass. |
| EvaporationSystem.RecordEvaporationJob | Assets/_Scripts/Systems/SCA5_EvaporationSystem.cs:24-30 | The loop over all cells records exactly `RecordEvaporation`. |
| EvaporationSystem.EvaporationUpdate | Assets/_Scripts/Systems/SCA5_EvaporationSystem.cs:16-42 | `OnUpdate` plays back the evaporation buffer, then applies temperature, then moisture. |
| EvaporationSystem.EvaporationOnOneCell | Assets/_Scripts/Systems/SCA5_EvaporationSystem.cs:29-41 | For a cell with empty buffers, one round leaves moisture lowered by exactly the amount (still >= 0), temperature lowered by exactly the heat loss, and both buffers empty. |
| CellTypeUpdateSystem.FirstMatch | Assets/_Scripts/Systems/SCA_CellTypeUpdateSystem.cs:78-86 | Nothing matches exactly when no config's inclusive bands contain both values. Otherwise the index is the first config whose bands do. |
| CellTypeUpdateSystem.TargetOfIsFirstMatch | Assets/_Scripts/Systems/SCA_CellTypeUpdateSystem.cs:77-86 | The target is the Type of the first config whose bands contain the temperature and moisture. |
| CellTypeUpdateSystem.NoMatchGivesNone | Assets/_Scripts/Systems/SCA_CellTypeUpdateSystem.cs:77 | When no config matches, the target is None. |
| CellTypeUpdateSystem.BandsAreClosed | Assets/_Scripts/Systems/SCA_CellTypeUpdateSystem.cs:80-83 | Values on a band's bounds match: both ends are inclusive. |
| CellTypeUpdateSystem.LaterMatchesIgnored | Assets/_Scripts/Systems/SCA_CellTypeUpdateSystem.cs:84-85 | Once a config matches, later configs do not change the target (the scan breaks). |
| CellTypeUpdateSystem.TargetType | Assets/_Scripts/Systems/SCA_CellTypeUpdateSystem.cs:77-86 | The foreach-with-break yields `TargetOf`. |
| CellTypeUpdateSystem.TypeCallsCover | Assets/_Scripts/Systems/SCA_CellTypeUpdateSystem.cs:67-88 | Each recorded call is for an alive cell with its computed target, and every alive cell gets a call. |
| CellTypeUpdateSystem.TypeCallsOncePerCell | Assets/_Scripts/Systems/SCA_CellTypeUpdateSystem.cs:75-88 | No cell is handed to `SetCellType` twice. |
| CellTypeUpdateSystem.CellTypeUpdateJob | Assets/_Scripts/Systems/SCA_CellTypeUpdateSystem.cs:75-89 | The job over all cells records exactly `TypeCalls`. |
| CellTypeUpdateSystem.TypeUpdater.constructor | Assets/_Scripts/Systems/SCA_CellTypeUpdateSystem.cs:15 | The configuration array starts uncreated. |
| CellTypeUpdateSystem.TypeUpdater.OnUpdate | Assets/_Scripts/Systems/SCA_CellTypeUpdateSystem.cs:23-58 | On the first update the array is a fresh copy, of the buffer's length, holding `buffer[i].Data` at `i`. Later updates keep it. The calls are `TypeCalls` over it. |
| ExplosionSystem.Ceil | Assets/_Scripts/Systems/SCA7_ExplosionSystem.cs:64 | `math.ceil` gives the least integer not below its argument. |
| ExplosionSystem.ExplosionRange | Assets/_Scripts/Systems/SCA7_ExplosionSystem.cs:64 | For positive energy, `range = ceil(sqrt(energy))` satisfies `range >= 1`, `range^2 >= energy` and `(range-1)^2 < energy`. |
| ExplosionSystem.ImpulseMagnitude | Assets/_Scripts/Systems/SCA7_ExplosionSystem.cs:91-92 | The magnitude is non-negative for non-negative energy, coefficient and falloff. |
| ExplosionSystem.StrikesAppend | Assets/_Scripts/Systems/SCA7_ExplosionSystem.cs:73-104 | Strikes over two offset runs are the concatenation of their strikes. |
| ExplosionSystem.ConcatDistinct | Assets/_Scripts/Systems/SCA7_ExplosionSystem.cs:73-75 | Concatenating rows whose offsets carry their own row key yields no offset twice. |
| ExplosionSystem.CubeContents | Assets/_Scripts/Systems/SCA7_ExplosionSystem.cs:73-75 | The triple loop visits every offset of the cube `[-r, r]^3`, each exactly once. |
| ExplosionSystem.CubeStrikes | Assets/_Scripts/Systems/SCA7_ExplosionSystem.cs:73-104 | The nested loops' output is the strikes over the cube in loop order. |
| ExplosionSystem.StrikeOffset | Assets/_Scripts/Systems/SCA7_ExplosionSystem.cs:77-103 | The innermost body records `Strike` for its offset. |
| ExplosionSystem.StrikeRow | Assets/_Scripts/Systems/SCA7_ExplosionSystem.cs:75-104 | The `dz` loop records its row's strikes. |
| ExplosionSystem.StrikePlane | Assets/_Scripts/Systems/SCA7_ExplosionSystem.cs:74-104 | The `dy` loop records its plane's strikes. |
| ExplosionSystem.StrikeCube | Assets/_Scripts/Systems/SCA7_ExplosionSystem.cs:73-104 | The `dx` loop records the strikes over the whole cube. |
| ExplosionSystem.ExplosionJob | Assets/_Scripts/Systems/SCA7_ExplosionSystem.cs:51-109 | One `Execute` records exactly `Explode`. |
| ExplosionSystem.Hits | Assets/_Scripts/Systems/SCA7_ExplosionSystem.cs:78-85 | The hit offsets are exactly the visited offsets within range, not the origin and occupied, each once. |
| ExplosionSystem.StrikesPairedWithHits | Assets/_Scripts/Systems/SCA7_ExplosionSystem.cs:73-104 | The strikes are one impulse and then one heat entry per hit, in loop order. The cube's hits are the non-zero occupied offsets with `|o|^2 <= range^2`. |
| ExplosionSystem.InBallIffInteger | Assets/_Scripts/Systems/SCA7_ExplosionSystem.cs:78-81 | `!(length(o) > range)` holds exactly when the integer squared length is at most `range^2`. |
| ExplosionSystem.BallInsideCube | Assets/_Scripts/Systems/SCA7_ExplosionSystem.cs:73-81 | Every offset in the ball is inside the cube the loops visit. |
| ExplosionSystem.CubeHitsAreBall | Assets/_Scripts/Systems/SCA7_ExplosionSystem.cs:73-85 | The cube's hits are exactly the occupied non-zero offsets of the integer ball. |
| ExplosionSystem.FalloffInUnit | Assets/_Scripts/Systems/SCA7_ExplosionSystem.cs:88 | The factor `1 - d/range` lies in [0,1] for a hit. |
| ExplosionSystem.ImpulsePointsOutward | Assets/_Scripts/Systems/SCA7_ExplosionSystem.cs:91-96 | The impulse is a non-negative multiple of `normalize(offset)`, so it points away from the exploding cell. |
| ExplosionSystem.ExplodeShape | Assets/_Scripts/Systems/SCA7_ExplosionSystem.cs:57-108 | Energy <= 0 records nothing. Otherwise: energy is set to 0; the cell's own heat gains `energy * ExplosionHeatCoefficient`; then one impulse and one heat entry per hit; then one None call with the cell's coordinate. |
| ExplosionSystem.StrikesMissSelf | Assets/_Scripts/Systems/SCA7_ExplosionSystem.cs:82-85 | No strike targets the exploding cell, and no two strikes of one explosion share a target cell. |
| ExplosionSystem.ExplodeTargetsIn | Assets/_Scripts/Systems/SCA7_ExplosionSystem.cs:67-103 | One explosion only targets existing cells. |
| ExplosionSystem.StrikesTargetsIn | Assets/_Scripts/Systems/SCA7_ExplosionSystem.cs:99-103 | When each offset's strike targets existing cells, so do all the strikes. |
| ExplosionSystem.RecordExplosions | Assets/_Scripts/Systems/SCA7_ExplosionSystem.cs:32-40 | The job's buffer only targets existing cells. |
| ExplosionSystem.ToNoneCover | Assets/_Scripts/Systems/SCA7_ExplosionSystem.cs:108 | Each None call is for a detonating cell of the pass at its coordinate, and every detonating cell gets one. |
| ExplosionSystem.RecordExplosionJob | Assets/_Scripts/Systems/SCA7_ExplosionSystem.cs:32-39 | The loop over the query records exactly `RecordExplosions`. |
| ExplosionSystem.ExplosionUpdate | Assets/_Scripts/Systems/SCA7_ExplosionSystem.cs:18-41 | `OnUpdate` plays back the buffer, keeps the map invariant and returns the None calls. |
| CellPoolQueueSystem.PendingContents | Assets/_Scripts/Systems/S1_CellPoolQueueSystem.cs:28-32 | An entity is enqueued exactly when it is a `CellTag` entity with `PendingDequeue` enabled. |
| CellPoolQueueSystem.PendingOnce | Assets/_Scripts/Systems/S1_CellPoolQueueSystem.cs:28-32 | No entity is enqueued twice. |
| CellPoolQueueSystem.ClearedFrame | Assets/_Scripts/Systems/S1_CellPoolQueueSystem.cs:33-36 | Playback disables the flag of each enqueued cell and leaves every other cell unchanged. |
| CellPoolQueueSystem.SecondPassEnqueuesNothing | Assets/_Scripts/Systems/S1_CellPoolQueueSystem.cs:28-36 | After playback, a second pass enqueues nothing. |
| CellPoolQueueSystem.ClearedKeepsMap | Assets/_Scripts/Systems/S1_CellPoolQueueSystem.cs:33-36 | Clearing the flags keeps the map invariant. |
| CellPoolQueueSystem.EnqueuePending | Assets/_Scripts/Systems/S1_CellPoolQueueSystem.cs:28-34 | The queue gains the pending cells at its back, in query order, and the buffer records them. |
| CellPoolQueueSystem.PlaybackDisable | Assets/_Scripts/Systems/S1_CellPoolQueueSystem.cs:36 | Playback disables `PendingDequeue` on each recorded entity. |
| CellPoolQueueSystem.PoolQueueUpdate | Assets/_Scripts/Systems/S1_CellPoolQueueSystem.cs:19-37 | The old queue contents stay in front, followed by the pending cells. Their flags are cleared, and every other cell is untouched. |
| SpaceshipFinalizationSystem.SumVAppend | Assets/_Scripts/Systems/FCA9_SpaceshipFinalizationUpdateSystem.cs:32-37 | Summing two runs of impulses adds their sums. |
| SpaceshipFinalizationSystem.NoTempCellsNoFeedback | Assets/_Scripts/Systems/FCA9_SpaceshipFinalizationUpdateSystem.cs:26-44 | With no temporary cells, nothing is collected and the feedback is the zero vector. |
| SpaceshipFinalizationSystem.CollectedContents | Assets/_Scripts/Systems/FCA9_SpaceshipFinalizationUpdateSystem.cs:32-37 | Every buffered impulse of a temporary cell is collected, and nothing else is. |
| SpaceshipFinalizationSystem.ClearedFrame | Assets/_Scripts/Systems/FCA9_SpaceshipFinalizationUpdateSystem.cs:40 | Each temporary cell's buffer is empty afterwards, and every other cell is unchanged. |
| SpaceshipFinalizationSystem.ClearedKeepsMap | Assets/_Scripts/Systems/FCA9_SpaceshipFinalizationUpdateSystem.cs:40 | Emptying buffers keeps the map invariant. |
| SpaceshipFinalizationSystem.AddImpulses | Assets/_Scripts/Systems/FCA9_SpaceshipFinalizationUpdateSystem.cs:37 | The inner loop adds the buffer's sum to the running total. |
| SpaceshipFinalizationSystem.FinalizationUpdate | Assets/_Scripts/Systems/FCA9_SpaceshipFinalizationUpdateSystem.cs:22-45 | The feedback becomes the sum of all collected impulses, overwriting what it held. The buffers read are emptied, and the map invariant is kept. |
| CellConfigCreator.Split | Assets/_Scripts/Authorings/CellConfigCreator.cs:23-30 | `String.Split(c)` gives at least one piece, and no piece contains the separator. |
| CellConfigCreator.JoinSplit | Assets/_Scripts/Authorings/CellConfigCreator.cs:23 | Joining the pieces with the separator gives back the text. |
| CellConfigCreator.SplitJoin | Assets/_Scripts/Authorings/CellConfigCreator.cs:30 | Splitting joined separator-free pieces gives back the pieces. |
| CellConfigCreator.SplitLine | Assets/_Scripts/Authorings/CellConfigCreator.cs:23 | A text `a + sep + t`, with no separator in `a`, splits into `a` followed by the pieces of `t`. |
| CellConfigCreator.Trim | Assets/_Scripts/Authorings/CellConfigCreator.cs:27 | `String.Trim` leaves no leading or trailing white space. |
| CellConfigCreator.TrimUnique | Assets/_Scripts/Authorings/CellConfigCreator.cs:27 | Trimming white-space padding around a trimmed text gives that text. |
| CellConfigCreator.TrimSlice | Assets/_Scripts/Authorings/CellConfigCreator.cs:27 | Every text is white space, then its trim, then white space. |
| CellConfigCreator.TrimIdempotent | Assets/_Scripts/Authorings/CellConfigCreator.cs:27 | Trimming twice is trimming once. |
| CellConfigCreator.TrimDropsCarriageReturn | Assets/_Scripts/Authorings/CellConfigCreator.cs:27 | A trailing `\r` (Windows line ends) is removed. |
| CellConfigCreator.ParseStep | Assets/_Scripts/Authorings/CellConfigCreator.cs:25-39 | One loop iteration: once stopped, parsing stays stopped. Otherwise a line that is empty after trimming is skipped, a line with fewer than 4 fields stops at its index, and any other line appends its config. |
| CellConfigCreator.ThrowPersists | Assets/_Scripts/Authorings/CellConfigCreator.cs:31-35 | Once a short line throws, later lines change nothing. |
| CellConfigCreator.Start | Assets/_Scripts/Authorings/CellConfigCreator.cs:14-45 | The loop yields `ConfigsFromCsv`: nothing when the asset is missing, a throw at the first short data line, otherwise the config buffer built from the parsed list. |
| CellConfigCreator.DataLines | Assets/_Scripts/Authorings/CellConfigCreator.cs:25-28 | The data lines after the header, trimmed, with empty ones dropped: each is non-empty and trimmed. |
| CellConfigCreator.ParsedIffWellFormed | Assets/_Scripts/Authorings/CellConfigCreator.cs:30-35 | Parsing finishes exactly when every data line has at least 4 comma-separated fields. |
| CellConfigCreator.ConfigsOfAppend | Assets/_Scripts/Authorings/CellConfigCreator.cs:38 | Appending a line's config extends the "one config per data line" relation by that line. |
| CellConfigCreator.OneConfigPerDataLine | Assets/_Scripts/Authorings/CellConfigCreator.cs:22-38 | The output holds one config per data line, in file order. Type comes from field 1 (fallback None), State from field 2 (fallback None), Mass from field 3 (fallback 1). Field 0 is ignored. |
| CellConfigCreator.ThrowsAtFirstShortLine | Assets/_Scripts/Authorings/CellConfigCreator.cs:30-35 | A throw reports a data line (never the header) that is non-empty after trimming and has fewer than 4 fields, and the lines before it parse without a throw. |
| CellConfigCreator.HeaderNotRead | Assets/_Scripts/Authorings/CellConfigCreator.cs:25 | Line 0 is never parsed: changing it changes nothing. |
| CellConfigCreator.HeaderIgnored | Assets/_Scripts/Authorings/CellConfigCreator.cs:23-25 | Two files that differ only in their first line give the same outcome. |

## Left out

- Concurrency: parallel job scheduling, parallel command-buffer writers and dependency barriers are not modelled. Each job runs as a sequential loop over an entity order given as a parameter. Its buffered writes are then played back in that order.
- The race in which an exploding cell's `SetCellTypeToNone` runs while other workers read the map is not modelled.
- Floating point: `float` is `real`. Rounding, NaN and overflow are not modelled. `normalize` of the zero vector is taken to be the zero vector.
- `sqrt` is a parameter constrained by `IsSqrt`. `math.ceil` and `math.round` (half to even) are modelled exactly on reals.
- `GlobalConfig.MaxSpeed`, `PhysicsSpeedScale`, `ImpulseLossFactor` and the heat, moisture, evaporation, water-latent-heat and explosion coefficients are not declared in the modelled `GlobalConfig.cs`. They are parameters (`PhysicsParams`, `EvaporationParams`, `ExplosionParams`, `coefficient`).
- CellUtility.EnqueueCellIntoPool, CellUtility.InstantiateFromPrototype, CellUtility.SetCellType and the component writes of CellUtility.TryAddCellToWorld: the source records these writes in an entity command buffer, so they take effect only when the caller plays the buffer back. The model applies them at once. The map insertion of `TryAddCellToWorld` and the queue append of `EnqueueCellIntoPool` are immediate in the source too.
- The static per-type tables and constants of `GlobalConfig` are declared with their values. No modelled operation reads the tables or the pool and capacity constants, so no property is stated about them beyond the table index (`LookupIndexOfTypes`).
- The per-type `CellConfig` struct and the `NativeArray<CellConfig>.GetCellConfig` extension are not part of this model. The record holds the fields these systems read, and the lookup reuses `CellUtility.GetCellConfig` (first match, with "missing" as an outcome instead of a throw).
- `CellUtility.SetCellType(cell, ecb, map, queue, type)` (the five-argument overload) and `SetCellTypeToNone` are not part of this model. The type-update and explosion systems return the calls they make (`SetTypeCall`, `NoneCall`) instead of performing them.
- Exceptions, such as a failed config lookup or an index out of range in the CSV reader, are modelled as error outcomes (`ConfigMissing`, `Thrown`). The model does not describe what the host does after one.
- `Enum.TryParse` and `int.TryParse` are parameters (`FieldParsers`). Reading the `TextAsset` is modelled as an optional string.
- `Debug.Log` / `Debug.LogError` output is not modelled.
- Entity-name setting, render-mesh components, material ids beyond the `(uint)` mesh id, and entity creation in the host's entity manager are left out. A new entity is the next unused number.
- The query order of entities and the temporary-cell entity array are parameters. The finalization, pool and type-update passes assume that array lists each entity once, as an entity array does.
- The `IsAlive` and `Velocity`-enabled filters are modelled as cell flags. The `_cellQuery.CalculateEntityCount()` test of the step loop is `AnyMoving`.
- PhysicCandidates.GetAvailableCoordinates: requires the write bound, so it models the as-written builder only for Solid, Liquid and None. Powder and Gas write past the array; see Findings.
- PhysicSystem.Execute: the candidate builder is a parameter. `AsWritten` is the source's `GetAvailableCoordinates`, and `AsIntended` is the corrected builder. What the host does after an overflow's index exception (logging, aborting the job) is modelled only as the end of the pass in `MoveAll`.
- PhysicUpdate.MoveAll: proves the invariant is kept, but does not state the resulting world as one function of the old one.
- Diffusion.RecordAllConserved: states conservation only when no config lookup fails in the pass.
- ExplosionSystem.ExplosionUpdate: computes every explosion from the map and cells at the start of the pass, as the recorded buffer does. The None calls it returns are not applied.

## Findings

| source | as written | input that shows it | evidently intended | confidence | as-written member | corrected member |
|---|---|---|---|---|---|---|
| Assets/_Scripts/Systems/FCA8_PhysicSystem.cs:218-259 | The slot counts are Solid 1, Powder 9 and Liquid 17. The blocks written are chosen by `cellState >= Solid/Powder/Liquid` on the enum ordinals (Solid 1, Liquid 2, Gas 3, Powder 4). | A Powder cell writes 17 blocks into a 9-slot array, and a Gas cell 9 blocks into 1 slot. A Liquid cell writes 9 of its 17 slots and leaves 8 at the world origin `(0,0,0)`, which become move candidates. | Solid uses the primary block; Powder adds the layer ahead; Liquid adds its own layer; each state fills exactly its slot count. | not executed | PhysicCandidates.WrittenBuilderOverflows | PhysicCandidates.IntendedFillsSlots |
