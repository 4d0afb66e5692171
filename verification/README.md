# Chunk streaming around a moving target

This project models the chunk manager of the Subsea Unity scene,
`Assets/Subsea/Script/ChunkManager.cs`. The manager keeps a 3x3x3 window of
terrain chunks resident around a target transform. On every frame it maps the
target position to an integer cell (`GetTargetChunk`). When that cell differs
from the one recorded on the previous change, it reconciles the registry
`activeChunks` (cell to chunk object) with the 27 cells around the new cell
(`UpdateChunks`). Reconciliation reuses existing chunk objects by
repositioning them (`MoveChunk`). It instantiates new ones (`CreateChunk`)
only once no reusable object is left.

Modules, one per concern of the program:

- `Geometry` (`geometry.dfy`) covers cells, world positions, the floor
  mapping `GetTargetChunk` and the world centre `Vector3.Scale(c, chunkSize) +
  chunkSize / 2`.
  - Unity's `Vector3` becomes exact reals and `Vector3Int` unbounded integers.
  - `Mathf.FloorToInt` becomes `.Floor`.
- `Neighborhood` (`neighborhood.dfy`) covers the cube of cells around a centre:
  `GetSurroundingChunks` with its three nested loops, and the look-ahead set of
  `GetPotentialChunkBorders`.
- `Seqs` (`seqs.dfy`) covers the reuse pool `coordsToMove`, a `List`, as a
  sequence, with `List.Remove` as `RemoveFirst`. It also defines what it means
  for a sequence to be one enumeration order of an unordered collection.
- `Registry` (`registry.dfy`) covers the registry and the chunk objects.
  - `Instantiate` is a fresh-id generator (`nextId`).
  - The world position of every object ever instantiated is recorded in
    `placed`.
  - `CreateChunk` and `MoveChunk` follow the source branch for branch,
    including the not-found branch of `MoveChunk`.
- `Pass` (`pass.dfy`) covers the state of one reconciliation pass (registry,
  pool, creation count) and the loop body `Visit`.
  - `Run` folds `Visit` over a visiting order.
  - The module also defines the facts the loop keeps.
- `ChunkManager` (`manager.dfy`) covers the following:
  - The proofs that each iteration and the whole loop keep those facts.
  - `VisitAll`, the imperative loop. It is proved equal to `Run`, which
    connects the source's loop to the fold the properties are proved of.
  - `Reconcile` and `UpdateChunks`.
  - The manager state and the per-frame gate `Update`.

The source leaves two orders unspecified:
- the enumeration order of the `HashSet` of required cells;
- the order in which `new List<Vector3Int>(activeChunks.Keys)` lists the
  registered cells.

Both are explicit parameters (`visitOrder`, `keyOrder`), constrained only by
`Enumerates`. They must list each member of their collection exactly once.
Every property below holds for every choice of both.

The reuse pool starts as a snapshot of all registered cells, not only the
stale ones (line 50), and still-required cells are pruned from it only when
the loop reaches them (line 69). A still-required cell that has not been
visited yet can therefore lose its object to another cell and be refilled
later. `ChunkManager.RequiredCellMayLoseItsObject` exhibits this. The model
therefore claims only that every cell ends up holding one of two things:
- its original object, untouched;
- an object placed at its own centre (`Pass.Settled`).

It does not claim that resident chunks stay where they are.

In particular, slots present in both the old and the new window are not
guaranteed to keep their object. A one-cell step of the target can
reposition more than the nine chunks of the trailing plane, because the pool
holds every registered cell (line 50).
`ChunkManager.StepMayMoveRequiredCell` shows this for a step from (0,0,0) to
(1,0,0). The number of creations is `max(0, |missing| - |stale|)`
(`ChunkManager.Shortfall`). This is proved equal to `max(0, 27 - n)` for a
registry of `n` cells.

## Model

| member | source | states |
|---|---|---|
| Geometry.FloorToInt | Assets/Subsea/Script/ChunkManager.cs:39-41 | For a positive extent `s`, the result is the index `k` with `k*s <= p < (k+1)*s`. |
| Geometry.SlotUnique | Assets/Subsea/Script/ChunkManager.cs:39-41 | At most one index satisfies `k*s <= p < (k+1)*s`, so the floor cell is the only cell holding the point. |
| Geometry.TargetChunk | Assets/Subsea/Script/ChunkManager.cs:36-44 | For a positive chunk size, the computed cell contains the target position on every axis. |
| Geometry.TargetChunkIsTheCell | Assets/Subsea/Script/ChunkManager.cs:36-44 | The computed cell equals `c` if and only if `c` contains the position. |
| Geometry.TargetChunkExamples | Assets/Subsea/Script/ChunkManager.cs:36-44 | With chunk size 5: (0,0,0) and (1,0,0) lie in cell (0,0,0), and (5.1,0,0) lies in cell (1,0,0). |
| Geometry.CenterMapsBackToCell | Assets/Subsea/Script/ChunkManager.cs:92 | The position given to a chunk placed for cell `c` lies inside `c`, so mapping it back yields `c`. |
| Geometry.CenterInjective | Assets/Subsea/Script/ChunkManager.cs:102 | Distinct cells get distinct placement positions. |
| Neighborhood.Cube | Assets/Subsea/Script/ChunkManager.cs:76-86 | A cell is in the cube exactly when each coordinate differs from the centre's by at most the radius. |
| Neighborhood.WindowCard | Assets/Subsea/Script/ChunkManager.cs:74-88 | The radius-1 cube has exactly 27 cells and contains its centre. |
| Neighborhood.SurroundingChunks | Assets/Subsea/Script/ChunkManager.cs:74-88 | The three nested loops produce exactly the cells whose x, y and z each differ from the centre by -1, 0 or 1: 27 cells including the centre. |
| Neighborhood.PotentialChunkBorders | Assets/Subsea/Script/ChunkManager.cs:142-160 | A cell is drawn as look-ahead exactly when it lies within `extraChunkBorders` of the target and is not registered. |
| Neighborhood.BordersAroundFullWindow | Assets/Subsea/Script/ChunkManager.cs:142-160 | When the registry is exactly the target's window, the look-ahead cells form the ring outside the window, and there are none exactly when `extraChunkBorders <= 1`. |
| Seqs.EnumerationLength | Assets/Subsea/Script/ChunkManager.cs:50 | An enumeration of a collection has one entry per member, so the pool starts with as many cells as are registered. |
| Seqs.RemoveFirst | Assets/Subsea/Script/ChunkManager.cs:69 | `List.Remove` takes out one occurrence (as multisets) and leaves a list without the cell unchanged. |
| Seqs.RemoveFirstSplit | Assets/Subsea/Script/ChunkManager.cs:69 | `List.Remove` cuts out the first occurrence of the cell only. The cells before it and after it stay, in their order, so the next front of the pool is determined. |
| Seqs.RemoveFirstFromDistinct | Assets/Subsea/Script/ChunkManager.cs:69 | On a pool without duplicates, removal takes out exactly that cell and keeps the pool free of duplicates. |
| Registry.Empty | Assets/Subsea/Script/ChunkManager.cs:18 | The initial empty registry is valid. |
| Registry.CreateChunk | Assets/Subsea/Script/ChunkManager.cs:90-96 | The cell is registered with the object whose id `Instantiate` hands out (`nextId`), placed at the cell's centre. Every other registration is unchanged, and exactly one id is handed out. |
| Registry.CreateChunkIsFresh | Assets/Subsea/Script/ChunkManager.cs:92-94 | The created object did not exist before, and every existing object keeps its position. |
| Registry.CreateChunkKeepsValid | Assets/Subsea/Script/ChunkManager.cs:90-96 | Creating for an unregistered cell keeps distinct cells on distinct objects and adds exactly one object. |
| Registry.MoveChunk | Assets/Subsea/Script/ChunkManager.cs:98-112 | If the old cell is registered, its object (the same one) moves to the new cell's centre under the new key, the old key is removed and other registrations are unchanged. Otherwise nothing changes. No id is handed out. |
| Registry.MoveChunkKeepsValid | Assets/Subsea/Script/ChunkManager.cs:98-106 | Moving to an unregistered cell destroys and creates no object, repositions only the moved one, and keeps the registry valid. |
| ChunkManager.VisitRegistered | Assets/Subsea/Script/ChunkManager.cs:67-70 | Visiting a registered cell drops it from the pool (the pool shrinks by one) and keeps the key bookkeeping. |
| ChunkManager.VisitMove | Assets/Subsea/Script/ChunkManager.cs:55-61 | When an unregistered cell is visited with a non-empty pool, the front cell of the pool is registered, so `MoveChunk` never takes its not-found branch; the key bookkeeping is kept. |
| ChunkManager.VisitCreate | Assets/Subsea/Script/ChunkManager.cs:62-65 | Creation happens only with an empty pool and keeps the key bookkeeping. |
| ChunkManager.VisitKeepsKeys | Assets/Subsea/Script/ChunkManager.cs:53-70 | One iteration keeps the pool invariant (pooled cells registered, unvisited, registered at the start, no duplicates), and either shrinks the pool by one or creates one object. |
| ChunkManager.RunKeepsKeys | Assets/Subsea/Script/ChunkManager.cs:52-71 | Over any sequence of unvisited cells, the registered cells are always the visited ones plus the pooled ones, and pool size plus creations changes by one per cell. |
| ChunkManager.VisitKeepsValid | Assets/Subsea/Script/ChunkManager.cs:53-70 | One iteration keeps distinct cells on distinct objects and every pooled cell registered, adding one object exactly when it creates one. |
| ChunkManager.RunKeepsValid | Assets/Subsea/Script/ChunkManager.cs:52-71 | The loop keeps the registry valid, and the number of objects grows by exactly the number of creations. |
| ChunkManager.RunKeepsObjects | Assets/Subsea/Script/ChunkManager.cs:52-71 | The loop never destroys an object and hands out one fresh id per creation. |
| ChunkManager.MoveKeepsPlacement | Assets/Subsea/Script/ChunkManager.cs:98-106 | A move from a registered cell to an unregistered one leaves every object other than the moved one where it was. It keeps every cell holding its untouched original object or an object at its own centre (`Pass.Settled`). |
| ChunkManager.CreateKeepsPlacement | Assets/Subsea/Script/ChunkManager.cs:90-96 | A creation for an unregistered cell leaves every existing object where it was. It keeps every cell holding its untouched original object or an object at its own centre (`Pass.Settled`). |
| ChunkManager.VisitKeepsSettled | Assets/Subsea/Script/ChunkManager.cs:53-70 | After one iteration each registered cell still holds its original object, untouched, or holds an object at its own centre. |
| ChunkManager.RunKeepsSettled | Assets/Subsea/Script/ChunkManager.cs:52-71 | The same holds after the whole loop. |
| ChunkManager.SettledPlaced | Assets/Subsea/Script/ChunkManager.cs:52-71 | If every object sat at its cell's centre before the pass, every one does after it. |
| ChunkManager.StartPass | Assets/Subsea/Script/ChunkManager.cs:50 | The pool copied from the keys satisfies the pool invariant before the first iteration. |
| ChunkManager.FinishPass | Assets/Subsea/Script/ChunkManager.cs:52-71 | Once every window cell is visited, the window is registered and only cells of the window or of the old registry remain. From at most `|window|` cells the pool is used up: keys equal the window and `|window| - n` objects were created. From more cells nothing was created. |
| ChunkManager.PassCoversWindow | Assets/Subsea/Script/ChunkManager.cs:46-72 | The same key and creation facts for a whole pass, for every visiting order and key order. |
| ChunkManager.PassKeepsObjects | Assets/Subsea/Script/ChunkManager.cs:46-72 | For a whole pass, no object is destroyed and ids grow by the creation count. A valid registry stays valid with one more object per creation, and each cell holds its untouched object or one at its centre. |
| ChunkManager.MissingMinusStale | Assets/Subsea/Script/ChunkManager.cs:56-65 | Missing minus stale cells equals window size minus registry size, so `max(0, missing - stale)` is `max(0, |window| - n)`. |
| ChunkManager.Reconcile | Assets/Subsea/Script/ChunkManager.cs:50-71 | For every visiting and key order: every window cell is registered and no cell outside window and old keys is. From at most `|window|` cells the keys equal the window. Creations equal `max(0, missing - stale)`. No object is destroyed. Validity, object count and placement are kept. |
| ChunkManager.RequiredCellMayLoseItsObject | Assets/Subsea/Script/ChunkManager.cs:50-61 | With cell (0,0,0) registered and cells visited in the order (1,0,0), (0,0,0), the object of the still-required cell moves to (1,0,0) and (0,0,0) is refilled by a creation. |
| ChunkManager.StepMayMoveRequiredCell | Assets/Subsea/Script/ChunkManager.cs:50-61 | Take a registry covering the window of (0,0,0) and a target stepping to (1,0,0). If (2,0,0) is visited first and (0,0,0) is listed first, the first iteration moves the object of (0,0,0) to (2,0,0). The new window still requires (0,0,0), and it is left unregistered. |
| ChunkManager.UpdateChunks | Assets/Subsea/Script/ChunkManager.cs:46-72 | The same for the 27-cell window of the target. From at most 27 cells the keys equal the window after `27 - n` creations; from 27 or more cells nothing is created. |
| ChunkManager.Update | Assets/Subsea/Script/ChunkManager.cs:26-34 | An unchanged target cell leaves the state identical with no creation. A changed one records the new cell and registers its whole window. A registry covering the recorded window keeps covering it with no creation. Validity and placement are kept. |

## Left out

- `Start` and the default (0,0,0) value of `previousTargetChunk` are not modelled. The first reconciliation from the empty registry is `UpdateChunks` applied to `Registry.Empty()`.
- `Update` takes the target position as a parameter and computes the target cell once. On a frame where the cell changes, the source calls `GetTargetChunk` three times: line 29, line 48 inside `UpdateChunks`, and line 32. The three calls agree because nothing in between moves the target.
- Chunk names (lines 93 and 103), `LogDebug`, `OnGUI` and the gizmo drawing (`OnDrawGizmos`, `DrawChunkBorders`) are left out. They are display only. The centre formula of line 137 is the same `ChunkCenter` as for placement.
- The prefab, rotation and parent transform passed to `Instantiate` are left out. An object is only an id with a world position.
- Floating-point rounding in `Vector3.Scale`, in `chunkSize / 2` and in `position / chunkSize` is not modelled. Positions and sizes are exact reals.
- Geometry.TargetChunk: requires a positive chunk size on every axis, because a non-positive size divides by zero or flips the cells. The source does not check this.
- Geometry.FloorToInt: requires a positive extent, for the same reason as `Geometry.TargetChunk`.
- ChunkManager.Update: requires a positive chunk size, because it computes the target cell with `Geometry.TargetChunk`.
- Registry.MoveChunkKeepsValid: requires the target cell to be unregistered. When called directly on a registered target, `MoveChunk` overwrites the entry just as the source does, but validity is not claimed. The reconciliation loop never does this (`ChunkManager.VisitMove`).
- Creation cannot fail in this model. When `chunkPrefab` is unassigned, `Instantiate` at line 92 throws. The pass then stops midway, before line 32 records the new cell. This exception path is not modelled.
- Integer width is not modelled. `Vector3Int` components are unbounded integers. There is no wrap-around of `centerChunk + new Vector3Int(x, y, z)` near `int.MaxValue` (line 83). There is no out-of-range `Mathf.FloorToInt` conversion (lines 40-42). Both happen only about two billion chunks from the origin.
- The other scripts of the repository (the ROV controller, hydrodynamics, rope generator and camera controller) are not part of this model.
