/**
  The state of one reconciliation pass of `UpdateChunks` (the reuse pool
  and the `foreach` loop over the required cells) and the facts the pass
  keeps true from one iteration of its loop to the next.
 */
module Pass {
  import opened Geometry
  import opened Seqs
  import opened Registry

  /**
    The state of a reconciliation pass between two iterations of the
    `foreach` loop: the registry, the reuse pool `coordsToMove` and the
    number of objects created so far.
   */
  datatype Pass = Pass(registry: Registry, pool: seq<Coord>, created: nat)

  /**
    One iteration of the loop for the required cell `coord`: a registered cell
    is dropped from the pool; an unregistered one takes the object of the
    pool's front cell, or a newly created object once the pool is empty.
   */
  function Visit(p: Pass, size: Vec3, coord: Coord): Pass {
    if coord !in p.registry.active then
      if |p.pool| > 0 then Pass(MoveChunk(p.registry, size, p.pool[0], coord), p.pool[1..], p.created)
      else Pass(CreateChunk(p.registry, size, coord), p.pool, p.created + 1)
    else
      Pass(p.registry, RemoveFirst(p.pool, coord), p.created)
  }

  /** The loop run over the cells of `coords`, in that order. */
  function Run(p: Pass, size: Vec3, coords: seq<Coord>): Pass
    decreases |coords|
  {
    if coords == [] then p else Run(Visit(p, size, coords[0]), size, coords[1..])
  }

  /**
    Every cell in the pool is registered and occurs once, so the front cell
    handed to `MoveChunk` is always found.
   */
  predicate PoolRegistered(r: Registry, pool: seq<Coord>) {
    Distinct(pool) && Elems(pool) <= r.active.Keys
  }

  /**
    Pool bookkeeping of a pass that started from `reg`, once the cells in
    `visited` have been handled: the registered cells are the visited ones
    plus the pooled ones, no visited cell is pooled, only cells registered
    when the pass began are pooled, and the pool is drawn on for creation
    only once it is empty.
   */
  ghost predicate KeysInvariant(reg: Registry, p: Pass, visited: set<Coord>) {
    && PoolRegistered(p.registry, p.pool)
    && p.registry.active.Keys == visited + Elems(p.pool)
    && visited !! Elems(p.pool)
    && Elems(p.pool) <= reg.active.Keys
    && (p.created > 0 ==> p.pool == [])
  }

  /** Cell `c` still holds the object it held in `before`, at that object's old position. */
  predicate Kept(before: Registry, after: Registry, c: Coord) {
    && c in before.active && c in after.active
    && after.active[c] == before.active[c]
    && before.active[c] in before.placed && after.active[c] in after.placed
    && after.placed[after.active[c]] == before.placed[before.active[c]]
  }

  /**
    Every registered cell either still holds its object from `reg`, untouched,
    or holds an object placed at its own centre.
   */
  predicate Settled(reg: Registry, r: Registry, size: Vec3) {
    forall c :: c in r.active ==> Kept(reg, r, c) || r.SitsAt(c, ChunkCenter(c, size))
  }
}
