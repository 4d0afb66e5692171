/**
  Positions, chunk extents and integer cell coordinates of the chunk grid.

  Unity's `Vector3` is modelled with exact reals and `Vector3Int` with
  unbounded integers; `Mathf.FloorToInt` becomes the `.Floor` of a real.
 */
module Geometry {

  /** An integer cell coordinate of the chunk grid (Unity's `Vector3Int`). */
  datatype Coord = Coord(x: int, y: int, z: int) {
    /** Componentwise `this + (dx, dy, dz)`. */
    function Plus(dx: int, dy: int, dz: int): Coord {
      Coord(x + dx, y + dy, z + dz)
    }
  }

  /** A point or an extent in world space (Unity's `Vector3`). */
  datatype Vec3 = Vec3(x: real, y: real, z: real)

  /** Every side of a chunk has positive length. */
  predicate PositiveSize(size: Vec3) {
    size.x > 0.0 && size.y > 0.0 && size.z > 0.0
  }

  /** Along one axis of extent `s`, cell `k` is the half-open interval [k*s, (k+1)*s). */
  predicate InSlot(p: real, s: real, k: int) {
    k as real * s <= p < (k + 1) as real * s
  }

  /** The cell `c` contains the point `pos`. */
  predicate InCell(pos: Vec3, size: Vec3, c: Coord) {
    InSlot(pos.x, size.x, c.x) && InSlot(pos.y, size.y, c.y) && InSlot(pos.z, size.z, c.z)
  }

  lemma FloorDivInSlot(p: real, s: real)
    requires s > 0.0
    ensures InSlot(p, s, (p / s).Floor)
  {
    var q := p / s;
    var k := q.Floor;
    assert q * s == p;
    assert (q - k as real) * s >= 0.0;
    assert (k as real + 1.0 - q) * s > 0.0;
  }

  /** A lower cell ends at or before a higher one begins, so no point lies in both. */
  lemma SlotsApart(p: real, s: real, lo: int, hi: int)
    requires s > 0.0 && lo < hi
    ensures !(InSlot(p, s, lo) && InSlot(p, s, hi))
  {
    var d := (hi - lo - 1) as real;
    assert d * s >= 0.0;
    assert hi as real * s == (lo + 1) as real * s + d * s;
  }

  /** At most one cell of a positive extent holds a given point. */
  lemma SlotUnique(p: real, s: real, k1: int, k2: int)
    requires s > 0.0
    requires InSlot(p, s, k1) && InSlot(p, s, k2)
    ensures k1 == k2
  {
    if k1 < k2 {
      SlotsApart(p, s, k1, k2);
    } else if k2 < k1 {
      SlotsApart(p, s, k2, k1);
    }
  }

  /** `Mathf.FloorToInt(p / s)`: the index of the slot of extent `s` holding `p`. */
  function FloorToInt(p: real, s: real): (k: int)
    requires s > 0.0
    ensures InSlot(p, s, k)
  {
    FloorDivInSlot(p, s);
    (p / s).Floor
  }

  /** `GetTargetChunk`: the cell holding the target position, one axis at a time. */
  function TargetChunk(pos: Vec3, size: Vec3): (c: Coord)
    requires PositiveSize(size)
    ensures InCell(pos, size, c)
  {
    Coord(FloorToInt(pos.x, size.x), FloorToInt(pos.y, size.y), FloorToInt(pos.z, size.z))
  }

  /** The cell computed by `TargetChunk` is the one and only cell that holds the position. */
  lemma TargetChunkIsTheCell(pos: Vec3, size: Vec3, c: Coord)
    requires PositiveSize(size)
    ensures TargetChunk(pos, size) == c <==> InCell(pos, size, c)
  {
    var t := TargetChunk(pos, size);
    if InCell(pos, size, c) {
      SlotUnique(pos.x, size.x, t.x, c.x);
      SlotUnique(pos.y, size.y, t.y, c.y);
      SlotUnique(pos.z, size.z, t.z, c.z);
    }
  }

  /**
    With chunks of side 5: the origin lies in cell (0,0,0), the point
    (5.1,0,0) in cell (1,0,0), and the point (1,0,0) still in cell (0,0,0).
   */
  lemma TargetChunkExamples()
    ensures TargetChunk(Vec3(0.0, 0.0, 0.0), Vec3(5.0, 5.0, 5.0)) == Coord(0, 0, 0)
    ensures TargetChunk(Vec3(5.1, 0.0, 0.0), Vec3(5.0, 5.0, 5.0)) == Coord(1, 0, 0)
    ensures TargetChunk(Vec3(1.0, 0.0, 0.0), Vec3(5.0, 5.0, 5.0)) == Coord(0, 0, 0)
  {
    var size := Vec3(5.0, 5.0, 5.0);
    TargetChunkIsTheCell(Vec3(0.0, 0.0, 0.0), size, Coord(0, 0, 0));
    TargetChunkIsTheCell(Vec3(5.1, 0.0, 0.0), size, Coord(1, 0, 0));
    TargetChunkIsTheCell(Vec3(1.0, 0.0, 0.0), size, Coord(0, 0, 0));
  }

  /**
    World position given to a chunk placed for cell `c`:
    `Vector3.Scale(c, chunkSize) + chunkSize / 2`, the same formula for a created
    chunk, a moved chunk and the gizmo of a cell.
   */
  function ChunkCenter(c: Coord, size: Vec3): Vec3 {
    Vec3(c.x as real * size.x + size.x / 2.0,
         c.y as real * size.y + size.y / 2.0,
         c.z as real * size.z + size.z / 2.0)
  }

  /** A chunk's world centre lies inside its own cell, so mapping it back yields the cell. */
  lemma CenterMapsBackToCell(c: Coord, size: Vec3)
    requires PositiveSize(size)
    ensures InCell(ChunkCenter(c, size), size, c)
    ensures TargetChunk(ChunkCenter(c, size), size) == c
  {
    var p := ChunkCenter(c, size);
    assert (c.x + 1) as real * size.x == c.x as real * size.x + size.x;
    assert (c.y + 1) as real * size.y == c.y as real * size.y + size.y;
    assert (c.z + 1) as real * size.z == c.z as real * size.z + size.z;
    TargetChunkIsTheCell(p, size, c);
  }

  /** Distinct cells have distinct centres, for any positive extent. */
  lemma CenterInjective(c1: Coord, c2: Coord, size: Vec3)
    requires PositiveSize(size)
    requires ChunkCenter(c1, size) == ChunkCenter(c2, size)
    ensures c1 == c2
  {
    CenterMapsBackToCell(c1, size);
    CenterMapsBackToCell(c2, size);
  }
}
