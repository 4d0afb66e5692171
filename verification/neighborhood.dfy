/**
  The cubic neighbourhood of a cell: every cell whose coordinates differ from
  the centre by at most `radius` on each axis. Radius 1 is the 3x3x3 window
  kept resident; a larger radius is the read-only look-ahead ring drawn by the
  debug gizmos.
 */
module Neighborhood {
  import opened Geometry

  /** `d` lies within `radius` cells of `center` on every axis. */
  predicate InCube(center: Coord, radius: int, d: Coord) {
    && -radius <= d.x - center.x <= radius
    && -radius <= d.y - center.y <= radius
    && -radius <= d.z - center.z <= radius
  }

  /** The cube of side `2*radius+1` around `center` (empty for a negative radius). */
  function Cube(center: Coord, radius: int): (s: set<Coord>)
    ensures forall d :: d in s <==> InCube(center, radius, d)
  {
    var s := set dx, dy, dz | -radius <= dx <= radius && -radius <= dy <= radius && -radius <= dz <= radius
      :: center.Plus(dx, dy, dz);
    assert forall d :: InCube(center, radius, d) ==> d == center.Plus(d.x - center.x, d.y - center.y, d.z - center.z);
    s
  }

  /** The three cells `(x, y, center.z-1..center.z+1)`. */
  function Row(center: Coord, dx: int, dy: int): set<Coord> {
    {center.Plus(dx, dy, -1), center.Plus(dx, dy, 0), center.Plus(dx, dy, 1)}
  }

  /** The nine cells of the window with x-offset `dx`. */
  function Slab(center: Coord, dx: int): set<Coord> {
    Row(center, dx, -1) + Row(center, dx, 0) + Row(center, dx, 1)
  }

  lemma DisjointUnionCard(a: set<Coord>, b: set<Coord>)
    requires a !! b
    ensures |a + b| == |a| + |b|
  {
    assert a * b == {};
  }

  lemma SlabCard(center: Coord, dx: int)
    ensures |Slab(center, dx)| == 9
    ensures forall d :: d in Slab(center, dx) ==> d.x == center.x + dx
  {
    var r0, r1, r2 := Row(center, dx, -1), Row(center, dx, 0), Row(center, dx, 1);
    assert |r0| == 3 && |r1| == 3 && |r2| == 3;
    assert forall d :: d in r0 ==> d.y == center.y - 1;
    assert forall d :: d in r1 ==> d.y == center.y;
    assert forall d :: d in r2 ==> d.y == center.y + 1;
    DisjointUnionCard(r0, r1);
    DisjointUnionCard(r0 + r1, r2);
  }

  lemma SlabMembers(center: Coord, dx: int)
    ensures forall d :: d in Slab(center, dx) <==>
      d.x - center.x == dx && -1 <= d.y - center.y <= 1 && -1 <= d.z - center.z <= 1
  {
    forall d: Coord | d.x - center.x == dx && -1 <= d.y - center.y <= 1 && -1 <= d.z - center.z <= 1
      ensures d in Slab(center, dx)
    {
      assert d == center.Plus(dx, d.y - center.y, d.z - center.z);
    }
  }

  lemma WindowIsThreeSlabs(center: Coord)
    ensures Cube(center, 1) == Slab(center, -1) + Slab(center, 0) + Slab(center, 1)
  {
    SlabMembers(center, -1);
    SlabMembers(center, 0);
    SlabMembers(center, 1);
  }

  /** The resident window always has exactly 27 cells, one of which is the centre. */
  lemma WindowCard(center: Coord)
    ensures |Cube(center, 1)| == 27
    ensures center in Cube(center, 1)
  {
    var s0, s1, s2 := Slab(center, -1), Slab(center, 0), Slab(center, 1);
    SlabCard(center, -1);
    SlabCard(center, 0);
    SlabCard(center, 1);
    assert s0 !! s1;
    DisjointUnionCard(s0, s1);
    assert s0 + s1 !! s2;
    DisjointUnionCard(s0 + s1, s2);
    WindowIsThreeSlabs(center);
  }

  /**
    `GetSurroundingChunks`: the three nested loops over the offsets -1..1 add
    `centerChunk + (x, y, z)` to a fresh set.
   */
  method SurroundingChunks(center: Coord) returns (coords: set<Coord>)
    ensures coords == Cube(center, 1)
    ensures forall d :: d in coords <==> InCube(center, 1, d)
    ensures |coords| == 27 && center in coords
  {
    coords := {};
    var x := -1;
    while x <= 1
      invariant -1 <= x <= 2
      invariant forall d :: d in coords <==> InCube(center, 1, d) && d.x - center.x < x
    {
      var y := -1;
      while y <= 1
        invariant -1 <= y <= 2
        invariant forall d :: d in coords <==>
          InCube(center, 1, d) && (d.x - center.x < x || (d.x - center.x == x && d.y - center.y < y))
      {
        var z := -1;
        while z <= 1
          invariant -1 <= z <= 2
          invariant forall d :: d in coords <==>
            InCube(center, 1, d) && (d.x - center.x < x || (d.x - center.x == x &&
              (d.y - center.y < y || (d.y - center.y == y && d.z - center.z < z))))
        {
          coords := coords + {center.Plus(x, y, z)};
          z := z + 1;
        }
        y := y + 1;
      }
      x := x + 1;
    }
    WindowCard(center);
  }

  /**
    `GetPotentialChunkBorders`: the cells within `extra` of the target that
    are not resident. A negative `extra` makes its loops run zero times.
   */
  function PotentialChunkBorders(target: Coord, extra: int, resident: set<Coord>): (s: set<Coord>)
    ensures forall d :: d in s <==> InCube(target, extra, d) && d !in resident
  {
    Cube(target, extra) - resident
  }

  /** A wider cube contains a narrower one around the same centre. */
  lemma CubeMonotone(center: Coord, r1: int, r2: int)
    requires r1 <= r2
    ensures Cube(center, r1) <= Cube(center, r2)
  {
  }

  /**
    When the resident set is exactly the 3x3x3 window of the target, the
    look-ahead cells are the ring outside the window, and the gizmos draw no
    look-ahead cell precisely when `extra` is at most 1.
   */
  lemma BordersAroundFullWindow(target: Coord, extra: int, resident: set<Coord>)
    requires resident == Cube(target, 1)
    ensures forall d :: d in PotentialChunkBorders(target, extra, resident) <==>
      InCube(target, extra, d) && !InCube(target, 1, d)
    ensures PotentialChunkBorders(target, extra, resident) == {} <==> extra <= 1
  {
    if extra >= 2 {
      assert target.Plus(2, 0, 0) in PotentialChunkBorders(target, extra, resident);
    } else {
      CubeMonotone(target, extra, 1);
    }
  }
}
