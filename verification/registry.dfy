/**
  The chunk registry (`activeChunks`, a `Dictionary<Vector3Int, GameObject>`)
  together with the chunk objects it refers to.

  A chunk object is identified by a `ChunkId`; `Instantiate` is a fresh-id
  generator that hands out `nextId`. The world position of every object ever
  instantiated is recorded in `placed`, so that repositioning (`MoveChunk`)
  and creation (`CreateChunk`) can both be stated in terms of it.
 */
module Registry {
  import opened Geometry

  type ChunkId = nat

  datatype Registry = Registry(active: map<Coord, ChunkId>, placed: map<ChunkId, Vec3>, nextId: ChunkId)
  {
    /**
      What every registry built by the chunk manager satisfies: each key refers
      to an existing object, ids below `nextId` are the only ones handed out,
      distinct keys refer to distinct objects, and every object is registered
      under exactly one key.
     */
    predicate Valid() {
      && (forall c :: c in active ==> active[c] in placed)
      && (forall id :: id in placed ==> id < nextId)
      && (forall c1, c2 :: c1 in active && c2 in active && c1 != c2 ==> active[c1] != active[c2])
      && |active| == |placed|
    }

    /** The object registered under `c` sits at world position `p`. */
    predicate SitsAt(c: Coord, p: Vec3) {
      c in active && active[c] in placed && placed[active[c]] == p
    }

    /** Every registered object sits at the centre of the cell it is registered under. */
    predicate Placed(size: Vec3) {
      forall c :: c in active ==> SitsAt(c, ChunkCenter(c, size))
    }
  }

  /** The registry before any chunk exists. */
  function Empty(): (r: Registry)
    ensures r.Valid() && r.active == map[]
  {
    Registry(map[], map[], 0)
  }

  /**
    `CreateChunk(coord)`: instantiates a fresh object at the centre of `coord`
    and stores it under `coord` (overwriting any previous entry).
   */
  function CreateChunk(reg: Registry, size: Vec3, coord: Coord): (r: Registry)
    ensures r.active.Keys == reg.active.Keys + {coord}
    ensures r.active[coord] == reg.nextId
    ensures r.SitsAt(coord, ChunkCenter(coord, size))
    ensures forall c :: c in reg.active && c != coord ==> c in r.active && r.active[c] == reg.active[c]
    ensures r.nextId == reg.nextId + 1
  {
    var id := reg.nextId;
    Registry(reg.active[coord := id], reg.placed[id := ChunkCenter(coord, size)], reg.nextId + 1)
  }

  /**
    Creating a chunk hands out an object that did not exist before and leaves
    every existing object where it was.
   */
  lemma CreateChunkIsFresh(reg: Registry, size: Vec3, coord: Coord)
    requires reg.Valid()
    ensures var r := CreateChunk(reg, size, coord);
      && r.active[coord] !in reg.placed
      && r.placed.Keys == reg.placed.Keys + {r.active[coord]}
      && (forall id :: id in reg.placed ==> r.placed[id] == reg.placed[id])
  {
  }

  /** Creating a chunk for an unregistered cell keeps the registry valid and adds one object. */
  lemma CreateChunkKeepsValid(reg: Registry, size: Vec3, coord: Coord)
    requires reg.Valid() && coord !in reg.active
    ensures CreateChunk(reg, size, coord).Valid()
    ensures |CreateChunk(reg, size, coord).placed| == |reg.placed| + 1
  {
    var r := CreateChunk(reg, size, coord);
    var id := reg.nextId;
    assert id !in reg.placed;
    assert |r.active| == |reg.active| + 1;
    assert |r.placed| == |reg.placed| + 1;
    assert forall c :: c in r.active ==> r.active[c] in r.placed;
    assert forall i :: i in r.placed ==> i < r.nextId;
    CreateChunkInjective(reg, size, coord);
  }

  lemma CreateChunkInjective(reg: Registry, size: Vec3, coord: Coord)
    requires reg.Valid() && coord !in reg.active
    ensures var r := CreateChunk(reg, size, coord);
      forall c1, c2 :: c1 in r.active && c2 in r.active && c1 != c2 ==> r.active[c1] != r.active[c2]
  {
    var r := CreateChunk(reg, size, coord);
    forall c1, c2 | c1 in r.active && c2 in r.active && c1 != c2 ensures r.active[c1] != r.active[c2] {
      if c1 != coord && c2 != coord {
        assert r.active[c1] == reg.active[c1] && r.active[c2] == reg.active[c2];
      } else if c1 == coord {
        assert reg.active[c2] in reg.placed;
      } else {
        assert reg.active[c1] in reg.placed;
      }
    }
  }

  /**
    `MoveChunk(oldCoord, newCoord)`: if `oldCoord` is registered, its object is
    repositioned to the centre of `newCoord`, the old key is removed and the
    same object is stored under `newCoord`; otherwise nothing changes.
   */
  function MoveChunk(reg: Registry, size: Vec3, oldCoord: Coord, newCoord: Coord): (r: Registry)
    ensures oldCoord !in reg.active ==> r == reg
    ensures oldCoord in reg.active ==> r.active.Keys == reg.active.Keys - {oldCoord} + {newCoord}
    ensures oldCoord in reg.active ==> r.active[newCoord] == reg.active[oldCoord]
    ensures oldCoord in reg.active ==> r.SitsAt(newCoord, ChunkCenter(newCoord, size))
    ensures forall c :: c in reg.active && c != oldCoord && c != newCoord ==> c in r.active && r.active[c] == reg.active[c]
    ensures r.nextId == reg.nextId
  {
    if oldCoord in reg.active then
      var chunk := reg.active[oldCoord];
      Registry((reg.active - {oldCoord})[newCoord := chunk], reg.placed[chunk := ChunkCenter(newCoord, size)], reg.nextId)
    else
      reg
  }

  /**
    Moving a registered chunk to an unregistered cell neither creates nor
    destroys an object, repositions only the moved object and keeps the
    registry valid.
   */
  lemma MoveChunkKeepsValid(reg: Registry, size: Vec3, oldCoord: Coord, newCoord: Coord)
    requires reg.Valid() && oldCoord in reg.active && newCoord !in reg.active
    ensures var r := MoveChunk(reg, size, oldCoord, newCoord);
      && r.Valid()
      && r.placed.Keys == reg.placed.Keys
      && (forall id :: id in reg.placed && id != reg.active[oldCoord] ==> r.placed[id] == reg.placed[id])
  {
    var r := MoveChunk(reg, size, oldCoord, newCoord);
    assert |reg.active - {oldCoord}| == |reg.active| - 1;
    assert |r.active| == |reg.active|;
    MoveChunkInjective(reg, size, oldCoord, newCoord);
  }

  lemma MoveChunkInjective(reg: Registry, size: Vec3, oldCoord: Coord, newCoord: Coord)
    requires reg.Valid() && oldCoord in reg.active && newCoord !in reg.active
    ensures var r := MoveChunk(reg, size, oldCoord, newCoord);
      forall c1, c2 :: c1 in r.active && c2 in r.active && c1 != c2 ==> r.active[c1] != r.active[c2]
  {
    var r := MoveChunk(reg, size, oldCoord, newCoord);
    forall c1, c2 | c1 in r.active && c2 in r.active && c1 != c2 ensures r.active[c1] != r.active[c2] {
      if c1 != newCoord && c2 != newCoord {
        assert r.active[c1] == reg.active[c1] && r.active[c2] == reg.active[c2];
      } else if c1 == newCoord {
        assert r.active[c2] == reg.active[c2];
      } else {
        assert r.active[c1] == reg.active[c1];
      }
    }
  }
}
