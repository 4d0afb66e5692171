/**
  The chunk-streaming manager: reconciliation of the registry against the
  3x3x3 window around the target cell (`UpdateChunks`) and the per-frame
  change gate (`Update`).

  Two orders are unspecified in the chunk manager and are therefore
  parameters here, constrained only to be enumerations of the collections
  they come from: the iteration order of the `HashSet` of required cells and
  the order in which `Dictionary.Keys` seeds the reuse pool. Every property
  below holds for every choice of both.
 */
module ChunkManager {
  import opened Geometry
  import opened Seqs
  import opened Neighborhood
  import opened Registry
  import opened Pass

  // Pool and key bookkeeping.

  /** Visiting a registered cell only drops it from the pool. */
  lemma VisitRegistered(reg: Registry, size: Vec3, p: Pass, visited: set<Coord>, coord: Coord)
    requires KeysInvariant(reg, p, visited)
    requires coord in p.registry.active && coord !in visited
    ensures KeysInvariant(reg, Visit(p, size, coord), visited + {coord})
    ensures |Visit(p, size, coord).pool| + 1 == |p.pool|
  {
    RemoveFirstFromDistinct(p.pool, coord);
    assert coord in Elems(p.pool);
    assert |multiset(RemoveFirst(p.pool, coord))| == |multiset(p.pool) - multiset{coord}|;
  }

  /**
    Visiting an unregistered cell while the pool is non-empty moves the object
    of the pool's front cell there, and that front cell leaves the registry.
   */
  lemma VisitMove(reg: Registry, size: Vec3, p: Pass, visited: set<Coord>, coord: Coord)
    requires KeysInvariant(reg, p, visited)
    requires coord !in p.registry.active && coord !in visited && |p.pool| > 0
    ensures p.pool[0] in p.registry.active
    ensures KeysInvariant(reg, Visit(p, size, coord), visited + {coord})
  {
    var pool := p.pool;
    assert pool[0] in Elems(pool);
    assert Elems(pool) == Elems(pool[1..]) + {pool[0]};
    assert pool[0] !in Elems(pool[1..]);
  }

  /** Visiting an unregistered cell with an empty pool registers it. */
  lemma VisitCreate(reg: Registry, size: Vec3, p: Pass, visited: set<Coord>, coord: Coord)
    requires KeysInvariant(reg, p, visited)
    requires coord !in p.registry.active && coord !in visited && p.pool == []
    ensures KeysInvariant(reg, Visit(p, size, coord), visited + {coord})
  {
    assert Elems(p.pool) == {};
  }

  /**
    One iteration keeps the key bookkeeping, whichever branch it takes, and
    either shrinks the pool by one or creates one object.
   */
  lemma VisitKeepsKeys(reg: Registry, size: Vec3, p: Pass, visited: set<Coord>, coord: Coord)
    requires KeysInvariant(reg, p, visited) && coord !in visited
    ensures KeysInvariant(reg, Visit(p, size, coord), visited + {coord})
    ensures |Visit(p, size, coord).pool| + 1 + p.created == |p.pool| + Visit(p, size, coord).created
  {
    if coord in p.registry.active {
      VisitRegistered(reg, size, p, visited, coord);
    } else if |p.pool| > 0 {
      VisitMove(reg, size, p, visited, coord);
    } else {
      VisitCreate(reg, size, p, visited, coord);
    }
  }

  /**
    Running the loop over cells not yet visited, each once, keeps the key
    bookkeeping; every iteration shrinks the pool by one or creates one object.
   */
  lemma {:induction false} RunKeepsKeys(reg: Registry, size: Vec3, p: Pass, visited: set<Coord>, coords: seq<Coord>)
    requires KeysInvariant(reg, p, visited)
    requires Distinct(coords) && visited !! Elems(coords)
    ensures KeysInvariant(reg, Run(p, size, coords), visited + Elems(coords))
    ensures |Run(p, size, coords).pool| + |coords| + p.created == |p.pool| + Run(p, size, coords).created
    decreases |coords|
  {
    if coords == [] {
      assert Elems(coords) == {};
    } else {
      var coord, rest := coords[0], coords[1..];
      VisitKeepsKeys(reg, size, p, visited, coord);
      assert Elems(coords) == {coord} + Elems(rest);
      assert coord !in Elems(rest);
      RunKeepsKeys(reg, size, Visit(p, size, coord), visited + {coord}, rest);
      assert visited + {coord} + Elems(rest) == visited + Elems(coords);
    }
  }

  // Validity of the registry and the objects it refers to.

  /** Dropping a registered cell from the pool leaves the registry alone and the pool registered. */
  lemma RemoveKeepsValid(p: Pass, size: Vec3, coord: Coord)
    requires p.registry.Valid() && PoolRegistered(p.registry, p.pool)
    requires coord in p.registry.active
    ensures Visit(p, size, coord).registry == p.registry
    ensures PoolRegistered(p.registry, Visit(p, size, coord).pool)
  {
    RemoveFirstFromDistinct(p.pool, coord);
  }

  /** After moving the front cell's object, the rest of the pool is still registered. */
  lemma MoveKeepsPoolRegistered(p: Pass, size: Vec3, coord: Coord)
    requires PoolRegistered(p.registry, p.pool)
    requires coord !in p.registry.active && |p.pool| > 0
    ensures PoolRegistered(Visit(p, size, coord).registry, Visit(p, size, coord).pool)
  {
    var pool := p.pool;
    assert pool[0] in Elems(pool);
    assert Elems(pool) == Elems(pool[1..]) + {pool[0]};
    assert pool[0] !in Elems(pool[1..]);
  }

  /** Moving the front cell's object keeps the registry valid and the rest of the pool registered. */
  lemma MoveKeepsValid(p: Pass, size: Vec3, coord: Coord)
    requires p.registry.Valid() && PoolRegistered(p.registry, p.pool)
    requires coord !in p.registry.active && |p.pool| > 0
    ensures Visit(p, size, coord).registry.Valid()
    ensures PoolRegistered(Visit(p, size, coord).registry, Visit(p, size, coord).pool)
    ensures |Visit(p, size, coord).registry.placed| == |p.registry.placed|
  {
    assert p.pool[0] in Elems(p.pool);
    MoveChunkKeepsValid(p.registry, size, p.pool[0], coord);
    MoveKeepsPoolRegistered(p, size, coord);
  }

  /** Creating an object for an unregistered cell keeps the registry valid and adds one object. */
  lemma CreateKeepsValid(p: Pass, size: Vec3, coord: Coord)
    requires p.registry.Valid() && p.pool == []
    requires coord !in p.registry.active
    ensures Visit(p, size, coord).registry.Valid()
    ensures PoolRegistered(Visit(p, size, coord).registry, Visit(p, size, coord).pool)
    ensures |Visit(p, size, coord).registry.placed| == |p.registry.placed| + 1
  {
    CreateChunkKeepsValid(p.registry, size, coord);
    assert Elems(p.pool) == {};
  }

  /**
    One iteration keeps the registry valid and every pooled cell registered,
    and adds exactly one object when it creates one.
   */
  lemma VisitKeepsValid(p: Pass, size: Vec3, coord: Coord)
    requires p.registry.Valid() && PoolRegistered(p.registry, p.pool)
    ensures Visit(p, size, coord).registry.Valid()
    ensures PoolRegistered(Visit(p, size, coord).registry, Visit(p, size, coord).pool)
    ensures |Visit(p, size, coord).registry.placed| + p.created == |p.registry.placed| + Visit(p, size, coord).created
  {
    if coord in p.registry.active {
      RemoveKeepsValid(p, size, coord);
    } else if |p.pool| > 0 {
      MoveKeepsValid(p, size, coord);
    } else {
      CreateKeepsValid(p, size, coord);
    }
  }

  /** The whole loop keeps the registry valid and adds one object per creation. */
  lemma {:induction false} RunKeepsValid(p: Pass, size: Vec3, coords: seq<Coord>)
    requires p.registry.Valid() && PoolRegistered(p.registry, p.pool)
    ensures Run(p, size, coords).registry.Valid()
    ensures |Run(p, size, coords).registry.placed| + p.created == |p.registry.placed| + Run(p, size, coords).created
    decreases |coords|
  {
    if coords != [] {
      VisitKeepsValid(p, size, coords[0]);
      RunKeepsValid(Visit(p, size, coords[0]), size, coords[1..]);
    }
  }

  /**
    Whatever the state, the loop never destroys an object, and it hands out
    exactly one fresh id per created object (moving hands out none).
   */
  lemma {:induction false} RunKeepsObjects(p: Pass, size: Vec3, coords: seq<Coord>)
    ensures p.registry.placed.Keys <= Run(p, size, coords).registry.placed.Keys
    ensures Run(p, size, coords).registry.nextId + p.created == p.registry.nextId + Run(p, size, coords).created
    decreases |coords|
  {
    if coords != [] {
      RunKeepsObjects(Visit(p, size, coords[0]), size, coords[1..]);
    }
  }

  // Placement of the objects.

  /**
    Moving the object of a registered cell to an unregistered one leaves every
    other object where it was, and so keeps every cell holding its untouched
    original object or an object at its own centre.
   */
  lemma MoveKeepsPlacement(reg: Registry, r: Registry, size: Vec3, oldCoord: Coord, coord: Coord)
    requires r.Valid() && oldCoord in r.active && coord !in r.active
    requires Settled(reg, r, size)
    ensures forall id :: id in r.placed && id != r.active[oldCoord] ==>
      id in MoveChunk(r, size, oldCoord, coord).placed && MoveChunk(r, size, oldCoord, coord).placed[id] == r.placed[id]
    ensures Settled(reg, MoveChunk(r, size, oldCoord, coord), size)
  {
    var r' := MoveChunk(r, size, oldCoord, coord);
    MoveChunkKeepsValid(r, size, oldCoord, coord);
    forall c | c in r'.active ensures Kept(reg, r', c) || r'.SitsAt(c, ChunkCenter(c, size)) {
      if c != coord {
        assert c in r.active && c != oldCoord;
        assert r.active[c] != r.active[oldCoord];
      }
    }
  }

  /**
    Creating an object leaves every existing object where it was, and so keeps
    every cell holding its untouched original object or an object at its own
    centre.
   */
  lemma CreateKeepsPlacement(reg: Registry, r: Registry, size: Vec3, coord: Coord)
    requires r.Valid() && coord !in r.active
    requires Settled(reg, r, size)
    ensures forall id :: id in r.placed ==>
      id in CreateChunk(r, size, coord).placed && CreateChunk(r, size, coord).placed[id] == r.placed[id]
    ensures Settled(reg, CreateChunk(r, size, coord), size)
  {
    CreateChunkIsFresh(r, size, coord);
    var r' := CreateChunk(r, size, coord);
    forall c | c in r'.active ensures Kept(reg, r', c) || r'.SitsAt(c, ChunkCenter(c, size)) {
      if c != coord {
        assert c in r.active;
      }
    }
  }

  /** One iteration either leaves an object untouched or places it at its cell's centre. */
  lemma VisitKeepsSettled(reg: Registry, p: Pass, size: Vec3, coord: Coord)
    requires p.registry.Valid() && PoolRegistered(p.registry, p.pool)
    requires Settled(reg, p.registry, size)
    ensures Settled(reg, Visit(p, size, coord).registry, size)
  {
    if coord !in p.registry.active {
      if |p.pool| > 0 {
        assert p.pool[0] in Elems(p.pool);
        MoveKeepsPlacement(reg, p.registry, size, p.pool[0], coord);
      } else {
        CreateKeepsPlacement(reg, p.registry, size, coord);
      }
    }
  }

  /**
    After the whole loop every registered cell still holds its original
    object, untouched, or holds an object placed at its own centre.
   */
  lemma {:induction false} RunKeepsSettled(reg: Registry, p: Pass, size: Vec3, coords: seq<Coord>)
    requires p.registry.Valid() && PoolRegistered(p.registry, p.pool)
    requires Settled(reg, p.registry, size)
    ensures Settled(reg, Run(p, size, coords).registry, size)
    decreases |coords|
  {
    if coords != [] {
      VisitKeepsValid(p, size, coords[0]);
      VisitKeepsSettled(reg, p, size, coords[0]);
      RunKeepsSettled(reg, Visit(p, size, coords[0]), size, coords[1..]);
    }
  }

  /** If every object sat at its cell's centre before the pass, every one does after it. */
  lemma SettledPlaced(reg: Registry, r: Registry, size: Vec3)
    requires reg.Placed(size) && Settled(reg, r, size)
    ensures r.Placed(size)
  {
    forall c | c in r.active ensures r.SitsAt(c, ChunkCenter(c, size)) {
      if Kept(reg, r, c) {
        assert reg.SitsAt(c, ChunkCenter(c, size));
      }
    }
  }

  // The pass as a whole.

  /** Before the first iteration the pool is every registered cell and nothing has moved. */
  lemma StartPass(reg: Registry, size: Vec3, keyOrder: seq<Coord>)
    requires Enumerates(keyOrder, reg.active.Keys)
    ensures KeysInvariant(reg, Pass(reg, keyOrder, 0), {})
    ensures reg.Valid() ==> Settled(reg, reg, size)
  {
  }

  /**
    Once every cell of the window has been visited, the registry covers the
    window; if it held no more cells than the window to begin with, the pool
    has been used up, so no stale cell survives and exactly the missing number
    of objects was created; otherwise the pool never ran dry and nothing was
    created.
   */
  lemma FinishPass(reg: Registry, window: set<Coord>, p: Pass)
    requires KeysInvariant(reg, p, window)
    requires |window| + |p.pool| == |reg.active| + p.created
    ensures window <= p.registry.active.Keys <= reg.active.Keys + window
    ensures |reg.active| <= |window| ==> p.registry.active.Keys == window && p.created == |window| - |reg.active|
    ensures |reg.active| >= |window| ==> p.created == 0
  {
    if |reg.active| <= |window| {
      assert p.pool == [];
      assert Elems(p.pool) == {};
    }
  }

  /**
    The registered cells after a full pass over an enumeration of `window`,
    starting from a pool that enumerates the registered cells.
   */
  lemma PassCoversWindow(reg: Registry, size: Vec3, window: set<Coord>, visitOrder: seq<Coord>, keyOrder: seq<Coord>)
    requires Enumerates(visitOrder, window)
    requires Enumerates(keyOrder, reg.active.Keys)
    ensures var q := Run(Pass(reg, keyOrder, 0), size, visitOrder);
      && window <= q.registry.active.Keys <= reg.active.Keys + window
      && (|reg.active| <= |window| ==> q.registry.active.Keys == window && q.created == |window| - |reg.active|)
      && (|reg.active| >= |window| ==> q.created == 0)
  {
    PassKeys(reg, size, window, visitOrder, keyOrder);
    FinishPass(reg, window, Run(Pass(reg, keyOrder, 0), size, visitOrder));
  }

  lemma PassKeys(reg: Registry, size: Vec3, window: set<Coord>, visitOrder: seq<Coord>, keyOrder: seq<Coord>)
    requires Enumerates(visitOrder, window)
    requires Enumerates(keyOrder, reg.active.Keys)
    ensures var q := Run(Pass(reg, keyOrder, 0), size, visitOrder);
      && KeysInvariant(reg, q, window)
      && |window| + |q.pool| == |reg.active| + q.created
  {
    var start := Pass(reg, keyOrder, 0);
    EnumerationLength(visitOrder, window);
    EnumerationLength(keyOrder, reg.active.Keys);
    StartPass(reg, size, keyOrder);
    RunKeepsKeys(reg, size, start, {}, visitOrder);
    assert {} + Elems(visitOrder) == window;
  }

  /**
    The objects after a full pass: none destroyed, one fresh id per creation,
    a valid registry stays valid with one more object per creation, and every
    cell holds either its untouched original object or one at its centre.
   */
  lemma PassKeepsObjects(reg: Registry, size: Vec3, visitOrder: seq<Coord>, keyOrder: seq<Coord>)
    requires Enumerates(keyOrder, reg.active.Keys)
    ensures var q := Run(Pass(reg, keyOrder, 0), size, visitOrder);
      && reg.placed.Keys <= q.registry.placed.Keys
      && q.registry.nextId == reg.nextId + q.created
      && (reg.Valid() ==>
        && q.registry.Valid()
        && |q.registry.placed| == |reg.placed| + q.created
        && Settled(reg, q.registry, size))
      && (reg.Valid() && reg.Placed(size) ==> q.registry.Placed(size))
  {
    var start := Pass(reg, keyOrder, 0);
    RunKeepsObjects(start, size, visitOrder);
    if reg.Valid() {
      StartPass(reg, size, keyOrder);
      RunKeepsValid(start, size, visitOrder);
      RunKeepsSettled(reg, start, size, visitOrder);
      if reg.Placed(size) {
        SettledPlaced(reg, Run(start, size, visitOrder).registry, size);
      }
    }
  }

  /**
    How many cells of `window` cannot be served by reusing a stale object:
    the missing cells (`window` minus `keys`) in excess of the stale ones
    (`keys` minus `window`), or none.
   */
  function Shortfall(window: set<Coord>, keys: set<Coord>): nat {
    var missing, stale := |window - keys|, |keys - window|;
    if missing > stale then missing - stale else 0
  }

  /** Missing and stale cells differ in number exactly as the window and the registry do. */
  lemma MissingMinusStale(window: set<Coord>, keys: set<Coord>)
    ensures |window - keys| + |keys| == |keys - window| + |window|
    ensures Shortfall(window, keys) == if |window| > |keys| then |window| - |keys| else 0
  {
    assert window == (window - keys) + (window * keys);
    assert keys == (keys - window) + (window * keys);
    assert (window - keys) !! (window * keys);
    assert (keys - window) !! (window * keys);
  }

  /** One unfolding of the fold: the first cell is visited, then the rest. */
  lemma RunStep(p: Pass, size: Vec3, coords: seq<Coord>)
    requires coords != []
    ensures Run(p, size, coords) == Run(Visit(p, size, coords[0]), size, coords[1..])
  {
  }

  /**
    The `foreach` loop of `UpdateChunks` over the required cells, in
    `visitOrder`: a cell that is registered is dropped from the pool, a cell
    that is not takes the object of the cell at the front of the pool, or a
    newly created object once the pool is empty. This is the imperative
    counterpart of `Run`; the facts about the pass are proved of `Run`.
   */
  method VisitAll(start: Pass, size: Vec3, visitOrder: seq<Coord>) returns (p: Pass)
    ensures p == Run(start, size, visitOrder)
  {
    var r := start.registry;
    var coordsToMove := start.pool;
    var created := start.created;
    var i := 0;
    while i < |visitOrder|
      invariant 0 <= i <= |visitOrder|
      invariant Run(Pass(r, coordsToMove, created), size, visitOrder[i..]) == Run(start, size, visitOrder)
    {
      var coord := visitOrder[i];
      ghost var before := Pass(r, coordsToMove, created);
      RunStep(before, size, visitOrder[i..]);
      assert visitOrder[i..][1..] == visitOrder[i + 1..];
      if coord !in r.active {
        if |coordsToMove| > 0 {
          var oldCoord := coordsToMove[0];
          coordsToMove := coordsToMove[1..];
          r := MoveChunk(r, size, oldCoord, coord);
        } else {
          r := CreateChunk(r, size, coord);
          created := created + 1;
        }
      } else {
        coordsToMove := RemoveFirst(coordsToMove, coord);
      }
      assert Pass(r, coordsToMove, created) == Visit(before, size, coord);
      i := i + 1;
    }
    p := Pass(r, coordsToMove, created);
  }

  /**
    The body of `UpdateChunks` after the window is computed: the reuse pool
    starts as a snapshot of ALL registered cells, in `keyOrder`, and the
    required cells of `window` are visited in `visitOrder`. A still-required cell that has not been visited
    yet may therefore lose its object and be refilled when its turn comes.
   */
  method Reconcile(reg: Registry, size: Vec3, window: set<Coord>, visitOrder: seq<Coord>, keyOrder: seq<Coord>)
    returns (reg': Registry, created: nat)
    requires Enumerates(visitOrder, window)
    requires Enumerates(keyOrder, reg.active.Keys)
    ensures window <= reg'.active.Keys <= reg.active.Keys + window
    ensures |reg.active| <= |window| ==> reg'.active.Keys == window && created == |window| - |reg.active|
    ensures |reg.active| >= |window| ==> created == 0
    ensures created == Shortfall(window, reg.active.Keys)
    ensures reg.placed.Keys <= reg'.placed.Keys && reg'.nextId == reg.nextId + created
    ensures reg.Valid() ==> reg'.Valid() && |reg'.placed| == |reg.placed| + created && Settled(reg, reg', size)
    ensures reg.Valid() && reg.Placed(size) ==> reg'.Placed(size)
  {
    var coordsToMove := keyOrder;
    var p := VisitAll(Pass(reg, coordsToMove, 0), size, visitOrder);
    PassCoversWindow(reg, size, window, visitOrder, keyOrder);
    PassKeepsObjects(reg, size, visitOrder, keyOrder);
    MissingMinusStale(window, reg.active.Keys);
    reg', created := p.registry, p.created;
  }

  /**
    The reuse pool holds every registered cell, not only the stale ones. With
    cell `a` registered and the required cells visited in the order `b`, `a`,
    the object of the still-required cell `a` is moved to `b`, and `a` is
    refilled with a newly created object when its turn comes.
   */
  lemma RequiredCellMayLoseItsObject()
    ensures var a, b, size := Coord(0, 0, 0), Coord(1, 0, 0), Vec3(5.0, 5.0, 5.0);
      var reg := Registry(map[a := 0], map[0 := ChunkCenter(a, size)], 1);
      var q := Run(Pass(reg, [a], 0), size, [b, a]);
      q.registry.active == map[b := 0, a := 1] && q.created == 1
  {
    var a, b, size := Coord(0, 0, 0), Coord(1, 0, 0), Vec3(5.0, 5.0, 5.0);
    var reg := Registry(map[a := 0], map[0 := ChunkCenter(a, size)], 1);
    var p1 := Visit(Pass(reg, [a], 0), size, b);
    assert p1.registry.active == map[b := 0] && p1.pool == [] && p1.created == 0;
    var p2 := Visit(p1, size, a);
    assert p2.registry.active == map[b := 0, a := 1] && p2.created == 1;
    assert [b, a][1..] == [a];
    assert Run(Pass(reg, [a], 0), size, [b, a]) == Run(p1, size, [a]);
    assert Run(p1, size, [a]) == Run(p2, size, []);
  }

  /**
    The same effect from a state the manager actually reaches: the registry
    covers the window around (0,0,0) and the target steps to (1,0,0). If the
    new cell (2,0,0) is visited first and the dictionary lists (0,0,0) first,
    the first iteration moves the object of (0,0,0), which the new window
    still requires, to (2,0,0) and leaves (0,0,0) unregistered.
   */
  lemma StepMayMoveRequiredCell(reg: Registry, size: Vec3, visitOrder: seq<Coord>, keyOrder: seq<Coord>)
    requires reg.active.Keys == Cube(Coord(0, 0, 0), 1)
    requires Enumerates(visitOrder, Cube(Coord(1, 0, 0), 1))
    requires Enumerates(keyOrder, reg.active.Keys)
    requires visitOrder != [] && visitOrder[0] == Coord(2, 0, 0)
    requires keyOrder != [] && keyOrder[0] == Coord(0, 0, 0)
    ensures Coord(0, 0, 0) in Cube(Coord(1, 0, 0), 1)
    ensures var p1 := Visit(Pass(reg, keyOrder, 0), size, visitOrder[0]);
      && Coord(0, 0, 0) !in p1.registry.active
      && p1.registry.active[Coord(2, 0, 0)] == reg.active[Coord(0, 0, 0)]
      && p1.pool == keyOrder[1..] && p1.created == 0
  {
    assert !InCube(Coord(0, 0, 0), 1, Coord(2, 0, 0));
    assert InCube(Coord(0, 0, 0), 1, Coord(0, 0, 0));
    assert InCube(Coord(1, 0, 0), 1, Coord(0, 0, 0));
  }

  /**
    `UpdateChunks`: computes the 3x3x3 window around the target cell and
    reconciles the registry against it. Whatever the two enumeration orders,
    every window cell ends up registered; a registry of at most 27 cells ends
    up covering exactly the window after 27 minus its size creations, and a
    registry of 27 or more cells causes no creation at all.
   */
  method UpdateChunks(reg: Registry, size: Vec3, target: Coord, visitOrder: seq<Coord>, keyOrder: seq<Coord>)
    returns (reg': Registry, created: nat)
    requires Enumerates(visitOrder, Cube(target, 1))
    requires Enumerates(keyOrder, reg.active.Keys)
    ensures Cube(target, 1) <= reg'.active.Keys <= reg.active.Keys + Cube(target, 1)
    ensures |reg.active| <= 27 ==> reg'.active.Keys == Cube(target, 1) && created == 27 - |reg.active|
    ensures |reg.active| >= 27 ==> created == 0
    ensures created == Shortfall(Cube(target, 1), reg.active.Keys)
    ensures reg.placed.Keys <= reg'.placed.Keys && reg'.nextId == reg.nextId + created
    ensures reg.Valid() ==> reg'.Valid() && |reg'.placed| == |reg.placed| + created && Settled(reg, reg', size)
    ensures reg.Valid() && reg.Placed(size) ==> reg'.Placed(size)
  {
    var newChunkCoords := SurroundingChunks(target);
    reg', created := Reconcile(reg, size, newChunkCoords, visitOrder, keyOrder);
  }

  /** The manager's state between frames. */
  datatype Manager = Manager(size: Vec3, registry: Registry, previousTarget: Coord) {
    /** The registry covers exactly the window around the last recorded target cell. */
    predicate Coherent() {
      registry.active.Keys == Cube(previousTarget, 1)
    }
  }

  /**
    `Update`: one frame. The target cell is computed once; only when it differs
    from the recorded one is the registry reconciled, and then the new cell is
    recorded.
   */
  method Update(m: Manager, pos: Vec3, visitOrder: seq<Coord>, keyOrder: seq<Coord>)
    returns (m': Manager, created: nat)
    requires PositiveSize(m.size)
    requires TargetChunk(pos, m.size) != m.previousTarget ==>
      && Enumerates(visitOrder, Cube(TargetChunk(pos, m.size), 1))
      && Enumerates(keyOrder, m.registry.active.Keys)
    ensures m'.size == m.size
    ensures m'.previousTarget == TargetChunk(pos, m.size)
    ensures TargetChunk(pos, m.size) == m.previousTarget ==> m' == m && created == 0
    ensures TargetChunk(pos, m.size) != m.previousTarget ==> Cube(m'.previousTarget, 1) <= m'.registry.active.Keys
    ensures TargetChunk(pos, m.size) != m.previousTarget && |m.registry.active| <= 27 ==>
      m'.Coherent() && created == 27 - |m.registry.active|
    ensures m.Coherent() ==> m'.Coherent() && created == 0
    ensures m.registry.Valid() ==> m'.registry.Valid() && |m'.registry.placed| == |m.registry.placed| + created
    ensures m.registry.Valid() && m.registry.Placed(m.size) ==> m'.registry.Placed(m.size)
  {
    var target := TargetChunk(pos, m.size);
    if target != m.previousTarget {
      if m.Coherent() {
        WindowCard(m.previousTarget);
      }
      var reg', c := UpdateChunks(m.registry, m.size, target, visitOrder, keyOrder);
      m' := Manager(m.size, reg', target);
      created := c;
    } else {
      m' := m;
      created := 0;
    }
  }
}
