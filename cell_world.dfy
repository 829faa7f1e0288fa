/**
  The shared state every system works on: the coordinate-to-cell map
  (`NativeHashMap<int3, Entity>`), the components of every cell entity, the
  pool queue, and the entity command buffer through which jobs defer writes.
 */
module CellWorld {
  import opened Wrappers
  import opened Vectors
  import opened GlobalConfig

  /** An entity handle. */
  type Entity = nat

  datatype Quaternion = Quaternion(x: real, y: real, z: real, w: real)

  const Identity := Quaternion(0.0, 0.0, 0.0, 1.0)

  /** `LocalTransform`; a cell's position always holds integral values, so it is kept as an `Int3`. */
  datatype Transform = Transform(position: Int3, rotation: Quaternion, scale: real)

  /**
    The components of one cell entity. `moisture` is `None` when the entity has
    no `Moisture` component. The booleans are the enableable components and tags:
    `moving` is the enabled state of `Velocity`.
   */
  datatype Cell = Cell(
    transform: Transform,
    cellType: CellType,
    state: CellState,
    mass: int,
    meshId: nat,
    velocity: Vec3,
    debt: Vec3,
    temperature: real,
    moisture: Option<real>,
    energy: real,
    impulses: seq<Vec3>,
    heat: seq<real>,
    moistureDeltas: seq<real>,
    isAlive: bool,
    moving: bool,
    isBurning: bool,
    shouldExplode: bool,
    pendingDequeue: bool,
    cellTag: bool,
    prototypeTag: bool,
    spaceshipTempCell: bool)

  function Pos(c: Cell): Int3 { c.transform.position }

  /** Every key maps to a cell whose position is that key. */
  ghost predicate MapConsistent(m: map<Int3, Entity>, cells: map<Entity, Cell>)
  {
    forall c | c in m :: m[c] in cells && Pos(cells[m[c]]) == c
  }

  /** The cell `e` is the occupant of the coordinate it stands on. */
  predicate IsPlaced(m: map<Int3, Entity>, cells: map<Entity, Cell>, e: Entity)
  {
    e in cells && Pos(cells[e]) in m && m[Pos(cells[e])] == e
  }

  /** Under the map invariant, `m[c] == e` holds exactly when `e` is placed and stands on `c`. */
  lemma MapBijection(m: map<Int3, Entity>, cells: map<Entity, Cell>, c: Int3, e: Entity)
    requires MapConsistent(m, cells)
    ensures (c in m && m[c] == e) <==> (IsPlaced(m, cells, e) && Pos(cells[e]) == c)
  {
  }

  /** No cell occupies two coordinates. */
  lemma OneCoordinatePerCell(m: map<Int3, Entity>, cells: map<Entity, Cell>, c1: Int3, c2: Int3)
    requires MapConsistent(m, cells)
    requires c1 in m && c2 in m && m[c1] == m[c2]
    ensures c1 == c2
  {
  }

  /** Every cell that was placed is still placed. */
  ghost predicate KeepsPlaced(m0: map<Int3, Entity>, cells0: map<Entity, Cell>, m1: map<Int3, Entity>, cells1: map<Entity, Cell>)
  {
    forall e | IsPlaced(m0, cells0, e) :: IsPlaced(m1, cells1, e)
  }

  lemma KeepsPlacedTrans(m0: map<Int3, Entity>, c0: map<Entity, Cell>, m1: map<Int3, Entity>, c1: map<Entity, Cell>,
                         m2: map<Int3, Entity>, c2: map<Entity, Cell>)
    requires KeepsPlaced(m0, c0, m1, c1) && KeepsPlaced(m1, c1, m2, c2)
    ensures KeepsPlaced(m0, c0, m2, c2)
  {
  }

  /** Changing a cell's components other than its position keeps the map invariant and every cell placed. */
  lemma UpdateInPlaceKeepsMap(m: map<Int3, Entity>, cells: map<Entity, Cell>, e: Entity, updated: Cell)
    requires MapConsistent(m, cells) && e in cells && Pos(updated) == Pos(cells[e])
    ensures MapConsistent(m, cells[e := updated]) && KeepsPlaced(m, cells, m, cells[e := updated])
  {
  }

  /**
    Moving a placed cell to a free coordinate (add the new key, remove the old
    one, update the cell's position) keeps the map invariant and every other
    cell placed.
   */
  lemma MoveKeepsMap(m: map<Int3, Entity>, cells: map<Entity, Cell>, e: Entity, target: Int3, moved: Cell)
    requires MapConsistent(m, cells) && IsPlaced(m, cells, e)
    requires target !in m && Pos(moved) == target
    ensures var m1 := (m - {Pos(cells[e])})[target := e];
            var cells1 := cells[e := moved];
            && MapConsistent(m1, cells1) && IsPlaced(m1, cells1, e)
            && KeepsPlaced(m, cells, m1, cells1)
            && m1.Keys == m.Keys - {Pos(cells[e])} + {target}
  {
    var m1 := (m - {Pos(cells[e])})[target := e];
    var cells1 := cells[e := moved];
    forall d | IsPlaced(m, cells, d) ensures IsPlaced(m1, cells1, d) {
      if d != e {
        assert Pos(cells[d]) != Pos(cells[e]);
      }
    }
  }

  /**
    Exchanging the coordinates of two distinct placed cells keeps the map
    invariant, keeps every cell placed, and leaves the occupied keys as they were.
   */
  lemma SwapKeepsMap(m: map<Int3, Entity>, cells: map<Entity, Cell>, a: Entity, b: Entity, movedA: Cell, movedB: Cell)
    requires MapConsistent(m, cells) && IsPlaced(m, cells, a) && IsPlaced(m, cells, b) && a != b
    requires Pos(movedA) == Pos(cells[b]) && Pos(movedB) == Pos(cells[a])
    ensures var m1 := m[Pos(cells[b]) := a][Pos(cells[a]) := b];
            var cells1 := cells[a := movedA][b := movedB];
            && MapConsistent(m1, cells1) && IsPlaced(m1, cells1, a) && IsPlaced(m1, cells1, b)
            && KeepsPlaced(m, cells, m1, cells1)
            && m1.Keys == m.Keys
  {
    var pa := Pos(cells[a]);
    var pb := Pos(cells[b]);
    var m1 := m[pb := a][pa := b];
    var cells1 := cells[a := movedA][b := movedB];
    forall c | c in m1 ensures m1[c] in cells1 && Pos(cells1[m1[c]]) == c {
      if c != pa && c != pb {
        assert m[c] != a && m[c] != b;
      }
    }
    forall d | IsPlaced(m, cells, d) ensures IsPlaced(m1, cells1, d) {
      if d != a && d != b {
        assert Pos(cells[d]) != pa && Pos(cells[d]) != pb;
      }
    }
  }

  /** A deferred write recorded in an entity command buffer. */
  datatype Command =
    | AppendHeat(target: Entity, amount: real)
    | AppendMoisture(target: Entity, amount: real)
    | AppendImpulse(target: Entity, impulse: Vec3)
    | SetEnergy(target: Entity, energy: real)

  predicate TargetsIn(ecb: seq<Command>, cells: map<Entity, Cell>)
  {
    forall i | 0 <= i < |ecb| :: ecb[i].target in cells
  }

  function ApplyCommand(c: Cell, cmd: Command): Cell
  {
    match cmd
    case AppendHeat(_, a) => c.(heat := c.heat + [a])
    case AppendMoisture(_, a) => c.(moistureDeltas := c.moistureDeltas + [a])
    case AppendImpulse(_, v) => c.(impulses := c.impulses + [v])
    case SetEnergy(_, v) => c.(energy := v)
  }

  lemma TargetsInAppend(a: seq<Command>, b: seq<Command>, cells: map<Entity, Cell>)
    requires TargetsIn(a, cells) && TargetsIn(b, cells)
    ensures TargetsIn(a + b, cells)
  {
    forall i | 0 <= i < |a + b| ensures (a + b)[i].target in cells {
      if i >= |a| {
        assert (a + b)[i] == b[i - |a|];
      }
    }
  }

  /** Plays the buffer back in recording order. */
  function Playback(cells: map<Entity, Cell>, ecb: seq<Command>): (r: map<Entity, Cell>)
    requires TargetsIn(ecb, cells)
    ensures r.Keys == cells.Keys
  {
    if ecb == [] then cells
    else
      var prev := Playback(cells, ecb[..|ecb| - 1]);
      var cmd := ecb[|ecb| - 1];
      prev[cmd.target := ApplyCommand(prev[cmd.target], cmd)]
  }

  lemma {:induction false} PlaybackAppend(cells: map<Entity, Cell>, a: seq<Command>, b: seq<Command>)
    requires TargetsIn(a, cells) && TargetsIn(b, cells)
    ensures TargetsIn(a + b, cells) && TargetsIn(b, Playback(cells, a))
    ensures Playback(cells, a + b) == Playback(Playback(cells, a), b)
    decreases |b|
  {
    if b == [] {
      assert a + b == a;
    } else {
      assert (a + b)[..|a + b| - 1] == a + b[..|b| - 1];
      PlaybackAppend(cells, a, b[..|b| - 1]);
    }
  }

  /** Playback only appends to buffers and sets energy: positions and temperatures are untouched. */
  lemma {:induction false} PlaybackKeepsPositions(cells: map<Entity, Cell>, ecb: seq<Command>, e: Entity)
    requires TargetsIn(ecb, cells) && e in cells
    ensures Pos(Playback(cells, ecb)[e]) == Pos(cells[e])
    ensures Playback(cells, ecb)[e].temperature == cells[e].temperature
    decreases |ecb|
  {
    if ecb != [] {
      PlaybackKeepsPositions(cells, ecb[..|ecb| - 1], e);
    }
  }

  /** Playback moves no cell, so the map invariant survives it. */
  lemma PlaybackKeepsMap(m: map<Int3, Entity>, cells: map<Entity, Cell>, ecb: seq<Command>)
    requires MapConsistent(m, cells) && TargetsIn(ecb, cells)
    ensures MapConsistent(m, Playback(cells, ecb))
  {
    forall c | c in m ensures Pos(Playback(cells, ecb)[m[c]]) == c {
      PlaybackKeepsPositions(cells, ecb, m[c]);
    }
  }

  class World {
    var cellMap: map<Int3, Entity>
    var cells: map<Entity, Cell>
    var poolQueue: seq<Entity>
    var nextEntity: nat
    /** The `SpaceshipForceFeedback` singleton. */
    var feedback: Vec3

    ghost predicate Valid()
      reads this
    {
      && MapConsistent(cellMap, cells)
      && forall e | e in cells :: e < nextEntity
    }

    predicate Placed(e: Entity)
      reads this
    {
      IsPlaced(cellMap, cells, e)
    }

    constructor ()
      ensures Valid()
      ensures cellMap == map[] && cells == map[] && poolQueue == [] && nextEntity == 0 && feedback == Zero
    {
      cellMap := map[];
      cells := map[];
      poolQueue := [];
      nextEntity := 0;
      feedback := Zero;
    }
  }
}
