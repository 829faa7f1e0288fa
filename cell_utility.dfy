/**
  The map and pool primitives of `CellUtility.cs`: inserting a pooled cell into
  the world, moving a cell, setting its type, the configuration lookup, and the
  pool's enqueue and prototype instantiation.
 */
module CellUtility {
  import opened Wrappers
  import opened Vectors
  import opened GlobalConfig
  import opened CellWorld

  /**
    The configuration of type `t`: the first buffer entry with that type, or
    `None` where the source throws `InvalidOperationException`.
   */
  function GetCellConfig(buffer: seq<CellConfig>, t: CellType): (r: Option<CellConfig>)
    ensures r.None? <==> forall i | 0 <= i < |buffer| :: buffer[i].cellType != t
    ensures r.Some? ==> r.value.cellType == t
    ensures r.Some? ==> exists i | 0 <= i < |buffer| :: buffer[i] == r.value && forall j | 0 <= j < i :: buffer[j].cellType != t
    decreases |buffer|
  {
    if buffer == [] then None
    else if buffer[0].cellType == t then
      assert buffer[0] == buffer[0];
      Some(buffer[0])
    else
      var r := GetCellConfig(buffer[1..], t);
      assert r.None? ==> forall i | 0 <= i < |buffer| :: buffer[i].cellType != t by {
        if r.None? {
          forall i | 0 <= i < |buffer| ensures buffer[i].cellType != t {
            if i > 0 { assert buffer[i] == buffer[1..][i - 1]; }
          }
        }
      }
      assert r.Some? ==> exists i | 0 <= i < |buffer| :: buffer[i] == r.value && forall j | 0 <= j < i :: buffer[j].cellType != t by {
        if r.Some? {
          var k :| 0 <= k < |buffer[1..]| && buffer[1..][k] == r.value && forall j | 0 <= j < k :: buffer[1..][j].cellType != t;
          assert buffer[k + 1] == r.value;
          forall j | 0 <= j < k + 1 ensures buffer[j].cellType != t {
            if j > 0 { assert buffer[j] == buffer[1..][j - 1]; }
          }
        }
      }
      r
  }

  /** `(uint)type`: the ordinal wrapped into 32 bits, used as mesh and material id. */
  function MeshId(t: CellType): nat
  {
    (TypeOrdinal(t) % 0x1_0000_0000) as nat
  }

  /** Distinct types get distinct mesh ids; `Cell1` wraps to the largest 32-bit value. */
  lemma MeshIdsDistinct(t1: CellType, t2: CellType)
    ensures MeshId(t1) < 0x1_0000_0000
    ensures t1 != t2 ==> MeshId(t1) != MeshId(t2)
    ensures MeshId(NoneType) == 0 && MeshId(Cell1) == 0xFFFF_FFFF && MeshId(Cell2) == 0xFFFF_FFFE
  {
  }

  /** `SetCellType` (the three-argument form): alive exactly for a real type, mesh and material follow the type. */
  function SetCellType(c: Cell, t: CellType): (r: Cell)
    ensures r.isAlive <==> t != NoneType
    ensures r.cellType == t && r.meshId == MeshId(t)
  {
    c.(isAlive := t != NoneType, cellType := t, meshId := MeshId(t))
  }

  /** The three ways `TryAddCellToWorld` can end. */
  datatype AddOutcome = Added | Occupied | ConfigMissing

  /**
    Inserts a pooled cell at `target`. An occupied target changes nothing. When
    the configuration lookup throws, the map entry already added stays and no
    component write is applied.
   */
  method TryAddCellToWorld(w: World, cell: Entity, buffer: seq<CellConfig>, t: CellType,
                           target: Int3, velocity: Vec3, temperature: real) returns (outcome: AddOutcome)
    requires w.Valid() && cell in w.cells
    requires forall c | c in w.cellMap :: w.cellMap[c] != cell
    modifies w`cellMap, w`cells
    ensures outcome == Occupied <==> target in old(w.cellMap)
    ensures outcome == Occupied ==> w.cellMap == old(w.cellMap) && w.cells == old(w.cells)
    ensures outcome != Occupied ==> w.cellMap == old(w.cellMap)[target := cell]
    ensures outcome == ConfigMissing <==> outcome != Occupied && GetCellConfig(buffer, t).None?
    ensures outcome == ConfigMissing ==> w.cells == old(w.cells)
    ensures outcome != ConfigMissing ==> w.Valid()
    ensures outcome == Added ==> w.Placed(cell) && w.cells.Keys == old(w.cells.Keys)
    ensures outcome == Added ==>
      var cfg := GetCellConfig(buffer, t).value;
      var c := w.cells[cell];
      && c.transform == Transform(target, Identity, DefaultCellScale)
      && c.cellType == t && (c.isAlive <==> t != NoneType) && c.meshId == MeshId(t)
      && c.state == cfg.state && c.mass == cfg.mass && c.energy == 100.0
      && c.velocity == velocity && c.debt == Zero && c.temperature == temperature
      && w.cells == old(w.cells)[cell := c]
      && c == old(w.cells[cell]).(transform := c.transform, cellType := t, isAlive := c.isAlive, meshId := c.meshId,
                                  state := c.state, mass := c.mass, energy := 100.0,
                                  velocity := velocity, debt := Zero, temperature := temperature)
  {
    if target in w.cellMap {
      return Occupied;
    }
    w.cellMap := w.cellMap[target := cell];
    var c := w.cells[cell].(transform := Transform(target, Identity, DefaultCellScale));
    c := SetCellType(c, t);
    var config := GetCellConfig(buffer, t);
    if config.None? {
      return ConfigMissing;
    }
    c := c.(state := config.value.state, mass := config.value.mass, energy := 100.0);
    c := c.(velocity := velocity, debt := Zero, temperature := temperature);
    w.cells := w.cells[cell := c];
    outcome := Added;
  }

  /**
    The utility move: fails without change on an occupied target; otherwise the
    old key is removed, the new key maps to the cell, and its transform is reset.
   */
  method TryMoveCell(w: World, cell: Entity, target: Int3) returns (moved: bool)
    requires w.Valid() && w.Placed(cell)
    modifies w`cellMap, w`cells
    ensures w.Valid() && w.Placed(cell)
    ensures moved <==> target !in old(w.cellMap)
    ensures !moved ==> w.cellMap == old(w.cellMap) && w.cells == old(w.cells)
    ensures moved ==> w.cellMap == (old(w.cellMap) - {Pos(old(w.cells[cell]))})[target := cell]
    ensures moved ==> w.cells == old(w.cells)[cell := old(w.cells[cell]).(transform := Transform(target, Identity, DefaultCellScale))]
  {
    if target in w.cellMap {
      return false;
    }
    var from := Pos(w.cells[cell]);
    w.cellMap := w.cellMap[target := cell];
    w.cellMap := w.cellMap - {from};
    w.cells := w.cells[cell := w.cells[cell].(transform := Transform(target, Identity, DefaultCellScale))];
    assert w.cellMap == (old(w.cellMap) - {from})[target := cell];
    moved := true;
  }

  /** Appends the cell at the back of the pool queue and disables its `PendingDequeue`. */
  method EnqueueCellIntoPool(w: World, cell: Entity)
    requires w.Valid() && cell in w.cells
    modifies w`poolQueue, w`cells
    ensures w.Valid()
    ensures w.poolQueue == old(w.poolQueue) + [cell]
    ensures w.cells == old(w.cells)[cell := old(w.cells[cell]).(pendingDequeue := false)]
  {
    w.poolQueue := w.poolQueue + [cell];
    w.cells := w.cells[cell := w.cells[cell].(pendingDequeue := false)];
  }

  /**
    Instantiates a copy of the prototype as a new entity, without the prototype
    tag and with `PendingDequeue` enabled.
   */
  method InstantiateFromPrototype(w: World, prototype: Entity) returns (cell: Entity)
    requires w.Valid() && prototype in w.cells
    modifies w`cells, w`nextEntity
    ensures w.Valid()
    ensures cell !in old(w.cells)
    ensures w.cells == old(w.cells)[cell := old(w.cells[prototype]).(prototypeTag := false, pendingDequeue := true)]
  {
    cell := w.nextEntity;
    w.cells := w.cells[cell := w.cells[prototype].(prototypeTag := false, pendingDequeue := true)];
    w.nextEntity := w.nextEntity + 1;
  }

  /** The buffer filled by `CreateCellConfigEntity`: one entry per configuration, in list order. */
  method CreateCellConfigEntity(cellConfigs: seq<CellConfig>) returns (buffer: seq<CellConfig>)
    ensures buffer == cellConfigs
  {
    buffer := [];
    for i := 0 to |cellConfigs|
      invariant buffer == cellConfigs[..i]
    {
      buffer := buffer + [cellConfigs[i]];
    }
  }
}
