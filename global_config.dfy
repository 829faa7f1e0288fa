/**
  The enumerations of `DataStructs.cs`, the per-type configuration record and
  the constants and static per-type tables of `GlobalConfig.cs`.
 */
module GlobalConfig {

  /** `CellTypeEnum`: `None` = 0, `Cell1` = -1, `Cell2` = -2. */
  datatype CellType = NoneType | Cell1 | Cell2

  function TypeOrdinal(t: CellType): int
  {
    match t
    case NoneType => 0
    case Cell1 => -1
    case Cell2 => -2
  }

  /** `CellStateEnum`: `None` = 0, `Solid` = 1, `Liquid` = 2, `Gas` = 3, `Powder` = 4. */
  datatype CellState = NoneState | Solid | Liquid | Gas | Powder

  function StateOrdinal(s: CellState): int
  {
    match s
    case NoneState => 0
    case Solid => 1
    case Liquid => 2
    case Gas => 3
    case Powder => 4
  }

  /**
    The per-type configuration record read from the configuration buffer. The
    fields are those the simulation reads; a struct field never assigned holds 0.
   */
  datatype CellConfig = CellConfig(
    cellType: CellType,
    state: CellState,
    mass: int,
    fluidity: real,
    viscosity: real,
    heatConductivity: real,
    moistureConductivity: real,
    ignitionPoint: real,
    explosionPoint: real,
    temperatureMin: real,
    temperatureMax: real,
    moistureMin: real,
    moistureMax: real)

  /** The zero-initialised struct. */
  const DefaultConfig := CellConfig(NoneType, NoneState, 0, 0.0, 0.0, 0.0, 0.0, 0.0, 0.0, 0.0, 0.0, 0.0, 0.0)

  const CellMapInitialCapacity: int := 4096
  const MaxCellPoolSize: int := 65536
  const DefaultCellScale: real := 0.5
  const SlowUpdateRateInMS: nat := 1000
  const FastUpdateRateInMS: nat := 20
  const MaxVelocity: real := 100.0

  /** The static tables, indexed by `-(int)type - 1`. */
  const States: seq<CellState> := [Solid, Liquid]
  const Masses: seq<int> := [1, 2]
  const Energies: seq<real> := [100.0, 200.0]

  function LookupIndex(t: CellType): int { -TypeOrdinal(t) - 1 }

  /** The index lies inside the three (equally long) tables. */
  predicate HasStaticEntry(t: CellType) { 0 <= LookupIndex(t) < |States| }

  function GetState(t: CellType): CellState
    requires HasStaticEntry(t)
  {
    States[LookupIndex(t)]
  }

  function GetMass(t: CellType): int
    requires HasStaticEntry(t)
  {
    Masses[LookupIndex(t)]
  }

  function GetEnergy(t: CellType): real
    requires HasStaticEntry(t)
  {
    Energies[LookupIndex(t)]
  }

  /** Cell1 and Cell2 index the tables at 0 and 1; None indexes -1 and has no entry. */
  lemma LookupIndexOfTypes()
    ensures LookupIndex(Cell1) == 0 && LookupIndex(Cell2) == 1 && LookupIndex(NoneType) == -1
    ensures forall t :: HasStaticEntry(t) <==> t != NoneType
  {
  }
}
