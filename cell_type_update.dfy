/**
  The cell type update system: on its first update it copies the
  configuration buffer into an array it keeps; on every update it scans the
  configurations for the first whose temperature and moisture bands (both
  bounds inclusive) contain a live cell's values, and hands that cell and the
  matched type (`None` when nothing matches) to `SetCellType`.

  The overload of `SetCellType` that also takes the map and the pool queue is
  not part of this model, so the job is modelled up to the sequence of calls
  it makes.
 */
module CellTypeUpdateSystem {
  import opened Wrappers
  import opened GlobalConfig
  import opened CellWorld

  /** An element of the `CellConfigBuffer` dynamic buffer. */
  datatype ConfigEntry = ConfigEntry(data: CellConfig)

  /** A call `SetCellType(cell, …, target)`. */
  datatype SetTypeCall = SetTypeCall(cell: Entity, target: CellType)

  /** Both bands of `config` contain the values, bounds included. */
  predicate InBand(config: CellConfig, temperature: real, moisture: real)
  {
    && config.temperatureMin <= temperature <= config.temperatureMax
    && config.moistureMin <= moisture <= config.moistureMax
  }

  /** The index of the first configuration whose bands contain the values. */
  function FirstMatch(configs: seq<CellConfig>, temperature: real, moisture: real): (r: Option<nat>)
    ensures r.None? <==> forall i | 0 <= i < |configs| :: !InBand(configs[i], temperature, moisture)
    ensures r.Some? ==>
      && r.value < |configs| && InBand(configs[r.value], temperature, moisture)
      && forall j | 0 <= j < r.value :: !InBand(configs[j], temperature, moisture)
  {
    if configs == [] then None
    else if InBand(configs[0], temperature, moisture) then Some(0)
    else
      var rest := FirstMatch(configs[1..], temperature, moisture);
      assert forall i | 1 <= i < |configs| :: configs[i] == configs[1..][i - 1];
      if rest.None? then None else Some(rest.value + 1)
  }

  /** The type the job picks for a cell with these values. */
  function TargetOf(configs: seq<CellConfig>, temperature: real, moisture: real): CellType
  {
    var k := FirstMatch(configs, temperature, moisture);
    if k.None? then NoneType else configs[k.value].cellType
  }

  /**
    The picked type is the type of the first matching configuration, and
    `None` exactly when no configuration matches, or the first match is itself
    configured with type `None`.
   */
  lemma TargetOfIsFirstMatch(configs: seq<CellConfig>, temperature: real, moisture: real, i: nat)
    requires i < |configs| && InBand(configs[i], temperature, moisture)
    requires forall j | 0 <= j < i :: !InBand(configs[j], temperature, moisture)
    ensures TargetOf(configs, temperature, moisture) == configs[i].cellType
  {
  }

  /** Nothing matches: the cell becomes `None`. */
  lemma NoMatchGivesNone(configs: seq<CellConfig>, temperature: real, moisture: real)
    requires forall i | 0 <= i < |configs| :: !InBand(configs[i], temperature, moisture)
    ensures TargetOf(configs, temperature, moisture) == NoneType
  {
  }

  /**
    The bands are closed: a value on either bound of both bands matches, and
    a configuration placed first wins over everything behind it.
   */
  lemma BandsAreClosed(config: CellConfig, rest: seq<CellConfig>, temperature: real, moisture: real)
    requires config.temperatureMin <= config.temperatureMax && config.moistureMin <= config.moistureMax
    requires temperature == config.temperatureMin || temperature == config.temperatureMax
    requires moisture == config.moistureMin || moisture == config.moistureMax
    ensures TargetOf([config] + rest, temperature, moisture) == config.cellType
  {
    TargetOfIsFirstMatch([config] + rest, temperature, moisture, 0);
  }

  /** Only the order of the configurations matters, not how many later ones match too. */
  lemma LaterMatchesIgnored(configs: seq<CellConfig>, more: seq<CellConfig>, temperature: real, moisture: real)
    requires FirstMatch(configs, temperature, moisture).Some?
    ensures TargetOf(configs + more, temperature, moisture) == TargetOf(configs, temperature, moisture)
  {
    var k := FirstMatch(configs, temperature, moisture).value;
    assert (configs + more)[k] == configs[k];
    assert forall j | 0 <= j < k :: (configs + more)[j] == configs[j];
    TargetOfIsFirstMatch(configs + more, temperature, moisture, k);
  }

  /** The `foreach` with `break` of `CellTypeUpdateJob.Execute`. */
  method TargetType(configs: array<CellConfig>, temperature: real, moisture: real) returns (target: CellType)
    ensures target == TargetOf(configs[..], temperature, moisture)
  {
    target := NoneType;
    var i := 0;
    while i < configs.Length
      invariant 0 <= i <= configs.Length
      invariant forall j | 0 <= j < i :: !InBand(configs[j], temperature, moisture)
    {
      var config := configs[i];
      if !(temperature >= config.temperatureMin) || !(temperature <= config.temperatureMax)
        || !(moisture >= config.moistureMin) || !(moisture <= config.moistureMax)
      {
        i := i + 1;
        continue;
      }
      target := config.cellType;
      TargetOfIsFirstMatch(configs[..], temperature, moisture, i);
      return;
    }
  }

  /** The job is over live cells that have a `Moisture` component. */
  predicate InQuery(cells: map<Entity, Cell>, e: Entity)
  {
    e in cells && cells[e].isAlive && cells[e].moisture.Some?
  }

  /** The calls the job makes over the query in order `order`. */
  function TypeCalls(cells: map<Entity, Cell>, configs: seq<CellConfig>, order: seq<Entity>): seq<SetTypeCall>
  {
    if order == [] then []
    else
      var last := order[|order| - 1];
      var prev := TypeCalls(cells, configs, order[..|order| - 1]);
      if InQuery(cells, last) then
        prev + [SetTypeCall(last, TargetOf(configs, cells[last].temperature, cells[last].moisture.value))]
      else prev
  }

  /** Every call is for a live cell of `order` and carries the type picked from its own values. */
  predicate CallsFit(calls: seq<SetTypeCall>, cells: map<Entity, Cell>, configs: seq<CellConfig>, order: seq<Entity>)
  {
    forall i | 0 <= i < |calls| ::
      && calls[i].cell in order && InQuery(cells, calls[i].cell)
      && calls[i].target == TargetOf(configs, cells[calls[i].cell].temperature, cells[calls[i].cell].moisture.value)
  }

  /**
    Every call is for a cell of the query with the type picked from its own
    values, and every cell of the query in `order` gets a call.
   */
  lemma {:induction false} TypeCallsCover(cells: map<Entity, Cell>, configs: seq<CellConfig>, order: seq<Entity>)
    ensures CallsFit(TypeCalls(cells, configs, order), cells, configs, order)
    ensures forall e | e in order && InQuery(cells, e) :: exists i | 0 <= i < |TypeCalls(cells, configs, order)| :: TypeCalls(cells, configs, order)[i].cell == e
    decreases |order|
  {
    if order != [] {
      var init := order[..|order| - 1];
      var last := order[|order| - 1];
      TypeCallsCover(cells, configs, init);
      var prev := TypeCalls(cells, configs, init);
      var calls := TypeCalls(cells, configs, order);
      assert prev <= calls;
      forall i | 0 <= i < |calls|
        ensures && calls[i].cell in order && InQuery(cells, calls[i].cell)
                && calls[i].target == TargetOf(configs, cells[calls[i].cell].temperature, cells[calls[i].cell].moisture.value)
      {
        if i < |prev| {
          assert calls[i] == prev[i];
        }
      }
      forall e | e in order && InQuery(cells, e) ensures exists i | 0 <= i < |calls| :: calls[i].cell == e {
        if e in init {
          var i :| 0 <= i < |prev| && prev[i].cell == e;
          assert calls[i] == prev[i];
        } else {
          assert e == last;
          assert calls[|calls| - 1].cell == e;
        }
      }
    }
  }

  predicate DistinctCells(calls: seq<SetTypeCall>)
  {
    forall i, j | 0 <= i < j < |calls| :: calls[i].cell != calls[j].cell
  }

  /** With no entity listed twice, no cell gets two calls. */
  lemma {:induction false} TypeCallsOncePerCell(cells: map<Entity, Cell>, configs: seq<CellConfig>, order: seq<Entity>)
    requires forall i, j | 0 <= i < j < |order| :: order[i] != order[j]
    ensures DistinctCells(TypeCalls(cells, configs, order))
    decreases |order|
  {
    if order != [] {
      var init := order[..|order| - 1];
      var last := order[|order| - 1];
      TypeCallsOncePerCell(cells, configs, init);
      TypeCallsCover(cells, configs, init);
      var prev := TypeCalls(cells, configs, init);
      var calls := TypeCalls(cells, configs, order);
      if InQuery(cells, last) {
        forall i, j | 0 <= i < j < |calls| ensures calls[i].cell != calls[j].cell {
          if j == |prev| {
            assert calls[i] == prev[i];
            assert prev[i].cell in init;
            var k :| 0 <= k < |init| && init[k] == prev[i].cell;
            assert order[k] == init[k] && order[|order| - 1] == last;
          } else {
            assert calls[i] == prev[i] && calls[j] == prev[j];
          }
        }
      }
    }
  }

  /** `CellTypeUpdateJob` over the query in order `order`. */
  method CellTypeUpdateJob(cells: map<Entity, Cell>, configs: array<CellConfig>, order: seq<Entity>) returns (calls: seq<SetTypeCall>)
    ensures calls == TypeCalls(cells, configs[..], order)
  {
    calls := [];
    for i := 0 to |order|
      invariant calls == TypeCalls(cells, configs[..], order[..i])
    {
      assert order[..i + 1][..i] == order[..i];
      var e := order[i];
      if e in cells && cells[e].isAlive && cells[e].moisture.Some? {
        var target := TargetType(configs, cells[e].temperature, cells[e].moisture.value);
        calls := calls + [SetTypeCall(e, target)];
      }
    }
    assert order[..|order|] == order;
  }

  function Data(buffer: seq<ConfigEntry>): seq<CellConfig>
  {
    seq(|buffer|, i requires 0 <= i < |buffer| => buffer[i].data)
  }

  /** The system, which keeps the copied configurations between updates. */
  class TypeUpdater {
    var cellConfigs: array<CellConfig>
    var isCreated: bool

    constructor ()
      ensures !isCreated
    {
      cellConfigs := new CellConfig[0];
      isCreated := false;
    }

    /** The copy loop of `OnUpdate`: one element per buffer entry, in buffer order. */
    static method CopyConfigs(buffer: seq<ConfigEntry>) returns (configs: array<CellConfig>)
      ensures fresh(configs)
      ensures configs[..] == Data(buffer)
    {
      configs := new CellConfig[|buffer|](_ => DefaultConfig);
      for i := 0 to |buffer|
        invariant forall j | 0 <= j < i :: configs[j] == buffer[j].data
      {
        configs[i] := buffer[i].data;
      }
    }

    /**
      `OnUpdate`: copies the buffer on the first update only, then returns the
      calls of the job over the query in order `order`.
     */
    method OnUpdate(buffer: seq<ConfigEntry>, cells: map<Entity, Cell>, order: seq<Entity>) returns (calls: seq<SetTypeCall>)
      modifies this
      ensures isCreated
      ensures old(isCreated) ==> cellConfigs == old(cellConfigs)
      ensures !old(isCreated) ==> fresh(cellConfigs) && cellConfigs[..] == Data(buffer)
      ensures calls == TypeCalls(cells, cellConfigs[..], order)
    {
      if !isCreated {
        cellConfigs := CopyConfigs(buffer);
        isCreated := true;
      }
      calls := CellTypeUpdateJob(cells, cellConfigs, order);
    }
  }
}
