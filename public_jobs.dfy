/**
  The two apply jobs shared by the heat, moisture and evaporation systems:
  `TemperatureUpdateJob` folds the heat buffer into the temperature and
  re-derives the burning and explosion flags, and `MoistureUpdateJob` folds the
  moisture buffer into the moisture, clamping after every element.
 */
module PublicJobs {
  import opened Wrappers
  import opened Vectors
  import opened GlobalConfig
  import opened CellWorld
  import CellUtility

  /**
    What `TemperatureUpdateJob` leaves in a cell whose configuration lookup gave
    `cfg`. The buffer is summed in and cleared before the lookup; when the
    lookup throws (`None`), the flags keep their old values.
   */
  function TemperatureUpdated(c: Cell, cfg: Option<CellConfig>): Cell
  {
    var t := c.temperature + Sum(c.heat);
    c.(temperature := t, heat := [], isBurning := Burning(t, cfg, c.isBurning),
       shouldExplode := Exploding(t, cfg, c.shouldExplode))
  }

  /** The `ShouldExplosion` flag for temperature `t`: set at or above the explosion point. */
  function Exploding(t: real, cfg: Option<CellConfig>, previous: bool): bool
  {
    if cfg.None? then previous else t >= cfg.value.explosionPoint
  }

  /** The `IsBurning` flag for temperature `t`: set from the ignition point up to, not including, the explosion point. */
  function Burning(t: real, cfg: Option<CellConfig>, previous: bool): bool
  {
    if cfg.None? then previous
    else if t >= cfg.value.explosionPoint then false
    else t >= cfg.value.ignitionPoint
  }

  /** The loop of `TemperatureUpdateJob`: adds the buffer entries to `start`, front to back. */
  method AddBuffer(start: real, buffer: seq<real>) returns (total: real)
    ensures total == start + Sum(buffer)
  {
    total := start;
    for i := 0 to |buffer|
      invariant total == start + Sum(buffer[..i])
    {
      assert buffer[..i + 1][..i] == buffer[..i];
      total := total + buffer[i];
    }
    assert buffer[..|buffer|] == buffer;
  }

  /** `TemperatureUpdateJob.Execute` on one cell. */
  method TemperatureUpdate(c: Cell, configs: seq<CellConfig>) returns (r: Cell)
    ensures r == TemperatureUpdated(c, CellUtility.GetCellConfig(configs, c.cellType))
  {
    var temperature := AddBuffer(c.temperature, c.heat);
    var burning, exploding := c.isBurning, c.shouldExplode;
    var config := CellUtility.GetCellConfig(configs, c.cellType);
    if config.Some? {
      if temperature >= config.value.explosionPoint {
        exploding, burning := true, false;
      } else if temperature >= config.value.ignitionPoint {
        burning, exploding := true, false;
      } else {
        burning, exploding := false, false;
      }
    }
    r := c.(temperature := temperature, heat := [], isBurning := burning, shouldExplode := exploding);
  }

  /**
    The new temperature is the old one plus the whole buffer, and the buffer is
    empty afterwards. With a configuration, the cell should explode exactly at
    or above its explosion point, burns exactly between its ignition point
    (inclusive) and its explosion point (exclusive), and so never does both.
   */
  lemma TemperatureFlags(c: Cell, cfg: Option<CellConfig>)
    ensures var r := TemperatureUpdated(c, cfg);
      && r.temperature == c.temperature + Sum(c.heat) && r.heat == []
      && !(r.isBurning && r.shouldExplode && cfg.Some?)
    ensures var r := TemperatureUpdated(c, cfg);
      cfg.Some? ==>
        && (r.shouldExplode <==> r.temperature >= cfg.value.explosionPoint)
        && (r.isBurning <==> cfg.value.ignitionPoint <= r.temperature < cfg.value.explosionPoint)
  {
  }

  /** Below the ignition point, with ignition not above explosion, neither flag is set. */
  lemma TemperatureBelowIgnition(c: Cell, cfg: Option<CellConfig>)
    requires cfg.Some? && cfg.value.ignitionPoint <= cfg.value.explosionPoint
    requires c.temperature + Sum(c.heat) < cfg.value.ignitionPoint
    ensures !TemperatureUpdated(c, cfg).isBurning && !TemperatureUpdated(c, cfg).shouldExplode
  {
  }

  /**
    The flags are not latched: two cells of the same type that end at the same
    temperature get the same flags, whatever flags they had before.
   */
  lemma TemperatureFlagsNotLatched(c1: Cell, c2: Cell, cfg: Option<CellConfig>)
    requires cfg.Some? && c1.temperature + Sum(c1.heat) == c2.temperature + Sum(c2.heat)
    ensures TemperatureUpdated(c1, cfg).isBurning == TemperatureUpdated(c2, cfg).isBurning
    ensures TemperatureUpdated(c1, cfg).shouldExplode == TemperatureUpdated(c2, cfg).shouldExplode
  {
  }

  /** The job writes only the temperature, the heat buffer and the two flags. */
  lemma TemperatureFrame(c: Cell, cfg: Option<CellConfig>)
    ensures var r := TemperatureUpdated(c, cfg);
      r.(temperature := c.temperature, heat := c.heat, isBurning := c.isBurning, shouldExplode := c.shouldExplode) == c
  {
  }

  /** `math.clamp(x, 0, 1)`. */
  function Clamp01(x: real): (r: real)
    ensures 0.0 <= r <= 1.0
    ensures 0.0 <= x <= 1.0 ==> r == x
  {
    if x < 0.0 then 0.0 else if x > 1.0 then 1.0 else x
  }

  /** The moisture after adding the deltas front to back, clamping after each one. */
  function ClampFold(m: real, deltas: seq<real>): real
  {
    if deltas == [] then m else Clamp01(ClampFold(m, deltas[..|deltas| - 1]) + deltas[|deltas| - 1])
  }

  /** A non-empty buffer always leaves the moisture in [0, 1]; an empty one leaves it unchanged. */
  lemma ClampFoldInRange(m: real, deltas: seq<real>)
    ensures deltas != [] ==> 0.0 <= ClampFold(m, deltas) <= 1.0
    ensures deltas == [] ==> ClampFold(m, deltas) == m
  {
  }

  /** Clamping per element is not clamping the sum: from 0 with deltas -0.5, +0.5 the fold gives 0.5, the sum 0. */
  lemma ClampFoldIsNotClampedSum()
    ensures ClampFold(0.0, [-0.5, 0.5]) == 0.5
    ensures Clamp01(0.0 + Sum([-0.5, 0.5])) == 0.0
  {
    assert [-0.5, 0.5][..1] == [-0.5];
    assert [-0.5][..0] == [];
    assert [-0.5, 0.5][..1][..0] == [];
  }

  /** From a value in [0, 1], deltas that keep every running sum in [0, 1] fold to the plain sum. */
  lemma {:induction false} ClampFoldWithoutClipping(m: real, deltas: seq<real>)
    requires 0.0 <= m <= 1.0
    requires forall k | 0 <= k <= |deltas| :: 0.0 <= m + Sum(deltas[..k]) <= 1.0
    ensures ClampFold(m, deltas) == m + Sum(deltas)
    decreases |deltas|
  {
    if deltas != [] {
      var init := deltas[..|deltas| - 1];
      forall k | 0 <= k <= |init| ensures 0.0 <= m + Sum(init[..k]) <= 1.0 {
        assert init[..k] == deltas[..k];
      }
      ClampFoldWithoutClipping(m, init);
      assert deltas[..|deltas|] == deltas;
    }
  }

  /** What `MoistureUpdateJob` leaves in a cell; a cell without a `Moisture` component is outside its query. */
  function MoistureUpdated(c: Cell): Cell
  {
    if c.moisture.None? then c
    else c.(moisture := Some(ClampFold(c.moisture.value, c.moistureDeltas)), moistureDeltas := [])
  }

  /** `MoistureUpdateJob.Execute` on one cell. */
  method MoistureUpdate(c: Cell) returns (r: Cell)
    ensures r == MoistureUpdated(c)
  {
    if c.moisture.None? {
      return c;
    }
    var moisture := c.moisture.value;
    for i := 0 to |c.moistureDeltas|
      invariant moisture == ClampFold(c.moisture.value, c.moistureDeltas[..i])
    {
      assert c.moistureDeltas[..i + 1][..i] == c.moistureDeltas[..i];
      moisture := Clamp01(moisture + c.moistureDeltas[i]);
    }
    assert c.moistureDeltas[..|c.moistureDeltas|] == c.moistureDeltas;
    r := c.(moisture := Some(moisture), moistureDeltas := []);
  }

  /** The cells after `TemperatureUpdateJob` has run over every live cell. */
  function TemperaturesUpdated(cells: map<Entity, Cell>, configs: seq<CellConfig>): map<Entity, Cell>
  {
    map e | e in cells ::
      if cells[e].isAlive then TemperatureUpdated(cells[e], CellUtility.GetCellConfig(configs, cells[e].cellType)) else cells[e]
  }

  /** The cells after `MoistureUpdateJob` has run over every live cell. */
  function MoisturesUpdated(cells: map<Entity, Cell>): map<Entity, Cell>
  {
    map e | e in cells :: if cells[e].isAlive then MoistureUpdated(cells[e]) else cells[e]
  }

  /** The temperature pass: every live cell updated, the others untouched. */
  method UpdateTemperatures(w: World, configs: seq<CellConfig>)
    modifies w`cells
    ensures w.cells == TemperaturesUpdated(old(w.cells), configs)
  {
    ghost var cells0 := w.cells;
    var todo := w.cells.Keys;
    while todo != {}
      invariant todo <= cells0.Keys && w.cells.Keys == cells0.Keys
      invariant forall e | e in cells0 && e !in todo ::
        w.cells[e] == if cells0[e].isAlive then TemperatureUpdated(cells0[e], CellUtility.GetCellConfig(configs, cells0[e].cellType)) else cells0[e]
      invariant forall e | e in todo :: w.cells[e] == cells0[e]
      decreases todo
    {
      var e :| e in todo;
      if w.cells[e].isAlive {
        var updated := TemperatureUpdate(w.cells[e], configs);
        w.cells := w.cells[e := updated];
      }
      todo := todo - {e};
    }
  }

  /** The moisture pass: every live cell updated, the others untouched. */
  method UpdateMoistures(w: World)
    modifies w`cells
    ensures w.cells == MoisturesUpdated(old(w.cells))
  {
    ghost var cells0 := w.cells;
    var todo := w.cells.Keys;
    while todo != {}
      invariant todo <= cells0.Keys && w.cells.Keys == cells0.Keys
      invariant forall e | e in cells0 && e !in todo ::
        w.cells[e] == if cells0[e].isAlive then MoistureUpdated(cells0[e]) else cells0[e]
      invariant forall e | e in todo :: w.cells[e] == cells0[e]
      decreases todo
    {
      var e :| e in todo;
      if w.cells[e].isAlive {
        var updated := MoistureUpdate(w.cells[e]);
        w.cells := w.cells[e := updated];
      }
      todo := todo - {e};
    }
  }

  /** Neither pass moves a cell, so the map invariant survives both. */
  lemma UpdatesKeepMap(m: map<Int3, Entity>, cells: map<Entity, Cell>, configs: seq<CellConfig>)
    requires MapConsistent(m, cells)
    ensures TemperaturesUpdated(cells, configs).Keys == cells.Keys && MoisturesUpdated(cells).Keys == cells.Keys
    ensures MapConsistent(m, TemperaturesUpdated(cells, configs)) && MapConsistent(m, MoisturesUpdated(cells))
  {
    forall c | c in m ensures Pos(TemperaturesUpdated(cells, configs)[m[c]]) == c {
      TemperatureFrame(cells[m[c]], CellUtility.GetCellConfig(configs, cells[m[c]].cellType));
    }
  }
}
