/**
  The evaporation system: every live cell hotter than the boiling point with
  some moisture loses up to `(T - 100) * coefficient` of it, paying the latent
  heat from its temperature. The job records two buffer appends per cell; the
  system plays them back and applies temperature, then moisture.
 */
module EvaporationSystem {
  import opened Wrappers
  import opened Vectors
  import opened GlobalConfig
  import opened CellWorld
  import opened PublicJobs

  /** The boiling point the job compares against. */
  const BoilingPoint: real := 100.0

  /** The evaporation coefficient and the latent heat of water; neither constant is part of this model's sources. */
  datatype EvaporationParams = EvaporationParams(coefficient: real, latentHeat: real)

  function Min(a: real, b: real): (r: real)
    ensures r <= a && r <= b && (r == a || r == b)
  {
    if a <= b then a else b
  }

  /** `math.min(rate, moisture)` with the rate linear in the excess over the boiling point. */
  function EvaporationAmount(temperature: real, moisture: real, coefficient: real): real
  {
    Min((temperature - BoilingPoint) * coefficient, moisture)
  }

  /**
    What `EvaporationJob.Execute` records for the cell `e`. A cell without a
    `Moisture` component is outside the job's query.
   */
  function Evaporate(e: Entity, c: Cell, p: EvaporationParams): seq<Command>
  {
    if c.moisture.None? then []
    else if c.temperature <= BoilingPoint || c.moisture.value <= 0.0 then []
    else
      Losses(e, EvaporationAmount(c.temperature, c.moisture.value, p.coefficient), p.latentHeat)
  }

  /** The heat the evaporated water takes with it. */
  function HeatLoss(amount: real, latentHeat: real): (r: real)
    ensures amount >= 0.0 && latentHeat >= 0.0 ==> r >= 0.0
  {
    amount * latentHeat
  }

  /** The two appends for an evaporated `amount`; nothing when the amount is not positive. */
  function Losses(e: Entity, amount: real, latentHeat: real): seq<Command>
  {
    if amount <= 0.0 then [] else [AppendMoisture(e, -amount), AppendHeat(e, -HeatLoss(amount, latentHeat))]
  }

  /** The rate and the `math.min` of `EvaporationJob.Execute`. */
  method ComputeAmount(temperature: real, moisture: real, coefficient: real) returns (amount: real)
    ensures amount == EvaporationAmount(temperature, moisture, coefficient)
  {
    var temperatureDiff := temperature - BoilingPoint;
    var evaporationRate := temperatureDiff * coefficient;
    amount := Min(evaporationRate, moisture);
  }

  /** `EvaporationJob.Execute` on one cell. */
  method EvaporationJob(e: Entity, c: Cell, p: EvaporationParams) returns (commands: seq<Command>)
    ensures commands == Evaporate(e, c, p)
  {
    commands := [];
    if c.moisture.None? {
      return;
    }
    if c.temperature <= BoilingPoint || c.moisture.value <= 0.0 {
      return;
    }
    var evaporationAmount := ComputeAmount(c.temperature, c.moisture.value, p.coefficient);
    if evaporationAmount <= 0.0 {
      return;
    }
    var heatLoss := HeatLoss(evaporationAmount, p.latentHeat);
    commands := [AppendMoisture(e, -evaporationAmount), AppendHeat(e, -heatLoss)];
  }

  /**
    The job records nothing exactly when the cell has no moisture, is at or
    below the boiling point, is dry, or the amount is not positive; otherwise
    it records one moisture loss of `amount` and one heat loss of
    `amount * latentHeat`, both on the cell itself, with `0 < amount <= moisture`.
   */
  lemma EvaporateShape(e: Entity, c: Cell, p: EvaporationParams)
    ensures Evaporate(e, c, p) == [] <==>
      || c.moisture.None? || c.temperature <= BoilingPoint || c.moisture.value <= 0.0
      || EvaporationAmount(c.temperature, c.moisture.value, p.coefficient) <= 0.0
    ensures Evaporate(e, c, p) != [] ==>
      var amount := EvaporationAmount(c.temperature, c.moisture.value, p.coefficient);
      && 0.0 < amount <= c.moisture.value
      && amount <= (c.temperature - BoilingPoint) * p.coefficient
      && Evaporate(e, c, p) == [AppendMoisture(e, -amount), AppendHeat(e, -HeatLoss(amount, p.latentHeat))]
  {
  }

  /** With a positive coefficient, any moist cell above the boiling point evaporates. */
  lemma HotMoistCellEvaporates(e: Entity, c: Cell, p: EvaporationParams)
    requires p.coefficient > 0.0 && c.moisture.Some? && c.moisture.value > 0.0 && c.temperature > BoilingPoint
    ensures |Evaporate(e, c, p)| == 2
  {
    assert (c.temperature - BoilingPoint) * p.coefficient > 0.0;
  }

  /** The commands of all live cells in query order `order`, concatenated. */
  function RecordEvaporation(cells: map<Entity, Cell>, p: EvaporationParams, order: seq<Entity>): (r: seq<Command>)
    ensures TargetsIn(r, cells)
  {
    if order == [] then []
    else
      var last := order[|order| - 1];
      var prev := RecordEvaporation(cells, p, order[..|order| - 1]);
      if last in cells && cells[last].isAlive then
        TargetsInAppend(prev, Evaporate(last, cells[last], p), cells);
        prev + Evaporate(last, cells[last], p)
      else prev
  }

  /** Every command targets a live cell of `order` and takes moisture or heat away from it. */
  predicate OnlyLowers(ecb: seq<Command>, cells: map<Entity, Cell>, order: seq<Entity>)
  {
    forall i | 0 <= i < |ecb| ::
      && ecb[i].target in order && ecb[i].target in cells && cells[ecb[i].target].isAlive
      && ((ecb[i].AppendMoisture? && ecb[i].amount < 0.0) || (ecb[i].AppendHeat? && ecb[i].amount <= 0.0))
  }

  /** With a non-negative latent heat, evaporation never adds moisture or heat to any cell. */
  lemma {:induction false} RecordEvaporationOnlyLowers(cells: map<Entity, Cell>, p: EvaporationParams, order: seq<Entity>)
    requires p.latentHeat >= 0.0
    ensures OnlyLowers(RecordEvaporation(cells, p, order), cells, order)
    decreases |order|
  {
    if order != [] {
      var init := order[..|order| - 1];
      var last := order[|order| - 1];
      RecordEvaporationOnlyLowers(cells, p, init);
      var a := RecordEvaporation(cells, p, init);
      if last in cells && cells[last].isAlive {
        var b := Evaporate(last, cells[last], p);
        EvaporateShape(last, cells[last], p);
        var ab: seq<Command> := a + b;
        forall i | 0 <= i < |ab|
          ensures && ab[i].target in order && ab[i].target in cells && cells[ab[i].target].isAlive
                  && ((ab[i].AppendMoisture? && ab[i].amount < 0.0) || (ab[i].AppendHeat? && ab[i].amount <= 0.0))
        {
          if i < |a| {
            assert ab[i] == a[i];
          } else {
            assert ab[i] == b[i - |a|];
          }
        }
      } else {
        forall i | 0 <= i < |a| ensures a[i].target in order {
        }
      }
    }
  }

  /** `EvaporationJob` over the query in order `order`. */
  method RecordEvaporationJob(cells: map<Entity, Cell>, p: EvaporationParams, order: seq<Entity>) returns (ecb: seq<Command>)
    ensures ecb == RecordEvaporation(cells, p, order)
  {
    ecb := [];
    for i := 0 to |order|
      invariant ecb == RecordEvaporation(cells, p, order[..i])
    {
      assert order[..i + 1][..i] == order[..i];
      var e := order[i];
      if e in cells && cells[e].isAlive {
        var commands := EvaporationJob(e, cells[e], p);
        ecb := ecb + commands;
      }
    }
    assert order[..|order|] == order;
  }

  /**
    `OnUpdate`: the job over the live cells in query order `order`, playback of
    its buffer, then the temperature pass, then the moisture pass.
   */
  method EvaporationUpdate(w: World, order: seq<Entity>, configs: seq<CellConfig>, p: EvaporationParams)
    requires w.Valid()
    modifies w`cells
    ensures w.Valid()
    ensures w.cells == MoisturesUpdated(TemperaturesUpdated(Playback(old(w.cells), RecordEvaporation(old(w.cells), p, order)), configs))
  {
    var ecb := RecordEvaporationJob(w.cells, p, order);
    PlaybackKeepsMap(w.cellMap, w.cells, ecb);
    w.cells := Playback(w.cells, ecb);
    UpdatesKeepMap(w.cellMap, w.cells, configs);
    UpdateTemperatures(w, configs);
    UpdatesKeepMap(w.cellMap, w.cells, configs);
    UpdateMoistures(w);
  }

  /**
    On one cell with moisture `m` in [0, 1] and empty buffers, a step of the
    system leaves exactly `m - amount` (never below zero) and lowers the
    temperature by exactly the latent heat of that amount.
   */
  lemma EvaporationOnOneCell(e: Entity, c: Cell, p: EvaporationParams, cfg: Option<CellConfig>)
    requires c.moisture.Some? && 0.0 <= c.moisture.value <= 1.0 && c.heat == [] && c.moistureDeltas == []
    requires Evaporate(e, c, p) != []
    ensures var amount := EvaporationAmount(c.temperature, c.moisture.value, p.coefficient);
      var applied := ApplyCommand(ApplyCommand(c, Evaporate(e, c, p)[0]), Evaporate(e, c, p)[1]);
      var r := MoistureUpdated(TemperatureUpdated(applied, cfg));
      && r.moisture == Some(c.moisture.value - amount) && 0.0 <= r.moisture.value
      && r.temperature == c.temperature - HeatLoss(amount, p.latentHeat)
      && r.heat == [] && r.moistureDeltas == []
  {
    var amount := EvaporationAmount(c.temperature, c.moisture.value, p.coefficient);
    var loss := HeatLoss(amount, p.latentHeat);
    assert 0.0 < amount <= c.moisture.value by {
      EvaporateShape(e, c, p);
    }
    var applied := ApplyCommand(ApplyCommand(c, Evaporate(e, c, p)[0]), Evaporate(e, c, p)[1]);
    assert applied.moistureDeltas == [-amount] && applied.heat == [-loss]
        && applied.temperature == c.temperature && applied.moisture == c.moisture by {
      EvaporateShape(e, c, p);
    }
    var t := TemperatureUpdated(applied, cfg);
    assert Sum([-loss]) == -loss by {
      assert [-loss][..0] == [];
    }
    assert t.temperature == c.temperature - loss;
    assert t.moisture == c.moisture && t.moistureDeltas == [-amount] && t.heat == [];
    assert ClampFold(c.moisture.value, [-amount]) == c.moisture.value - amount by {
      assert [-amount][..0] == [];
    }
  }
}
