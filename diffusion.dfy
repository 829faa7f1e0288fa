/**
  What the heat and moisture diffusion jobs share: the six axis-aligned
  neighbour offsets, the transfer toward one neighbour, and the sum of the
  amounts a job appends.
 */
module Diffusion {
  import opened Wrappers
  import opened Vectors
  import opened GlobalConfig
  import opened CellWorld
  import CellUtility

  /** The `Directions` table of both jobs: right, left, up, down, front, back. */
  const Directions: seq<Int3> :=
    [Int3(1, 0, 0), Int3(-1, 0, 0), Int3(0, 1, 0), Int3(0, -1, 0), Int3(0, 0, 1), Int3(0, 0, -1)]

  lemma SquareAtMostOne(x: int)
    requires x * x <= 1
    ensures -1 <= x <= 1
  {
  }

  lemma UnitSquare(x: int)
    requires -1 <= x <= 1
    ensures x * x == if x == 0 then 0 else 1
  {
  }

  /** The table holds exactly the six offsets at distance one, each once. */
  lemma DirectionsAreAxisNeighbours()
    ensures |Directions| == 6
    ensures forall o :: o in Directions <==> LengthSqI(o) == 1
    ensures forall i, j | 0 <= i < j < |Directions| :: Directions[i] != Directions[j]
  {
    forall o | LengthSqI(o) == 1 ensures o in Directions {
      assert o.x * o.x >= 0 && o.y * o.y >= 0 && o.z * o.z >= 0;
      SquareAtMostOne(o.x);
      SquareAtMostOne(o.y);
      SquareAtMostOne(o.z);
      UnitSquare(o.x);
      UnitSquare(o.y);
      UnitSquare(o.z);
    }
  }

  /**
    The amount that flows from a cell to one neighbour: the difference of their
    values times the mean of their conductivities times the coefficient.
   */
  function Flow(selfValue: real, neighbourValue: real, selfConductivity: real, neighbourConductivity: real,
                coefficient: real): real
  {
    (selfValue - neighbourValue) * ((selfConductivity + neighbourConductivity) * 0.5) * coefficient
  }

  /** The flow `a` computes toward `b` is the negation of the flow `b` computes toward `a`. */
  lemma FlowAntisymmetric(a: real, b: real, ca: real, cb: real, k: real)
    ensures Flow(a, b, ca, cb, k) == -Flow(b, a, cb, ca, k)
  {
    calc {
      Flow(a, b, ca, cb, k);
      (a - b) * ((ca + cb) * 0.5) * k;
      -((b - a) * ((cb + ca) * 0.5) * k);
    }
  }

  /** Equal values exchange nothing. */
  lemma FlowZeroWhenEqual(a: real, ca: real, cb: real, k: real)
    ensures Flow(a, a, ca, cb, k) == 0.0
  {
  }

  /** The amount carried by a buffer append (zero for other commands). */
  function Amount(cmd: Command): real
  {
    match cmd
    case AppendHeat(_, a) => a
    case AppendMoisture(_, a) => a
    case _ => 0.0
  }

  /** The total of the amounts of a command list. */
  function SumAmounts(cmds: seq<Command>): real
  {
    if cmds == [] then 0.0 else SumAmounts(cmds[..|cmds| - 1]) + Amount(cmds[|cmds| - 1])
  }

  lemma {:induction false} SumAmountsAppend(a: seq<Command>, b: seq<Command>)
    ensures SumAmounts(a + b) == SumAmounts(a) + SumAmounts(b)
    decreases |b|
  {
    if b == [] {
      assert a + b == a;
    } else {
      assert (a + b)[..|a + b| - 1] == a + b[..|b| - 1];
      SumAmountsAppend(a, b[..|b| - 1]);
    }
  }

  /** The occupant of an axis neighbour of `p`. */
  ghost predicate IsNeighbour(m: map<Int3, Entity>, p: Int3, e: Entity)
  {
    exists d | d in Directions :: AddI(p, d) in m && m[AddI(p, d)] == e
  }

  /** Every command goes to an occupied axis neighbour of `p` and carries a non-zero amount. */
  ghost predicate ToNeighbours(m: map<Int3, Entity>, p: Int3, cmds: seq<Command>)
  {
    forall i | 0 <= i < |cmds| :: IsNeighbour(m, p, cmds[i].target) && Amount(cmds[i]) != 0.0
  }

  /**
    The quantity a job diffuses: heat (`Temperature`, `HeatConductivity`,
    `HeatBuffer`) or moisture (`Moisture`, `MoistureConductivity`, `MoistureBuffer`).
   */
  datatype Quantity = Heat | Moisture

  /** The cell's value of the quantity; `None` when the cell has no such component (every cell has a temperature). */
  function ValueOf(c: Cell, q: Quantity): Option<real>
  {
    match q
    case Heat => Some(c.temperature)
    case Moisture => c.moisture
  }

  function ConductivityOf(cfg: CellConfig, q: Quantity): real
  {
    match q
    case Heat => cfg.heatConductivity
    case Moisture => cfg.moistureConductivity
  }

  /** Every command is a non-zero append of quantity `q`. */
  predicate AllOf(cmds: seq<Command>, q: Quantity)
  {
    forall i | 0 <= i < |cmds| :: cmds[i] == AppendTo(cmds[i].target, Amount(cmds[i]), q) && Amount(cmds[i]) != 0.0
  }

  /** The buffer append of the quantity. */
  function AppendTo(e: Entity, amount: real, q: Quantity): (r: Command)
    ensures r.target == e && Amount(r) == amount
  {
    match q
    case Heat => AppendHeat(e, amount)
    case Moisture => AppendMoisture(e, amount)
  }

  /**
    The commands a job has recorded for one cell, and whether it stopped on a
    configuration lookup that throws; what was recorded before the throw stays
    in the buffer.
   */
  datatype Recorded = Recorded(commands: seq<Command>, threw: bool)

  /**
    The neighbour part of one `Execute`, over the first `k` directions, for the
    cell at `p` with value `v` and conductivity `cond`: an absent coordinate, or
    one whose occupant lacks the component, is skipped; a zero transfer is
    skipped; any other transfer is appended to the neighbour's buffer.
   */
  function NeighbourPart(m: map<Int3, Entity>, cells: map<Entity, Cell>, configs: seq<CellConfig>, coefficient: real,
                         q: Quantity, p: Int3, v: real, cond: real, k: nat): Recorded
    requires MapConsistent(m, cells) && k <= |Directions|
  {
    if k == 0 then Recorded([], false)
    else
      var prev := NeighbourPart(m, cells, configs, coefficient, q, p, v, cond, k - 1);
      var at := AddI(p, Directions[k - 1]);
      if prev.threw || at !in m || ValueOf(cells[m[at]], q).None? then prev
      else
        var cfg := CellUtility.GetCellConfig(configs, cells[m[at]].cellType);
        if cfg.None? then Recorded(prev.commands, true)
        else
          var t := Flow(v, ValueOf(cells[m[at]], q).value, cond, ConductivityOf(cfg.value, q), coefficient);
          if t == 0.0 then prev else Recorded(prev.commands + [AppendTo(m[at], t, q)], false)
  }

  /**
    One `Execute` of the heat or moisture job for cell `self`: nothing when the
    cell lacks the component, a throw when its own configuration is missing,
    otherwise the neighbour part followed, when the accumulated total is
    non-zero, by that total appended to the cell's own buffer.
   */
  function Exchange(m: map<Int3, Entity>, cells: map<Entity, Cell>, configs: seq<CellConfig>, coefficient: real,
                    q: Quantity, self: Entity): Recorded
    requires MapConsistent(m, cells) && self in cells
  {
    var c := cells[self];
    if ValueOf(c, q).None? then Recorded([], false)
    else
      var cfg := CellUtility.GetCellConfig(configs, c.cellType);
      if cfg.None? then Recorded([], true)
      else
        var out := NeighbourPart(m, cells, configs, coefficient, q, Pos(c), ValueOf(c, q).value,
                                 ConductivityOf(cfg.value, q), |Directions|);
        if out.threw then out
        else
          var total := -SumAmounts(out.commands);
          if total != 0.0 then Recorded(out.commands + [AppendTo(self, total, q)], false) else out
  }

  /** `HeatTransferJob.Execute` / `MoistureDiffusionJob.Execute` for cell `self`. */
  method DiffusionJob(m: map<Int3, Entity>, cells: map<Entity, Cell>, configs: seq<CellConfig>, coefficient: real,
                      q: Quantity, self: Entity) returns (r: Recorded)
    requires MapConsistent(m, cells) && self in cells
    ensures r == Exchange(m, cells, configs, coefficient, q, self)
  {
    var c := cells[self];
    var value := ValueOf(c, q);
    if value.None? {
      return Recorded([], false);
    }
    var config := CellUtility.GetCellConfig(configs, c.cellType);
    if config.None? {
      return Recorded([], true);
    }
    var out := NeighbourLoop(m, cells, configs, coefficient, q, Pos(c), value.value, ConductivityOf(config.value, q));
    if out.threw {
      return out;
    }
    var total := -SumAmounts(out.commands);
    if total != 0.0 {
      out := Recorded(out.commands + [AppendTo(self, total, q)], false);
    }
    return out;
  }

  /** The `foreach` over `Directions`, accumulating the negated total alongside the appends. */
  method NeighbourLoop(m: map<Int3, Entity>, cells: map<Entity, Cell>, configs: seq<CellConfig>, coefficient: real,
                       q: Quantity, p: Int3, v: real, cond: real) returns (r: Recorded)
    requires MapConsistent(m, cells)
    ensures r == NeighbourPart(m, cells, configs, coefficient, q, p, v, cond, |Directions|)
  {
    var commands: seq<Command> := [];
    var total := 0.0;
    for i := 0 to |Directions|
      invariant NeighbourPart(m, cells, configs, coefficient, q, p, v, cond, i) == Recorded(commands, false)
      invariant total == -SumAmounts(commands)
    {
      var at := AddI(p, Directions[i]);
      if at in m && ValueOf(cells[m[at]], q).Some? {
        var neighbour := m[at];
        var config := CellUtility.GetCellConfig(configs, cells[neighbour].cellType);
        if config.None? {
          ThrowStays(m, cells, configs, coefficient, q, p, v, cond, i + 1);
          return Recorded(commands, true);
        }
        var t := Flow(v, ValueOf(cells[neighbour], q).value, cond, ConductivityOf(config.value, q), coefficient);
        if t != 0.0 {
          SumAmountsAppend(commands, [AppendTo(neighbour, t, q)]);
          assert SumAmounts([AppendTo(neighbour, t, q)]) == t;
          total := total - t;
          commands := commands + [AppendTo(neighbour, t, q)];
        }
      }
    }
    r := Recorded(commands, false);
  }

  /** Once the loop has thrown, the later directions record nothing more. */
  lemma {:induction false} ThrowStays(m: map<Int3, Entity>, cells: map<Entity, Cell>, configs: seq<CellConfig>, coefficient: real,
                                      q: Quantity, p: Int3, v: real, cond: real, k: nat)
    requires MapConsistent(m, cells) && 1 <= k <= |Directions|
    requires NeighbourPart(m, cells, configs, coefficient, q, p, v, cond, k).threw
    ensures NeighbourPart(m, cells, configs, coefficient, q, p, v, cond, |Directions|)
         == NeighbourPart(m, cells, configs, coefficient, q, p, v, cond, k)
    decreases |Directions| - k
  {
    if k < |Directions| {
      assert NeighbourPart(m, cells, configs, coefficient, q, p, v, cond, k + 1)
          == NeighbourPart(m, cells, configs, coefficient, q, p, v, cond, k);
      ThrowStays(m, cells, configs, coefficient, q, p, v, cond, k + 1);
    }
  }

  /**
    Every neighbour append goes to the occupant of an axis neighbour and is a
    non-zero append of the job's own quantity.
   */
  lemma {:induction false} NeighbourPartTargets(m: map<Int3, Entity>, cells: map<Entity, Cell>, configs: seq<CellConfig>,
                                                coefficient: real, q: Quantity, p: Int3, v: real, cond: real, k: nat)
    requires MapConsistent(m, cells) && k <= |Directions|
    ensures ToNeighbours(m, p, NeighbourPart(m, cells, configs, coefficient, q, p, v, cond, k).commands)
    ensures AllOf(NeighbourPart(m, cells, configs, coefficient, q, p, v, cond, k).commands, q)
  {
    if k > 0 {
      NeighbourPartTargets(m, cells, configs, coefficient, q, p, v, cond, k - 1);
      var prev := NeighbourPart(m, cells, configs, coefficient, q, p, v, cond, k - 1);
      var at := AddI(p, Directions[k - 1]);
      if !(prev.threw || at !in m || ValueOf(cells[m[at]], q).None?) {
        var cfg := CellUtility.GetCellConfig(configs, cells[m[at]].cellType);
        if cfg.Some? {
          var t := Flow(v, ValueOf(cells[m[at]], q).value, cond, ConductivityOf(cfg.value, q), coefficient);
          if t != 0.0 {
            assert Directions[k - 1] in Directions;
            assert IsNeighbour(m, p, m[at]);
            AppendOne(m, p, prev.commands, AppendTo(m[at], t, q), q);
          }
        }
      }
    }
  }

  /** Appending a non-zero append of `q` to an occupied neighbour keeps both shapes. */
  lemma AppendOne(m: map<Int3, Entity>, p: Int3, cmds: seq<Command>, cmd: Command, q: Quantity)
    requires ToNeighbours(m, p, cmds) && AllOf(cmds, q)
    requires IsNeighbour(m, p, cmd.target) && Amount(cmd) != 0.0 && cmd == AppendTo(cmd.target, Amount(cmd), q)
    ensures ToNeighbours(m, p, cmds + [cmd]) && AllOf(cmds + [cmd], q)
  {
    var r := cmds + [cmd];
    forall i | 0 <= i < |r| ensures IsNeighbour(m, p, r[i].target) && Amount(r[i]) != 0.0 {
      if i < |cmds| {
        assert r[i] == cmds[i];
      }
    }
  }

  /**
    Heat and moisture are conserved by one `Execute`: when it runs to the end,
    the amounts it appends sum to zero.
   */
  lemma Conserved(m: map<Int3, Entity>, cells: map<Entity, Cell>, configs: seq<CellConfig>, coefficient: real,
                  q: Quantity, self: Entity)
    requires MapConsistent(m, cells) && self in cells
    ensures var r := Exchange(m, cells, configs, coefficient, q, self);
      !r.threw ==> SumAmounts(r.commands) == 0.0
  {
    var c := cells[self];
    var cfg := CellUtility.GetCellConfig(configs, c.cellType);
    if ValueOf(c, q).Some? && cfg.Some? {
      var out := NeighbourPart(m, cells, configs, coefficient, q, Pos(c), ValueOf(c, q).value,
                               ConductivityOf(cfg.value, q), |Directions|);
      var total := -SumAmounts(out.commands);
      SumAmountsAppend(out.commands, [AppendTo(self, total, q)]);
      assert SumAmounts([AppendTo(self, total, q)]) == total;
    }
  }

  /**
    One `Execute` writes only non-zero appends of its own quantity, to occupied
    axis neighbours and, as the last command, to the cell itself.
   */
  lemma ExchangeTargets(m: map<Int3, Entity>, cells: map<Entity, Cell>, configs: seq<CellConfig>, coefficient: real,
                        q: Quantity, self: Entity)
    requires MapConsistent(m, cells) && self in cells
    ensures AllOf(Exchange(m, cells, configs, coefficient, q, self).commands, q)
    ensures var cmds := Exchange(m, cells, configs, coefficient, q, self).commands;
      ToNeighbours(m, Pos(cells[self]), cmds) || (ToNeighbours(m, Pos(cells[self]), cmds[..|cmds| - 1]) && cmds[|cmds| - 1].target == self)
  {
    var c := cells[self];
    var cfg := CellUtility.GetCellConfig(configs, c.cellType);
    if ValueOf(c, q).Some? && cfg.Some? {
      var out := NeighbourPart(m, cells, configs, coefficient, q, Pos(c), ValueOf(c, q).value,
                               ConductivityOf(cfg.value, q), |Directions|);
      NeighbourPartTargets(m, cells, configs, coefficient, q, Pos(c), ValueOf(c, q).value,
                           ConductivityOf(cfg.value, q), |Directions|);
      var total := -SumAmounts(out.commands);
      if !out.threw && total != 0.0 {
        var cmds := out.commands + [AppendTo(self, total, q)];
        assert cmds[..|cmds| - 1] == out.commands;
        forall i | 0 <= i < |cmds| ensures cmds[i] == AppendTo(cmds[i].target, Amount(cmds[i]), q) && Amount(cmds[i]) != 0.0 {
          if i < |out.commands| {
            assert cmds[i] == out.commands[i];
          }
        }
      }
    }
  }

  /**
    Every neighbour that takes part receives its transfer: when the loop runs
    to the end, the occupant of direction `j` that has the component has a
    configuration, and a non-zero transfer toward it is among the appends.
   */
  lemma {:induction false} NeighbourPartComplete(m: map<Int3, Entity>, cells: map<Entity, Cell>, configs: seq<CellConfig>,
                                                 coefficient: real, q: Quantity, p: Int3, v: real, cond: real, k: nat, j: nat)
    requires MapConsistent(m, cells) && j < k <= |Directions|
    requires !NeighbourPart(m, cells, configs, coefficient, q, p, v, cond, k).threw
    requires AddI(p, Directions[j]) in m && ValueOf(cells[m[AddI(p, Directions[j])]], q).Some?
    ensures var e := m[AddI(p, Directions[j])];
      var cfg := CellUtility.GetCellConfig(configs, cells[e].cellType);
      && cfg.Some?
      && var t := Flow(v, ValueOf(cells[e], q).value, cond, ConductivityOf(cfg.value, q), coefficient);
         t != 0.0 ==> AppendTo(e, t, q) in NeighbourPart(m, cells, configs, coefficient, q, p, v, cond, k).commands
  {
    var prev := NeighbourPart(m, cells, configs, coefficient, q, p, v, cond, k - 1);
    var cur := NeighbourPart(m, cells, configs, coefficient, q, p, v, cond, k);
    assert !prev.threw;
    assert prev.commands <= cur.commands;
    if j < k - 1 {
      NeighbourPartComplete(m, cells, configs, coefficient, q, p, v, cond, k - 1, j);
    }
  }

  /**
    Equal values append nothing: when every occupied neighbour that has the
    component holds the cell's own value and has a configuration, the job
    records nothing for the cell.
   */
  lemma EqualValuesAppendNothing(m: map<Int3, Entity>, cells: map<Entity, Cell>, configs: seq<CellConfig>,
                                 coefficient: real, q: Quantity, self: Entity)
    requires MapConsistent(m, cells) && self in cells
    requires CellUtility.GetCellConfig(configs, cells[self].cellType).Some?
    requires forall d | d in Directions && AddI(Pos(cells[self]), d) in m ::
      var e := m[AddI(Pos(cells[self]), d)];
      ValueOf(cells[e], q).Some? ==>
        ValueOf(cells[e], q) == ValueOf(cells[self], q) && CellUtility.GetCellConfig(configs, cells[e].cellType).Some?
    ensures Exchange(m, cells, configs, coefficient, q, self) == Recorded([], false)
  {
    var c := cells[self];
    if ValueOf(c, q).Some? {
      var cfg := CellUtility.GetCellConfig(configs, c.cellType);
      NeighbourPartQuiet(m, cells, configs, coefficient, q, Pos(c), ValueOf(c, q).value,
                         ConductivityOf(cfg.value, q), |Directions|);
    }
  }

  lemma {:induction false} NeighbourPartQuiet(m: map<Int3, Entity>, cells: map<Entity, Cell>, configs: seq<CellConfig>,
                                              coefficient: real, q: Quantity, p: Int3, v: real, cond: real, k: nat)
    requires MapConsistent(m, cells) && k <= |Directions|
    requires forall d | d in Directions && AddI(p, d) in m ::
      var e := m[AddI(p, d)];
      ValueOf(cells[e], q).Some? ==> ValueOf(cells[e], q).value == v && CellUtility.GetCellConfig(configs, cells[e].cellType).Some?
    ensures NeighbourPart(m, cells, configs, coefficient, q, p, v, cond, k) == Recorded([], false)
  {
    if k > 0 {
      NeighbourPartQuiet(m, cells, configs, coefficient, q, p, v, cond, k - 1);
      assert Directions[k - 1] in Directions;
      var at := AddI(p, Directions[k - 1]);
      if at in m && ValueOf(cells[m[at]], q).Some? {
        var cfg := CellUtility.GetCellConfig(configs, cells[m[at]].cellType);
        FlowZeroWhenEqual(v, cond, ConductivityOf(cfg.value, q), coefficient);
      }
    }
  }

  /**
    The whole command buffer of one run of the job: the commands of every live
    cell, in the query order `order` (the sort key of the parallel writer).
   */
  function RecordAll(m: map<Int3, Entity>, cells: map<Entity, Cell>, configs: seq<CellConfig>, coefficient: real,
                     q: Quantity, order: seq<Entity>): (r: seq<Command>)
    requires MapConsistent(m, cells)
    ensures TargetsIn(r, cells)
  {
    if order == [] then []
    else
      var last := order[|order| - 1];
      var prev := RecordAll(m, cells, configs, coefficient, q, order[..|order| - 1]);
      if last in cells && cells[last].isAlive then
        ExchangeInCells(m, cells, configs, coefficient, q, last);
        TargetsInAppend(prev, Exchange(m, cells, configs, coefficient, q, last).commands, cells);
        prev + Exchange(m, cells, configs, coefficient, q, last).commands
      else prev
  }

  /** Whether no live cell of the run stopped on a missing configuration. */
  ghost predicate NoneThrew(m: map<Int3, Entity>, cells: map<Entity, Cell>, configs: seq<CellConfig>, coefficient: real,
                            q: Quantity, order: seq<Entity>)
    requires MapConsistent(m, cells)
  {
    forall i | 0 <= i < |order| && order[i] in cells && cells[order[i]].isAlive ::
      !Exchange(m, cells, configs, coefficient, q, order[i]).threw
  }

  /** The job over all live cells, in query order. */
  method RecordDiffusion(m: map<Int3, Entity>, cells: map<Entity, Cell>, configs: seq<CellConfig>, coefficient: real,
                         q: Quantity, order: seq<Entity>) returns (ecb: seq<Command>)
    requires MapConsistent(m, cells)
    ensures ecb == RecordAll(m, cells, configs, coefficient, q, order)
  {
    ecb := [];
    for i := 0 to |order|
      invariant ecb == RecordAll(m, cells, configs, coefficient, q, order[..i])
    {
      assert order[..i + 1][..i] == order[..i];
      var e := order[i];
      if e in cells && cells[e].isAlive {
        var r := DiffusionJob(m, cells, configs, coefficient, q, e);
        ecb := ecb + r.commands;
      }
    }
    assert order[..|order|] == order;
  }

  /**
    When no cell threw, the whole buffer sums to zero: the pass moves the
    quantity between cells without creating or destroying any.
   */
  lemma {:induction false} RecordAllConserved(m: map<Int3, Entity>, cells: map<Entity, Cell>, configs: seq<CellConfig>,
                                              coefficient: real, q: Quantity, order: seq<Entity>)
    requires MapConsistent(m, cells) && NoneThrew(m, cells, configs, coefficient, q, order)
    ensures SumAmounts(RecordAll(m, cells, configs, coefficient, q, order)) == 0.0
    decreases |order|
  {
    if order != [] {
      var init := order[..|order| - 1];
      var last := order[|order| - 1];
      assert NoneThrew(m, cells, configs, coefficient, q, init) by {
        forall i | 0 <= i < |init| && init[i] in cells && cells[init[i]].isAlive
          ensures !Exchange(m, cells, configs, coefficient, q, init[i]).threw
        {
          assert init[i] == order[i];
        }
      }
      RecordAllConserved(m, cells, configs, coefficient, q, init);
      if last in cells && cells[last].isAlive {
        Conserved(m, cells, configs, coefficient, q, last);
        SumAmountsAppend(RecordAll(m, cells, configs, coefficient, q, init),
                         Exchange(m, cells, configs, coefficient, q, last).commands);
      }
    }
  }

  /** Every recorded command is a non-zero append of the job's quantity. */
  lemma {:induction false} RecordAllQuantity(m: map<Int3, Entity>, cells: map<Entity, Cell>, configs: seq<CellConfig>,
                                             coefficient: real, q: Quantity, order: seq<Entity>)
    requires MapConsistent(m, cells)
    ensures AllOf(RecordAll(m, cells, configs, coefficient, q, order), q)
    decreases |order|
  {
    if order != [] {
      var init := order[..|order| - 1];
      var last := order[|order| - 1];
      RecordAllQuantity(m, cells, configs, coefficient, q, init);
      if last in cells && cells[last].isAlive {
        ExchangeTargets(m, cells, configs, coefficient, q, last);
        var a := RecordAll(m, cells, configs, coefficient, q, init);
        var b := Exchange(m, cells, configs, coefficient, q, last).commands;
        var ab: seq<Command> := a + b;
        forall i | 0 <= i < |ab|
          ensures ab[i] == AppendTo(ab[i].target, Amount(ab[i]), q) && Amount(ab[i]) != 0.0
        {
          if i < |a| {
            assert ab[i] == a[i];
          } else {
            assert ab[i] == b[i - |a|];
          }
        }
      }
    }
  }

  /** The commands of one cell go to cells that exist. */
  lemma ExchangeInCells(m: map<Int3, Entity>, cells: map<Entity, Cell>, configs: seq<CellConfig>, coefficient: real,
                        q: Quantity, self: Entity)
    requires MapConsistent(m, cells) && self in cells
    ensures TargetsIn(Exchange(m, cells, configs, coefficient, q, self).commands, cells)
  {
    ExchangeTargets(m, cells, configs, coefficient, q, self);
    var cmds := Exchange(m, cells, configs, coefficient, q, self).commands;
    forall i | 0 <= i < |cmds| ensures cmds[i].target in cells {
      var p := Pos(cells[self]);
      if cmds[i].target != self {
        if ToNeighbours(m, p, cmds) {
          assert IsNeighbour(m, p, cmds[i].target);
        } else {
          assert i < |cmds| - 1;
          assert cmds[..|cmds| - 1][i] == cmds[i];
          assert IsNeighbour(m, p, cmds[i].target);
        }
      }
    }
  }
}
