/**
  The outer loop of the physics system (`OnUpdate`) and its integration job
  (`VelocityUpdateJob`): every frame runs up to `maxStep` sub-steps, each of
  which folds the queued impulses into velocity and movement debt, stops when
  no cell is left to move, and otherwise lets every moving cell resolve one
  step.
 */
module PhysicUpdate {
  import opened Vectors
  import opened GlobalConfig
  import opened CellWorld
  import opened PhysicSystem

  /** `maxStep = max(1, (int)floor(MaxSpeed · deltaTime · PhysicsSpeedScale))`. */
  function MaxStep(maxSpeed: real, deltaTime: real, speedScale: real): (r: int)
    ensures r >= 1
    ensures r as real <= maxSpeed * deltaTime * speedScale || r == 1
    ensures maxSpeed * deltaTime * speedScale < (r + 1) as real
  {
    Max(1, (maxSpeed * deltaTime * speedScale).Floor)
  }

  /** The length limit of the job: a vector longer than `limit` is rescaled to that length along its own direction. */
  function ClampLength(v: Vec3, limit: real, sqrt: real -> real): Vec3
  {
    if LengthSq(v) > limit * limit then Scale(Normalize(v, sqrt), limit) else v
  }

  /** The clamped vector is no longer than the limit, and it is the input unless the input was too long. */
  lemma ClampLengthBound(v: Vec3, limit: real, sqrt: real -> real)
    requires IsSqrt(sqrt) && limit >= 0.0
    ensures LengthSq(ClampLength(v, limit, sqrt)) <= limit * limit
    ensures LengthSq(v) <= limit * limit ==> ClampLength(v, limit, sqrt) == v
    ensures LengthSq(v) > limit * limit ==> LengthSq(ClampLength(v, limit, sqrt)) == limit * limit
  {
    if LengthSq(v) > limit * limit {
      assert limit * limit >= 0.0;
      NormalizeIsUnit(v, sqrt);
      LengthSqScale(Normalize(v, sqrt), limit);
    }
  }

  /** Clamping twice is clamping once. */
  lemma ClampIdempotent(v: Vec3, limit: real, sqrt: real -> real)
    requires IsSqrt(sqrt) && limit >= 0.0
    ensures ClampLength(ClampLength(v, limit, sqrt), limit, sqrt) == ClampLength(v, limit, sqrt)
  {
    ClampLengthBound(v, limit, sqrt);
  }

  /** A clamped vector never points against the input. */
  lemma ClampKeepsDirection(v: Vec3, limit: real, sqrt: real -> real)
    requires IsSqrt(sqrt) && limit >= 0.0
    ensures Dot(ClampLength(v, limit, sqrt), v) >= 0.0
  {
    LengthSqNonNegative(v);
    if LengthSq(v) > limit * limit {
      DotScaleLeft(Normalize(v, sqrt), limit, v);
      NormalizeDot(v, sqrt);
      assert Length(v, sqrt) >= 0.0;
    }
  }

  /** The fraction of a second one sub-step covers: `(FastUpdateRateInMS / 1000) / maxStep`. */
  function StepSeconds(maxStep: nat): real
    requires maxStep >= 1
  {
    (FastUpdateRateInMS as real / 1000.0) / (maxStep as real)
  }

  /** The velocity after adding the summed impulses divided by the mass, before the speed limit. */
  function Accelerated(velocity: Vec3, total: Vec3, mass: int): Vec3
    requires mass != 0
  {
    Add(velocity, Scale(total, 1.0 / mass as real))
  }

  /** What `VelocityUpdateJob` leaves in a cell. */
  function Integrated(c: Cell, maxStep: nat, params: PhysicsParams, sqrt: real -> real): Cell
    requires c.mass != 0 && maxStep >= 1
  {
    var v := ClampLength(Accelerated(c.velocity, SumV(c.impulses), c.mass), params.maxSpeed, sqrt);
    var d := ClampLength(Add(c.debt, Scale(v, StepSeconds(maxStep))), params.maxSpeed, sqrt);
    c.(velocity := v, debt := d, moving := LengthSq(d) >= 1.0, impulses := [])
  }

  /** The integrated velocity is within the maximum speed. */
  lemma IntegratedVelocityBound(c: Cell, maxStep: nat, params: PhysicsParams, sqrt: real -> real)
    requires c.mass != 0 && maxStep >= 1 && IsSqrt(sqrt) && params.maxSpeed >= 0.0
    ensures LengthSq(Integrated(c, maxStep, params, sqrt).velocity) <= params.maxSpeed * params.maxSpeed
  {
    var v := ClampLength(Accelerated(c.velocity, SumV(c.impulses), c.mass), params.maxSpeed, sqrt);
    assert LengthSq(v) <= params.maxSpeed * params.maxSpeed by {
      ClampLengthBound(Accelerated(c.velocity, SumV(c.impulses), c.mass), params.maxSpeed, sqrt);
    }
    assert Integrated(c, maxStep, params, sqrt).velocity == v;
  }

  /**
    The promises of the integration: the impulse buffer ends empty, velocity and
    debt are within the maximum speed, and the cell is enabled for moving exactly
    when its debt is at least one cell long.
   */
  lemma IntegratedBounds(c: Cell, maxStep: nat, params: PhysicsParams, sqrt: real -> real)
    requires c.mass != 0 && maxStep >= 1 && IsSqrt(sqrt) && params.maxSpeed >= 0.0
    ensures Integrated(c, maxStep, params, sqrt).impulses == []
    ensures LengthSq(Integrated(c, maxStep, params, sqrt).velocity) <= params.maxSpeed * params.maxSpeed
    ensures LengthSq(Integrated(c, maxStep, params, sqrt).debt) <= params.maxSpeed * params.maxSpeed
    ensures Integrated(c, maxStep, params, sqrt).moving <==> LengthSq(Integrated(c, maxStep, params, sqrt).debt) >= 1.0
  {
    IntegratedVelocityBound(c, maxStep, params, sqrt);
    var v := ClampLength(Accelerated(c.velocity, SumV(c.impulses), c.mass), params.maxSpeed, sqrt);
    ClampLengthBound(Add(c.debt, Scale(v, StepSeconds(maxStep))), params.maxSpeed, sqrt);
  }

  /** The integration touches only velocity, debt, the moving flag and the impulse buffer. */
  lemma IntegratedFrame(c: Cell, maxStep: nat, params: PhysicsParams, sqrt: real -> real)
    requires c.mass != 0 && maxStep >= 1
    ensures var r := Integrated(c, maxStep, params, sqrt);
      r.(velocity := c.velocity, debt := c.debt, moving := c.moving, impulses := c.impulses) == c
  {
  }

  /** With no impulses queued and nothing over the speed limit, the velocity is kept and only the debt grows. */
  lemma IntegratedWithoutImpulses(c: Cell, maxStep: nat, params: PhysicsParams, sqrt: real -> real)
    requires c.mass != 0 && maxStep >= 1 && IsSqrt(sqrt) && params.maxSpeed >= 0.0
    requires c.impulses == [] && LengthSq(c.velocity) <= params.maxSpeed * params.maxSpeed
    ensures Integrated(c, maxStep, params, sqrt).velocity == c.velocity
  {
    assert SumV(c.impulses) == Zero;
    assert Scale(Zero, 1.0 / c.mass as real) == Zero;
    assert Accelerated(c.velocity, SumV(c.impulses), c.mass) == c.velocity;
    ClampLengthBound(c.velocity, params.maxSpeed, sqrt);
    assert ClampLength(c.velocity, params.maxSpeed, sqrt) == c.velocity;
  }

  /** `VelocityUpdateJob.Execute` on one cell: sums the buffer front to back, then integrates and clears it. */
  method VelocityUpdate(c: Cell, maxStep: nat, params: PhysicsParams, sqrt: real -> real) returns (r: Cell)
    requires c.mass != 0 && maxStep >= 1
    ensures r == Integrated(c, maxStep, params, sqrt)
  {
    var total := Zero;
    var i := 0;
    while i < |c.impulses|
      invariant 0 <= i <= |c.impulses|
      invariant total == SumV(c.impulses[..i])
    {
      assert c.impulses[..i + 1][..i] == c.impulses[..i];
      total := Add(total, c.impulses[i]);
      i := i + 1;
    }
    assert c.impulses[..i] == c.impulses;
    var newVelocity := ClampLength(Accelerated(c.velocity, total, c.mass), params.maxSpeed, sqrt);
    var newDebt := ClampLength(Add(c.debt, Scale(newVelocity, StepSeconds(maxStep))), params.maxSpeed, sqrt);
    r := c.(velocity := newVelocity, debt := newDebt, moving := LengthSq(newDebt) >= 1.0, impulses := []);
  }

  /** Every live cell stands on its coordinate in the map. */
  ghost predicate AlivePlaced(m: map<Int3, Entity>, cells: map<Entity, Cell>)
  {
    forall e | e in cells && cells[e].isAlive :: IsPlaced(m, cells, e)
  }

  lemma AlivePlacedKept(m0: map<Int3, Entity>, c0: map<Entity, Cell>, m1: map<Int3, Entity>, c1: map<Entity, Cell>)
    requires AlivePlaced(m0, c0) && KeepsPlaced(m0, c0, m1, c1) && KindsKept(c0, c1)
    ensures AlivePlaced(m1, c1)
  {
    forall e | e in c1 && c1[e].isAlive ensures IsPlaced(m1, c1, e) {
      assert SameKind(c1[e], c0[e]);
    }
  }

  /** The cells after one integration pass: every live cell integrated, the others untouched. */
  function IntegratedAll(cells: map<Entity, Cell>, maxStep: nat, params: PhysicsParams, sqrt: real -> real): (r: map<Entity, Cell>)
    requires PositiveMasses(cells) && maxStep >= 1
  {
    map e | e in cells :: if cells[e].isAlive then Integrated(cells[e], maxStep, params, sqrt) else cells[e]
  }

  /** The pass changes no position, type, state or mass, so the map invariant and every placement survive it. */
  lemma IntegratedAllKeeps(m: map<Int3, Entity>, cells: map<Entity, Cell>, maxStep: nat, params: PhysicsParams, sqrt: real -> real)
    requires MapConsistent(m, cells) && PositiveMasses(cells) && maxStep >= 1
    ensures var r := IntegratedAll(cells, maxStep, params, sqrt);
      && r.Keys == cells.Keys
      && MapConsistent(m, r) && KeepsPlaced(m, cells, m, r) && PositiveMasses(r)
      && (forall e | e in r :: r[e].isAlive == cells[e].isAlive)
  {
  }

  /** The query of `VelocityUpdateJob` run over every live cell. */
  method IntegrateAll(w: World, maxStep: nat, params: PhysicsParams, sqrt: real -> real)
    requires w.Valid() && PositiveMasses(w.cells) && maxStep >= 1
    modifies w`cells
    ensures w.cells == IntegratedAll(old(w.cells), maxStep, params, sqrt)
  {
    ghost var cells0 := w.cells;
    var todo := w.cells.Keys;
    while todo != {}
      invariant todo <= cells0.Keys && w.cells.Keys == cells0.Keys
      invariant forall e | e in cells0 && e !in todo ::
        w.cells[e] == if cells0[e].isAlive then Integrated(cells0[e], maxStep, params, sqrt) else cells0[e]
      invariant forall e | e in todo :: w.cells[e] == cells0[e]
      decreases todo
    {
      var e :| e in todo;
      if w.cells[e].isAlive {
        var updated := VelocityUpdate(w.cells[e], maxStep, params, sqrt);
        w.cells := w.cells[e := updated];
      }
      todo := todo - {e};
    }
  }

  /** Whether any cell matches the query of the move job (`IsAlive` and an enabled `Velocity`). */
  predicate AnyMoving(cells: map<Entity, Cell>)
  {
    exists e | e in cells :: cells[e].isAlive && cells[e].moving
  }

  /** The invariants the physics system keeps between its jobs. */
  ghost predicate PhysicsInvariant(w: World)
    reads w
  {
    w.Valid() && PositiveMasses(w.cells) && AlivePlaced(w.cellMap, w.cells)
  }

  /**
    `TryMoveCellJob`, which is scheduled single-threaded: `Execute` runs for every
    moving live cell, in the query's iteration order `order`, with candidate
    builder `b`. A builder overflow throws out of the job, so the remaining
    cells of the pass do not move and `completed` is false.
   */
  method MoveAll(w: World, order: seq<Entity>, b: Builder, configs: seq<CellConfig>, params: PhysicsParams, sqrt: real -> real)
    returns (completed: bool)
    requires PhysicsInvariant(w)
    modifies w`cellMap, w`cells
    ensures PhysicsInvariant(w)
    ensures KeepsPlaced(old(w.cellMap), old(w.cells), w.cellMap, w.cells)
    ensures KindsKept(old(w.cells), w.cells)
    ensures b == AsIntended ==> completed
  {
    completed := true;
    var i := 0;
    while i < |order|
      invariant 0 <= i <= |order|
      invariant PhysicsInvariant(w)
      invariant KeepsPlaced(old(w.cellMap), old(w.cells), w.cellMap, w.cells)
      invariant KindsKept(old(w.cells), w.cells)
      invariant b == AsIntended ==> completed
    {
      var e := order[i];
      if e in w.cells && w.cells[e].isAlive && w.cells[e].moving {
        ghost var m0, c0 := w.cellMap, w.cells;
        var outcome := Execute(w, e, b, configs, params, sqrt);
        AlivePlacedKept(m0, c0, w.cellMap, w.cells);
        KeepsPlacedTrans(old(w.cellMap), old(w.cells), m0, c0, w.cellMap, w.cells);
        KindsKeptTrans(old(w.cells), c0, w.cells);
        if outcome == CandidatesOverflow {
          completed := false;
          return;
        }
      }
      i := i + 1;
    }
  }

  /**
    `OnUpdate`: at most `maxStep` sub-steps, each integrating velocities and then,
    unless no cell is left to move, resolving the moves. `passes` counts the
    integration passes; fewer than `maxStep` means the loop stopped early because
    nothing was moving.
   */
  method PhysicsUpdate(w: World, order: seq<Entity>, b: Builder, configs: seq<CellConfig>, params: PhysicsParams,
                       sqrt: real -> real, maxStep: nat) returns (passes: nat)
    requires PhysicsInvariant(w) && maxStep >= 1
    modifies w`cellMap, w`cells
    ensures PhysicsInvariant(w)
    ensures KeepsPlaced(old(w.cellMap), old(w.cells), w.cellMap, w.cells)
    ensures 1 <= passes <= maxStep
    ensures passes < maxStep ==> !AnyMoving(w.cells)
  {
    var step := maxStep;
    passes := 0;
    while step > 0
      invariant 0 <= step <= maxStep && passes == maxStep - step
      invariant PhysicsInvariant(w)
      invariant KeepsPlaced(old(w.cellMap), old(w.cells), w.cellMap, w.cells)
    {
      ghost var c0 := w.cells;
      IntegrateAll(w, maxStep, params, sqrt);
      IntegratedAllKeeps(w.cellMap, c0, maxStep, params, sqrt);
      AlivePlacedAfterIntegration(w.cellMap, c0, w.cells);
      passes := passes + 1;
      if !AnyMoving(w.cells) {
        break;
      }
      ghost var m1, c1 := w.cellMap, w.cells;
      var _ := MoveAll(w, order, b, configs, params, sqrt);
      KeepsPlacedTrans(old(w.cellMap), old(w.cells), m1, c1, w.cellMap, w.cells);
      step := step - 1;
    }
  }

  lemma AlivePlacedAfterIntegration(m: map<Int3, Entity>, c0: map<Entity, Cell>, c1: map<Entity, Cell>)
    requires AlivePlaced(m, c0) && KeepsPlaced(m, c0, m, c1) && c1.Keys == c0.Keys
    requires forall e | e in c1 :: c1[e].isAlive == c0[e].isAlive
    ensures AlivePlaced(m, c1)
  {
  }
}
