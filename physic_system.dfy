/**
  The movement resolver of the physics system (`TryMoveCellJob`), which works
  directly on the shared coordinate map: a cell first tries its direct target,
  then the step along its primary axis, then a settlement swap with a lighter
  liquid, then a fluidity-limited list of candidates, and otherwise records a
  collision.
 */
module PhysicSystem {
  import opened Wrappers
  import opened Vectors
  import opened GlobalConfig
  import opened CellWorld
  import CellUtility
  import opened PhysicCandidates
  import opened PositionSort

  /** The tuning constants the physics reads that are not part of the configuration tables. */
  datatype PhysicsParams = PhysicsParams(maxSpeed: real, speedScale: real, impulseLoss: real)

  function Max(a: int, b: int): int { if a >= b then a else b }

  /** The cell after stepping to `target`: only its position and its movement debt change. */
  function MovedCell(c: Cell, target: Int3): Cell
  {
    c.(transform := c.transform.(position := target), debt := Sub(c.debt, ToVec(SubI(target, Pos(c)))))
  }

  /** The cell after a candidate step: moved to `target`, its velocity scaled by `1 - viscosity`. */
  function SlowedMove(c: Cell, target: Int3, viscosity: real): Cell
  {
    Slowed(MovedCell(c, target), viscosity)
  }

  /** The cell with its velocity scaled by the movement efficiency `1 - viscosity`. */
  function Slowed(c: Cell, viscosity: real): Cell
  {
    c.(velocity := Scale(c.velocity, 1.0 - viscosity))
  }

  /** Type, state, mass and the enable flags of a cell, which the resolver never changes. */
  predicate SameKind(a: Cell, b: Cell)
  {
    a.cellType == b.cellType && a.state == b.state && a.mass == b.mass && a.isAlive == b.isAlive && a.moving == b.moving
  }

  ghost predicate KindsKept(cells0: map<Entity, Cell>, cells1: map<Entity, Cell>)
  {
    cells1.Keys == cells0.Keys && forall e | e in cells0 :: SameKind(cells1[e], cells0[e])
  }

  /**
    `TryMoveCell` of the job: on an occupied target nothing changes; otherwise
    the target maps to the cell, the old coordinate is removed, and the debt
    drops by the step actually taken.
   */
  method TryMoveCell(w: World, cell: Entity, target: Int3) returns (moved: bool)
    requires w.Valid() && w.Placed(cell)
    modifies w`cellMap, w`cells
    ensures w.Valid() && w.Placed(cell)
    ensures moved <==> target !in old(w.cellMap)
    ensures !moved ==> w.cellMap == old(w.cellMap) && w.cells == old(w.cells)
    ensures moved ==> w.cellMap == (old(w.cellMap) - {Pos(old(w.cells[cell]))})[target := cell]
    ensures moved ==> w.cells == old(w.cells)[cell := MovedCell(old(w.cells[cell]), target)]
    ensures KeepsPlaced(old(w.cellMap), old(w.cells), w.cellMap, w.cells)
    ensures KindsKept(old(w.cells), w.cells)
  {
    if target in w.cellMap {
      return false;
    }
    var from := Pos(w.cells[cell]);
    MoveKeepsMap(w.cellMap, w.cells, cell, target, MovedCell(w.cells[cell], target));
    w.cellMap := w.cellMap[target := cell];
    w.cellMap := w.cellMap - {from};
    w.cells := w.cells[cell := MovedCell(w.cells[cell], target)];
    assert w.cellMap == (old(w.cellMap) - {from})[target := cell];
    moved := true;
  }

  /** Replacing one cell by one of the same kind keeps every kind and the set of entities. */
  lemma KindsKeptUpdate(cells: map<Entity, Cell>, e: Entity, updated: Cell)
    requires e in cells && SameKind(updated, cells[e])
    ensures KindsKept(cells, cells[e := updated])
  {
  }

  /** Removing two keys and adding both back gives the same map as overwriting them. */
  lemma RemoveTwiceThenAdd(m: map<Int3, Entity>, p: Int3, q: Int3, a: Entity, b: Entity)
    ensures ((m - {p}) - {q})[q := a][p := b] == m[q := a][p := b]
  {
  }

  /** The cells after `a` and `b` exchange coordinates; only the mover `a` pays movement debt. */
  function SwappedCells(cells: map<Entity, Cell>, a: Entity, b: Entity): map<Entity, Cell>
    requires a in cells && b in cells
  {
    var pa := Pos(cells[a]);
    var pb := Pos(cells[b]);
    cells[a := MovedCell(cells[a], pb)][b := cells[b].(transform := cells[b].transform.(position := pa))]
  }

  /** The map after the exchange: each coordinate now points at the other cell. */
  function SwappedMap(m: map<Int3, Entity>, cells: map<Entity, Cell>, a: Entity, b: Entity): map<Int3, Entity>
    requires a in cells && b in cells
  {
    m[Pos(cells[b]) := a][Pos(cells[a]) := b]
  }

  /** The exchange keeps the map invariant, every placement, every kind, and the occupied coordinates. */
  lemma SwapKeeps(m: map<Int3, Entity>, cells: map<Entity, Cell>, a: Entity, b: Entity)
    requires MapConsistent(m, cells) && IsPlaced(m, cells, a) && IsPlaced(m, cells, b) && a != b
    ensures var m1 := SwappedMap(m, cells, a, b);
            var cells1 := SwappedCells(cells, a, b);
            && MapConsistent(m1, cells1) && IsPlaced(m1, cells1, a) && IsPlaced(m1, cells1, b)
            && KeepsPlaced(m, cells, m1, cells1) && KindsKept(cells, cells1)
            && m1.Keys == m.Keys && cells1.Keys == cells.Keys
            && m1[Pos(cells[b])] == a
  {
    var movedA := MovedCell(cells[a], Pos(cells[b]));
    var movedB := cells[b].(transform := cells[b].transform.(position := Pos(cells[a])));
    SwapKeepsMap(m, cells, a, b, movedA, movedB);
    assert SameKind(movedA, cells[a]) && SameKind(movedB, cells[b]);
  }

  /**
    `TrySwapCell`: the two cells exchange coordinates and map entries; the set
    of occupied coordinates is unchanged and only the mover's debt is reduced.
   */
  method TrySwapCell(w: World, current: Entity, target: Entity) returns (swapped: bool)
    requires w.Valid() && w.Placed(current) && w.Placed(target) && current != target
    modifies w`cellMap, w`cells
    ensures swapped
    ensures w.Valid() && w.Placed(current) && w.Placed(target)
    ensures w.cellMap == SwappedMap(old(w.cellMap), old(w.cells), current, target)
    ensures w.cells == SwappedCells(old(w.cells), current, target)
    ensures w.cellMap.Keys == old(w.cellMap.Keys)
    ensures KeepsPlaced(old(w.cellMap), old(w.cells), w.cellMap, w.cells)
    ensures KindsKept(old(w.cells), w.cells)
  {
    var currentCoordinate := Pos(w.cells[current]);
    var targetCoordinate := Pos(w.cells[target]);
    SwapKeeps(w.cellMap, w.cells, current, target);
    RemoveTwiceThenAdd(w.cellMap, currentCoordinate, targetCoordinate, current, target);
    w.cellMap := w.cellMap - {currentCoordinate};
    w.cellMap := w.cellMap - {targetCoordinate};
    w.cellMap := w.cellMap[targetCoordinate := current];
    w.cellMap := w.cellMap[currentCoordinate := target];
    w.cells := SwappedCells(w.cells, current, target);
    swapped := true;
  }

  /** The settlement condition: the coordinate holds a Liquid cell strictly lighter than the mover. */
  predicate SettlementAllowed(m: map<Int3, Entity>, cells: map<Entity, Cell>, self: Entity, target: Int3)
    requires self in cells && (target in m ==> m[target] in cells)
  {
    target in m && cells[m[target]].state == Liquid && cells[self].mass > cells[m[target]].mass
  }

  /** `TrySettlementSwap`: swaps exactly when the settlement condition holds, otherwise changes nothing. */
  method TrySettlementSwap(w: World, self: Entity, target: Int3) returns (swapped: bool)
    requires w.Valid() && w.Placed(self)
    modifies w`cellMap, w`cells
    ensures w.Valid() && w.Placed(self)
    ensures swapped <==> SettlementAllowed(old(w.cellMap), old(w.cells), self, target)
    ensures !swapped ==> w.cellMap == old(w.cellMap) && w.cells == old(w.cells)
    ensures swapped ==> w.cellMap.Keys == old(w.cellMap.Keys) && w.cellMap[target] == self
    ensures swapped ==>
      && w.cellMap == SwappedMap(old(w.cellMap), old(w.cells), self, old(w.cellMap)[target])
      && w.cells == SwappedCells(old(w.cells), self, old(w.cellMap)[target])
    ensures KeepsPlaced(old(w.cellMap), old(w.cells), w.cellMap, w.cells)
    ensures KindsKept(old(w.cells), w.cells)
  {
    if target !in w.cellMap {
      return false;
    }
    var targetEntity := w.cellMap[target];
    if w.cells[targetEntity].state != Liquid {
      return false;
    }
    var currentMass := w.cells[self].mass;
    var targetMass := w.cells[targetEntity].mass;
    if currentMass > targetMass {
      swapped := TrySwapCell(w, self, targetEntity);
    } else {
      swapped := false;
    }
  }

  /** The two impulses of a collision. */
  datatype ImpulsePair = ImpulsePair(onSelf: Vec3, onTarget: Vec3)

  /**
    The collision impulses: with `j = 2 (vS - vT)·n / (mS + mT) · loss`, the
    mover gets `-j mT n` and the occupant `+j mS n`.
   */
  function CollisionImpulses(vS: Vec3, mS: int, vT: Vec3, mT: int, n: Vec3, loss: real): ImpulsePair
    requires mS + mT != 0
  {
    var relativeSpeed := Dot(Sub(vS, vT), n);
    var impulseMagnitude := (2.0 * relativeSpeed) / (mS + mT) as real;
    var adjusted := impulseMagnitude * loss;
    ImpulsePair(Scale(n, -adjusted * mT as real), Scale(n, adjusted * mS as real))
  }

  /** The two impulses sum to `j (mS - mT) n`: they cancel exactly when the masses are equal. */
  lemma CollisionImpulsesCancelIffEqualMasses(vS: Vec3, mS: int, vT: Vec3, mT: int, n: Vec3, loss: real)
    requires mS + mT != 0
    requires n != Zero && loss != 0.0 && Dot(Sub(vS, vT), n) != 0.0
    ensures var r := CollisionImpulses(vS, mS, vT, mT, n, loss);
      Add(r.onSelf, r.onTarget) == Zero <==> mS == mT
  {
    var relativeSpeed := Dot(Sub(vS, vT), n);
    var adjusted := (2.0 * relativeSpeed) / (mS + mT) as real * loss;
    var r := CollisionImpulses(vS, mS, vT, mT, n, loss);
    var k := adjusted * (mS - mT) as real;
    assert adjusted != 0.0;
    assert Add(r.onSelf, r.onTarget) == Scale(n, k);
    if mS != mT {
      assert k != 0.0;
      assert n.x != 0.0 || n.y != 0.0 || n.z != 0.0;
      assert Scale(n, k) != Zero by {
        if n.x != 0.0 { assert n.x * k != 0.0; }
        else if n.y != 0.0 { assert n.y * k != 0.0; }
        else { assert n.z * k != 0.0; }
      }
    }
  }

  /**
    For positive masses, a non-negative loss factor and an approaching pair
    (`(vS - vT)·n >= 0`), the mover is pushed back along the normal and the
    occupant forward.
   */
  lemma CollisionPushesApart(vS: Vec3, mS: int, vT: Vec3, mT: int, n: Vec3, loss: real)
    requires mS > 0 && mT > 0 && loss >= 0.0 && Dot(Sub(vS, vT), n) >= 0.0
    ensures var r := CollisionImpulses(vS, mS, vT, mT, n, loss);
      Dot(r.onSelf, n) <= 0.0 && Dot(r.onTarget, n) >= 0.0
  {
    var relativeSpeed := Dot(Sub(vS, vT), n);
    var magnitude := (2.0 * relativeSpeed) / (mS + mT) as real;
    assert magnitude >= 0.0;
    var adjusted := magnitude * loss;
    assert adjusted >= 0.0;
    var ks := -adjusted * mT as real;
    var kt := adjusted * mS as real;
    assert ks <= 0.0 && kt >= 0.0;
    LengthSqNonNegative(n);
    DotScaleLeft(n, ks, n);
    DotScaleLeft(n, kt, n);
    assert ks * LengthSq(n) <= 0.0 && kt * LengthSq(n) >= 0.0;
  }

  function AppendImpulseTo(cells: map<Entity, Cell>, e: Entity, v: Vec3): (r: map<Entity, Cell>)
    requires e in cells
  {
    cells[e := cells[e].(impulses := cells[e].impulses + [v])]
  }

  /** Appending an impulse keeps positions, kinds and the map invariant. */
  lemma AppendImpulseKeeps(m: map<Int3, Entity>, cells: map<Entity, Cell>, e: Entity, v: Vec3)
    requires MapConsistent(m, cells) && e in cells
    ensures MapConsistent(m, AppendImpulseTo(cells, e, v))
    ensures KeepsPlaced(m, cells, m, AppendImpulseTo(cells, e, v))
    ensures KindsKept(cells, AppendImpulseTo(cells, e, v))
  {
    UpdateInPlaceKeepsMap(m, cells, e, cells[e].(impulses := cells[e].impulses + [v]));
  }

  lemma KindsKeptTrans(c0: map<Entity, Cell>, c1: map<Entity, Cell>, c2: map<Entity, Cell>)
    requires KindsKept(c0, c1) && KindsKept(c1, c2)
    ensures KindsKept(c0, c2)
  {
  }

  /** Masses of the two cells of a collision do not sum to zero (the impulse divides by the sum). */
  ghost predicate CollisionDefined(m: map<Int3, Entity>, cells: map<Entity, Cell>, self: Entity, target: Int3)
  {
    self in cells && (target in m ==> m[target] in cells && cells[self].mass + cells[m[target]].mass != 0)
  }

  /**
    `HandleCollision`: nothing happens when the target is empty; otherwise one
    impulse is appended to the mover's buffer and one to the occupant's.
   */
  method HandleCollision(w: World, self: Entity, target: Int3, currentPos: Int3, params: PhysicsParams, sqrt: real -> real)
    requires w.Valid() && CollisionDefined(w.cellMap, w.cells, self, target)
    modifies w`cells
    ensures w.Valid()
    ensures target !in w.cellMap ==> w.cells == old(w.cells)
    ensures target in w.cellMap ==>
      var other := w.cellMap[target];
      var s := old(w.cells[self]);
      var t := old(w.cells[other]);
      var imp := CollisionImpulses(s.velocity, s.mass, t.velocity, t.mass,
                                   Normalize(ToVec(SubI(target, currentPos)), sqrt), params.impulseLoss);
      w.cells == AppendImpulseTo(AppendImpulseTo(old(w.cells), self, imp.onSelf), other, imp.onTarget)
    ensures KeepsPlaced(w.cellMap, old(w.cells), w.cellMap, w.cells)
    ensures KindsKept(old(w.cells), w.cells)
  {
    if target !in w.cellMap {
      return;
    }
    var targetEntity := w.cellMap[target];
    var s := w.cells[self];
    var t := w.cells[targetEntity];
    var collisionNormal := Normalize(ToVec(SubI(target, currentPos)), sqrt);
    var imp := CollisionImpulses(s.velocity, s.mass, t.velocity, t.mass, collisionNormal, params.impulseLoss);
    AppendImpulseKeeps(w.cellMap, w.cells, self, imp.onSelf);
    w.cells := AppendImpulseTo(w.cells, self, imp.onSelf);
    AppendImpulseKeeps(w.cellMap, w.cells, targetEntity, imp.onTarget);
    w.cells := AppendImpulseTo(w.cells, targetEntity, imp.onTarget);
    KindsKeptTrans(old(w.cells), AppendImpulseTo(old(w.cells), self, imp.onSelf), w.cells);
  }

  /** The direction of a cell's movement debt and the two coordinates the resolver tries first. */
  function Direction(c: Cell, sqrt: real -> real): Vec3 { Normalize(c.debt, sqrt) }

  function DirectTarget(c: Cell, sqrt: real -> real): Int3 { AddI(Pos(c), RoundV(Direction(c, sqrt))) }

  function PrimaryTarget(c: Cell, sqrt: real -> real): Int3 { AddI(Pos(c), GetPrimaryDirection(Direction(c, sqrt))) }

  /** `maxTries = max(1, (int)(length · fluidity²))`; the product is never negative, so the cast is a floor. */
  function MaxTries(length: nat, fluidity: real): (r: int)
    ensures r >= 1
    ensures fluidity * fluidity <= 1.0 ==> r <= Max(1, length)
  {
    var product := length as real * (fluidity * fluidity);
    assert product >= 0.0;
    assert fluidity * fluidity <= 1.0 ==> product <= length as real * 1.0;
    Max(1, product.Floor)
  }

  /** How the loop over the candidate list ended. */
  datatype TryResult = Moved(index: nat) | OutOfRange | AllBlocked

  /** One candidate of the loop: the step of `TryMoveCell`, followed on success by the viscosity slow-down. */
  method TryCandidate(w: World, self: Entity, target: Int3, viscosity: real) returns (moved: bool)
    requires w.Valid() && w.Placed(self)
    modifies w`cellMap, w`cells
    ensures w.Valid() && w.Placed(self)
    ensures KeepsPlaced(old(w.cellMap), old(w.cells), w.cellMap, w.cells)
    ensures KindsKept(old(w.cells), w.cells)
    ensures moved <==> target !in old(w.cellMap)
    ensures !moved ==> w.cellMap == old(w.cellMap) && w.cells == old(w.cells)
    ensures moved ==>
      var c := old(w.cells[self]);
      && w.cellMap == (old(w.cellMap) - {Pos(c)})[target := self]
      && w.cells == old(w.cells)[self := SlowedMove(c, target, viscosity)]
  {
    moved := TryMoveCell(w, self, target);
    if !moved {
      return;
    }
    ghost var mid := w.cells;
    var current := w.cells[self];
    var slowed := Slowed(current, viscosity);
    UpdateInPlaceKeepsMap(w.cellMap, w.cells, self, slowed);
    KindsKeptUpdate(w.cells, self, slowed);
    w.cells := w.cells[self := slowed];
    KindsKeptTrans(old(w.cells), mid, w.cells);
    KeepsPlacedTrans(old(w.cellMap), old(w.cells), w.cellMap, mid, w.cellMap, w.cells);
    assert w.cells == old(w.cells)[self := slowed];
  }

  /**
    The candidate loop of `Execute`: the first `maxTries` candidates are tried in
    order; the first free one is taken and the velocity is scaled by
    `1 - viscosity`. Indexing past the array ends the loop with `OutOfRange`.
   */
  method TryCandidates(w: World, self: Entity, coordinates: seq<Int3>, maxTries: nat, viscosity: real)
    returns (result: TryResult)
    requires w.Valid() && w.Placed(self)
    modifies w`cellMap, w`cells
    ensures w.Valid() && w.Placed(self)
    ensures KeepsPlaced(old(w.cellMap), old(w.cells), w.cellMap, w.cells)
    ensures KindsKept(old(w.cells), w.cells)
    ensures !result.Moved? ==> w.cellMap == old(w.cellMap) && w.cells == old(w.cells)
    ensures result == AllBlocked ==>
      maxTries <= |coordinates| && forall k | 0 <= k < maxTries :: coordinates[k] in old(w.cellMap)
    ensures result == OutOfRange ==>
      maxTries > |coordinates| && forall k | 0 <= k < |coordinates| :: coordinates[k] in old(w.cellMap)
    ensures result.Moved? ==>
      var i := result.index;
      var c := old(w.cells[self]);
      && i < maxTries && i < |coordinates|
      && coordinates[i] !in old(w.cellMap)
      && (forall k | 0 <= k < i :: coordinates[k] in old(w.cellMap))
      && w.cellMap == (old(w.cellMap) - {Pos(c)})[coordinates[i] := self]
      && w.cells == old(w.cells)[self := SlowedMove(c, coordinates[i], viscosity)]
  {
    for i := 0 to maxTries
      invariant w.cellMap == old(w.cellMap) && w.cells == old(w.cells)
      invariant i <= |coordinates|
      invariant forall k | 0 <= k < i :: coordinates[k] in old(w.cellMap)
    {
      if i >= |coordinates| {
        return OutOfRange;
      }
      var moved := TryCandidate(w, self, coordinates[i], viscosity);
      if moved {
        return Moved(i);
      }
    }
    return AllBlocked;
  }

  /** Which step of the resolver ended the attempt. */
  datatype MoveOutcome =
    | MovedToTarget
    | MovedAlongPrimary
    | SettlementSwapped
    | MovedToCandidate(index: nat)
    | ConfigMissing
    | CandidatesOverflow
    | CandidateOutOfRange
    | Collided

  ghost predicate PositiveMasses(cells: map<Entity, Cell>)
  {
    forall e | e in cells :: cells[e].mass > 0
  }

  /**
    Which candidate builder the resolver calls: `GetAvailableCoordinates` as
    written, or the builder whose blocks match the slot counts.
   */
  datatype Builder = AsWritten | AsIntended

  /** The builder's writes stay inside its array: always for the intended one, for None, Solid and Liquid as written. */
  predicate Fits(b: Builder, s: CellState)
  {
    b == AsIntended || s == NoneState || s == Solid || s == Liquid
  }

  /** The as-written builder fits exactly when the blocks its guards enable fit in the state's slots. */
  lemma FitsIffWithinSlots(current: Int3, primary: Int3, s: CellState)
    ensures Fits(AsWritten, s) <==> |WrittenLayout(current, primary, s)| <= SlotCount(s)
  {
    WrittenLayoutSizes(current, primary);
  }

  /** The sorted candidate list for a cell at `current` heading along `direction`. */
  function Candidates(b: Builder, current: Int3, primary: Int3, direction: Vec3, s: CellState, sqrt: real -> real): seq<Int3>
    requires Fits(b, s)
  {
    match b
    case AsWritten =>
      FitsIffWithinSlots(current, primary, s);
      InsertionSorted(WrittenLayout(current, primary, s) + Zeros(SlotCount(s) - |WrittenLayout(current, primary, s)|),
                      Score(current, direction, sqrt))
    case AsIntended =>
      InsertionSorted(IntendedLayout(current, primary, s), Score(current, direction, sqrt))
  }

  /** The builder's writes fit for cell `c`. */
  /** The candidate list the resolver builds for cell `c`. */
  function CandidateList(b: Builder, c: Cell, sqrt: real -> real): seq<Int3>
    requires Fits(b, c.state)
  {
    var direction := Direction(c, sqrt);
    Candidates(b, Pos(c), GetPrimaryDirection(direction), direction, c.state, sqrt)
  }

  /** `Zeros(n)` holds the world origin `n` times. */
  lemma {:induction false} ZerosCount(n: nat)
    ensures multiset(Zeros(n))[Origin] == n
    decreases n
  {
    if n > 0 {
      ZerosCount(n - 1);
      assert Zeros(n) == Zeros(n - 1) + [Origin];
    }
  }

  /**
    What the as-written builder hands a Liquid cell: its list holds the world
    origin at least 8 times, so a free origin is tried as a move target
    wherever the cell is.
   */
  lemma WrittenLiquidListsOrigin(current: Int3, primary: Int3, direction: Vec3, sqrt: real -> real)
    ensures multiset(Candidates(AsWritten, current, primary, direction, Liquid, sqrt))[Origin] >= 8
  {
    WrittenLayoutSizes(current, primary);
    var layout := WrittenLayout(current, primary, Liquid);
    var padded := layout + Zeros(SlotCount(Liquid) - |layout|);
    InsertionSortedPermutes(padded, Score(current, direction, sqrt));
    ZerosCount(8);
    assert multiset(padded) == multiset(layout) + multiset(Zeros(8));
  }

  /** Steps 5 and 6 of `Execute`: the candidate loop, and the collision when every tried candidate is occupied. */
  method TryOrCollide(w: World, self: Entity, candidates: seq<Int3>, maxTries: nat, viscosity: real,
                      params: PhysicsParams, sqrt: real -> real, currentCoordinate: Int3, targetCoordinate: Int3)
    returns (outcome: MoveOutcome)
    requires w.Valid() && w.Placed(self) && PositiveMasses(w.cells)
    requires currentCoordinate == Pos(w.cells[self]) && targetCoordinate in w.cellMap
    modifies w`cellMap, w`cells
    ensures w.Valid() && w.Placed(self) && PositiveMasses(w.cells)
    ensures KeepsPlaced(old(w.cellMap), old(w.cells), w.cellMap, w.cells)
    ensures KindsKept(old(w.cells), w.cells)
    ensures outcome in {CandidateOutOfRange, Collided} || outcome.MovedToCandidate?
    ensures outcome.MovedToCandidate? ==>
      var c := old(w.cells[self]);
      var i := outcome.index;
      && i < maxTries && i < |candidates|
      && candidates[i] !in old(w.cellMap)
      && (forall k | 0 <= k < i :: candidates[k] in old(w.cellMap))
      && w.cellMap == (old(w.cellMap) - {Pos(c)})[candidates[i] := self]
      && w.cells == old(w.cells)[self := SlowedMove(c, candidates[i], viscosity)]
    ensures outcome == CandidateOutOfRange ==>
      maxTries > |candidates| && forall k | 0 <= k < |candidates| :: candidates[k] in old(w.cellMap)
    ensures outcome == Collided ==>
      maxTries <= |candidates| && forall k | 0 <= k < maxTries :: candidates[k] in old(w.cellMap)
    ensures outcome == Collided ==>
      var c := old(w.cells[self]);
      var other := old(w.cellMap)[targetCoordinate];
      var imp := CollisionImpulses(c.velocity, c.mass, old(w.cells[other]).velocity, old(w.cells[other]).mass,
                                   Normalize(ToVec(SubI(targetCoordinate, currentCoordinate)), sqrt), params.impulseLoss);
      w.cells == AppendImpulseTo(AppendImpulseTo(old(w.cells), self, imp.onSelf), other, imp.onTarget)
    ensures outcome == CandidateOutOfRange ==> w.cells == old(w.cells)
    ensures !outcome.MovedToCandidate? ==> w.cellMap == old(w.cellMap)
  {
    var tried := TryCandidates(w, self, candidates, maxTries, viscosity);
    match tried
    case Moved(i) =>
      return MovedToCandidate(i);
    case OutOfRange =>
      return CandidateOutOfRange;
    case AllBlocked =>
      HandleCollision(w, self, targetCoordinate, currentCoordinate, params, sqrt);
      return Collided;
  }

  /**
    The candidate array of `Execute`: `GetAvailableCoordinates` or the builder
    with guards matched to the slot counts. When the as-written builder's writes
    do not fit, the write past the array end throws and no array is returned.
   */
  method BuildCandidates(b: Builder, current: Int3, primary: Int3, direction: Vec3, s: CellState, sqrt: real -> real)
    returns (built: Option<array<Int3>>)
    ensures built.None? <==> !Fits(b, s)
    ensures built.Some? ==> fresh(built.value) && built.value[..] == Candidates(b, current, primary, direction, s, sqrt)
  {
    if !Fits(b, s) {
      return None;
    }
    var coordinates;
    if b == AsWritten {
      FitsIffWithinSlots(current, primary, s);
      coordinates := GetAvailableCoordinates(current, primary, direction, s, sqrt);
    } else {
      coordinates := GetIntendedCoordinates(current, primary, direction, s, sqrt);
    }
    built := Some(coordinates);
  }

  /**
    Steps 4 to 6 of `Execute`, once the direct target, the primary step and the
    settlement swap have all failed: look up the configuration, build the
    candidates with builder `b`, try the first `maxTries` of them, and otherwise
    record a collision with the occupant of the direct target.
   */
  method ResolveBlocked(w: World, self: Entity, b: Builder, configs: seq<CellConfig>, params: PhysicsParams,
                        sqrt: real -> real, direction: Vec3, primaryDirection: Int3, currentCoordinate: Int3,
                        targetCoordinate: Int3)
    returns (outcome: MoveOutcome)
    requires w.Valid() && w.Placed(self) && PositiveMasses(w.cells)
    requires currentCoordinate == Pos(w.cells[self]) && targetCoordinate in w.cellMap
    modifies w`cellMap, w`cells
    ensures w.Valid() && w.Placed(self) && PositiveMasses(w.cells)
    ensures KeepsPlaced(old(w.cellMap), old(w.cells), w.cellMap, w.cells)
    ensures KindsKept(old(w.cells), w.cells)
    ensures outcome in {ConfigMissing, CandidatesOverflow, CandidateOutOfRange, Collided} || outcome.MovedToCandidate?
    ensures outcome == ConfigMissing <==> CellUtility.GetCellConfig(configs, old(w.cells[self]).cellType).None?
    ensures outcome == CandidatesOverflow <==>
      && CellUtility.GetCellConfig(configs, old(w.cells[self]).cellType).Some?
      && !Fits(b, old(w.cells[self]).state)
    ensures outcome.MovedToCandidate? ==>
      var c := old(w.cells[self]);
      var cfg := CellUtility.GetCellConfig(configs, c.cellType).value;
      var i := outcome.index;
      && Fits(b, c.state)
      && (var list := Candidates(b, currentCoordinate, primaryDirection, direction, c.state, sqrt);
          && i < MaxTries(|list|, cfg.fluidity) && i < |list|
          && list[i] !in old(w.cellMap)
          && (forall k | 0 <= k < i :: list[k] in old(w.cellMap))
          && w.cellMap == (old(w.cellMap) - {Pos(c)})[list[i] := self]
          && w.cells == old(w.cells)[self := SlowedMove(c, list[i], cfg.viscosity)])
    ensures outcome == CandidateOutOfRange ==>
      var c := old(w.cells[self]);
      var cfg := CellUtility.GetCellConfig(configs, c.cellType).value;
      && Fits(b, c.state)
      && (var list := Candidates(b, currentCoordinate, primaryDirection, direction, c.state, sqrt);
          MaxTries(|list|, cfg.fluidity) > |list| && forall k | 0 <= k < |list| :: list[k] in old(w.cellMap))
    ensures outcome == Collided ==>
      var c := old(w.cells[self]);
      var cfg := CellUtility.GetCellConfig(configs, c.cellType).value;
      && Fits(b, c.state)
      && (var list := Candidates(b, currentCoordinate, primaryDirection, direction, c.state, sqrt);
          && MaxTries(|list|, cfg.fluidity) <= |list|
          && (forall k | 0 <= k < MaxTries(|list|, cfg.fluidity) :: list[k] in old(w.cellMap)))
    ensures outcome == Collided ==>
      var c := old(w.cells[self]);
      var other := old(w.cellMap)[targetCoordinate];
      var imp := CollisionImpulses(c.velocity, c.mass, old(w.cells[other]).velocity, old(w.cells[other]).mass,
                                   Normalize(ToVec(SubI(targetCoordinate, currentCoordinate)), sqrt), params.impulseLoss);
      w.cells == AppendImpulseTo(AppendImpulseTo(old(w.cells), self, imp.onSelf), other, imp.onTarget)
    ensures !outcome.MovedToCandidate? && outcome != Collided ==> w.cells == old(w.cells)
    ensures !outcome.MovedToCandidate? ==> w.cellMap == old(w.cellMap)
  {
    var c := w.cells[self];
    var cellConfig := CellUtility.GetCellConfig(configs, c.cellType);
    if cellConfig.None? {
      return ConfigMissing;
    }
    var fluidity := cellConfig.value.fluidity;

    var built := BuildCandidates(b, currentCoordinate, primaryDirection, direction, c.state, sqrt);
    if built.None? {
      return CandidatesOverflow;
    }
    var candidates := built.value[..];
    var maxTries := MaxTries(|candidates|, fluidity);

    outcome := TryOrCollide(w, self, candidates, maxTries, cellConfig.value.viscosity,
                            params, sqrt, currentCoordinate, targetCoordinate);
  }

  /** How steps 2 and 3 of `Execute` ended. */
  datatype PrimaryStep = StepMoved | StepSwapped | StepBlocked

  /** Steps 2 and 3 of `Execute`: the move along the primary axis, then the settlement swap into that coordinate. */
  method TryPrimaryOrSettle(w: World, self: Entity, primaryTarget: Int3) returns (step: PrimaryStep)
    requires w.Valid() && w.Placed(self)
    modifies w`cellMap, w`cells
    ensures w.Valid() && w.Placed(self)
    ensures KeepsPlaced(old(w.cellMap), old(w.cells), w.cellMap, w.cells)
    ensures KindsKept(old(w.cells), w.cells)
    ensures step == StepMoved <==> primaryTarget !in old(w.cellMap)
    ensures step == StepMoved ==>
      && w.cellMap == (old(w.cellMap) - {Pos(old(w.cells[self]))})[primaryTarget := self]
      && w.cells == old(w.cells)[self := MovedCell(old(w.cells[self]), primaryTarget)]
    ensures step == StepSwapped <==> SettlementAllowed(old(w.cellMap), old(w.cells), self, primaryTarget)
    ensures step == StepSwapped ==>
      && primaryTarget in old(w.cellMap)
      && w.cellMap.Keys == old(w.cellMap.Keys) && w.cellMap[primaryTarget] == self
      && w.cellMap == SwappedMap(old(w.cellMap), old(w.cells), self, old(w.cellMap)[primaryTarget])
      && w.cells == SwappedCells(old(w.cells), self, old(w.cellMap)[primaryTarget])
    ensures step == StepBlocked ==> w.cellMap == old(w.cellMap) && w.cells == old(w.cells)
  {
    var moved := TryMoveCell(w, self, primaryTarget);
    if moved {
      return StepMoved;
    }
    var swapped := TrySettlementSwap(w, self, primaryTarget);
    step := if swapped then StepSwapped else StepBlocked;
  }

  /**
    Steps 2 to 6 of `Execute`, once the direct target is occupied: the step along
    the primary axis, the settlement swap into that coordinate, and then
    `ResolveBlocked`.
   */
  method ResolveAfterDirect(w: World, self: Entity, b: Builder, configs: seq<CellConfig>, params: PhysicsParams,
                            sqrt: real -> real, direction: Vec3, currentCoordinate: Int3, targetCoordinate: Int3)
    returns (outcome: MoveOutcome)
    requires w.Valid() && w.Placed(self) && PositiveMasses(w.cells)
    requires currentCoordinate == Pos(w.cells[self]) && targetCoordinate in w.cellMap
    modifies w`cellMap, w`cells
    ensures w.Valid() && w.Placed(self) && PositiveMasses(w.cells)
    ensures KeepsPlaced(old(w.cellMap), old(w.cells), w.cellMap, w.cells)
    ensures KindsKept(old(w.cells), w.cells)
    ensures outcome != MovedToTarget
    ensures outcome == MovedAlongPrimary <==> AddI(currentCoordinate, GetPrimaryDirection(direction)) !in old(w.cellMap)
    ensures outcome == MovedAlongPrimary ==>
      var primaryTarget := AddI(currentCoordinate, GetPrimaryDirection(direction));
      && w.cellMap == (old(w.cellMap) - {currentCoordinate})[primaryTarget := self]
      && w.cells == old(w.cells)[self := MovedCell(old(w.cells[self]), primaryTarget)]
    ensures outcome == SettlementSwapped <==>
      SettlementAllowed(old(w.cellMap), old(w.cells), self, AddI(currentCoordinate, GetPrimaryDirection(direction)))
    ensures outcome == SettlementSwapped ==>
      var primaryTarget := AddI(currentCoordinate, GetPrimaryDirection(direction));
      && primaryTarget in old(w.cellMap)
      && w.cellMap.Keys == old(w.cellMap.Keys) && w.cellMap[primaryTarget] == self
      && w.cellMap == SwappedMap(old(w.cellMap), old(w.cells), self, old(w.cellMap)[primaryTarget])
      && w.cells == SwappedCells(old(w.cells), self, old(w.cellMap)[primaryTarget])
    ensures outcome == ConfigMissing <==>
      var primaryTarget := AddI(currentCoordinate, GetPrimaryDirection(direction));
      && primaryTarget in old(w.cellMap)
      && !SettlementAllowed(old(w.cellMap), old(w.cells), self, primaryTarget)
      && CellUtility.GetCellConfig(configs, old(w.cells[self]).cellType).None?
    ensures outcome == CandidatesOverflow <==>
      var primaryTarget := AddI(currentCoordinate, GetPrimaryDirection(direction));
      && primaryTarget in old(w.cellMap)
      && !SettlementAllowed(old(w.cellMap), old(w.cells), self, primaryTarget)
      && CellUtility.GetCellConfig(configs, old(w.cells[self]).cellType).Some?
      && !Fits(b, old(w.cells[self]).state)
    ensures outcome.MovedToCandidate? ==>
      var c := old(w.cells[self]);
      var cfg := CellUtility.GetCellConfig(configs, c.cellType);
      && cfg.Some? && Fits(b, c.state)
      && (var list := Candidates(b, currentCoordinate, GetPrimaryDirection(direction), direction, c.state, sqrt);
          && outcome.index < MaxTries(|list|, cfg.value.fluidity) && outcome.index < |list|
          && list[outcome.index] !in old(w.cellMap)
          && (forall k | 0 <= k < outcome.index :: list[k] in old(w.cellMap))
          && w.cellMap == (old(w.cellMap) - {Pos(c)})[list[outcome.index] := self]
          && w.cells == old(w.cells)[self := SlowedMove(c, list[outcome.index], cfg.value.viscosity)])
    ensures outcome in {ConfigMissing, CandidatesOverflow, CandidateOutOfRange, Collided} ==> w.cellMap == old(w.cellMap)
    ensures outcome in {ConfigMissing, CandidatesOverflow, CandidateOutOfRange} ==> w.cells == old(w.cells)
    ensures outcome == Collided ==>
      var c := old(w.cells[self]);
      var other := old(w.cellMap)[targetCoordinate];
      var imp := CollisionImpulses(c.velocity, c.mass, old(w.cells[other]).velocity, old(w.cells[other]).mass,
                                   Normalize(ToVec(SubI(targetCoordinate, currentCoordinate)), sqrt), params.impulseLoss);
      w.cells == AppendImpulseTo(AppendImpulseTo(old(w.cells), self, imp.onSelf), other, imp.onTarget)
  {
    var primaryDirection := GetPrimaryDirection(direction);
    var primaryTargetCoordinate := AddI(currentCoordinate, primaryDirection);
    var step := TryPrimaryOrSettle(w, self, primaryTargetCoordinate);
    match step
    case StepMoved =>
      return MovedAlongPrimary;
    case StepSwapped =>
      return SettlementSwapped;
    case StepBlocked =>
      outcome := ResolveBlocked(w, self, b, configs, params, sqrt, direction, primaryDirection, currentCoordinate,
                                targetCoordinate);
  }

  /**
    `TryMoveCellJob.Execute` for one cell, in the fixed order of the source:
    the direct target, the primary step, the settlement swap, and then
    `ResolveBlocked`. With `AsWritten` the candidates come from
    `GetAvailableCoordinates` as the source calls it; with `AsIntended` from
    the builder whose blocks match the slot counts.
   */
  method Execute(w: World, self: Entity, b: Builder, configs: seq<CellConfig>, params: PhysicsParams, sqrt: real -> real)
    returns (outcome: MoveOutcome)
    requires w.Valid() && w.Placed(self) && PositiveMasses(w.cells)
    modifies w`cellMap, w`cells
    ensures w.Valid() && w.Placed(self) && PositiveMasses(w.cells)
    ensures KeepsPlaced(old(w.cellMap), old(w.cells), w.cellMap, w.cells)
    ensures KindsKept(old(w.cells), w.cells)
    ensures var c := old(w.cells[self]);
      outcome == MovedToTarget <==> DirectTarget(c, sqrt) !in old(w.cellMap)
    ensures var c := old(w.cells[self]);
      outcome == MovedToTarget ==>
        && w.cellMap == (old(w.cellMap) - {Pos(c)})[DirectTarget(c, sqrt) := self]
        && w.cells == old(w.cells)[self := MovedCell(c, DirectTarget(c, sqrt))]
    ensures var c := old(w.cells[self]);
      outcome == MovedAlongPrimary <==>
        DirectTarget(c, sqrt) in old(w.cellMap) && PrimaryTarget(c, sqrt) !in old(w.cellMap)
    ensures var c := old(w.cells[self]);
      outcome == MovedAlongPrimary ==>
        && w.cellMap == (old(w.cellMap) - {Pos(c)})[PrimaryTarget(c, sqrt) := self]
        && w.cells == old(w.cells)[self := MovedCell(c, PrimaryTarget(c, sqrt))]
    ensures var c := old(w.cells[self]);
      outcome == SettlementSwapped <==>
        && DirectTarget(c, sqrt) in old(w.cellMap)
        && SettlementAllowed(old(w.cellMap), old(w.cells), self, PrimaryTarget(c, sqrt))
    ensures var c := old(w.cells[self]);
      outcome == SettlementSwapped ==>
        && PrimaryTarget(c, sqrt) in old(w.cellMap)
        && w.cellMap.Keys == old(w.cellMap.Keys) && w.cellMap[PrimaryTarget(c, sqrt)] == self
        && w.cellMap == SwappedMap(old(w.cellMap), old(w.cells), self, old(w.cellMap)[PrimaryTarget(c, sqrt)])
        && w.cells == SwappedCells(old(w.cells), self, old(w.cellMap)[PrimaryTarget(c, sqrt)])
    ensures var c := old(w.cells[self]);
      outcome == ConfigMissing <==>
        && DirectTarget(c, sqrt) in old(w.cellMap) && PrimaryTarget(c, sqrt) in old(w.cellMap)
        && !SettlementAllowed(old(w.cellMap), old(w.cells), self, PrimaryTarget(c, sqrt))
        && CellUtility.GetCellConfig(configs, c.cellType).None?
    ensures var c := old(w.cells[self]);
      outcome == CandidatesOverflow <==>
        && DirectTarget(c, sqrt) in old(w.cellMap) && PrimaryTarget(c, sqrt) in old(w.cellMap)
        && !SettlementAllowed(old(w.cellMap), old(w.cells), self, PrimaryTarget(c, sqrt))
        && CellUtility.GetCellConfig(configs, c.cellType).Some?
        && !Fits(b, c.state)
    ensures var c := old(w.cells[self]);
      outcome.MovedToCandidate? ==>
        var cfg := CellUtility.GetCellConfig(configs, c.cellType);
        && cfg.Some? && Fits(b, c.state)
        && (var list := CandidateList(b, c, sqrt);
            && outcome.index < MaxTries(|list|, cfg.value.fluidity) && outcome.index < |list|
            && list[outcome.index] !in old(w.cellMap)
            && (forall k | 0 <= k < outcome.index :: list[k] in old(w.cellMap))
            && w.cellMap == (old(w.cellMap) - {Pos(c)})[list[outcome.index] := self]
            && w.cells == old(w.cells)[self := SlowedMove(c, list[outcome.index], cfg.value.viscosity)])
    ensures outcome in {ConfigMissing, CandidatesOverflow, CandidateOutOfRange, Collided} ==> w.cellMap == old(w.cellMap)
    ensures outcome in {ConfigMissing, CandidatesOverflow, CandidateOutOfRange} ==> w.cells == old(w.cells)
    ensures var c := old(w.cells[self]);
      outcome == Collided ==>
        var other := old(w.cellMap)[DirectTarget(c, sqrt)];
        var imp := CollisionImpulses(c.velocity, c.mass, old(w.cells[other]).velocity, old(w.cells[other]).mass,
                                     Normalize(ToVec(SubI(DirectTarget(c, sqrt), Pos(c))), sqrt), params.impulseLoss);
        w.cells == AppendImpulseTo(AppendImpulseTo(old(w.cells), self, imp.onSelf), other, imp.onTarget)
  {
    var c := w.cells[self];
    var direction := Direction(c, sqrt);
    var offset := RoundV(direction);
    var currentCoordinate := Pos(c);

    var targetCoordinate := AddI(currentCoordinate, offset);
    var moved := TryMoveCell(w, self, targetCoordinate);
    if moved {
      return MovedToTarget;
    }

    outcome := ResolveAfterDirect(w, self, b, configs, params, sqrt, direction, currentCoordinate, targetCoordinate);
  }
}
