/**
  The explosion system: every live cell flagged to explode releases its
  energy. It records, through the command buffer, its own energy reset and a
  heat gain, then one impulse and one heat gain for every occupied
  coordinate inside a ball around it, falling off linearly with the distance,
  and finally hands itself to `SetCellTypeToNone`.

  `SetCellTypeToNone` is not part of this model, so the job is modelled up to
  the calls it makes to it.
 */
module ExplosionSystem {
  import opened Wrappers
  import opened Vectors
  import opened GlobalConfig
  import opened CellWorld

  /** `ExplosionHeatCoefficient` and `ExplosionImpulseCoefficient`; neither constant is part of this model's sources. */
  datatype ExplosionParams = ExplosionParams(heatCoefficient: real, impulseCoefficient: real)

  /** A call `SetCellTypeToNone(…, cell, …, coordinate)`. */
  datatype NoneCall = NoneCall(cell: Entity, coordinate: Int3)

  /** What one `Execute` records: the buffered writes and the calls to `SetCellTypeToNone`. */
  datatype Blast = Blast(commands: seq<Command>, toNone: seq<NoneCall>)

  /** `math.ceil`. */
  function Ceil(x: real): (r: int)
    ensures x <= r as real < x + 1.0
  {
    -((-x).Floor)
  }

  /** Squaring is monotonic on non-negative reals. */
  lemma SquareMonotonic(a: real, b: real)
    requires 0.0 <= a <= b
    ensures a * a <= b * b
    ensures a < b ==> a * a < b * b
  {
    assert b * b - a * a == (b - a) * (b + a);
    if a < b {
      assert b - a > 0.0 && b + a > 0.0;
      assert (b - a) * (b + a) > 0.0;
    }
  }

  /**
    `(int)math.ceil(math.sqrt(energy))`. For a positive energy it is at least
    one, its square covers the energy, and it is the least such integer.
   */
  function ExplosionRange(energy: real, sqrt: real -> real): (r: int)
    requires IsSqrt(sqrt) && energy > 0.0
    ensures r >= 1 && r as real * r as real >= energy && (r - 1) as real * (r - 1) as real < energy
  {
    var s := sqrt(energy);
    assert s * s == energy && s >= 0.0;
    var r := Ceil(s);
    assert (r - 1) as real < s && r >= 1;
    SquareMonotonic(s, r as real);
    SquareMonotonic((r - 1) as real, s);
    r
  }

  /** `heatReleased`. */
  function HeatReleased(energy: real, p: ExplosionParams): real
  {
    energy * p.heatCoefficient
  }

  /** `1 - distance / range`. */
  function Falloff(distance: real, range: int): real
    requires range >= 1
  {
    1.0 - distance / range as real
  }

  /** `impulseMagnitude`. */
  function ImpulseMagnitude(energy: real, p: ExplosionParams, factor: real): (r: real)
    ensures energy >= 0.0 && p.impulseCoefficient >= 0.0 && factor >= 0.0 ==> r >= 0.0
  {
    energy * p.impulseCoefficient * factor
  }

  /** `heatToTarget`: a tenth of the released heat, attenuated. */
  function HeatToTarget(heatReleased: real, factor: real): real
  {
    heatReleased * factor * 0.1
  }

  /** `math.length` of an integer offset. */
  function Distance(o: Int3, sqrt: real -> real): real
  {
    Length(ToVec(o), sqrt)
  }

  /** The offset is skipped by neither `continue` and its coordinate is occupied. */
  predicate IsHit(m: map<Int3, Entity>, c: Int3, o: Int3, range: int, sqrt: real -> real)
  {
    !(Distance(o, sqrt) > range as real) && o != Origin && AddI(c, o) in m
  }

  /** The two appends for a hit offset. */
  function Strike(m: map<Int3, Entity>, c: Int3, o: Int3, range: int, energy: real, p: ExplosionParams,
                  sqrt: real -> real): seq<Command>
    requires range >= 1
  {
    if !IsHit(m, c, o, range, sqrt) then []
    else [ImpulseFor(m, c, o, range, energy, p, sqrt), HeatFor(m, c, o, range, energy, p, sqrt)]
  }

  /** The impulse appended for a hit offset: along the offset, scaled by the attenuated energy. */
  function ImpulseFor(m: map<Int3, Entity>, c: Int3, o: Int3, range: int, energy: real, p: ExplosionParams,
                      sqrt: real -> real): Command
    requires range >= 1 && AddI(c, o) in m
  {
    var factor := Falloff(Distance(o, sqrt), range);
    AppendImpulse(m[AddI(c, o)], Scale(Normalize(ToVec(o), sqrt), ImpulseMagnitude(energy, p, factor)))
  }

  /** The heat appended for a hit offset. */
  function HeatFor(m: map<Int3, Entity>, c: Int3, o: Int3, range: int, energy: real, p: ExplosionParams,
                   sqrt: real -> real): Command
    requires range >= 1 && AddI(c, o) in m
  {
    AppendHeat(m[AddI(c, o)], HeatToTarget(HeatReleased(energy, p), Falloff(Distance(o, sqrt), range)))
  }

  /** The strike at every offset, as one function: the body of the innermost loop. */
  function StrikeAt(m: map<Int3, Entity>, c: Int3, range: int, energy: real, p: ExplosionParams,
                    sqrt: real -> real): Int3 -> seq<Command>
    requires range >= 1
  {
    o => Strike(m, c, o, range, energy, p, sqrt)
  }

  /** What the loops record when they visit the offsets `os` in order, running `strike` on each. */
  function Strikes(strike: Int3 -> seq<Command>, os: seq<Int3>): seq<Command>
  {
    if os == [] then [] else Strikes(strike, os[..|os| - 1]) + strike(os[|os| - 1])
  }

  lemma {:induction false} StrikesAppend(strike: Int3 -> seq<Command>, a: seq<Int3>, b: seq<Int3>)
    ensures Strikes(strike, a + b) == Strikes(strike, a) + Strikes(strike, b)
    decreases |b|
  {
    if b == [] {
      assert a + b == a;
    } else {
      assert (a + b)[..|a + b| - 1] == a + b[..|b| - 1];
      StrikesAppend(strike, a, b[..|b| - 1]);
    }
  }

  /** `f(lo) + … + f(hi)`: what a `for` loop from `lo` to `hi` collects when step `i` collects `f(i)`. */
  function Concat<T>(f: int -> seq<T>, lo: int, hi: int): seq<T>
    decreases hi - lo
  {
    if hi < lo then [] else Concat(f, lo, hi - 1) + f(hi)
  }

  predicate Distinct<T(==)>(s: seq<T>)
  {
    forall i, j | 0 <= i < j < |s| :: s[i] != s[j]
  }

  /** An element is collected exactly when some step in range collects it. */
  lemma {:induction false} ConcatContents<T>(f: int -> seq<T>, lo: int, hi: int)
    ensures forall o :: o in Concat(f, lo, hi) <==> exists i :: lo <= i <= hi && o in f(i)
    decreases hi - lo
  {
    if hi >= lo {
      ConcatContents(f, lo, hi - 1);
    }
  }

  /** Two distinct sequences with no common element concatenate to a distinct one. */
  lemma DistinctAppend<T>(a: seq<T>, b: seq<T>)
    requires Distinct(a) && Distinct(b)
    requires forall o | o in a :: o !in b
    ensures Distinct(a + b)
  {
    forall i, j | 0 <= i < j < |a + b| ensures (a + b)[i] != (a + b)[j] {
      if i < |a| && j >= |a| {
        assert (a + b)[i] == a[i] && (a + b)[j] == b[j - |a|];
        assert a[i] in a && b[j - |a|] in b;
      } else if i >= |a| {
        assert (a + b)[i] == b[i - |a|] && (a + b)[j] == b[j - |a|];
      }
    }
  }

  /** Steps that each collect distinct elements, no two steps the same one, collect distinct elements. */
  lemma {:induction false} ConcatDistinct<T>(f: int -> seq<T>, key: T -> int, lo: int, hi: int)
    requires forall i | lo <= i <= hi :: Distinct(f(i))
    requires forall i, o | lo <= i <= hi && o in f(i) :: key(o) == i
    ensures Distinct(Concat(f, lo, hi))
    ensures forall o | o in Concat(f, lo, hi) :: lo <= key(o) <= hi
    decreases hi - lo
  {
    if hi >= lo {
      ConcatDistinct(f, key, lo, hi - 1);
      DistinctAppend(Concat(f, lo, hi - 1), f(hi));
    }
  }

  /** Visiting the collected offsets one by one records what the steps record in turn. */
  lemma {:induction false} ConcatStrikes(strike: Int3 -> seq<Command>, f: int -> seq<Int3>, g: int -> seq<Command>, lo: int, hi: int)
    requires forall i | lo <= i <= hi :: g(i) == Strikes(strike, f(i))
    ensures Strikes(strike, Concat(f, lo, hi)) == Concat(g, lo, hi)
    decreases hi - lo
  {
    if hi >= lo {
      ConcatStrikes(strike, f, g, lo, hi - 1);
      StrikesAppend(strike, Concat(f, lo, hi - 1), f(hi));
    }
  }

  /** The offset of the innermost loop at `dz`. */
  function ZOffsets(x: int, y: int): int -> seq<Int3>
  {
    z => [Int3(x, y, z)]
  }

  /** The offsets of the `dz` loop for one `dy`. */
  function YOffsets(x: int, r: int): int -> seq<Int3>
  {
    y => Concat(ZOffsets(x, y), -r, r)
  }

  /** The offsets of the `dy` loop for one `dx`. */
  function XOffsets(r: int): int -> seq<Int3>
  {
    x => Concat(YOffsets(x, r), -r, r)
  }

  /** Every offset of the cube `[-r, r]^3`, in the order of the three nested loops. */
  function Cube(r: int): seq<Int3>
  {
    Concat(XOffsets(r), -r, r)
  }

  predicate InCube(o: Int3, r: int)
  {
    -r <= o.x <= r && -r <= o.y <= r && -r <= o.z <= r
  }

  function KeyX(o: Int3): int { o.x }
  function KeyY(o: Int3): int { o.y }
  function KeyZ(o: Int3): int { o.z }

  /** The `dz` loop for one `dy` visits each `z` in `[-r, r]` once. */
  lemma RowContents(x: int, y: int, r: int)
    ensures forall o :: o in YOffsets(x, r)(y) <==> o.x == x && o.y == y && -r <= o.z <= r
    ensures Distinct(YOffsets(x, r)(y))
  {
    ConcatContents(ZOffsets(x, y), -r, r);
    ConcatDistinct(ZOffsets(x, y), KeyZ, -r, r);
    forall o: Int3 | o.x == x && o.y == y && -r <= o.z <= r ensures o in YOffsets(x, r)(y) {
      assert o in ZOffsets(x, y)(o.z);
    }
  }

  /** The `dy` loop for one `dx` visits each `(y, z)` in `[-r, r]^2` once. */
  lemma PlaneContents(x: int, r: int)
    ensures forall o :: o in XOffsets(r)(x) <==> o.x == x && -r <= o.y <= r && -r <= o.z <= r
    ensures Distinct(XOffsets(r)(x))
  {
    forall y ensures forall o :: o in YOffsets(x, r)(y) <==> o.x == x && o.y == y && -r <= o.z <= r
      ensures Distinct(YOffsets(x, r)(y))
    {
      RowContents(x, y, r);
    }
    ConcatContents(YOffsets(x, r), -r, r);
    ConcatDistinct(YOffsets(x, r), KeyY, -r, r);
    forall o: Int3 | o.x == x && -r <= o.y <= r && -r <= o.z <= r ensures o in XOffsets(r)(x) {
      assert o in YOffsets(x, r)(o.y);
    }
  }

  /** The loops visit each offset of the cube exactly once. */
  lemma CubeContents(r: int)
    ensures forall o :: o in Cube(r) <==> InCube(o, r)
    ensures Distinct(Cube(r))
  {
    forall x ensures forall o :: o in XOffsets(r)(x) <==> o.x == x && -r <= o.y <= r && -r <= o.z <= r
      ensures Distinct(XOffsets(r)(x))
    {
      PlaneContents(x, r);
    }
    ConcatContents(XOffsets(r), -r, r);
    ConcatDistinct(XOffsets(r), KeyX, -r, r);
    forall o | InCube(o, r) ensures o in Cube(r) {
      assert o in XOffsets(r)(o.x);
    }
  }

  /** What the innermost loop records at `dz`. */
  function ZStrikes(strike: Int3 -> seq<Command>, x: int, y: int): int -> seq<Command>
  {
    z => strike(Int3(x, y, z))
  }

  /** What the `dz` loop records for one `dy`. */
  function YStrikes(strike: Int3 -> seq<Command>, x: int, r: int): int -> seq<Command>
  {
    y => Concat(ZStrikes(strike, x, y), -r, r)
  }

  /** What the `dy` loop records for one `dx`. */
  function XStrikes(strike: Int3 -> seq<Command>, r: int): int -> seq<Command>
  {
    x => Concat(YStrikes(strike, x, r), -r, r)
  }

  /** The `dz` loop records the strikes of the offsets it visits. */
  lemma RowStrikes(strike: Int3 -> seq<Command>, x: int, y: int, r: int)
    ensures YStrikes(strike, x, r)(y) == Strikes(strike, YOffsets(x, r)(y))
  {
    forall z | -r <= z <= r ensures ZStrikes(strike, x, y)(z) == Strikes(strike, ZOffsets(x, y)(z)) {
      assert [Int3(x, y, z)][..0] == [];
    }
    ConcatStrikes(strike, ZOffsets(x, y), ZStrikes(strike, x, y), -r, r);
  }

  /** The `dy` loop records the strikes of the offsets it visits. */
  lemma PlaneStrikes(strike: Int3 -> seq<Command>, x: int, r: int)
    ensures XStrikes(strike, r)(x) == Strikes(strike, XOffsets(r)(x))
  {
    forall y | -r <= y <= r ensures YStrikes(strike, x, r)(y) == Strikes(strike, YOffsets(x, r)(y)) {
      RowStrikes(strike, x, y, r);
    }
    ConcatStrikes(strike, YOffsets(x, r), YStrikes(strike, x, r), -r, r);
  }

  /** The three nested loops record the strikes of the cube's offsets, in order. */
  lemma CubeStrikes(strike: Int3 -> seq<Command>, r: int)
    ensures Concat(XStrikes(strike, r), -r, r) == Strikes(strike, Cube(r))
  {
    forall x | -r <= x <= r ensures XStrikes(strike, r)(x) == Strikes(strike, XOffsets(r)(x)) {
      PlaneStrikes(strike, x, r);
    }
    ConcatStrikes(strike, XOffsets(r), XStrikes(strike, r), -r, r);
  }

  /** What `ExplosionJob.Execute` records for the cell `e`. */
  function Explode(m: map<Int3, Entity>, e: Entity, cell: Cell, p: ExplosionParams, sqrt: real -> real): Blast
    requires IsSqrt(sqrt)
  {
    var energy := cell.energy;
    if energy <= 0.0 then Blast([], [])
    else
      var range := ExplosionRange(energy, sqrt);
      Blast([SetEnergy(e, 0.0), AppendHeat(e, HeatReleased(energy, p))]
            + Strikes(StrikeAt(m, Pos(cell), range, energy, p, sqrt), Cube(range)),
            [NoneCall(e, Pos(cell))])
  }

  /**
    The body of the innermost loop, for one offset: skip it when it is out of
    range, the centre, or unoccupied; otherwise strike the cell there.
   */
  method StrikeOffset(m: map<Int3, Entity>, c: Int3, offset: Int3, range: int, energy: real, p: ExplosionParams,
                      sqrt: real -> real) returns (commands: seq<Command>)
    requires range >= 1
    ensures commands == Strike(m, c, offset, range, energy, p, sqrt)
  {
    commands := [];
    var distance := Distance(offset, sqrt);
    if distance > range as real {
      return;
    }
    if offset.x == 0 && offset.y == 0 && offset.z == 0 {
      return;
    }
    var targetCoordinate := AddI(c, offset);
    if targetCoordinate !in m {
      return;
    }
    var targetEntity := m[targetCoordinate];
    var distanceFactor := Falloff(distance, range);
    var impulseMagnitude := ImpulseMagnitude(energy, p, distanceFactor);
    var direction := Normalize(ToVec(offset), sqrt);
    var impulse := Scale(direction, impulseMagnitude);
    var heatToTarget := HeatToTarget(HeatReleased(energy, p), distanceFactor);
    commands := [AppendImpulse(targetEntity, impulse), AppendHeat(targetEntity, heatToTarget)];
    assert commands == [ImpulseFor(m, c, offset, range, energy, p, sqrt), HeatFor(m, c, offset, range, energy, p, sqrt)];
  }

  /** The innermost loop, over `dz`, running the loop body `strike` at each offset. */
  method StrikeRow(strike: Int3 -> seq<Command>, x: int, y: int, range: int) returns (commands: seq<Command>)
    requires range >= 0
    ensures commands == Concat(ZStrikes(strike, x, y), -range, range)
  {
    commands := [];
    for dz := -range to range + 1
      invariant commands == Concat(ZStrikes(strike, x, y), -range, dz - 1)
    {
      var hit := strike(Int3(x, y, dz));
      commands := commands + hit;
    }
  }

  /** The middle loop, over `dy`. */
  method StrikePlane(strike: Int3 -> seq<Command>, x: int, range: int) returns (commands: seq<Command>)
    requires range >= 0
    ensures commands == Concat(YStrikes(strike, x, range), -range, range)
  {
    commands := [];
    for dy := -range to range + 1
      invariant commands == Concat(YStrikes(strike, x, range), -range, dy - 1)
    {
      var row := StrikeRow(strike, x, dy, range);
      commands := commands + row;
    }
  }

  /** The outer loop, over `dx`: the strikes of every offset of the cube, in loop order. */
  method StrikeCube(strike: Int3 -> seq<Command>, range: int) returns (commands: seq<Command>)
    requires range >= 0
    ensures commands == Strikes(strike, Cube(range))
  {
    commands := [];
    for dx := -range to range + 1
      invariant commands == Concat(XStrikes(strike, range), -range, dx - 1)
    {
      var plane := StrikePlane(strike, dx, range);
      commands := commands + plane;
    }
    CubeStrikes(strike, range);
  }

  /** `ExplosionJob.Execute` on one cell. */
  method ExplosionJob(m: map<Int3, Entity>, e: Entity, cell: Cell, p: ExplosionParams, sqrt: real -> real) returns (b: Blast)
    requires IsSqrt(sqrt)
    ensures b == Explode(m, e, cell, p, sqrt)
  {
    var coordinate := Pos(cell);
    var totalEnergy := cell.energy;
    if totalEnergy <= 0.0 {
      return Blast([], []);
    }
    var heatReleased := HeatReleased(totalEnergy, p);
    var explosionRange := ExplosionRange(totalEnergy, sqrt);
    var commands := [SetEnergy(e, 0.0), AppendHeat(e, heatReleased)];
    var strikes := StrikeCube(StrikeAt(m, coordinate, explosionRange, totalEnergy, p, sqrt), explosionRange);
    commands := commands + strikes;
    b := Blast(commands, [NoneCall(e, coordinate)]);
  }

  /** The offsets of `os` that are hit, in order. */
  function Hits(m: map<Int3, Entity>, c: Int3, os: seq<Int3>, range: int, sqrt: real -> real): (hs: seq<Int3>)
    ensures forall o :: o in hs <==> o in os && IsHit(m, c, o, range, sqrt)
  {
    if os == [] then []
    else
      var last := os[|os| - 1];
      Hits(m, c, os[..|os| - 1], range, sqrt) + (if IsHit(m, c, last, range, sqrt) then [last] else [])
  }

  /** Filtering keeps the offsets distinct. */
  lemma {:induction false} HitsDistinct(m: map<Int3, Entity>, c: Int3, os: seq<Int3>, range: int, sqrt: real -> real)
    requires Distinct(os)
    ensures Distinct(Hits(m, c, os, range, sqrt))
    decreases |os|
  {
    if os != [] {
      var init := os[..|os| - 1];
      var last := os[|os| - 1];
      HitsDistinct(m, c, init, range, sqrt);
      var prev := Hits(m, c, init, range, sqrt);
      var hs := Hits(m, c, os, range, sqrt);
      if IsHit(m, c, last, range, sqrt) {
        assert last !in init;
        forall i, j | 0 <= i < j < |hs| ensures hs[i] != hs[j] {
          assert hs[i] == prev[i] && hs[i] in prev;
        }
      }
    }
  }

  /** The commands are, pair by pair, an impulse and a heat gain for each hit offset in turn. */
  predicate PairedWith(commands: seq<Command>, m: map<Int3, Entity>, c: Int3, hs: seq<Int3>, range: int, energy: real,
                       p: ExplosionParams, sqrt: real -> real)
    requires range >= 1
  {
    && |commands| == 2 * |hs|
    && forall k | 0 <= k < |hs| ::
      && AddI(c, hs[k]) in m
      && commands[2 * k] == ImpulseFor(m, c, hs[k], range, energy, p, sqrt)
      && commands[2 * k + 1] == HeatFor(m, c, hs[k], range, energy, p, sqrt)
  }

  /** The strikes are exactly one impulse and one heat gain per hit offset, in loop order. */
  lemma {:induction false} StrikesPairedWithHits(m: map<Int3, Entity>, c: Int3, os: seq<Int3>, range: int, energy: real,
                                                 p: ExplosionParams, sqrt: real -> real)
    requires range >= 1
    ensures PairedWith(Strikes(StrikeAt(m, c, range, energy, p, sqrt), os), m, c, Hits(m, c, os, range, sqrt), range, energy, p, sqrt)
    decreases |os|
  {
    if os != [] {
      var init := os[..|os| - 1];
      var last := os[|os| - 1];
      StrikesPairedWithHits(m, c, init, range, energy, p, sqrt);
      var strike := StrikeAt(m, c, range, energy, p, sqrt);
      var prev := Strikes(strike, init);
      assert strike(last) == Strike(m, c, last, range, energy, p, sqrt);
      var hs0 := Hits(m, c, init, range, sqrt);
      if IsHit(m, c, last, range, sqrt) {
        var cmds := Strikes(strike, os);
        var hs := Hits(m, c, os, range, sqrt);
        assert cmds == prev + [ImpulseFor(m, c, last, range, energy, p, sqrt), HeatFor(m, c, last, range, energy, p, sqrt)];
        assert hs == hs0 + [last];
        forall k | 0 <= k < |hs|
          ensures && AddI(c, hs[k]) in m
                  && cmds[2 * k] == ImpulseFor(m, c, hs[k], range, energy, p, sqrt)
                  && cmds[2 * k + 1] == HeatFor(m, c, hs[k], range, energy, p, sqrt)
        {
          if k < |hs0| {
            assert hs[k] == hs0[k];
            assert cmds[2 * k] == prev[2 * k] && cmds[2 * k + 1] == prev[2 * k + 1];
          }
        }
      }
    }
  }

  /** `LengthSq` of an integer offset is its integer squared length. */
  lemma LengthSqOfOffset(o: Int3)
    ensures LengthSq(ToVec(o)) == LengthSqI(o) as real
  {
  }

  /**
    The distance test done in floating point agrees with the integer one: an
    offset is inside the ball exactly when its squared length is at most the
    squared range.
   */
  lemma InBallIffInteger(o: Int3, range: int, sqrt: real -> real)
    requires IsSqrt(sqrt) && range >= 1
    ensures !(Distance(o, sqrt) > range as real) <==> LengthSqI(o) <= range * range
  {
    LengthSqOfOffset(o);
    LengthSqNonNegative(ToVec(o));
    var d := Distance(o, sqrt);
    assert d >= 0.0 && d * d == LengthSqI(o) as real;
    assert (range * range) as real == range as real * range as real;
    if d <= range as real {
      SquareMonotonic(d, range as real);
    } else {
      SquareMonotonic(range as real, d);
    }
  }

  /** An integer whose square is at most `r * r` lies in `[-r, r]`. */
  lemma SquareBound(a: int, r: int)
    requires r >= 0 && a * a <= r * r
    ensures -r <= a <= r
  {
  }

  /** A hit lies inside the cube the loops enumerate. */
  lemma BallInsideCube(o: Int3, range: int)
    requires range >= 1 && LengthSqI(o) <= range * range
    ensures -range <= o.x <= range && -range <= o.y <= range && -range <= o.z <= range
  {
    assert o.x * o.x >= 0 && o.y * o.y >= 0 && o.z * o.z >= 0;
    SquareBound(o.x, range);
    SquareBound(o.y, range);
    SquareBound(o.z, range);
  }

  /**
    The offsets the loops hit are exactly the non-zero offsets whose squared
    length is at most the squared range and whose coordinate is occupied, each
    once.
   */
  lemma CubeHitsAreBall(m: map<Int3, Entity>, c: Int3, range: int, sqrt: real -> real)
    requires IsSqrt(sqrt) && range >= 1
    ensures forall o :: o in Hits(m, c, Cube(range), range, sqrt) <==> o != Origin && LengthSqI(o) <= range * range && AddI(c, o) in m
    ensures Distinct(Hits(m, c, Cube(range), range, sqrt))
  {
    CubeContents(range);
    forall o ensures o in Hits(m, c, Cube(range), range, sqrt) <==> o != Origin && LengthSqI(o) <= range * range && AddI(c, o) in m {
      InBallIffInteger(o, range, sqrt);
      if LengthSqI(o) <= range * range {
        BallInsideCube(o, range);
      }
    }
    HitsDistinct(m, c, Cube(range), range, sqrt);
  }

  /** The falloff of a hit lies in [0, 1]. */
  lemma FalloffInUnit(o: Int3, range: int, sqrt: real -> real)
    requires IsSqrt(sqrt) && range >= 1 && !(Distance(o, sqrt) > range as real)
    ensures 0.0 <= Falloff(Distance(o, sqrt), range) <= 1.0
  {
    LengthSqNonNegative(ToVec(o));
    var d := Distance(o, sqrt);
    assert 0.0 <= d <= range as real;
    assert d / range as real <= 1.0;
  }

  /**
    With non-negative energy and coefficient, the impulse on a hit is a
    non-negative multiple of the unit offset: it points away from the centre.
   */
  lemma ImpulsePointsOutward(m: map<Int3, Entity>, c: Int3, o: Int3, range: int, energy: real, p: ExplosionParams,
                             sqrt: real -> real)
    requires IsSqrt(sqrt) && range >= 1 && IsHit(m, c, o, range, sqrt)
    requires energy >= 0.0 && p.impulseCoefficient >= 0.0
    ensures ImpulseFor(m, c, o, range, energy, p, sqrt).impulse
      == Scale(Normalize(ToVec(o), sqrt), ImpulseMagnitude(energy, p, Falloff(Distance(o, sqrt), range)))
    ensures ImpulseMagnitude(energy, p, Falloff(Distance(o, sqrt), range)) >= 0.0
    ensures Dot(ImpulseFor(m, c, o, range, energy, p, sqrt).impulse, ToVec(o)) >= 0.0
  {
    FalloffInUnit(o, range, sqrt);
    var k := ImpulseMagnitude(energy, p, Falloff(Distance(o, sqrt), range));
    DotScaleLeft(Normalize(ToVec(o), sqrt), k, ToVec(o));
    NormalizeDot(ToVec(o), sqrt);
    LengthSqNonNegative(ToVec(o));
    assert Length(ToVec(o), sqrt) >= 0.0;
  }

  /**
    A cell with energy resets it to zero, gains the released heat, strikes
    each hit offset with one impulse and one heat gain, and asks once to be
    turned into `None`; a cell without energy records nothing at all.
   */
  lemma ExplodeShape(m: map<Int3, Entity>, e: Entity, cell: Cell, p: ExplosionParams, sqrt: real -> real)
    requires IsSqrt(sqrt)
    ensures cell.energy <= 0.0 ==> Explode(m, e, cell, p, sqrt) == Blast([], [])
    ensures cell.energy > 0.0 ==>
      var range := ExplosionRange(cell.energy, sqrt);
      var b := Explode(m, e, cell, p, sqrt);
      && b.toNone == [NoneCall(e, Pos(cell))]
      && b.commands[..2] == [SetEnergy(e, 0.0), AppendHeat(e, HeatReleased(cell.energy, p))]
      && PairedWith(b.commands[2..], m, Pos(cell), Hits(m, Pos(cell), Cube(range), range, sqrt), range, cell.energy, p, sqrt)
  {
    if cell.energy > 0.0 {
      var range := ExplosionRange(cell.energy, sqrt);
      var b := Explode(m, e, cell, p, sqrt);
      StrikesPairedWithHits(m, Pos(cell), Cube(range), range, cell.energy, p, sqrt);
      assert b.commands[2..] == Strikes(StrikeAt(m, Pos(cell), range, cell.energy, p, sqrt), Cube(range));
    }
  }

  /**
    Under the map invariant, no strike lands on the exploding cell itself, and
    distinct hit offsets strike distinct cells.
   */
  lemma StrikesMissSelf(m: map<Int3, Entity>, cells: map<Entity, Cell>, e: Entity, hs: seq<Int3>)
    requires MapConsistent(m, cells) && IsPlaced(m, cells, e)
    requires Distinct(hs) && forall k | 0 <= k < |hs| :: hs[k] != Origin && AddI(Pos(cells[e]), hs[k]) in m
    ensures forall k | 0 <= k < |hs| :: m[AddI(Pos(cells[e]), hs[k])] != e
    ensures forall i, j | 0 <= i < j < |hs| :: m[AddI(Pos(cells[e]), hs[i])] != m[AddI(Pos(cells[e]), hs[j])]
  {
    var c := Pos(cells[e]);
    forall k | 0 <= k < |hs| ensures m[AddI(c, hs[k])] != e {
      if m[AddI(c, hs[k])] == e {
        OneCoordinatePerCell(m, cells, AddI(c, hs[k]), c);
      }
    }
    forall i, j | 0 <= i < j < |hs| ensures m[AddI(c, hs[i])] != m[AddI(c, hs[j])] {
      if m[AddI(c, hs[i])] == m[AddI(c, hs[j])] {
        OneCoordinatePerCell(m, cells, AddI(c, hs[i]), AddI(c, hs[j]));
      }
    }
  }

  /** Every command of an explosion targets a cell of the world: itself or the occupant of a struck coordinate. */
  lemma ExplodeTargetsIn(m: map<Int3, Entity>, cells: map<Entity, Cell>, e: Entity, p: ExplosionParams, sqrt: real -> real)
    requires IsSqrt(sqrt) && MapConsistent(m, cells) && e in cells
    ensures TargetsIn(Explode(m, e, cells[e], p, sqrt).commands, cells)
  {
    var cell := cells[e];
    if cell.energy > 0.0 {
      var range := ExplosionRange(cell.energy, sqrt);
      var strike := StrikeAt(m, Pos(cell), range, cell.energy, p, sqrt);
      forall o: Int3 ensures TargetsIn(strike(o), cells) {
        assert strike(o) == Strike(m, Pos(cell), o, range, cell.energy, p, sqrt);
      }
      StrikesTargetsIn(strike, Cube(range), cells);
      TargetsInAppend([SetEnergy(e, 0.0), AppendHeat(e, HeatReleased(cell.energy, p))], Strikes(strike, Cube(range)), cells);
    }
  }

  /** Strikes that each write only to existing cells write, together, only to existing cells. */
  lemma {:induction false} StrikesTargetsIn(strike: Int3 -> seq<Command>, os: seq<Int3>, cells: map<Entity, Cell>)
    requires forall o :: TargetsIn(strike(o), cells)
    ensures TargetsIn(Strikes(strike, os), cells)
    decreases |os|
  {
    if os != [] {
      StrikesTargetsIn(strike, os[..|os| - 1], cells);
      TargetsInAppend(Strikes(strike, os[..|os| - 1]), strike(os[|os| - 1]), cells);
    }
  }

  /** The job runs over live cells flagged to explode. */
  predicate InQuery(cells: map<Entity, Cell>, e: Entity)
  {
    e in cells && cells[e].isAlive && cells[e].shouldExplode
  }

  /** What the job records over the query in order `order`: the writes, then the calls, each concatenated in order. */
  function RecordExplosions(m: map<Int3, Entity>, cells: map<Entity, Cell>, p: ExplosionParams, sqrt: real -> real,
                            order: seq<Entity>): (r: Blast)
    requires IsSqrt(sqrt) && MapConsistent(m, cells)
    ensures TargetsIn(r.commands, cells)
  {
    if order == [] then Blast([], [])
    else
      var last := order[|order| - 1];
      var prev := RecordExplosions(m, cells, p, sqrt, order[..|order| - 1]);
      if InQuery(cells, last) then
        var b := Explode(m, last, cells[last], p, sqrt);
        ExplodeTargetsIn(m, cells, last, p, sqrt);
        TargetsInAppend(prev.commands, b.commands, cells);
        Blast(prev.commands + b.commands, prev.toNone + b.toNone)
      else prev
  }

  /** The exploding cells of `order`: in the query and with energy left. */
  predicate Detonates(cells: map<Entity, Cell>, e: Entity)
  {
    InQuery(cells, e) && cells[e].energy > 0.0
  }

  /**
    Exactly the cells of the query with energy left ask to be turned into
    `None`, each at its own coordinate; a flagged cell without energy is left
    as it is.
   */
  lemma {:induction false} ToNoneCover(m: map<Int3, Entity>, cells: map<Entity, Cell>, p: ExplosionParams, sqrt: real -> real,
                                       order: seq<Entity>)
    requires IsSqrt(sqrt) && MapConsistent(m, cells)
    ensures forall i | 0 <= i < |RecordExplosions(m, cells, p, sqrt, order).toNone| ::
      var call := RecordExplosions(m, cells, p, sqrt, order).toNone[i];
      call.cell in order && Detonates(cells, call.cell) && call.coordinate == Pos(cells[call.cell])
    ensures forall e | e in order && Detonates(cells, e) ::
      NoneCall(e, Pos(cells[e])) in RecordExplosions(m, cells, p, sqrt, order).toNone
    decreases |order|
  {
    if order != [] {
      var init := order[..|order| - 1];
      var last := order[|order| - 1];
      ToNoneCover(m, cells, p, sqrt, init);
      var prev := RecordExplosions(m, cells, p, sqrt, init).toNone;
      var calls := RecordExplosions(m, cells, p, sqrt, order).toNone;
      if InQuery(cells, last) {
        ExplodeShape(m, last, cells[last], p, sqrt);
        var own := Explode(m, last, cells[last], p, sqrt).toNone;
        assert calls == prev + own;
        forall i | 0 <= i < |calls|
          ensures calls[i].cell in order && Detonates(cells, calls[i].cell) && calls[i].coordinate == Pos(cells[calls[i].cell])
        {
          if i < |prev| {
            assert calls[i] == prev[i];
          } else {
            assert calls[i] == own[i - |prev|];
          }
        }
      } else {
        forall i | 0 <= i < |calls| ensures calls[i].cell in order {
        }
      }
    }
  }

  /** `ExplosionJob` over the query in order `order`. */
  method RecordExplosionJob(m: map<Int3, Entity>, cells: map<Entity, Cell>, p: ExplosionParams, sqrt: real -> real,
                            order: seq<Entity>) returns (b: Blast)
    requires IsSqrt(sqrt) && MapConsistent(m, cells)
    ensures b == RecordExplosions(m, cells, p, sqrt, order)
  {
    b := Blast([], []);
    for i := 0 to |order|
      invariant b == RecordExplosions(m, cells, p, sqrt, order[..i])
    {
      assert order[..i + 1][..i] == order[..i];
      var e := order[i];
      if e in cells && cells[e].isAlive && cells[e].shouldExplode {
        var one := ExplosionJob(m, e, cells[e], p, sqrt);
        b := Blast(b.commands + one.commands, b.toNone + one.toNone);
      }
    }
    assert order[..|order|] == order;
  }

  /**
    `OnUpdate`: the job over the query in order `order` against the map as it
    stands, then playback of its buffer. The calls to `SetCellTypeToNone` are
    returned in order.
   */
  method ExplosionUpdate(w: World, order: seq<Entity>, p: ExplosionParams, sqrt: real -> real) returns (calls: seq<NoneCall>)
    requires w.Valid() && IsSqrt(sqrt)
    modifies w`cells
    ensures w.Valid()
    ensures w.cells == Playback(old(w.cells), RecordExplosions(w.cellMap, old(w.cells), p, sqrt, order).commands)
    ensures calls == RecordExplosions(w.cellMap, old(w.cells), p, sqrt, order).toNone
  {
    var b := RecordExplosionJob(w.cellMap, w.cells, p, sqrt, order);
    PlaybackKeepsMap(w.cellMap, w.cells, b.commands);
    w.cells := Playback(w.cells, b.commands);
    calls := b.toNone;
  }
}
